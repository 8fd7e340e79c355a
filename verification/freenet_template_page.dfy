/** The request handling every template page shares: a page redirect comes
    first, then the full-access check, then the form password of POST
    requests; only then is the page's own processing run, which may end in
    a redirect. Page-maker, style-sheet and template rendering are not
    modelled: processing is an input that either completed or threw a
    `RedirectException`. */
module FreenetTemplatePage {
  import opened Wrappers
  import opened Web

  const FormPasswordLimit: nat := 32

  /** The overridable flags of a page. */
  datatype PageSettings = PageSettings(fullAccessOnly: bool, prefixPage: bool, linkExcepted: bool)

  /** How the page's own processing ended. */
  datatype Processed = Completed | RedirectThrown(target: Option<string>)

  datatype Response = Redirect(target: string) | Status(code: int, text: string, contentType: string)

  /** The flags of a page that overrides nothing. */
  const Defaults: PageSettings := PageSettings(false, false, false)

  /** `getRedirectTarget` of a page that does not override it. */
  function DefaultRedirectTarget(request: Request): Option<string> {
    None
  }

  /** `isEnabled`: a page is offered unless it is for full access only. */
  function IsEnabled(page: PageSettings): (r: bool)
    ensures r <==> !page.fullAccessOnly
  {
    !page.fullAccessOnly
  }

  /** The checks that run before the page's processing; `None` lets the request through. */
  function Guard(page: PageSettings, redirectTarget: Option<string>, request: Request,
                 containerPassword: string, invalidPasswordTarget: string): (r: Option<Response>)
    ensures r.None? <==>
      && redirectTarget.None?
      && (page.fullAccessOnly ==> request.fullAccess)
      && (request.verb == PostMethod ==> PartFailsafe(request, "formPassword", FormPasswordLimit) == containerPassword)
  {
    if redirectTarget.Some? then Some(Redirect(redirectTarget.value))
    else if page.fullAccessOnly && !request.fullAccess then Some(Status(401, "Not authorized", "text/html"))
    else if request.verb == PostMethod && PartFailsafe(request, "formPassword", FormPasswordLimit) != containerPassword then
      Some(Redirect(invalidPasswordTarget))
    else None
  }

  /** `handleRequest`. */
  function HandleRequest(page: PageSettings, redirectTarget: Option<string>, request: Request,
                         containerPassword: string, invalidPasswordTarget: string, processed: Processed): (r: Response)
    // a page redirect wins over every other check
    ensures redirectTarget.Some? ==> r == Redirect(redirectTarget.value)
    // then the full-access check
    ensures redirectTarget.None? && page.fullAccessOnly && !request.fullAccess ==> r == Status(401, "Not authorized", "text/html")
    // then the form password, for POST requests only
    ensures (&& redirectTarget.None? && (page.fullAccessOnly ==> request.fullAccess) && request.verb == PostMethod
             && PartFailsafe(request, "formPassword", FormPasswordLimit) != containerPassword) ==> r == Redirect(invalidPasswordTarget)
    // a redirect thrown while processing goes to its target, or to "" without one
    ensures Guard(page, redirectTarget, request, containerPassword, invalidPasswordTarget).None? && processed.RedirectThrown? ==>
            r == Redirect(processed.target.GetOr(""))
    // the page is shown exactly when every check passed and processing completed
    ensures r == Status(200, "OK", "text/html") <==>
            Guard(page, redirectTarget, request, containerPassword, invalidPasswordTarget).None? && processed == Completed
  {
    match Guard(page, redirectTarget, request, containerPassword, invalidPasswordTarget)
    case Some(response) => response
    case None =>
      match processed
      case RedirectThrown(target) => Redirect(target.GetOr(""))
      case Completed => Status(200, "OK", "text/html")
  }

  /** A page that overrides nothing is enabled, is not a prefix page, excepts
      no links and never redirects up front. */
  lemma DefaultsAreOpen(request: Request)
    ensures IsEnabled(Defaults) && !Defaults.prefixPage && !Defaults.linkExcepted
    ensures DefaultRedirectTarget(request).None?
  {
  }

  /** When a guard answers, the page's processing has no say in the response. */
  lemma GuardedRequestIgnoresProcessing(page: PageSettings, redirectTarget: Option<string>, request: Request,
                                        containerPassword: string, invalidPasswordTarget: string, p1: Processed, p2: Processed)
    requires Guard(page, redirectTarget, request, containerPassword, invalidPasswordTarget).Some?
    ensures HandleRequest(page, redirectTarget, request, containerPassword, invalidPasswordTarget, p1)
         == HandleRequest(page, redirectTarget, request, containerPassword, invalidPasswordTarget, p2)
  {
  }

  /** Requests other than POST are never checked for a form password: any
      form parts give the same response. */
  lemma OnlyPostNeedsFormPassword(page: PageSettings, redirectTarget: Option<string>, request: Request, parts: map<string, string>,
                                  containerPassword: string, invalidPasswordTarget: string, processed: Processed)
    requires request.verb != PostMethod
    ensures HandleRequest(page, redirectTarget, request, containerPassword, invalidPasswordTarget, processed)
         == HandleRequest(page, redirectTarget, request.(parts := parts), containerPassword, invalidPasswordTarget, processed)
  {
  }
}
