/** The page that deletes one of the user's own posts: a POST deletes the
    post after confirmation, or goes back on abort; a GET and an unconfirmed
    POST show the confirmation form. Redirects are the page's
    `RedirectException`s, which the template page turns into responses. */
module DeletePostPage {
  import opened Wrappers
  import opened Data
  import opened Web
  import Template = FreenetTemplatePage

  const PostIdLimit: nat := 36
  const ReturnPageLimit: nat := 256
  const NoPermission: string := "noPermission.html"

  /** The form is shown with the post and the return page, or a redirect is thrown. */
  datatype Outcome = ShowForm(post: Post, returnPage: string) | RedirectTo(target: string)

  /** `handleRequest`: the store after the request, and the outcome. */
  function HandleRequest(store: Store, request: Request): (r: (Store, Outcome))
    // the only change a request can make is the deletion of a local Sone's post after confirmation
    ensures r.0 != store ==>
      && request.verb == PostMethod && IsPartSet(request, "confirmDelete")
      && var id := PartFailsafe(request, "post", PostIdLimit);
         id in store.posts && store.posts[id].sone.isLocal
         && r.0 == store.(posts := store.posts - {store.posts[id].id})
    // an unknown post, or a post of another Sone on POST, means no permission
    ensures (&& request.verb == PostMethod
             && (|| PartFailsafe(request, "post", PostIdLimit) !in store.posts
                 || !store.posts[PartFailsafe(request, "post", PostIdLimit)].sone.isLocal)) ==> r == (store, RedirectTo(NoPermission))
    ensures request.verb != PostMethod && GetParam(request, "post") !in store.posts ==> r == (store, RedirectTo(NoPermission))
    // a local post on POST: confirm deletes and returns, abort only returns, neither shows the form
    ensures (&& request.verb == PostMethod && PartFailsafe(request, "post", PostIdLimit) in store.posts
             && store.posts[PartFailsafe(request, "post", PostIdLimit)].sone.isLocal) ==>
      var post := store.posts[PartFailsafe(request, "post", PostIdLimit)];
      var returnPage := PartFailsafe(request, "returnPage", ReturnPageLimit);
      && (IsPartSet(request, "confirmDelete") ==> r.1 == RedirectTo(returnPage) && post.id !in r.0.posts)
      && (!IsPartSet(request, "confirmDelete") && IsPartSet(request, "abortDelete") ==> r == (store, RedirectTo(returnPage)))
      && (!IsPartSet(request, "confirmDelete") && !IsPartSet(request, "abortDelete") ==> r == (store, ShowForm(post, returnPage)))
    // a GET of a known post shows the form, whoever wrote the post
    ensures request.verb != PostMethod && GetParam(request, "post") in store.posts ==>
      r == (store, ShowForm(store.posts[GetParam(request, "post")], GetParam(request, "returnPage")))
  {
    if request.verb == PostMethod then
      match Lookup(store.posts, PartFailsafe(request, "post", PostIdLimit))
      case None => (store, RedirectTo(NoPermission))
      case Some(post) =>
        var returnPage := PartFailsafe(request, "returnPage", ReturnPageLimit);
        if !post.sone.isLocal then (store, RedirectTo(NoPermission))
        else if IsPartSet(request, "confirmDelete") then
          (store.(posts := store.posts - {post.id}), RedirectTo(returnPage))
        else if IsPartSet(request, "abortDelete") then (store, RedirectTo(returnPage))
        else (store, ShowForm(post, returnPage))
    else
      match Lookup(store.posts, GetParam(request, "post"))
      case None => (store, RedirectTo(NoPermission))
      case Some(post) => (store, ShowForm(post, GetParam(request, "returnPage")))
  }

  /** The page served through the template page's checks: the page's own
      handling runs only when no check answered first. */
  function Serve(store: Store, request: Request, containerPassword: string, invalidPasswordTarget: string): (r: (Store, Template.Response))
    ensures Template.Guard(Template.Defaults, None, request, containerPassword, invalidPasswordTarget).Some? ==> r.0 == store
    ensures r.0 != store ==> r.1 == Template.Redirect(PartFailsafe(request, "returnPage", ReturnPageLimit))
  {
    var guard := Template.Guard(Template.Defaults, None, request, containerPassword, invalidPasswordTarget);
    if guard.Some? then (store, guard.value)
    else
      var (store', outcome) := HandleRequest(store, request);
      var processed := match outcome
        case ShowForm(_, _) => Template.Completed
        case RedirectTo(target) => Template.RedirectThrown(Some(target));
      (store', Template.HandleRequest(Template.Defaults, None, request, containerPassword, invalidPasswordTarget, processed))
  }

  /** Deleting needs a POST carrying the right form password: a forged POST
      redirects to the invalid-password target and deletes nothing. */
  lemma ForgedPostDeletesNothing(store: Store, request: Request, containerPassword: string, invalidPasswordTarget: string)
    requires request.verb == PostMethod
    requires PartFailsafe(request, "formPassword", Template.FormPasswordLimit) != containerPassword
    ensures Serve(store, request, containerPassword, invalidPasswordTarget) == (store, Template.Redirect(invalidPasswordTarget))
  {
  }

  /** A confirmed POST with the right password for a local post deletes exactly
      that post (the core deletes a post by its id) and redirects to the return page. */
  lemma ConfirmedDeleteRedirectsToReturnPage(store: Store, request: Request, containerPassword: string, invalidPasswordTarget: string)
    requires request.verb == PostMethod && IsPartSet(request, "confirmDelete")
    requires PartFailsafe(request, "formPassword", Template.FormPasswordLimit) == containerPassword
    requires PartFailsafe(request, "post", PostIdLimit) in store.posts
    requires store.posts[PartFailsafe(request, "post", PostIdLimit)].sone.isLocal
    ensures var id := PartFailsafe(request, "post", PostIdLimit);
            Serve(store, request, containerPassword, invalidPasswordTarget)
              == (store.(posts := store.posts - {store.posts[id].id}), Template.Redirect(PartFailsafe(request, "returnPage", ReturnPageLimit)))
  {
  }
}
