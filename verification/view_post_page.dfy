/** The page that shows one post with its replies: its title names the
    post's (shortened) text and author, and its context holds the post and
    the raw flag. */
module ViewPostPage {
  import opened Wrappers
  import opened Data
  import opened Web

  const MaxTitleText: nat := 20
  const Ellipsis: char := '…'

  /** What `handleRequest` puts into the template context. */
  datatype Context = Context(post: Option<Post>, raw: bool)

  /** The post named by the `post` parameter, if there is one and it is known. */
  function RequestedPost(store: Store, request: Request): (r: Option<Post>)
    ensures r.Some? <==> "post" in request.params && request.params["post"] in store.posts
    ensures r.Some? ==> r.value == store.posts[request.params["post"]]
  {
    match Parameter(request, "post")
    case None => None
    case Some(id) => Lookup(store.posts, id)
  }

  /** The post text as the title shows it: at most 20 characters, and an
      ellipsis after the first 20 when the text is longer. */
  function ShortText(text: string): (r: string)
    ensures |text| <= MaxTitleText ==> r == text
    ensures |text| > MaxTitleText ==> |r| == MaxTitleText + 1 && r[..MaxTitleText] == text[..MaxTitleText] && r[MaxTitleText] == Ellipsis
    ensures |r| <= MaxTitleText + 1
  {
    if |text| > MaxTitleText then text[..MaxTitleText] + [Ellipsis] else text
  }

  /** `getPageTitle`: "<short text> - <nice name> - <base title>" for a known
      post, the base title alone otherwise. */
  function PageTitle(store: Store, request: Request, baseTitle: string): (r: string)
    ensures RequestedPost(store, request).None? ==> r == baseTitle
    ensures |r| >= |baseTitle| && r[|r| - |baseTitle|..] == baseTitle
    ensures RequestedPost(store, request).Some? ==>
      var p := RequestedPost(store, request).value;
      r == ShortText(p.text) + " - " + p.sone.niceName + " - " + baseTitle
  {
    match RequestedPost(store, request)
    case None => baseTitle
    case Some(p) => ShortText(p.text) + " - " + p.sone.niceName + " - " + baseTitle
  }

  /** `handleRequest`: the requested post, and `raw` exactly when the
      parameter is the text "true". */
  function HandleRequest(store: Store, request: Request): (r: Context)
    ensures r.post == RequestedPost(store, request)
    ensures r.raw <==> "raw" in request.params && request.params["raw"] == "true"
  {
    Context(RequestedPost(store, request), Parameter(request, "raw") == Some("true"))
  }

  /** The shortened text keeps the text's beginning: a text of up to 20
      characters is its own title text, and a longer one is recognisable by
      its first 20 characters; shortening twice is shortening once. */
  lemma ShortTextKeepsPrefix(text: string)
    ensures var n := if |text| <= MaxTitleText then |text| else MaxTitleText;
            ShortText(text)[..n] == text[..n]
    ensures ShortText(ShortText(text)) == ShortText(text)
  {
  }
}
