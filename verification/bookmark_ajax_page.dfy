/** The AJAX pages that bookmark and unbookmark a post, named by the `post`
    parameter. */
module BookmarkAjaxPage {
  import opened Wrappers
  import opened Data
  import opened Web
  import opened Ajax

  const RequiresLogin: bool := false

  /** `parameters["post"].emptyToNull`: the post id, unless missing or empty. */
  function PostId(request: Request): (r: Option<string>)
    ensures r.Some? <==> Parameter(request, "post").Some? && Parameter(request, "post").value != ""
    ensures r.Some? ==> r == Parameter(request, "post")
  {
    match Parameter(request, "post")
    case Some(id) => if id == "" then None else Some(id)
    case None => None
  }

  /** `bookmark.ajax`. */
  function Bookmark(store: Store, request: Request): (r: (Store, Answer))
    ensures PostId(request).None? ==> r == (store, Error("invalid-post-id"))
    ensures PostId(request).Some? ==> r.1 == Success
    // only the bookmarks change, and only by the post the id names
    ensures r.0 == store.(bookmarks := r.0.bookmarks)
    ensures (PostId(request).Some? && PostId(request).value in store.posts)
            ==> r.0.bookmarks == store.bookmarks + {store.posts[PostId(request).value].id}
    ensures !(PostId(request).Some? && PostId(request).value in store.posts) ==> r.0 == store
  {
    match PostId(request)
    case None => (store, Error("invalid-post-id"))
    case Some(id) =>
      if id in store.posts then (store.(bookmarks := store.bookmarks + {store.posts[id].id}), Success)
      else (store, Success)
  }

  /** `unbookmark.ajax`, with the behaviour its tests fix. */
  function Unbookmark(store: Store, request: Request): (r: (Store, Answer))
    ensures PostId(request).None? ==> r == (store, Error("invalid-post-id"))
    ensures PostId(request).Some? ==> r.1 == Success
    ensures r.0 == store.(bookmarks := r.0.bookmarks)
    ensures (PostId(request).Some? && PostId(request).value in store.posts)
            ==> r.0.bookmarks == store.bookmarks - {store.posts[PostId(request).value].id}
    ensures !(PostId(request).Some? && PostId(request).value in store.posts) ==> r.0 == store
  {
    match PostId(request)
    case None => (store, Error("invalid-post-id"))
    case Some(id) =>
      if id in store.posts then (store.(bookmarks := store.bookmarks - {store.posts[id].id}), Success)
      else (store, Success)
  }

  /** Bookmarking a post that was not bookmarked and then unbookmarking it
      restores the store. */
  lemma UnbookmarkUndoesBookmark(store: Store, request: Request)
    requires PostId(request).Some? && PostId(request).value in store.posts
    requires store.posts[PostId(request).value].id !in store.bookmarks
    ensures Unbookmark(Bookmark(store, request).0, request).0 == store
  {
    var after := Bookmark(store, request).0;
    assert after.bookmarks - {store.posts[PostId(request).value].id} == store.bookmarks;
  }

  /** Bookmarking is idempotent. */
  lemma BookmarkTwiceIsBookmarkOnce(store: Store, request: Request)
    ensures Bookmark(Bookmark(store, request).0, request) == Bookmark(store, request)
  {
  }

  /** After a successful bookmark of a known post, the post is bookmarked. */
  lemma BookmarkedAfterBookmark(store: Store, request: Request)
    requires PostId(request).Some? && PostId(request).value in store.posts
    ensures Bookmark(store, request).1 == Success
    ensures store.posts[PostId(request).value].id in Bookmark(store, request).0.bookmarks
    ensures store.posts[PostId(request).value].id !in Unbookmark(store, request).0.bookmarks
  {
  }
}
