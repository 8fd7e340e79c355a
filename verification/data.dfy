/** The Sone data the pages, AJAX handlers and notification handlers work
    on, and the store that stands for the core and the web interface. */
module Data {
  import opened Wrappers
  import opened Numbers

  /** `niceName` is what `SoneAccessor.getNiceName` shows for the Sone. */
  datatype Sone = Sone(id: string, niceName: string, isLocal: bool)

  datatype Post = Post(id: string, sone: Sone, time: Long, text: string)

  /** `post` is the reply's post, which may not be known (yet). */
  datatype PostReply = PostReply(id: string, sone: Sone, post: Option<Post>)

  /** `isEmpty` is the album's own verdict: no images and no sub-albums. */
  datatype Album = Album(id: string, title: string, isEmpty: bool)

  datatype Image = Image(id: string)

  datatype Field = Field(id: string, name: string, value: string)

  datatype Notification = Notification(id: string, dismissable: bool)

  /** The things a "mark as known" call of the core was made for. */
  datatype Mark = SoneKnown(sone: Sone) | PostKnown(post: Post) | ReplyKnown(reply: PostReply)

  /** The state the core and the web interface expose to the pages.
      `marks` lists the `markSoneKnown`/`markPostKnown`/`markReplyKnown`
      calls in order; `follows` holds (follower id, followed id) pairs;
      `profiles` maps a Sone id to its profile fields; `touches` counts
      `touchConfiguration` calls. */
  datatype Store = Store(
    sones: map<string, Sone>,
    posts: map<string, Post>,
    replies: map<string, PostReply>,
    albums: map<string, Album>,
    images: map<string, Image>,
    soneAlbums: map<string, seq<Album>>,
    bookmarks: set<string>,
    follows: set<(string, string)>,
    marks: seq<Mark>,
    profiles: map<string, seq<Field>>,
    likedPostIds: map<string, set<string>>,
    notifications: map<string, Notification>,
    dismissed: set<string>,
    touches: nat)

  /** The profile fields of a Sone; a Sone without a stored profile has none. */
  function ProfileOf(store: Store, soneId: string): seq<Field> {
    if soneId in store.profiles then store.profiles[soneId] else []
  }

  /** The ids of the posts a Sone likes. */
  function LikedPostIdsOf(store: Store, soneId: string): set<string> {
    if soneId in store.likedPostIds then store.likedPostIds[soneId] else {}
  }

  /** `getLikes(post)`: the ids of the known Sones that like the post. */
  function Likes(store: Store, postId: string): (r: set<string>)
    ensures forall id :: id in r <==> id in store.sones && postId in LikedPostIdsOf(store, id)
  {
    set id | id in store.sones && postId in LikedPostIdsOf(store, id)
  }
}
