/** The FCP command with which a local Sone likes a post, as its tests fix
    it: the `Post` and `Sone` parameters name the post and the liking Sone. */
module LikePostCommand {
  import opened Wrappers
  import opened Numbers
  import opened Data

  const RequiresWriteAccess: bool := true

  /** What `execute` gives: the reply's parameters, or an `FcpException`. */
  datatype Reply = Replied(parameters: map<string, string>) | FcpException

  /** Every Sone is stored under its own id. */
  ghost predicate WellKeyed(store: Store) {
    forall id :: id in store.sones ==> store.sones[id].id == id
  }

  /** The Sone that may like: named, known and local. */
  function Liker(store: Store, parameters: map<string, string>): (r: Option<Sone>)
    ensures r.Some? <==> "Sone" in parameters && parameters["Sone"] in store.sones && store.sones[parameters["Sone"]].isLocal
    ensures r.Some? ==> r.value == store.sones[parameters["Sone"]]
  {
    match Lookup(parameters, "Sone")
    case None => None
    case Some(id) =>
      match Lookup(store.sones, id)
      case None => None
      case Some(sone) => if sone.isLocal then Some(sone) else None
  }

  /** `execute(parameters)`. */
  function Execute(store: Store, parameters: map<string, string>): (r: (Store, Reply))
    // a missing or unknown post, or a missing, unknown or remote Sone, is an error and changes nothing
    ensures ("Post" !in parameters || parameters["Post"] !in store.posts || Liker(store, parameters).None?)
            ==> r == (store, FcpException)
    ensures ("Post" in parameters && parameters["Post"] in store.posts && Liker(store, parameters).Some?) ==>
      var post := store.posts[parameters["Post"]];
      var sone := Liker(store, parameters).value;
      // the post is added to the Sone's liked posts and nothing else changes
      && r.0 == store.(likedPostIds := store.likedPostIds[sone.id := LikedPostIdsOf(store, sone.id) + {post.id}])
      && r.1.Replied?
      && r.1.parameters.Keys == {"Message", "LikeCount"}
      && r.1.parameters["Message"] == "PostLiked"
      // the count is that of the likes after this one
      && AllDigits(r.1.parameters["LikeCount"])
      && DigitsValue(r.1.parameters["LikeCount"]) == |Likes(r.0, post.id)|
  {
    match Lookup(parameters, "Post")
    case None => (store, FcpException)
    case Some(postId) =>
      match Lookup(store.posts, postId)
      case None => (store, FcpException)
      case Some(post) =>
        match Liker(store, parameters)
        case None => (store, FcpException)
        case Some(sone) =>
          var after := store.(likedPostIds := store.likedPostIds[sone.id := LikedPostIdsOf(store, sone.id) + {post.id}]);
          var count := |Likes(after, post.id)|;
          DecimalValue(count);
          (after, Replied(map["Message" := "PostLiked", "LikeCount" := Decimal(count)]))
  }

  /** In a store where Sones sit under their ids, a successful like adds
      exactly the liking Sone to the post's likes. */
  lemma LikeAddsTheLiker(store: Store, parameters: map<string, string>)
    requires WellKeyed(store)
    requires Execute(store, parameters).1.Replied?
    ensures var post := store.posts[parameters["Post"]];
            && Likes(Execute(store, parameters).0, post.id) == Likes(store, post.id) + {parameters["Sone"]}
            && parameters["Sone"] in Likes(Execute(store, parameters).0, post.id)
  {
    var post := store.posts[parameters["Post"]];
    var sone := Liker(store, parameters).value;
    var after := Execute(store, parameters).0;
    assert sone.id == parameters["Sone"];
    forall id | id in store.sones
      ensures post.id in LikedPostIdsOf(after, id) <==> post.id in LikedPostIdsOf(store, id) || id == sone.id
    {
    }
  }

  /** Liking a post again does not change the count. */
  lemma LikeIsIdempotent(store: Store, parameters: map<string, string>)
    requires Execute(store, parameters).1.Replied?
    ensures var (after, reply) := Execute(store, parameters);
            Execute(after, parameters) == (after, reply)
  {
    var post := store.posts[parameters["Post"]];
    var sone := Liker(store, parameters).value;
    var after := Execute(store, parameters).0;
    assert LikedPostIdsOf(after, sone.id) + {post.id} == LikedPostIdsOf(after, sone.id);
    assert after.likedPostIds[sone.id := LikedPostIdsOf(after, sone.id) + {post.id}] == after.likedPostIds;
  }

  /** The like count of a first like by one Sone is one more than before. */
  lemma FirstLikeCountsOneMore(store: Store, parameters: map<string, string>)
    requires WellKeyed(store)
    requires Execute(store, parameters).1.Replied?
    requires parameters["Sone"] !in Likes(store, store.posts[parameters["Post"]].id)
    ensures DigitsValue(Execute(store, parameters).1.parameters["LikeCount"])
            == |Likes(store, store.posts[parameters["Post"]].id)| + 1
  {
    LikeAddsTheLiker(store, parameters);
  }
}
