/** The page of new posts: the current Sone's new posts and the posts of
    its new replies, without duplicates, newest first, one page at a time.
    Pagination itself is abstract: the result names the page size and the
    requested page index. */
module NewPage {
  import opened Wrappers
  import opened Numbers
  import opened Data
  import opened Web
  import Ordering

  datatype Listing = Listing(posts: seq<Post>, pageSize: int, page: int)

  /** `sortedByDescending { it.time }`: a post may come before another that is not newer. */
  predicate NewerFirst(a: Post, b: Post) {
    a.time >= b.time
  }

  lemma NewerFirstIsTotalPreorder()
    ensures Ordering.TotalPreorder(NewerFirst)
  {
  }

  predicate NoDuplicates<T(==)>(s: seq<T>) {
    forall i, j :: 0 <= i < j < |s| ==> s[i] != s[j]
  }

  /** `mapPresent { it.post }`: the known posts of the replies, in order. */
  function PostsOfReplies(replies: seq<PostReply>): (r: seq<Post>)
    ensures |r| <= |replies|
    ensures forall p :: p in r <==> exists i :: 0 <= i < |replies| && replies[i].post == Some(p)
    decreases |replies|
  {
    if |replies| == 0 then []
    else
      var rest := PostsOfReplies(replies[1..]);
      assert forall i :: 0 < i < |replies| ==> replies[i] == replies[1..][i - 1];
      match replies[0].post
      case Some(p) => [p] + rest
      case None => rest
  }

  /** Where `x` first occurs in `s`. */
  function FirstIndex<T(==)>(s: seq<T>, x: T): (k: nat)
    requires x in s
    ensures k < |s| && s[k] == x && x !in s[..k]
    decreases |s|
  {
    if s[0] == x then 0
    else
      var k := FirstIndex(s[1..], x);
      assert s[..k + 1] == [s[0]] + s[1..][..k];
      k + 1
  }

  /** Appending keeps the first occurrences of what was already there, and
      a new element first occurs at the end. */
  lemma FirstIndexAppend<T>(s: seq<T>, y: T, x: T)
    requires x in s + [y]
    ensures x in s ==> FirstIndex(s + [y], x) == FirstIndex(s, x)
    ensures x !in s ==> FirstIndex(s + [y], x) == |s|
  {
    var k := FirstIndex(s + [y], x);
    if x in s {
      var j := FirstIndex(s, x);
      assert (s + [y])[j] == x;
    }
  }

  /** A single reply gives its post when that is present, and nothing otherwise. */
  lemma PostsOfOneReply(reply: PostReply)
    ensures PostsOfReplies([reply]) == if reply.post.Some? then [reply.post.value] else []
  {
    assert [reply][1..] == [];
  }

  /** `mapPresent` works reply by reply: the posts of a concatenation are the
      posts of the first part followed by those of the second, so the order
      of the replies is kept and every reply with a present post gives one. */
  lemma {:induction false} PostsOfRepliesAppend(a: seq<PostReply>, b: seq<PostReply>)
    ensures PostsOfReplies(a + b) == PostsOfReplies(a) + PostsOfReplies(b)
    decreases |a|
  {
    if |a| > 0 {
      assert (a + b)[0] == a[0];
      assert (a + b)[1..] == a[1..] + b;
      PostsOfRepliesAppend(a[1..], b);
    } else {
      assert a + b == b;
    }
  }

  /** `distinct()`: the first occurrence of every element, in order. */
  function Distinct<T(==,!new)>(s: seq<T>): (r: seq<T>)
    ensures NoDuplicates(r)
    ensures forall x :: x in r <==> x in s
    ensures |r| <= |s|
    // ordered by where the elements first occur in s
    ensures forall i, j :: 0 <= i < j < |r| ==> FirstIndex(s, r[i]) < FirstIndex(s, r[j])
    decreases |s|
  {
    if |s| == 0 then []
    else
      var init := s[..|s| - 1];
      var last := s[|s| - 1];
      var d := Distinct(init);
      assert s == init + [last];
      forall x | x in init
        ensures FirstIndex(s, x) == FirstIndex(init, x)
      {
        FirstIndexAppend(init, last, x);
      }
      if last in d then d
      else
        FirstIndexAppend(init, last, last);
        d + [last]
  }

  /** The posts the page lists before pagination. */
  function Candidates(newPosts: seq<Post>, newReplies: seq<PostReply>): (r: seq<Post>)
    // the new posts first, in their order
    ensures |newPosts| <= |r| && r[..|newPosts|] == newPosts
    // then the posts of the new replies
    ensures r[|newPosts|..] == PostsOfReplies(newReplies)
    ensures forall p :: p in r <==> p in newPosts || exists i :: 0 <= i < |newReplies| && newReplies[i].post == Some(p)
  {
    newPosts + PostsOfReplies(newReplies)
  }

  /** `handleRequest`. */
  function HandleRequest(newPosts: seq<Post>, newReplies: seq<PostReply>, postsPerPage: int, request: Request): (r: Listing)
    // exactly the new posts and the known posts of the new replies
    ensures forall p :: p in r.posts <==> p in newPosts || exists i :: 0 <= i < |newReplies| && newReplies[i].post == Some(p)
    // each of them once
    ensures NoDuplicates(r.posts)
    // newest first
    ensures forall i, j :: 0 <= i < j < |r.posts| ==> r.posts[i].time >= r.posts[j].time
    // page size from the preference, page index from the parameter (0 if missing or not a number)
    ensures r.pageSize == postsPerPage
    ensures r.page == PageIndex(Parameter(request, "page"))
  {
    var candidates := Candidates(newPosts, newReplies);
    var distinct := Distinct(candidates);
    var sorted := Ordering.Sort(NewerFirst, distinct);
    NewerFirstIsTotalPreorder();
    Ordering.SortIsSorted(NewerFirst, distinct);
    SamePermutationSameElements(distinct, sorted);
    Listing(sorted, postsPerPage, PageIndex(Parameter(request, "page")))
  }

  lemma SamePermutationSameElements<T>(a: seq<T>, b: seq<T>)
    requires multiset(a) == multiset(b)
    ensures forall x :: x in a <==> x in b
    ensures NoDuplicates(a) ==> NoDuplicates(b)
  {
    assert forall x :: x in a <==> x in multiset(a);
    assert forall x :: x in b <==> x in multiset(b);
    if NoDuplicates(a) && !NoDuplicates(b) {
      var i, j :| 0 <= i < j < |b| && b[i] == b[j];
      MultiplicityOfRepeat(b, i, j);
      DistinctMultiplicity(a, b[i]);
      assert false;
    }
  }

  lemma MultiplicityOfRepeat<T>(s: seq<T>, i: int, j: int)
    requires 0 <= i < j < |s| && s[i] == s[j]
    ensures multiset(s)[s[i]] >= 2
  {
    assert s == s[..i] + [s[i]] + s[i + 1..j] + [s[j]] + s[j + 1..];
  }

  lemma {:induction false} DistinctMultiplicity<T>(s: seq<T>, x: T)
    requires NoDuplicates(s)
    ensures multiset(s)[x] <= 1
    decreases |s|
  {
    if |s| > 0 {
      assert s == [s[0]] + s[1..];
      DistinctMultiplicity(s[1..], x);
      if s[0] == x {
        assert x !in s[1..];
      }
    }
  }

  /** The listing is the stable sort of the distinct candidates: posts of the
      same time keep the order in which they first appear among the new
      posts and then the new replies. */
  lemma ListingIsStableSortOfDistinct(newPosts: seq<Post>, newReplies: seq<PostReply>, postsPerPage: int, request: Request, key: Post)
    ensures var r := HandleRequest(newPosts, newReplies, postsPerPage, request);
            var distinct := Distinct(Candidates(newPosts, newReplies));
            && multiset(r.posts) == multiset(distinct)
            && Ordering.Ties(NewerFirst, r.posts, key) == Ordering.Ties(NewerFirst, distinct, key)
  {
    NewerFirstIsTotalPreorder();
    Ordering.SortIsStable(NewerFirst, Distinct(Candidates(newPosts, newReplies)), key);
  }
}
