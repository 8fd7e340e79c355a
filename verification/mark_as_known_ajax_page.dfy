/** The AJAX page that marks Sones, posts or replies as known. The `type`
    parameter picks the kind; the `id` parameter lists ids separated by
    runs of spaces; every id that resolves is marked, once per occurrence. */
module MarkAsKnownAjaxPage {
  import opened Wrappers
  import opened Data
  import opened Web
  import opened Ajax

  const RequiresLogin: bool := false

  /** Drops the leading spaces of `s`. */
  function SkipSpaces(s: string): (r: string)
    ensures |r| <= |s| && r == s[|s| - |r|..]
    ensures |r| > 0 ==> r[0] != ' '
    ensures forall i :: 0 <= i < |s| - |r| ==> s[i] == ' '
    decreases |s|
  {
    if |s| > 0 && s[0] == ' ' then SkipSpaces(s[1..]) else s
  }

  /** Kotlin's `split(Regex(" +"))`: the pieces between maximal runs of
      spaces, keeping the empty piece before a leading run and after a
      trailing run (and a single empty piece for the empty string). */
  function Split(s: string): (r: seq<string>)
    ensures |r| >= 1
    ensures forall i :: 0 <= i < |r| ==> ' ' !in r[i]
    decreases |s|
  {
    if |s| == 0 then [""]
    else if s[0] == ' ' then [""] + Split(SkipSpaces(s))
    else
      var rest := Split(s[1..]);
      [[s[0]] + rest[0]] + rest[1..]
  }

  /** The non-space characters of `s`, in order. */
  function NonSpace(s: string): string
    decreases |s|
  {
    if |s| == 0 then "" else (if s[0] == ' ' then "" else [s[0]]) + NonSpace(s[1..])
  }

  function Concat(parts: seq<string>): string
    decreases |parts|
  {
    if |parts| == 0 then "" else parts[0] + Concat(parts[1..])
  }

  /** Ids joined by single spaces, as a client sends them. */
  function JoinWithSpaces(parts: seq<string>): string
    requires |parts| >= 1
    decreases |parts|
  {
    if |parts| == 1 then parts[0] else parts[0] + " " + JoinWithSpaces(parts[1..])
  }

  lemma {:induction false} NonSpaceOfSkipped(s: string)
    ensures NonSpace(SkipSpaces(s)) == NonSpace(s)
    decreases |s|
  {
    if |s| > 0 && s[0] == ' ' {
      NonSpaceOfSkipped(s[1..]);
    }
  }

  /** Splitting loses nothing but the spaces. */
  lemma {:induction false} SplitKeepsNonSpace(s: string)
    ensures Concat(Split(s)) == NonSpace(s)
    decreases |s|
  {
    if |s| == 0 {
    } else if s[0] == ' ' {
      var rest := Split(SkipSpaces(s));
      SplitKeepsNonSpace(SkipSpaces(s));
      NonSpaceOfSkipped(s);
      assert Split(s) == [""] + rest;
      assert ([""] + rest)[1..] == rest;
      assert Concat(Split(s)) == "" + Concat(rest);
    } else {
      SplitKeepsNonSpace(s[1..]);
      var rest := Split(s[1..]);
      ConcatCons(rest);
      var r := [[s[0]] + rest[0]] + rest[1..];
      assert Split(s) == r;
      assert r[1..] == rest[1..];
      assert Concat(r) == ([s[0]] + rest[0]) + Concat(rest[1..]);
      assert NonSpace(s) == [s[0]] + NonSpace(s[1..]);
    }
  }

  lemma ConcatCons(parts: seq<string>)
    requires |parts| >= 1
    ensures Concat(parts) == parts[0] + Concat(parts[1..])
  {
  }

  /** A string without spaces is a single id. */
  lemma {:induction false} SplitWithoutSpaces(s: string)
    requires ' ' !in s
    ensures Split(s) == [s]
    decreases |s|
  {
    if |s| > 0 {
      assert s[0] != ' ' && ' ' !in s[1..];
      SplitWithoutSpaces(s[1..]);
      assert [s[0]] + s[1..] == s;
    }
  }

  lemma {:induction false} SplitPrefix(word: string, tail: string)
    requires ' ' !in word && |tail| > 0 && tail[0] == ' '
    ensures Split(word + tail) == [word] + Split(tail)[1..]
    decreases |word|
  {
    if |word| > 0 {
      assert (word + tail)[1..] == word[1..] + tail;
      assert ' ' !in word[1..] && (word + tail)[0] == word[0] != ' ';
      SplitPrefix(word[1..], tail);
      var rest := Split(word[1..] + tail);
      assert rest[0] == word[1..] && rest[1..] == Split(tail)[1..];
      assert [word[0]] + word[1..] == word;
    } else {
      assert word + tail == tail;
    }
  }

  /** A run of `n` spaces. */
  function Spaces(n: nat): (r: string)
    ensures |r| == n && forall i :: 0 <= i < n ==> r[i] == ' '
    decreases n
  {
    if n == 0 then "" else " " + Spaces(n - 1)
  }

  lemma {:induction false} SkipSpacesOfRun(n: nat, t: string)
    requires |t| == 0 || t[0] != ' '
    ensures SkipSpaces(Spaces(n) + t) == t
    decreases n
  {
    if n > 0 {
      var s := Spaces(n) + t;
      assert Spaces(n) == " " + Spaces(n - 1);
      assert s == " " + (Spaces(n - 1) + t);
      assert s[0] == ' ' && s[1..] == Spaces(n - 1) + t;
      assert SkipSpaces(s) == SkipSpaces(s[1..]);
      SkipSpacesOfRun(n - 1, t);
    } else {
      assert Spaces(n) + t == t;
    }
  }

  /** The separator is a whole run of spaces: however many spaces follow an
      id, they end that id and nothing else, so no empty id appears
      between two ids. */
  lemma SplitAtRun(w: string, n: nat, t: string)
    requires ' ' !in w && n >= 1 && (|t| == 0 || t[0] != ' ')
    ensures Split(w + Spaces(n) + t) == [w] + Split(t)
  {
    SplitBeforeRun(w, n, t);
    RunAssociates(w, n, t);
  }

  lemma SplitBeforeRun(w: string, n: nat, t: string)
    requires ' ' !in w && n >= 1 && (|t| == 0 || t[0] != ' ')
    ensures Split(w + (Spaces(n) + t)) == [w] + Split(t)
  {
    RunStartsWithSpace(n, t);
    SkipSpacesOfRun(n, t);
    SplitAfterWord(w, Spaces(n) + t);
  }

  lemma RunAssociates(w: string, n: nat, t: string)
    ensures w + Spaces(n) + t == w + (Spaces(n) + t)
  {
  }

  lemma RunStartsWithSpace(n: nat, t: string)
    requires n >= 1
    ensures |Spaces(n) + t| > 0 && (Spaces(n) + t)[0] == ' '
  {
    assert (Spaces(n) + t)[0] == Spaces(n)[0];
  }

  /** An id followed by spaces is a piece of its own, and splitting goes on after the spaces. */
  lemma SplitAfterWord(w: string, tail: string)
    requires ' ' !in w && |tail| > 0 && tail[0] == ' '
    ensures Split(w + tail) == [w] + Split(SkipSpaces(tail))
  {
    SplitPrefix(w, tail);
    SplitAtSpace(tail);
    var rest := Split(SkipSpaces(tail));
    assert ([""] + rest)[1..] == rest;
  }

  lemma SplitAtSpace(s: string)
    requires |s| > 0 && s[0] == ' '
    ensures Split(s) == [""] + Split(SkipSpaces(s))
  {
  }

  /** Ids joined by single spaces split back into the same ids. */
  lemma {:induction false} SplitJoinRoundTrip(parts: seq<string>)
    requires |parts| >= 1
    requires forall i :: 0 <= i < |parts| ==> |parts[i]| > 0 && ' ' !in parts[i]
    ensures Split(JoinWithSpaces(parts)) == parts
    decreases |parts|
  {
    if |parts| == 1 {
      SplitWithoutSpaces(parts[0]);
    } else {
      var tailJoined := JoinWithSpaces(parts[1..]);
      SplitJoinRoundTrip(parts[1..]);
      var tail := " " + tailJoined;
      assert parts[1] == parts[1..][0];
      JoinStartsWith(parts[1..]);
      assert SkipSpaces(tail) == tailJoined by {
        assert tail[1..] == tailJoined;
      }
      assert Split(tail) == [""] + parts[1..];
      SplitPrefix(parts[0], tail);
      assert JoinWithSpaces(parts) == parts[0] + tail;
    }
  }

  lemma {:induction false} JoinStartsWith(parts: seq<string>)
    requires |parts| >= 1 && |parts[0]| > 0 && parts[0][0] != ' '
    ensures |JoinWithSpaces(parts)| > 0 && JoinWithSpaces(parts)[0] == parts[0][0]
  {
  }

  /** `mapPresent(getter)`: what the ids resolve to, in order, skipping the
      ids that do not resolve. */
  function Resolve<T(==)>(ids: seq<string>, known: map<string, T>): (r: seq<T>)
    ensures |r| <= |ids|
    ensures (forall i :: 0 <= i < |ids| ==> ids[i] in known) ==> |r| == |ids|
    ensures forall i :: 0 <= i < |r| ==> r[i] in known.Values
    decreases |ids|
  {
    if |ids| == 0 then []
    else
      var rest := Resolve(ids[1..], known);
      if ids[0] in known then [known[ids[0]]] + rest else rest
  }

  /** A single id resolves to its thing when it is known, and to nothing otherwise. */
  lemma ResolveOne<T>(id: string, known: map<string, T>)
    ensures Resolve([id], known) == if id in known then [known[id]] else []
  {
    assert [id][1..] == [];
  }

  /** `mapPresent` works id by id: resolving a concatenation resolves each
      part, so every result belongs to its own id and the order is kept. */
  lemma {:induction false} ResolveAppend<T>(a: seq<string>, b: seq<string>, known: map<string, T>)
    ensures Resolve(a + b, known) == Resolve(a, known) + Resolve(b, known)
    decreases |a|
  {
    if |a| > 0 {
      assert (a + b)[0] == a[0];
      assert (a + b)[1..] == a[1..] + b;
      ResolveAppend(a[1..], b, known);
    } else {
      assert a + b == b;
    }
  }

  /** How many of the ids resolve. */
  function CountResolved<T>(ids: seq<string>, known: map<string, T>): nat
    decreases |ids|
  {
    if |ids| == 0 then 0 else (if ids[0] in known then 1 else 0) + CountResolved(ids[1..], known)
  }

  lemma {:induction false} ResolveCountsResolvedIds<T>(ids: seq<string>, known: map<string, T>)
    ensures |Resolve(ids, known)| == CountResolved(ids, known)
    decreases |ids|
  {
    if |ids| > 0 {
      ResolveCountsResolvedIds(ids[1..], known);
    }
  }

  /** The kinds of thing the page can mark. */
  datatype Kind = Sones | Posts | Replies

  /** The kind the `type` parameter names, if any. */
  function KindOf(typeParam: Option<string>): (k: Option<Kind>)
    ensures k == Some(Sones) <==> typeParam == Some("sone")
    ensures k == Some(Posts) <==> typeParam == Some("post")
    ensures k == Some(Replies) <==> typeParam == Some("reply")
  {
    if typeParam == Some("sone") then Some(Sones)
    else if typeParam == Some("post") then Some(Posts)
    else if typeParam == Some("reply") then Some(Replies)
    else None
  }

  /** The marks `processIds` makes for a kind of thing. */
  function MarksFor(store: Store, kind: Kind, ids: seq<string>): seq<Mark> {
    match kind
    case Sones => MarkAll(Resolve(ids, store.sones), s => SoneKnown(s))
    case Posts => MarkAll(Resolve(ids, store.posts), p => PostKnown(p))
    case Replies => MarkAll(Resolve(ids, store.replies), r => ReplyKnown(r))
  }

  function MarkAll<T>(things: seq<T>, mark: T -> Mark): (r: seq<Mark>)
    ensures |r| == |things|
    ensures forall i :: 0 <= i < |r| ==> r[i] == mark(things[i])
    decreases |things|
  {
    if |things| == 0 then [] else [mark(things[0])] + MarkAll(things[1..], mark)
  }

  /** The marks for "sone" appended to `before`: one per resolving id, in order. */
  lemma SoneMarks(store: Store, ids: seq<string>, before: seq<Mark>)
    ensures var after := before + MarksFor(store, Sones, ids);
            var things := Resolve(ids, store.sones);
            && |after| == |before| + |things| == |before| + CountResolved(ids, store.sones)
            && (forall i :: |before| <= i < |after| ==> after[i].SoneKnown? && after[i].sone in store.sones.Values)
            && forall i :: 0 <= i < |things| ==> after[|before| + i] == SoneKnown(things[i])
  {
    ResolveCountsResolvedIds(ids, store.sones);
  }

  /** The marks for "post" appended to `before`: one per resolving id, in order. */
  lemma PostMarks(store: Store, ids: seq<string>, before: seq<Mark>)
    ensures var after := before + MarksFor(store, Posts, ids);
            var things := Resolve(ids, store.posts);
            && |after| == |before| + |things| == |before| + CountResolved(ids, store.posts)
            && (forall i :: |before| <= i < |after| ==> after[i].PostKnown? && after[i].post in store.posts.Values)
            && forall i :: 0 <= i < |things| ==> after[|before| + i] == PostKnown(things[i])
  {
    ResolveCountsResolvedIds(ids, store.posts);
  }

  /** The marks for "reply" appended to `before`: one per resolving id, in order. */
  lemma ReplyMarks(store: Store, ids: seq<string>, before: seq<Mark>)
    ensures var after := before + MarksFor(store, Replies, ids);
            var things := Resolve(ids, store.replies);
            && |after| == |before| + |things| == |before| + CountResolved(ids, store.replies)
            && (forall i :: |before| <= i < |after| ==> after[i].ReplyKnown? && after[i].reply in store.replies.Values)
            && forall i :: 0 <= i < |things| ==> after[|before| + i] == ReplyKnown(things[i])
  {
    ResolveCountsResolvedIds(ids, store.replies);
  }

  /** `createJsonObject`, computed; `HandleRequest` states what it does. */
  function Respond(store: Store, request: Request): (Store, Answer)
  {
    match KindOf(Parameter(request, "type"))
    case None => (store, Error("invalid-type"))
    case Some(kind) =>
      match Parameter(request, "id")
      case None => (store, Success)
      case Some(idList) =>
        var ids := Split(idList);
        (store.(marks := store.marks + MarksFor(store, kind, ids)), Success)
  }

  /** What a request of type "sone" marks. */
  lemma RespondMarksSones(store: Store, request: Request)
    ensures var r := Respond(store, request);
      Parameter(request, "type") == Some("sone") && Parameter(request, "id").Some? ==>
      var ids := Split(Parameter(request, "id").value);
      && |r.0.marks| == |store.marks| + CountResolved(ids, store.sones)
      && forall i :: |store.marks| <= i < |r.0.marks| ==> r.0.marks[i].SoneKnown? && r.0.marks[i].sone in store.sones.Values
    ensures var r := Respond(store, request);
      Parameter(request, "type") == Some("sone") && Parameter(request, "id").Some? ==>
      var things := Resolve(Split(Parameter(request, "id").value), store.sones);
      && |r.0.marks| == |store.marks| + |things|
      && forall i :: 0 <= i < |things| ==> r.0.marks[|store.marks| + i] == SoneKnown(things[i])
  {
    if Parameter(request, "type") == Some("sone") && Parameter(request, "id").Some? {
      SoneMarks(store, Split(Parameter(request, "id").value), store.marks);
    }
  }

  /** What a request of type "post" marks. */
  lemma RespondMarksPosts(store: Store, request: Request)
    ensures var r := Respond(store, request);
      Parameter(request, "type") == Some("post") && Parameter(request, "id").Some? ==>
      var ids := Split(Parameter(request, "id").value);
      && |r.0.marks| == |store.marks| + CountResolved(ids, store.posts)
      && forall i :: |store.marks| <= i < |r.0.marks| ==> r.0.marks[i].PostKnown? && r.0.marks[i].post in store.posts.Values
    ensures var r := Respond(store, request);
      Parameter(request, "type") == Some("post") && Parameter(request, "id").Some? ==>
      var things := Resolve(Split(Parameter(request, "id").value), store.posts);
      && |r.0.marks| == |store.marks| + |things|
      && forall i :: 0 <= i < |things| ==> r.0.marks[|store.marks| + i] == PostKnown(things[i])
  {
    if Parameter(request, "type") == Some("post") && Parameter(request, "id").Some? {
      PostMarks(store, Split(Parameter(request, "id").value), store.marks);
    }
  }

  /** What a request of type "reply" marks. */
  lemma RespondMarksReplies(store: Store, request: Request)
    ensures var r := Respond(store, request);
      Parameter(request, "type") == Some("reply") && Parameter(request, "id").Some? ==>
      var ids := Split(Parameter(request, "id").value);
      && |r.0.marks| == |store.marks| + CountResolved(ids, store.replies)
      && forall i :: |store.marks| <= i < |r.0.marks| ==> r.0.marks[i].ReplyKnown? && r.0.marks[i].reply in store.replies.Values
    ensures var r := Respond(store, request);
      Parameter(request, "type") == Some("reply") && Parameter(request, "id").Some? ==>
      var things := Resolve(Split(Parameter(request, "id").value), store.replies);
      && |r.0.marks| == |store.marks| + |things|
      && forall i :: 0 <= i < |things| ==> r.0.marks[|store.marks| + i] == ReplyKnown(things[i])
  {
    if Parameter(request, "type") == Some("reply") && Parameter(request, "id").Some? {
      ReplyMarks(store, Split(Parameter(request, "id").value), store.marks);
    }
  }

  /** `createJsonObject`. */
  function HandleRequest(store: Store, request: Request): (r: (Store, Answer))
    // an unknown or missing type is an error, and nothing is marked
    ensures Parameter(request, "type") !in {Some("sone"), Some("post"), Some("reply")} ==> r == (store, Error("invalid-type"))
    // a known type always succeeds, even without ids
    ensures Parameter(request, "type") in {Some("sone"), Some("post"), Some("reply")} ==> r.1 == Success
    ensures Parameter(request, "id").None? ==> r.0 == store
    // the only change is the marks appended, one per resolving id occurrence
    ensures r.0 == store.(marks := r.0.marks) && store.marks <= r.0.marks
    ensures Parameter(request, "type") == Some("sone") && Parameter(request, "id").Some? ==>
      var ids := Split(Parameter(request, "id").value);
      && |r.0.marks| == |store.marks| + CountResolved(ids, store.sones)
      && forall i :: |store.marks| <= i < |r.0.marks| ==> r.0.marks[i].SoneKnown? && r.0.marks[i].sone in store.sones.Values
    ensures Parameter(request, "type") == Some("sone") && Parameter(request, "id").Some? ==>
      var things := Resolve(Split(Parameter(request, "id").value), store.sones);
      && |r.0.marks| == |store.marks| + |things|
      && forall i :: 0 <= i < |things| ==> r.0.marks[|store.marks| + i] == SoneKnown(things[i])
    ensures Parameter(request, "type") == Some("post") && Parameter(request, "id").Some? ==>
      var ids := Split(Parameter(request, "id").value);
      && |r.0.marks| == |store.marks| + CountResolved(ids, store.posts)
      && forall i :: |store.marks| <= i < |r.0.marks| ==> r.0.marks[i].PostKnown? && r.0.marks[i].post in store.posts.Values
    ensures Parameter(request, "type") == Some("post") && Parameter(request, "id").Some? ==>
      var things := Resolve(Split(Parameter(request, "id").value), store.posts);
      && |r.0.marks| == |store.marks| + |things|
      && forall i :: 0 <= i < |things| ==> r.0.marks[|store.marks| + i] == PostKnown(things[i])
    ensures Parameter(request, "type") == Some("reply") && Parameter(request, "id").Some? ==>
      var ids := Split(Parameter(request, "id").value);
      && |r.0.marks| == |store.marks| + CountResolved(ids, store.replies)
      && forall i :: |store.marks| <= i < |r.0.marks| ==> r.0.marks[i].ReplyKnown? && r.0.marks[i].reply in store.replies.Values
    ensures Parameter(request, "type") == Some("reply") && Parameter(request, "id").Some? ==>
      var things := Resolve(Split(Parameter(request, "id").value), store.replies);
      && |r.0.marks| == |store.marks| + |things|
      && forall i :: 0 <= i < |things| ==> r.0.marks[|store.marks| + i] == ReplyKnown(things[i])
  {
    RespondMarksSones(store, request);
    RespondMarksPosts(store, request);
    RespondMarksReplies(store, request);
    Respond(store, request)
  }

  /** With ids sent joined by single spaces, exactly the known ones are marked, in order. */
  lemma MarksEveryKnownSone(store: Store, request: Request, ids: seq<string>)
    requires |ids| >= 1 && forall i :: 0 <= i < |ids| ==> |ids[i]| > 0 && ' ' !in ids[i] && ids[i] in store.sones
    requires Parameter(request, "type") == Some("sone") && Parameter(request, "id") == Some(JoinWithSpaces(ids))
    ensures var marks := HandleRequest(store, request).0.marks;
            && |marks| == |store.marks| + |ids|
            && forall i :: 0 <= i < |ids| ==> marks[|store.marks| + i] == SoneKnown(store.sones[ids[i]])
  {
    SplitJoinRoundTrip(ids);
    ResolveAllKnown(ids, store.sones);
  }

  lemma {:induction false} ResolveAllKnown<T>(ids: seq<string>, known: map<string, T>)
    requires forall i :: 0 <= i < |ids| ==> ids[i] in known
    ensures |Resolve(ids, known)| == |ids|
    ensures forall i :: 0 <= i < |ids| ==> Resolve(ids, known)[i] == known[ids[i]]
    decreases |ids|
  {
    if |ids| > 0 {
      ResolveAllKnown(ids[1..], known);
    }
  }
}
