/** Kotlin's `sortedBy`/`sortedByDescending`: a stable sort by a total
    preorder `le` ("may come before"). Insertion sort is the reference
    definition; the lemmas show its result is ordered, a permutation of
    the input, and stable (elements that compare equal keep their order). */
module Ordering {

  ghost predicate TotalPreorder<T(!new)>(le: (T, T) -> bool) {
    && (forall a, b :: le(a, b) || le(b, a))
    && (forall a, b, c :: le(a, b) && le(b, c) ==> le(a, c))
  }

  predicate SortedBy<T>(le: (T, T) -> bool, s: seq<T>) {
    forall i, j :: 0 <= i < j < |s| ==> le(s[i], s[j])
  }

  predicate Equivalent<T>(le: (T, T) -> bool, a: T, b: T) {
    le(a, b) && le(b, a)
  }

  lemma Transitive<T(!new)>(le: (T, T) -> bool, a: T, b: T, c: T)
    requires TotalPreorder(le)
    requires le(a, b) && le(b, c)
    ensures le(a, c)
  {
  }

  /** An element strictly after `x` does not tie with a key `x` ties with. */
  lemma NotTied<T(!new)>(le: (T, T) -> bool, x: T, y: T, key: T)
    requires TotalPreorder(le)
    requires !le(x, y) && Equivalent(le, x, key)
    ensures !Equivalent(le, y, key)
  {
    if le(key, y) {
      Transitive(le, x, key, y);
    }
  }

  /** The elements of `s` that compare equal to `key`, in their order in `s`. */
  function Ties<T>(le: (T, T) -> bool, s: seq<T>, key: T): seq<T>
    decreases |s|
  {
    if |s| == 0 then [] else (if Equivalent(le, s[0], key) then [s[0]] else []) + Ties(le, s[1..], key)
  }

  /** Puts `x` before the first element it may come before. */
  function Insert<T>(le: (T, T) -> bool, x: T, s: seq<T>): (r: seq<T>)
    ensures multiset(r) == multiset(s) + multiset{x}
    ensures |r| == |s| + 1
    decreases |s|
  {
    if |s| == 0 then [x]
    else if le(x, s[0]) then [x] + s
    else
      assert s == [s[0]] + s[1..];
      [s[0]] + Insert(le, x, s[1..])
  }

  /** Insertion sort: the earlier element is inserted into the sorted rest,
      so that among equal elements it stays first. */
  function Sort<T>(le: (T, T) -> bool, s: seq<T>): (r: seq<T>)
    ensures multiset(r) == multiset(s)
    ensures |r| == |s|
    decreases |s|
  {
    if |s| == 0 then []
    else
      assert s == [s[0]] + s[1..];
      Insert(le, s[0], Sort(le, s[1..]))
  }

  lemma {:induction false} InsertSorted<T(!new)>(le: (T, T) -> bool, x: T, s: seq<T>)
    requires TotalPreorder(le)
    requires SortedBy(le, s)
    ensures SortedBy(le, Insert(le, x, s))
    decreases |s|
  {
    if |s| > 0 && !le(x, s[0]) {
      var rest := Insert(le, x, s[1..]);
      InsertSorted(le, x, s[1..]);
      var r := [s[0]] + rest;
      forall j | 1 <= j < |r|
        ensures le(s[0], r[j])
      {
        assert r[j] in multiset(rest);
        assert r[j] == x || r[j] in multiset(s[1..]);
        if r[j] != x {
          var k :| 0 <= k < |s[1..]| && s[1..][k] == r[j];
          assert s[k + 1] == r[j];
        }
      }
    }
  }

  /** The sorted list is in order. */
  lemma {:induction false} SortIsSorted<T(!new)>(le: (T, T) -> bool, s: seq<T>)
    requires TotalPreorder(le)
    ensures SortedBy(le, Sort(le, s))
    decreases |s|
  {
    if |s| > 0 {
      SortIsSorted(le, s[1..]);
      InsertSorted(le, s[0], Sort(le, s[1..]));
    }
  }

  lemma {:induction false} InsertTies<T(!new)>(le: (T, T) -> bool, x: T, s: seq<T>, key: T)
    requires TotalPreorder(le)
    ensures Ties(le, Insert(le, x, s), key) == (if Equivalent(le, x, key) then [x] else []) + Ties(le, s, key)
    decreases |s|
  {
    if |s| == 0 {
    } else if le(x, s[0]) {
      assert ([x] + s)[1..] == s;
    } else {
      InsertTies(le, x, s[1..], key);
      if Equivalent(le, x, key) {
        // s[0] comes strictly after x, so it cannot tie with x's key
        NotTied(le, x, s[0], key);
      }
      InsertPastHead(le, x, s);
      TiesPastHead(le, x, s[0], s[1..], Insert(le, x, s[1..]), key);
    }
  }

  /** The step of `InsertTies` where `x` goes past the head `y`: `rest` is
      `x` inserted into `tail`. */
  lemma TiesPastHead<T>(le: (T, T) -> bool, x: T, y: T, tail: seq<T>, rest: seq<T>, key: T)
    requires Equivalent(le, x, key) ==> !Equivalent(le, y, key)
    requires Ties(le, rest, key) == (if Equivalent(le, x, key) then [x] else []) + Ties(le, tail, key)
    ensures Ties(le, [y] + rest, key) == (if Equivalent(le, x, key) then [x] else []) + Ties(le, [y] + tail, key)
  {
    TiesCons(le, y, rest, key);
    TiesCons(le, y, tail, key);
    SwapEmpty(if Equivalent(le, y, key) then [y] else [], if Equivalent(le, x, key) then [x] else [], Ties(le, tail, key));
  }

  /** Two prefixes of which one is empty can be swapped. */
  lemma SwapEmpty<T>(a: seq<T>, b: seq<T>, c: seq<T>)
    requires a == [] || b == []
    ensures a + (b + c) == b + (a + c)
  {
    if a == [] {
      assert a + (b + c) == b + c == b + (a + c);
    } else {
      assert a + (b + c) == a + c == b + (a + c);
    }
  }

  lemma InsertPastHead<T>(le: (T, T) -> bool, x: T, s: seq<T>)
    requires |s| > 0 && !le(x, s[0])
    ensures Insert(le, x, s) == [s[0]] + Insert(le, x, s[1..])
    ensures [s[0]] + s[1..] == s
  {
  }

  lemma TiesCons<T>(le: (T, T) -> bool, y: T, rest: seq<T>, key: T)
    ensures Ties(le, [y] + rest, key) == (if Equivalent(le, y, key) then [y] else []) + Ties(le, rest, key)
  {
    assert ([y] + rest)[1..] == rest;
  }

  /** Stability: the elements equal to any key appear in the sorted list in
      the order they had in the input. */
  lemma {:induction false} SortIsStable<T(!new)>(le: (T, T) -> bool, s: seq<T>, key: T)
    requires TotalPreorder(le)
    ensures Ties(le, Sort(le, s), key) == Ties(le, s, key)
    decreases |s|
  {
    if |s| > 0 {
      SortIsStable(le, s[1..], key);
      InsertTies(le, s[0], Sort(le, s[1..]), key);
    }
  }

  /** `String.compareTo(a, b) <= 0`: the first differing character decides,
      and a proper prefix comes first. */
  predicate LexLessOrEqual(a: string, b: string)
    decreases |a|
  {
    if |a| == 0 then true
    else if |b| == 0 then false
    else if a[0] != b[0] then a[0] < b[0]
    else LexLessOrEqual(a[1..], b[1..])
  }

  /** A prefix comes first, and a string never comes before its own proper prefix. */
  lemma {:induction false} LexPrefixFirst(a: string, b: string)
    requires a <= b
    ensures LexLessOrEqual(a, b)
    ensures |a| < |b| ==> !LexLessOrEqual(b, a)
    decreases |a|
  {
    if |a| > 0 {
      assert a[0] == b[0];
      assert a[1..] <= b[1..];
      LexPrefixFirst(a[1..], b[1..]);
    }
  }

  /** Otherwise the first position where the strings differ decides. */
  lemma {:induction false} LexFirstDifference(a: string, b: string, k: nat)
    requires k < |a| && k < |b| && a[..k] == b[..k] && a[k] != b[k]
    ensures LexLessOrEqual(a, b) <==> a[k] < b[k]
    decreases k
  {
    if k > 0 {
      assert a[0] == a[..k][0] == b[..k][0] == b[0];
      assert a[1..][..k - 1] == a[..k][1..] && b[1..][..k - 1] == b[..k][1..];
      LexFirstDifference(a[1..], b[1..], k - 1);
    }
  }

  lemma {:induction false} LexTotal(a: string, b: string)
    ensures LexLessOrEqual(a, b) || LexLessOrEqual(b, a)
    decreases |a|
  {
    if |a| > 0 && |b| > 0 && a[0] == b[0] {
      LexTotal(a[1..], b[1..]);
    }
  }

  lemma {:induction false} LexTransitive(a: string, b: string, c: string)
    requires LexLessOrEqual(a, b) && LexLessOrEqual(b, c)
    ensures LexLessOrEqual(a, c)
    decreases |a|
  {
    if |a| > 0 && |b| > 0 && |c| > 0 && a[0] == b[0] && b[0] == c[0] {
      LexTransitive(a[1..], b[1..], c[1..]);
    }
  }

  /** Two strings that may each come before the other are equal. */
  lemma {:induction false} LexAntisymmetric(a: string, b: string)
    requires LexLessOrEqual(a, b) && LexLessOrEqual(b, a)
    ensures a == b
    decreases |a|
  {
    if |a| > 0 {
      LexAntisymmetric(a[1..], b[1..]);
      assert a == [a[0]] + a[1..] && b == [b[0]] + b[1..];
    }
  }
}
