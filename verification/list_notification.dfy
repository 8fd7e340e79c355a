/** The element list of a `ListNotification`, as the notification handlers
    use it: `add` appends, `remove` takes out every occurrence. */
module ListNotification {

  /** `add` keeps every element in place and puts the new one last, even
      when it is already present. */
  function Add<T>(elements: seq<T>, e: T): (r: seq<T>)
    ensures |r| == |elements| + 1
    ensures r[..|elements|] == elements && r[|elements|] == e
  {
    elements + [e]
  }

  /** `remove` takes out every occurrence and keeps every other element. */
  function Remove<T(==)>(elements: seq<T>, e: T): (r: seq<T>)
    ensures e !in r
    ensures forall i :: 0 <= i < |r| ==> r[i] in elements && r[i] != e
    ensures forall i :: 0 <= i < |elements| && elements[i] != e ==> elements[i] in r
    ensures |r| <= |elements|
    ensures e !in elements ==> r == elements
  {
    if |elements| == 0 then []
    else if elements[0] == e then Remove(elements[1..], e)
    else [elements[0]] + Remove(elements[1..], e)
  }

  /** Removing an element undoes adding it. */
  lemma {:induction false} RemoveUndoesAdd<T>(elements: seq<T>, e: T)
    ensures Remove(Add(elements, e), e) == Remove(elements, e)
    decreases |elements|
  {
    if |elements| > 0 {
      assert Add(elements, e)[1..] == Add(elements[1..], e);
      RemoveUndoesAdd(elements[1..], e);
    } else {
      assert Add(elements, e)[1..] == [];
    }
  }

  /** Removing from a concatenation removes from each part: `remove` keeps
      the remaining elements in their order. */
  lemma {:induction false} RemoveAppend<T>(a: seq<T>, b: seq<T>, e: T)
    ensures Remove(a + b, e) == Remove(a, e) + Remove(b, e)
    decreases |a|
  {
    if |a| > 0 {
      assert (a + b)[0] == a[0];
      assert (a + b)[1..] == a[1..] + b;
      RemoveAppend(a[1..], b, e);
    } else {
      assert a + b == b;
    }
  }

  /** `remove` drops every occurrence of the element and keeps every other
      element exactly as often as before. */
  lemma {:induction false} RemoveCounts<T>(s: seq<T>, e: T, x: T)
    ensures multiset(Remove(s, e))[x] == if x == e then 0 else multiset(s)[x]
    decreases |s|
  {
    if |s| > 0 {
      assert s == [s[0]] + s[1..];
      RemoveCounts(s[1..], e, x);
    }
  }
}
