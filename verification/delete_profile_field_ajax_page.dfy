/** The AJAX page that deletes a field from the current Sone's profile. */
module DeleteProfileFieldAjaxPage {
  import opened Wrappers
  import opened Data
  import opened Web
  import opened Ajax

  /** `profile.getFieldById(id)`: the position of the first field with the id. */
  function FieldIndex(fields: seq<Field>, id: string): (r: Option<nat>)
    ensures r.None? <==> forall i :: 0 <= i < |fields| ==> fields[i].id != id
    ensures r.Some? ==> r.value < |fields| && fields[r.value].id == id
    ensures r.Some? ==> forall i :: 0 <= i < r.value ==> fields[i].id != id
    decreases |fields|
  {
    if |fields| == 0 then None
    else if fields[0].id == id then Some(0)
    else
      match FieldIndex(fields[1..], id)
      case None => None
      case Some(i) => Some(i + 1)
  }

  /** `profile.removeField(field)`. */
  function RemoveAt(fields: seq<Field>, i: nat): (r: seq<Field>)
    requires i < |fields|
    ensures |r| == |fields| - 1
    ensures multiset(r) + multiset{fields[i]} == multiset(fields)
    ensures forall j :: 0 <= j < i ==> r[j] == fields[j]
    ensures forall j :: i <= j < |r| ==> r[j] == fields[j + 1]
  {
    assert fields == fields[..i] + [fields[i]] + fields[i + 1..];
    fields[..i] + fields[i + 1..]
  }

  /** `createJsonObject(request)` for the logged-in `currentSone`. */
  function HandleRequest(store: Store, currentSone: Sone, request: Request): (r: (Store, Answer))
    // a missing or unknown field id is an error, and nothing changes
    ensures (Parameter(request, "field").None? || FieldIndex(ProfileOf(store, currentSone.id), Parameter(request, "field").value).None?)
            ==> r == (store, Error("invalid-field-id"))
    ensures (Parameter(request, "field").Some? && FieldIndex(ProfileOf(store, currentSone.id), Parameter(request, "field").value).Some?) ==>
      var fields := ProfileOf(store, currentSone.id);
      var i := FieldIndex(fields, Parameter(request, "field").value).value;
      && r.1 == Success
      // the profile lost exactly that field and was stored back, and the configuration was touched once
      && r.0 == store.(profiles := store.profiles[currentSone.id := RemoveAt(fields, i)], touches := store.touches + 1)
  {
    match Parameter(request, "field")
    case None => (store, Error("invalid-field-id"))
    case Some(id) =>
      var fields := ProfileOf(store, currentSone.id);
      match FieldIndex(fields, id)
      case None => (store, Error("invalid-field-id"))
      case Some(i) =>
        (store.(profiles := store.profiles[currentSone.id := RemoveAt(fields, i)], touches := store.touches + 1), Success)
  }

  /** A successful deletion removes one field with the id and keeps every
      field with another id, in order. */
  lemma DeletesOnlyTheAddressedField(store: Store, currentSone: Sone, request: Request)
    requires HandleRequest(store, currentSone, request).1 == Success
    ensures var before := ProfileOf(store, currentSone.id);
            var after := ProfileOf(HandleRequest(store, currentSone, request).0, currentSone.id);
            var id := Parameter(request, "field").value;
            && |after| == |before| - 1
            && (exists f :: f in before && f.id == id && multiset(after) + multiset{f} == multiset(before))
            && (forall f :: f in before && f.id != id ==> f in after)
            && HandleRequest(store, currentSone, request).0.touches == store.touches + 1
  {
    var before := ProfileOf(store, currentSone.id);
    var id := Parameter(request, "field").value;
    var i := FieldIndex(before, id).value;
    var after := RemoveAt(before, i);
    assert before[i] in before;
    forall f | f in before && f.id != id
      ensures f in after
    {
      var k :| 0 <= k < |before| && before[k] == f;
      if k < i {
        assert after[k] == f;
      } else {
        assert k != i;
        assert after[k - 1] == f;
      }
    }
  }

  /** The deletion fails exactly when the profile has no field with the id. */
  lemma FailsIffNoSuchField(store: Store, currentSone: Sone, request: Request)
    ensures HandleRequest(store, currentSone, request).1 == Error("invalid-field-id") <==>
      (Parameter(request, "field").None?
       || forall f :: f in ProfileOf(store, currentSone.id) ==> f.id != Parameter(request, "field").value)
  {
    if Parameter(request, "field").Some? {
      var fields := ProfileOf(store, currentSone.id);
      var id := Parameter(request, "field").value;
      if FieldIndex(fields, id).Some? {
        assert fields[FieldIndex(fields, id).value] in fields;
      }
    }
  }
}
