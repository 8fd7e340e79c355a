/** The AJAX page with which the logged-in Sone follows another Sone. */
module FollowSoneAjaxPage {
  import opened Wrappers
  import opened Data
  import opened Web
  import opened Ajax

  /** Inherited from the logged-in JSON page. */
  const RequiresLogin: bool := true

  /** `createJsonObject(currentSone, request)`. */
  function HandleRequest(store: Store, currentSone: Sone, request: Request): (r: (Store, Answer))
    // a missing or unknown Sone is an error, and nothing changes
    ensures !(Parameter(request, "sone").Some? && Parameter(request, "sone").value in store.sones)
            ==> r == (store, Error("invalid-sone-id"))
    // a known Sone is followed, then marked known
    ensures (Parameter(request, "sone").Some? && Parameter(request, "sone").value in store.sones) ==>
      var sone := store.sones[Parameter(request, "sone").value];
      && r.1 == Success
      && r.0 == store.(follows := store.follows + {(currentSone.id, sone.id)}, marks := store.marks + [SoneKnown(sone)])
  {
    match Parameter(request, "sone")
    case None => (store, Error("invalid-sone-id"))
    case Some(id) =>
      if id in store.sones then
        var sone := store.sones[id];
        (store.(follows := store.follows + {(currentSone.id, sone.id)}, marks := store.marks + [SoneKnown(sone)]), Success)
      else (store, Error("invalid-sone-id"))
  }

  /** The call succeeds exactly when the current Sone afterwards follows the
      named Sone and the named Sone was marked known last. */
  lemma SucceedsIffFollowed(store: Store, currentSone: Sone, request: Request)
    ensures var (after, answer) := HandleRequest(store, currentSone, request);
            answer == Success <==>
              && Parameter(request, "sone").Some?
              && Parameter(request, "sone").value in store.sones
              && (currentSone.id, store.sones[Parameter(request, "sone").value].id) in after.follows
              && |after.marks| == |store.marks| + 1
              && after.marks[|store.marks|] == SoneKnown(store.sones[Parameter(request, "sone").value])
  {
  }

  /** Following twice records the follow once but marks the Sone known twice. */
  lemma FollowTwice(store: Store, currentSone: Sone, request: Request)
    requires Parameter(request, "sone").Some? && Parameter(request, "sone").value in store.sones
    ensures var once := HandleRequest(store, currentSone, request).0;
            var twice := HandleRequest(once, currentSone, request).0;
            twice.follows == once.follows && |twice.marks| == |store.marks| + 2
  {
  }
}
