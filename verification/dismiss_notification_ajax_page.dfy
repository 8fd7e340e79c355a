/** The AJAX page that dismisses a notification named by the `notification`
    parameter. */
module DismissNotificationAjaxPage {
  import opened Wrappers
  import opened Data
  import opened Web
  import opened Ajax

  const RequiresLogin: bool := false

  /** `createJsonObject`: existence is checked before dismissability. */
  function HandleRequest(store: Store, request: Request): (r: (Store, Answer))
    ensures GetParam(request, "notification") !in store.notifications ==> r == (store, Error("invalid-notification-id"))
    ensures (GetParam(request, "notification") in store.notifications
             && !store.notifications[GetParam(request, "notification")].dismissable)
            ==> r == (store, Error("not-dismissable"))
    ensures (GetParam(request, "notification") in store.notifications
             && store.notifications[GetParam(request, "notification")].dismissable)
            ==> r == (store.(dismissed := store.dismissed + {store.notifications[GetParam(request, "notification")].id}), Success)
  {
    var id := GetParam(request, "notification");
    match Lookup(store.notifications, id)
    case None => (store, Error("invalid-notification-id"))
    case Some(notification) =>
      if !notification.dismissable then (store, Error("not-dismissable"))
      else (store.(dismissed := store.dismissed + {notification.id}), Success)
  }

  /** Only a dismissable notification is ever dismissed; a failed call
      dismisses nothing, and a successful one dismisses exactly one. */
  lemma DismissesOnlyDismissable(store: Store, request: Request)
    ensures var (after, answer) := HandleRequest(store, request);
            && (answer.Error? ==> after == store)
            && (answer == Success ==> exists n :: n in store.notifications.Values && n.dismissable && after.dismissed == store.dismissed + {n.id})
            && (forall id :: id in after.dismissed - store.dismissed ==> exists n :: n in store.notifications.Values && n.dismissable && n.id == id)
  {
    var (after, answer) := HandleRequest(store, request);
    var id := GetParam(request, "notification");
    if id in store.notifications && store.notifications[id].dismissable {
      var n := store.notifications[id];
      assert n in store.notifications.Values;
      assert after.dismissed == store.dismissed + {n.id};
      forall x | x in after.dismissed - store.dismissed
        ensures exists m :: m in store.notifications.Values && m.dismissable && m.id == x
      {
        assert x == n.id;
      }
    } else {
      assert after == store;
    }
  }

  /** Dismissing twice has the effect of dismissing once. */
  lemma DismissIsIdempotent(store: Store, request: Request)
    ensures HandleRequest(HandleRequest(store, request).0, request) == HandleRequest(store, request)
  {
  }
}
