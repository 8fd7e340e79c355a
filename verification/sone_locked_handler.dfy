/** The handler of Sone locked/unlocked events: a locked Sone is collected
    into the "Sone locked" list notification, which is shown after five
    minutes unless an unlock comes first. The scheduled future becomes a
    timer slot holding the id of the one live timer; a timer firing is an
    event carrying its id. Each handler body runs under one lock, so each
    event is one atomic step. */
module SoneLockedHandler {
  import opened Wrappers
  import opened Data
  import ListNotification

  const DelayMinutes: nat := 5

  /** `pending` is the notification's list; `armed` is the live timer, if
      any; `nextTimer` is the id the next scheduled timer gets; `shown`
      counts `addNotification` calls. */
  datatype Handler = Handler(pending: seq<Sone>, armed: Option<nat>, nextTimer: nat, shown: nat)

  datatype Event = Locked(sone: Sone) | Unlocked(sone: Sone) | TimerFires(timer: nat)

  const Initial: Handler := Handler([], None, 0, 0)

  /** Only timers that were scheduled can be live. */
  predicate Valid(h: Handler) {
    h.armed.Some? ==> h.armed.value < h.nextTimer
  }

  /** `soneLocked`: adds the Sone, cancels the previous timer and arms a new one. */
  function OnLocked(h: Handler, sone: Sone): (r: Handler)
    ensures r.pending == h.pending + [sone]
    ensures r.armed == Some(h.nextTimer) && r.nextTimer == h.nextTimer + 1
    ensures Valid(h) && h.armed.Some? ==> r.armed != h.armed
    ensures r.shown == h.shown
  {
    Handler(ListNotification.Add(h.pending, sone), Some(h.nextTimer), h.nextTimer + 1, h.shown)
  }

  /** `soneUnlocked`: removes the Sone and cancels the timer, even if other
      Sones are still pending. */
  function OnUnlocked(h: Handler, sone: Sone): (r: Handler)
    ensures sone !in r.pending
    ensures forall s :: s in r.pending <==> s in h.pending && s != sone
    // the remaining Sones keep their order and multiplicity
    ensures r.pending == ListNotification.Remove(h.pending, sone)
    ensures r.armed == None
    ensures r.shown == h.shown && r.nextTimer == h.nextTimer
  {
    h.(pending := ListNotification.Remove(h.pending, sone), armed := None)
  }

  /** A timer runs `showNotification` only if it is the live one; a
      cancelled timer never runs. */
  function OnTimerFires(h: Handler, timer: nat): (r: Handler)
    ensures h.armed == Some(timer) ==> r.shown == h.shown + 1 && r.armed == None
    ensures h.armed != Some(timer) ==> r == h
    ensures r.pending == h.pending
  {
    if h.armed == Some(timer) then h.(armed := None, shown := h.shown + 1) else h
  }

  function Step(h: Handler, e: Event): (r: Handler)
    ensures Valid(h) ==> Valid(r)
    ensures r.shown > h.shown ==> e.TimerFires? && h.armed == Some(e.timer)
  {
    match e
    case Locked(s) => OnLocked(h, s)
    case Unlocked(s) => OnUnlocked(h, s)
    case TimerFires(t) => OnTimerFires(h, t)
  }

  function Run(h: Handler, events: seq<Event>): Handler
    decreases |events|
  {
    if |events| == 0 then h else Run(Step(h, events[0]), events[1..])
  }

  function CountLocked(events: seq<Event>): nat
    decreases |events|
  {
    if |events| == 0 then 0 else (if events[0].Locked? then 1 else 0) + CountLocked(events[1..])
  }

  function Live(h: Handler): nat {
    if h.armed.Some? then 1 else 0
  }

  /** Each lock event surfaces the notification at most once: the shows plus
      the live timer never exceed the locks. */
  lemma {:induction false} AtMostOneShowPerLock(h: Handler, events: seq<Event>)
    ensures Run(h, events).shown + Live(Run(h, events)) <= h.shown + Live(h) + CountLocked(events)
    decreases |events|
  {
    if |events| > 0 {
      AtMostOneShowPerLock(Step(h, events[0]), events[1..]);
    }
  }

  /** Without a live timer and without further locks, nothing is ever shown. */
  lemma {:induction false} NoLiveTimerNoShow(h: Handler, events: seq<Event>)
    requires h.armed.None?
    requires forall i :: 0 <= i < |events| ==> !events[i].Locked?
    ensures Run(h, events).shown == h.shown
    decreases |events|
  {
    if |events| > 0 {
      NoLiveTimerNoShow(Step(h, events[0]), events[1..]);
    }
  }

  /** Locked, then unlocked before the timer fires: whatever timers fire
      afterwards, no notification is surfaced. */
  lemma LockedThenUnlockedShowsNothing(sone: Sone, fires: seq<Event>)
    requires forall i :: 0 <= i < |fires| ==> fires[i].TimerFires?
    ensures Run(Initial, [Locked(sone), Unlocked(sone)] + fires).shown == 0
    ensures sone !in Run(Initial, [Locked(sone), Unlocked(sone)] + fires).pending
  {
    var h2 := OnUnlocked(OnLocked(Initial, sone), sone);
    assert Run(Initial, [Locked(sone), Unlocked(sone)] + fires) == Run(h2, fires) by {
      var evs := [Locked(sone), Unlocked(sone)] + fires;
      assert evs[1..][1..] == fires;
    }
    NoLiveTimerNoShow(h2, fires);
    PendingUnchangedByTimers(h2, fires);
  }

  lemma {:induction false} PendingUnchangedByTimers(h: Handler, fires: seq<Event>)
    requires forall i :: 0 <= i < |fires| ==> fires[i].TimerFires?
    ensures Run(h, fires).pending == h.pending
    decreases |fires|
  {
    if |fires| > 0 {
      PendingUnchangedByTimers(Step(h, fires[0]), fires[1..]);
    }
  }

  /** Locked with no unlock: when the timer fires the notification is
      surfaced exactly once, and the Sone is in it. */
  lemma LockedThenTimerShowsOnce(sone: Sone)
    ensures var h := Run(Initial, [Locked(sone), TimerFires(0)]);
            h.shown == 1 && h.pending == [sone]
  {
    var evs := [Locked(sone), TimerFires(0)];
    var h1 := Step(Initial, Locked(sone));
    assert Run(Initial, evs) == Run(h1, [TimerFires(0)]) by { assert evs[1..] == [TimerFires(0)]; }
    assert Run(h1, [TimerFires(0)]) == Step(h1, TimerFires(0)) by { assert [TimerFires(0)][1..] == []; }
  }

  /** Locking again cancels the first timer: only the second one shows. */
  lemma RelockCancelsEarlierTimer(a: Sone, b: Sone)
    ensures Run(Initial, [Locked(a), Locked(b), TimerFires(0)]).shown == 0
    ensures Run(Initial, [Locked(a), Locked(b), TimerFires(1)]).shown == 1
  {
    var h2 := Step(Step(Initial, Locked(a)), Locked(b));
    assert h2.armed == Some(1);
    forall t: nat
      ensures Run(Initial, [Locked(a), Locked(b), TimerFires(t)]) == Step(h2, TimerFires(t))
    {
      var evs := [Locked(a), Locked(b), TimerFires(t)];
      var h1 := Step(Initial, Locked(a));
      assert evs[1..] == [Locked(b), TimerFires(t)];
      assert Run(Initial, evs) == Run(h1, [Locked(b), TimerFires(t)]);
      assert [Locked(b), TimerFires(t)][1..] == [TimerFires(t)];
      assert Run(h1, [Locked(b), TimerFires(t)]) == Run(h2, [TimerFires(t)]);
      assert [TimerFires(t)][1..] == [];
      assert Run(h2, [TimerFires(t)]) == Step(h2, TimerFires(t));
    }
  }
}
