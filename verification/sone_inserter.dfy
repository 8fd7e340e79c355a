/** The insert loop of one local Sone, one iteration at a time. Every
    collaborator of an iteration is an input: whether `stop()` was called
    before it and during the insert, what the core resolves the Sone id
    to, what the modification detector answers, and whether
    `insertDirectory` succeeds or throws a `SoneException`. The event bus
    becomes the sequence of posted Sone events, the metric registry two
    counters, and the insertion delay a shared integer cell. */
module SoneInserter {
  import opened Wrappers
  import opened Numbers
  import Detector = SoneModificationDetector

  /** The name of the entry every Sone directory insert defaults to. */
  const DefaultFile: string := "index.html"
  const DurationHistogram: string := "sone.insert.duration"
  const ErrorMeter: string := "sone.insert.errors"

  /** What the core holds for the Sone at the time of the iteration. */
  datatype Sone = Sone(id: string, fingerprint: string)

  datatype SoneEvent = Inserting(sone: Sone) | Inserted(sone: Sone) | Aborted(sone: Sone)

  /** The detector's answer as the loop sees it: a decision, or an exception. */
  datatype Eligibility = Eligible(yes: bool) | Threw

  datatype InsertOutcome = InsertSucceeded | InsertFailed

  datatype Iteration = Iteration(
    stopBefore: bool,
    sone: Option<Sone>,
    eligibility: Eligibility,
    insert: InsertOutcome,
    stopDuringInsert: bool)

  /** `insertCalls` counts calls of `insertDirectory(insertUri, manifest, "index.html")`;
      `durations` and `errors` are the counts of the histogram and meter
      named above; `touches` counts `touchConfiguration` calls. */
  datatype Inserter = Inserter(
    soneId: string,
    stopped: bool,
    terminated: bool,
    detector: Detector.Detector,
    events: seq<SoneEvent>,
    insertCalls: nat,
    durations: nat,
    errors: nat,
    touches: nat)

  /** The process-wide insertion delay in seconds. */
  datatype InsertionDelay = InsertionDelay(seconds: Int32)

  /** A newly constructed inserter for the Sone with the given id. */
  function NewInserter(soneId: string): Inserter {
    Inserter(soneId, false, false, Detector.Fresh, [], 0, 0, 0, 0)
  }

  /** The handler of `InsertionDelayChangedEvent`: the cell is replaced wholesale. */
  function OnInsertionDelayChanged(cell: InsertionDelay, seconds: Int32): (r: InsertionDelay)
    ensures r.seconds == seconds
  {
    InsertionDelay(seconds)
  }

  /** `stop()`: idempotent, and never aborts anything already under way. */
  function Stop(ins: Inserter): (r: Inserter)
    ensures r.stopped
    ensures r.(stopped := ins.stopped) == ins
  {
    ins.(stopped := true)
  }

  lemma StopIsIdempotent(ins: Inserter)
    ensures Stop(Stop(ins)) == Stop(ins)
  {
  }

  /** `isModified` delegates to the detector. */
  function IsModified(ins: Inserter, currentFingerprint: string): (r: bool)
    ensures r <==> Detector.IsModified(ins.detector, currentFingerprint)
  {
    Detector.IsModified(ins.detector, currentFingerprint)
  }

  /** The `lastInsertFingerprint` property: the setter and getter delegate to the detector. */
  function SetLastInsertFingerprint(ins: Inserter, fingerprint: string): (r: Inserter)
    ensures LastInsertFingerprint(r) == Some(fingerprint)
    ensures !IsModified(r, fingerprint)
    ensures r.(detector := ins.detector) == ins
  {
    ins.(detector := Detector.SetFingerprint(ins.detector, fingerprint))
  }

  function LastInsertFingerprint(ins: Inserter): Option<string> {
    Detector.LastInsertFingerprint(ins.detector)
  }

  /** How the loop reads the real detector: the null-time failure is an
      exception like any other, which the loop catches. */
  function AskDetector(d: Detector.Detector, locked: bool, fingerprint: string, now: Long, delay: InsertionDelay): (r: (Detector.Detector, Eligibility))
    ensures r.1 == Eligible(true) <==> Detector.Check(d, locked, fingerprint, now, delay.seconds).1 == Detector.Decided(true)
    ensures r.1 == Threw <==> Detector.Check(d, locked, fingerprint, now, delay.seconds).1 == Detector.NullTime
    ensures r.0 == Detector.Check(d, locked, fingerprint, now, delay.seconds).0
  {
    var (d', e) := Detector.Check(d, locked, fingerprint, now, delay.seconds);
    (d', match e case Decided(b) => Eligible(b) case NullTime => Threw)
  }

  /** One pass of `serviceRun`'s loop. A terminated loop does nothing more. */
  function Step(ins: Inserter, it: Iteration): (r: Inserter)
    // the loop returns when it is stopped or the Sone is unknown
    ensures !ins.terminated && (ins.stopped || it.stopBefore || it.sone.None?) ==> r.terminated && r.events == ins.events && r.insertCalls == ins.insertCalls
    // an iteration that is not eligible inserts nothing and posts nothing
    ensures it.eligibility != Eligible(true) ==> r.events == ins.events && r.insertCalls == ins.insertCalls && r.touches == ins.touches
    // a failed eligibility check is swallowed; the loop goes on unless stopped
    ensures !ins.terminated && !ins.stopped && !it.stopBefore && it.sone.Some? && it.eligibility == Threw ==> !r.terminated
    // a Sone that is not eligible, or whose check failed, is polled again: the
    // iteration changes nothing and the loop goes on
    ensures !ins.terminated && !ins.stopped && !it.stopBefore && it.sone.Some? && it.eligibility != Eligible(true) ==> r == ins
    // events are only ever appended
    ensures ins.events <= r.events && ins.insertCalls <= r.insertCalls
    // an eligible iteration inserts once and posts Inserting, then Inserted or Aborted
    ensures !ins.terminated && !ins.stopped && !it.stopBefore && it.sone.Some? && it.eligibility == Eligible(true) ==>
      && r.insertCalls == ins.insertCalls + 1
      && r.events == ins.events + [Inserting(it.sone.value), if it.insert == InsertSucceeded then Inserted(it.sone.value) else Aborted(it.sone.value)]
    // a successful insert adds one duration sample, a failed one one error
    ensures r.durations + r.errors == ins.durations + ins.errors + (r.insertCalls - ins.insertCalls)
    ensures it.insert == InsertFailed ==> r.durations == ins.durations
    ensures it.insert == InsertSucceeded ==> r.errors == ins.errors
    // configuration is touched, and the fingerprint recorded, only after a
    // successful insert during which nobody asked the loop to stop
    ensures r.touches > ins.touches ==> it.insert == InsertSucceeded && !r.stopped && r.insertCalls > ins.insertCalls
    ensures r.touches == ins.touches ==> r.detector == ins.detector
    ensures r.touches > ins.touches ==> it.sone.Some? && r.detector == Detector.SetFingerprint(ins.detector, it.sone.value.fingerprint)
    ensures r.touches <= ins.touches + 1
    // and conversely, a successful insert during which nobody stopped the loop touches the
    // configuration once, records the Sone's fingerprint and keeps the loop going
    ensures (&& !ins.terminated && !ins.stopped && !it.stopBefore && it.sone.Some? && it.eligibility == Eligible(true)
             && it.insert == InsertSucceeded && !it.stopDuringInsert)
            ==> && r.touches == ins.touches + 1
                && r.detector == Detector.SetFingerprint(ins.detector, it.sone.value.fingerprint)
                && !r.terminated
    ensures (&& !ins.terminated && !ins.stopped && !it.stopBefore && it.sone.Some? && it.eligibility == Eligible(true)
             && !it.stopDuringInsert)
            ==> !r.terminated
    // a stop during an insert, successful or not, touches nothing and ends the loop
    ensures (&& !ins.terminated && !ins.stopped && !it.stopBefore && it.sone.Some? && it.eligibility == Eligible(true)
             && it.stopDuringInsert)
            ==> r.touches == ins.touches && r.detector == ins.detector && r.terminated
    // stop requests are never forgotten, and a returned loop stays returned
    ensures ins.stopped ==> r.stopped
    ensures ins.terminated ==> r == ins
  {
    if ins.terminated then ins
    else
      var stopped := ins.stopped || it.stopBefore;
      if stopped || it.sone.None? then ins.(stopped := stopped, terminated := true)
      else if it.eligibility != Eligible(true) then ins.(stopped := stopped)
      else
        var sone := it.sone.value;
        var stoppedNow := stopped || it.stopDuringInsert;
        var started := ins.(stopped := stoppedNow, insertCalls := ins.insertCalls + 1, events := ins.events + [Inserting(sone)]);
        match it.insert
        case InsertFailed =>
          started.(errors := ins.errors + 1, events := started.events + [Aborted(sone)], terminated := stoppedNow)
        case InsertSucceeded =>
          var done := started.(durations := ins.durations + 1, events := started.events + [Inserted(sone)]);
          if stoppedNow then done.(terminated := true)
          else done.(touches := ins.touches + 1, detector := Detector.SetFingerprint(ins.detector, sone.fingerprint))
  }

  /** The loop run over a sequence of iterations. */
  function Run(ins: Inserter, its: seq<Iteration>): (r: Inserter)
    // events are only appended, a stop is never forgotten and a returned loop stays returned
    ensures ins.events <= r.events && ins.insertCalls <= r.insertCalls
    ensures ins.stopped ==> r.stopped
    ensures ins.terminated ==> r == ins
    decreases |its|
  {
    if |its| == 0 then ins else Run(Step(ins, its[0]), its[1..])
  }

  /** Running two stretches of iterations one after the other is running them together. */
  lemma {:induction false} RunAppend(ins: Inserter, a: seq<Iteration>, b: seq<Iteration>)
    ensures Run(ins, a + b) == Run(Run(ins, a), b)
    decreases |a|
  {
    if |a| > 0 {
      assert (a + b)[0] == a[0];
      assert (a + b)[1..] == a[1..] + b;
      RunAppend(Step(ins, a[0]), a[1..], b);
    } else {
      assert a + b == b;
    }
  }

  function CountInserted(events: seq<SoneEvent>): nat {
    if |events| == 0 then 0 else CountInserted(events[..|events| - 1]) + (if events[|events| - 1].Inserted? then 1 else 0)
  }

  function CountAborted(events: seq<SoneEvent>): nat {
    if |events| == 0 then 0 else CountAborted(events[..|events| - 1]) + (if events[|events| - 1].Aborted? then 1 else 0)
  }

  /** The posted events come in pairs: `Inserting(s)` followed by exactly
      one of `Inserted(s)` and `Aborted(s)`. */
  predicate PairedEvents(events: seq<SoneEvent>) {
    && |events| % 2 == 0
    && (forall i :: 0 <= i < |events| ==> (events[i].Inserting? <==> i % 2 == 0))
    && (forall i :: 0 <= i < |events| && i % 2 == 1 ==> events[i].sone == events[i - 1].sone)
  }

  /** What the tests rely on between iterations: events are paired, every
      insert attempt posted its pair, the histogram holds one sample per
      `Inserted` and the meter one mark per `Aborted`, and configuration was
      touched at most once per successful insert. */
  predicate Consistent(ins: Inserter) {
    && PairedEvents(ins.events)
    && |ins.events| == 2 * ins.insertCalls
    && ins.durations == CountInserted(ins.events)
    && ins.errors == CountAborted(ins.events)
    && ins.touches <= ins.durations
  }

  lemma NewInserterIsConsistent(soneId: string)
    ensures Consistent(NewInserter(soneId))
  {
  }

  lemma CountsOfAppendedPair(events: seq<SoneEvent>, a: SoneEvent, b: SoneEvent)
    requires a.Inserting?
    ensures CountInserted(events + [a, b]) == CountInserted(events) + (if b.Inserted? then 1 else 0)
    ensures CountAborted(events + [a, b]) == CountAborted(events) + (if b.Aborted? then 1 else 0)
  {
    var e1 := events + [a];
    assert (events + [a, b])[..|events| + 1] == e1;
    assert e1[..|events|] == events;
  }

  lemma PairedAppend(events: seq<SoneEvent>, s: Sone, b: SoneEvent)
    requires PairedEvents(events)
    requires !b.Inserting? && b.sone == s
    ensures PairedEvents(events + [Inserting(s), b])
  {
    var e := events + [Inserting(s), b];
    forall i | 0 <= i < |e|
      ensures e[i].Inserting? <==> i % 2 == 0
      ensures i % 2 == 1 ==> e[i].sone == e[i - 1].sone
    {
      if i < |events| {
        assert e[i] == events[i];
        if i % 2 == 1 { assert e[i - 1] == events[i - 1]; }
      }
    }
  }

  lemma StepPreservesConsistent(ins: Inserter, it: Iteration)
    requires Consistent(ins)
    ensures Consistent(Step(ins, it))
  {
    var r := Step(ins, it);
    if r.events != ins.events {
      var s := it.sone.value;
      var b := if it.insert == InsertSucceeded then Inserted(s) else Aborted(s);
      assert r.events == ins.events + [Inserting(s), b];
      CountsOfAppendedPair(ins.events, Inserting(s), b);
      PairedAppend(ins.events, s, b);
    }
  }

  /** Whatever the loop meets, it keeps the consistency above. */
  lemma {:induction false} RunPreservesConsistent(ins: Inserter, its: seq<Iteration>)
    requires Consistent(ins)
    ensures Consistent(Run(ins, its))
    decreases |its|
  {
    if |its| > 0 {
      StepPreservesConsistent(ins, its[0]);
      RunPreservesConsistent(Step(ins, its[0]), its[1..]);
    }
  }

  /** `stop()` before `serviceRun()`: the run returns at once, with no
      insert and no event, whatever the iterations would have been. */
  lemma {:induction false} StoppedBeforeRunDoesNothing(ins: Inserter, its: seq<Iteration>)
    requires ins.stopped
    ensures Run(ins, its).events == ins.events
    ensures Run(ins, its).insertCalls == ins.insertCalls
    ensures Run(ins, its).touches == ins.touches
    ensures |its| > 0 ==> Run(ins, its).terminated
    decreases |its|
  {
    if |its| > 0 {
      StoppedBeforeRunDoesNothing(Step(ins, its[0]), its[1..]);
      TerminatedStaysTerminated(Step(ins, its[0]), its[1..]);
    }
  }

  lemma {:induction false} TerminatedStaysTerminated(ins: Inserter, its: seq<Iteration>)
    requires ins.terminated
    ensures Run(ins, its) == ins
    decreases |its|
  {
    if |its| > 0 {
      TerminatedStaysTerminated(Step(ins, its[0]), its[1..]);
    }
  }

  /** Iterations that are never eligible never call `insertDirectory`,
      never post a Sone event and never touch configuration. */
  lemma {:induction false} IneligibleRunsInsertNothing(ins: Inserter, its: seq<Iteration>)
    requires forall i :: 0 <= i < |its| ==> its[i].eligibility != Eligible(true)
    ensures Run(ins, its).events == ins.events
    ensures Run(ins, its).insertCalls == ins.insertCalls
    ensures Run(ins, its).touches == ins.touches
    decreases |its|
  {
    if |its| > 0 {
      IneligibleRunsInsertNothing(Step(ins, its[0]), its[1..]);
    }
  }

  /** The test of an eligible Sone whose `touchConfiguration` stops the
      inserter: one insert, `Inserting` then `Inserted`, one duration
      sample, configuration touched, the fingerprint recorded, and the
      following iteration returns. */
  lemma EligibleInsertSucceeds(soneId: string, sone: Sone, next: Iteration)
    ensures var it := Iteration(false, Some(sone), Eligible(true), InsertSucceeded, false);
            var r := Run(NewInserter(soneId), [it]);
            && r.insertCalls == 1 && r.events == [Inserting(sone), Inserted(sone)]
            && r.touches == 1 && r.durations == 1 && r.errors == 0
            && LastInsertFingerprint(r) == Some(sone.fingerprint)
            && Run(Stop(r), [next]).terminated && Run(Stop(r), [next]).events == r.events
  {
    var it := Iteration(false, Some(sone), Eligible(true), InsertSucceeded, false);
    assert [it][1..] == [];
    assert [next][1..] == [];
  }

  /** Stopped while inserting: `Inserted` is still posted, the loop returns,
      and neither configuration nor the fingerprint is touched. */
  lemma StoppedDuringSuccessfulInsert(soneId: string, sone: Sone)
    ensures var r := Step(NewInserter(soneId), Iteration(false, Some(sone), Eligible(true), InsertSucceeded, true));
            && r.events == [Inserting(sone), Inserted(sone)]
            && r.touches == 0 && r.terminated && LastInsertFingerprint(r) == None
  {
  }

  /** A failed insert: `Inserting` then `Aborted`, no duration sample, one
      error, no configuration touch; stopped during it, the loop returns. */
  lemma FailedInsertRecordsError(soneId: string, sone: Sone, next: Iteration)
    ensures var r := Step(NewInserter(soneId), Iteration(false, Some(sone), Eligible(true), InsertFailed, true));
            && r.events == [Inserting(sone), Aborted(sone)]
            && r.durations == 0 && r.errors == 1 && r.touches == 0
            && r.terminated && Step(r, next) == r
  {
  }

  /** An unknown Sone ends the loop; an exception from the detector does not
      escape, and the loop returns on its next stop check. */
  lemma UnknownSoneAndDetectorExceptions(soneId: string, sone: Sone, next: Iteration)
    ensures Step(NewInserter(soneId), Iteration(false, None, Eligible(true), InsertSucceeded, false)).terminated
    ensures var r := Step(NewInserter(soneId), Iteration(false, Some(sone), Threw, InsertSucceeded, false));
            !r.terminated && r.events == [] && Step(Stop(r), next).terminated
  {
  }
}
