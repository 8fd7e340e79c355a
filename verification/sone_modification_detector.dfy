/** Decides when a modified Sone may be inserted: a new fingerprint must be
    seen on two checks, stay unchanged for the insertion delay, and the
    Sone must not be locked. The provider's lock flag and fingerprint, the
    ticker reading and the shared insertion delay are explicit inputs. */
module SoneModificationDetector {
  import opened Wrappers
  import opened Numbers

  const NanosPerSecond: int := 1_000_000_000

  /** `lastModificationTime` is a ticker reading in nanoseconds; `None` is Java's null. */
  datatype Detector = Detector(
    lastInsertFingerprint: Option<string>,
    lastCheckFingerprint: Option<string>,
    lastModificationTime: Option<Long>)

  /** The answer of `isEligibleForInsert`. `NullTime` is the
      `NullPointerException` raised when the recorded time is null but is
      needed for the delay comparison. */
  datatype Eligibility = Decided(eligible: bool) | NullTime

  /** A newly constructed detector: nothing inserted, nothing checked. */
  const Fresh: Detector := Detector(None, None, None)

  /** Whole seconds between two ticker readings, as `NANOSECONDS.toSeconds`
      computes them from the wrapped `long` difference. */
  function ElapsedSeconds(since: Long, now: Long): int {
    TruncDiv(WrapLong(now - since), NanosPerSecond)
  }

  /** `isEligibleForInsert`: the new detector state and the answer. */
  function Check(d: Detector, locked: bool, fingerprint: string, now: Long, insertionDelay: Int32): (r: (Detector, Eligibility))
    // a locked Sone is never eligible and forgets what it saw
    ensures locked ==> r.1 == Decided(false) && r.0.lastModificationTime == None && r.0.lastCheckFingerprint == Some("")
    // the fingerprint that was inserted last is never eligible again
    ensures !locked && Some(fingerprint) == d.lastInsertFingerprint ==>
      r.1 == Decided(false) && r.0.lastModificationTime == None && r.0.lastCheckFingerprint == Some(fingerprint)
    // a fingerprint that differs from the last check starts the clock and is not eligible yet
    ensures !locked && Some(fingerprint) != d.lastInsertFingerprint && d.lastCheckFingerprint != Some(fingerprint) ==>
      r.1 == Decided(false) && r.0.lastModificationTime == Some(now) && r.0.lastCheckFingerprint == Some(fingerprint)
    // a repeated modified fingerprint keeps the state, so the clock keeps running from its first sighting
    ensures !locked && Some(fingerprint) != d.lastInsertFingerprint && d.lastCheckFingerprint == Some(fingerprint) ==> r.0 == d
    // eligible exactly when the same modified fingerprint was seen before and the delay has passed
    ensures r.1 == Decided(true) <==>
      && !locked
      && Some(fingerprint) != d.lastInsertFingerprint
      && d.lastCheckFingerprint == Some(fingerprint)
      && d.lastModificationTime.Some?
      && ElapsedSeconds(d.lastModificationTime.value, now) >= insertionDelay
    // the null recorded time is only reached on a repeated modified fingerprint
    ensures r.1 == NullTime <==>
      !locked && Some(fingerprint) != d.lastInsertFingerprint && d.lastCheckFingerprint == Some(fingerprint) && d.lastModificationTime.None?
    // checking never changes what was inserted last
    ensures r.0.lastInsertFingerprint == d.lastInsertFingerprint
  {
    if locked then
      (d.(lastModificationTime := None, lastCheckFingerprint := Some("")), Decided(false))
    else if Some(fingerprint) == d.lastInsertFingerprint then
      (d.(lastModificationTime := None, lastCheckFingerprint := Some(fingerprint)), Decided(false))
    else if d.lastCheckFingerprint != Some(fingerprint) then
      (d.(lastModificationTime := Some(now), lastCheckFingerprint := Some(fingerprint)), Decided(false))
    else if d.lastModificationTime.None? then
      (d, NullTime)
    else
      (d, Decided(ElapsedSeconds(d.lastModificationTime.value, now) >= insertionDelay))
  }

  /** `setFingerprint`: records an inserted fingerprint and clears the clock. */
  function SetFingerprint(d: Detector, fingerprint: string): (r: Detector)
    ensures LastInsertFingerprint(r) == Some(fingerprint)
    ensures r.lastCheckFingerprint == Some(fingerprint)
    ensures r.lastModificationTime == None
  {
    Detector(Some(fingerprint), Some(fingerprint), None)
  }

  /** `getLastInsertFingerprint`. */
  function LastInsertFingerprint(d: Detector): Option<string> {
    d.lastInsertFingerprint
  }

  /** `isModified`: the provider's fingerprint differs from the inserted one
      (null-safe: nothing inserted yet counts as modified). */
  function IsModified(d: Detector, fingerprint: string): (r: bool)
    ensures r <==> d.lastInsertFingerprint != Some(fingerprint)
    ensures d.lastInsertFingerprint.None? ==> r
  {
    !(Some(fingerprint) == d.lastInsertFingerprint)
  }

  /** The states a detector can reach: whenever the clock is cleared while a
      fingerprint is remembered as checked, that fingerprint is either the
      inserted one or the empty marker left by a locked check. */
  predicate Reachable(d: Detector) {
    d.lastModificationTime.None? && d.lastCheckFingerprint.Some? ==>
      d.lastCheckFingerprint.value == "" || d.lastCheckFingerprint == d.lastInsertFingerprint
  }

  lemma FreshIsReachable()
    ensures Reachable(Fresh)
  {
  }

  /** Every operation keeps the detector among the reachable states. */
  lemma CheckPreservesReachable(d: Detector, locked: bool, fingerprint: string, now: Long, insertionDelay: Int32)
    requires Reachable(d)
    ensures Reachable(Check(d, locked, fingerprint, now, insertionDelay).0)
  {
  }

  lemma SetFingerprintPreservesReachable(d: Detector, fingerprint: string)
    ensures Reachable(SetFingerprint(d, fingerprint))
  {
  }

  /** In a reachable state the null time is only dereferenced when the empty
      fingerprint follows a locked check and was never inserted. */
  lemma NullTimeOnlyForEmptyFingerprint(d: Detector, locked: bool, fingerprint: string, now: Long, insertionDelay: Int32)
    requires Reachable(d)
    requires Check(d, locked, fingerprint, now, insertionDelay).1 == NullTime
    ensures fingerprint == "" && d.lastCheckFingerprint == Some("") && d.lastInsertFingerprint != Some("")
  {
  }

  /** The latent null dereference is reachable: a fresh detector that is
      checked while locked and then with the empty fingerprint fails. */
  lemma NullTimeAfterLockedCheck(now: Long, later: Long, insertionDelay: Int32)
    ensures var (d1, e1) := Check(Fresh, true, "", now, insertionDelay);
            e1 == Decided(false) && Check(d1, false, "", later, insertionDelay).1 == NullTime
  {
  }

  /** A fresh detector's first unlocked check records the time and answers no. */
  lemma FirstCheckIsNotEligible(fingerprint: string, now: Long, insertionDelay: Int32)
    ensures Check(Fresh, false, fingerprint, now, insertionDelay) == (Detector(None, Some(fingerprint), Some(now)), Decided(false))
  {
  }

  /** For a ticker that does not run backwards and a difference that fits in
      a `long`, the whole-second comparison is the comparison of nanoseconds. */
  lemma ElapsedSecondsReachDelay(since: Long, now: Long, insertionDelay: Int32)
    requires since <= now && now - since <= MaxLong
    ensures ElapsedSeconds(since, now) >= insertionDelay <==> now - since >= insertionDelay * NanosPerSecond
  {
    var x := now - since;
    assert WrapLong(x) == x;
    var q := x / NanosPerSecond;
    assert ElapsedSeconds(since, now) == q;
    assert q * NanosPerSecond <= x < q * NanosPerSecond + NanosPerSecond;
    if q >= insertionDelay {
      assert q * NanosPerSecond >= insertionDelay * NanosPerSecond;
    } else {
      assert q + 1 <= insertionDelay;
      assert (q + 1) * NanosPerSecond <= insertionDelay * NanosPerSecond;
    }
  }

  /** Stability: a modified fingerprint first seen at `first` becomes eligible
      on an unlocked re-check at `later` exactly when the insertion delay
      has passed in between; a locked re-check is never eligible. */
  lemma {:induction false} SeenTwiceAndStable(d: Detector, fingerprint: string, first: Long, later: Long, insertionDelay: Int32)
    requires Some(fingerprint) != d.lastInsertFingerprint && d.lastCheckFingerprint != Some(fingerprint)
    requires first <= later && later - first <= MaxLong
    ensures var (d1, e1) := Check(d, false, fingerprint, first, insertionDelay);
            && e1 == Decided(false)
            && Check(d1, false, fingerprint, later, insertionDelay).1 == Decided(later - first >= insertionDelay * NanosPerSecond)
            && Check(d1, true, fingerprint, later, insertionDelay).1 == Decided(false)
  {
    ElapsedSecondsReachDelay(first, later, insertionDelay);
  }

  /** Right after `setFingerprint(current)` the Sone is not modified and not
      eligible; once the fingerprint changes it is modified again. */
  lemma SetFingerprintThenCheck(d: Detector, fingerprint: string, other: string, locked: bool, now: Long, insertionDelay: Int32)
    requires other != fingerprint
    ensures !IsModified(SetFingerprint(d, fingerprint), fingerprint)
    ensures IsModified(SetFingerprint(d, fingerprint), other)
    ensures Check(SetFingerprint(d, fingerprint), locked, fingerprint, now, insertionDelay).1 == Decided(false)
  {
  }

  /** A negative ticker difference truncates toward zero, unlike Dafny's `/`:
      half a second backwards is zero seconds, not minus one. */
  lemma BackwardsTickerTruncatesTowardZero()
    ensures ElapsedSeconds(NanosPerSecond / 2, 0) == 0
    ensures (0 - NanosPerSecond / 2) / NanosPerSecond == -1
  {
  }
}
