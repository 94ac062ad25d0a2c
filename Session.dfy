/** The tracking session of App.tsx: start and stop of the capture, the
    one-second tick that drives the scan countdown and the optional auto-stop
    countdown, and the bookkeeping after a scan. The React state variables are
    the fields of one object; each setter call is an assignment. */
module Session {
  import opened Types
  import opened App

  /** The outcome of one tick of the scan countdown. */
  datatype ScanTick = ScanTick(fire: bool, next: int)

  /** The updater given to `setTimeLeft` (App.tsx:144-150). */
  function ScanStep(prev: int, intervalTime: int): (t: ScanTick)
    ensures t.fire <==> prev <= 1
    ensures t.fire ==> t.next == intervalTime
    ensures !t.fire ==> t.next == prev - 1
    ensures 1 <= prev <= intervalTime ==> 1 <= t.next <= intervalTime
  {
    if prev <= 1 then ScanTick(true, intervalTime) else ScanTick(false, prev - 1)
  }

  /** The outcome of one tick of the auto-stop countdown. */
  datatype StopTick = StopTick(stop: bool, next: Option<int>)

  /** The updater given to `setAutoStopCountdown` (App.tsx:153-163). */
  function AutoStopStep(prev: Option<int>): (t: StopTick)
    ensures prev.None? ==> t == StopTick(false, None)
    ensures t.stop ==> t.next.None?
    ensures prev.Some? && prev.value >= 1 ==> (t.stop <==> prev.value == 1)
    ensures t.next.Some? ==> prev.Some? && t.next.value == prev.value - 1 >= 1
    ensures prev.Some? && prev.value > 1 ==> t == StopTick(false, Some(prev.value - 1))
    ensures prev.Some? && prev.value <= 1 ==> t == StopTick(true, None)
  {
    match prev
    case None => StopTick(false, None)
    case Some(c) => if c <= 1 then StopTick(true, None) else StopTick(false, Some(c - 1))
  }

  /** The countdown armed by a start: `minutes * 60` only for a positive
      number of minutes; `None` stands for an empty or non-numeric entry. */
  function ArmAutoStop(minutes: Option<int>): (a: Option<int>)
    ensures a.Some? <==> minutes.Some? && minutes.value > 0
    ensures a.Some? ==> a.value == minutes.value * 60 && a.value >= 60
  {
    if minutes.Some? && minutes.value > 0 then Some(minutes.value * 60) else None
  }

  /** The status line after a scan. */
  function AnalysisLabel(matchId: Option<string>): (s: string)
    ensures matchId.None? || matchId.value == "" ==> s == "No match"
    ensures matchId == Some(UnknownId) ==> s == "Match: Idle"
    ensures matchId.Some? && matchId.value != "" && matchId.value != UnknownId ==> s == "Match: Tracked"
  {
    if matchId.Some? && matchId.value != "" then
      (if matchId.value == UnknownId then "Match: Idle" else "Match: Tracked")
    else "No match"
  }

  // ----------------------------------------------------------------------
  // Several ticks of the countdowns

  /** Scans fired during `n` ticks that start from scan countdown `c`. */
  function ScansIn(c: int, intervalTime: int, n: nat): nat
    decreases n
  {
    if n == 0 then 0
    else
      var t := ScanStep(c, intervalTime);
      (if t.fire then 1 else 0) + ScansIn(t.next, intervalTime, n - 1)
  }

  /** The scan cadence: from countdown `c` the first scan fires on tick `c`,
      then one every `intervalTime` ticks. */
  lemma {:induction false} ScanCadence(c: int, intervalTime: int, n: nat)
    requires c >= 1 && intervalTime >= 1
    ensures ScansIn(c, intervalTime, n) == if n < c then 0 else 1 + (n - c) / intervalTime
    decreases n
  {
    if n > 0 {
      if c <= 1 {
        ScanCadence(intervalTime, intervalTime, n - 1);
        if n - 1 >= intervalTime {
          DivStep(n - 1, intervalTime);
        } else {
          DivSmall(n - 1, intervalTime);
        }
      } else {
        ScanCadence(c - 1, intervalTime, n - 1);
      }
    }
  }

  lemma DivStep(a: int, d: int)
    requires a >= d >= 1
    ensures (a - d) / d + 1 == a / d
  {
    var q := (a - d) / d;
    var r := (a - d) % d;
    assert a - d == q * d + r && 0 <= r < d;
    assert a == (q + 1) * d + r;
    DivModUnique(a, d, q + 1, r);
  }

  lemma DivSmall(a: int, d: int)
    requires 0 <= a < d
    ensures a / d == 0
  {
    DivModUnique(a, d, 0, a);
  }

  /** The auto-stop countdown over `n` ticks: whether the session stopped and
      the value it was left with. Once stopped no tick runs. */
  function AutoStopRun(a: Option<int>, n: nat): StopTick
    decreases n
  {
    if n == 0 then StopTick(false, a)
    else
      var t := AutoStopStep(a);
      if t.stop then t else AutoStopRun(t.next, n - 1)
  }

  /** Armed at `k` seconds, the session runs exactly `k` ticks: before tick `k`
      it is still tracking with `k - n` seconds shown, from tick `k` on it has
      stopped and the countdown is cleared. Unarmed, it never stops. */
  lemma {:induction false} AutoStopAfter(a: Option<int>, n: nat)
    requires a.Some? ==> a.value >= 1
    ensures a.None? ==> AutoStopRun(a, n) == StopTick(false, None)
    ensures a.Some? && n < a.value ==> AutoStopRun(a, n) == StopTick(false, Some(a.value - n))
    ensures a.Some? && n >= a.value ==> AutoStopRun(a, n) == StopTick(true, None)
    decreases n
  {
    if n > 0 {
      if a.Some? && a.value > 1 {
        AutoStopAfter(Some(a.value - 1), n - 1);
      } else if a.None? {
        AutoStopAfter(a, n - 1);
      }
    }
  }

  /** A session started with a positive number of minutes stops itself on
      exactly the tick that ends the last of those minutes; one started
      without stays on until stopped. */
  lemma {:induction false} StartedSessionStopsOnTime(minutes: Option<int>, n: nat)
    ensures minutes.Some? && minutes.value > 0 ==>
      (AutoStopRun(ArmAutoStop(minutes), n).stop <==> n >= minutes.value * 60)
    ensures !(minutes.Some? && minutes.value > 0) ==> !AutoStopRun(ArmAutoStop(minutes), n).stop
  {
    AutoStopAfter(ArmAutoStop(minutes), n);
  }

  // ----------------------------------------------------------------------
  // The session object

  class TrackingSession {
    var isTracking: bool
    /** Whether a capture stream is held (`stream !== null`). */
    var hasStream: bool
    var intervalTime: int
    var timeLeft: int
    var autoStopCountdown: Option<int>
    var scanCount: int
    var lastAnalysis: Option<string>
    var items: seq<TrackItem>

    /** The collection keeps its counters in step with its histories. */
    predicate Valid()
      reads this
    {
      Consistent(items)
    }

    /** The initial state, with the loaded collection already in place
        (App.tsx:11-16, 24-26, 35-37). */
    constructor(loaded: seq<TrackItem>)
      requires Consistent(loaded)
      ensures Valid()
      ensures !isTracking && !hasStream && intervalTime == 30 && timeLeft == 0
      ensures autoStopCountdown.None? && scanCount == 0 && lastAnalysis.None?
      ensures items == loaded
    {
      isTracking := false;
      hasStream := false;
      intervalTime := 30;
      timeLeft := 0;
      autoStopCountdown := None;
      scanCount := 0;
      lastAnalysis := None;
      items := loaded;
    }

    /** The interval input, enabled only while not tracking (App.tsx:376-381). */
    method SetIntervalTime(seconds: int)
      requires !isTracking
      requires Valid()
      ensures Valid()
      modifies this
      ensures intervalTime == seconds
      ensures isTracking == old(isTracking) && hasStream == old(hasStream)
      ensures timeLeft == old(timeLeft) && autoStopCountdown == old(autoStopCountdown)
      ensures scanCount == old(scanCount) && lastAnalysis == old(lastAnalysis) && items == old(items)
    {
      intervalTime := seconds;
    }

    /** `startCapture` (App.tsx:46-79). `acquired` says whether the browser
        granted a capture stream; `minutes` is the parsed auto-stop entry. On
        success the first scan is due on the next tick; on failure only the
        tracking flag is cleared. */
    method Start(minutes: Option<int>, acquired: bool)
      requires Valid()
      ensures Valid()
      modifies this
      ensures acquired ==> && isTracking && hasStream && scanCount == 0 && timeLeft == 1
                           && autoStopCountdown == ArmAutoStop(minutes)
                           && lastAnalysis == old(lastAnalysis)
      ensures !acquired ==> && !isTracking && hasStream == old(hasStream)
                            && scanCount == old(scanCount) && timeLeft == old(timeLeft)
                            && autoStopCountdown == old(autoStopCountdown)
                            && lastAnalysis == old(lastAnalysis)
      ensures intervalTime == old(intervalTime) && items == old(items)
    {
      if acquired {
        hasStream := true;
        scanCount := 0;
        timeLeft := 1;
        autoStopCountdown := ArmAutoStop(minutes);
        isTracking := true;
      } else {
        isTracking := false;
      }
    }

    /** `stopCapture` (App.tsx:81-89). */
    method Stop()
      requires Valid()
      ensures Valid()
      modifies this
      ensures !isTracking && !hasStream && lastAnalysis.None? && autoStopCountdown.None?
      ensures intervalTime == old(intervalTime) && timeLeft == old(timeLeft)
      ensures scanCount == old(scanCount) && items == old(items)
    {
      hasStream := false;
      isTracking := false;
      lastAnalysis := None;
      autoStopCountdown := None;
    }

    /** One second of the interval timer (App.tsx:140-164): the scan countdown
        steps first and reports whether a scan is due, then the auto-stop
        countdown steps and may stop the session. No timer runs while not
        tracking. */
    method Tick() returns (scanDue: bool)
      requires Valid()
      ensures Valid()
      modifies this
      ensures !old(isTracking) ==>
        && !scanDue && isTracking == old(isTracking)
        && timeLeft == old(timeLeft) && autoStopCountdown == old(autoStopCountdown)
        && hasStream == old(hasStream) && lastAnalysis == old(lastAnalysis)
      ensures old(isTracking) ==>
        && scanDue == ScanStep(old(timeLeft), old(intervalTime)).fire
        && timeLeft == ScanStep(old(timeLeft), old(intervalTime)).next
        && autoStopCountdown == AutoStopStep(old(autoStopCountdown)).next
        && (isTracking <==> !AutoStopStep(old(autoStopCountdown)).stop)
        && (AutoStopStep(old(autoStopCountdown)).stop ==> !hasStream && lastAnalysis.None?)
        && (!AutoStopStep(old(autoStopCountdown)).stop ==>
              hasStream == old(hasStream) && lastAnalysis == old(lastAnalysis))
      ensures intervalTime == old(intervalTime) && scanCount == old(scanCount) && items == old(items)
    {
      scanDue := false;
      if isTracking {
        var t := ScanStep(timeLeft, intervalTime);
        scanDue := t.fire;
        timeLeft := t.next;
        var a := AutoStopStep(autoStopCountdown);
        if a.stop {
          Stop();
        }
        autoStopCountdown := a.next;
      }
    }

    /** `performScan` once its analysis has returned (App.tsx:96-137):
        nothing happens unless the session is tracking with a stream and a
        frame could be drawn; otherwise the status line shows the match, the
        scan counter advances and the result is credited to the collection by
        the updater as written. That agrees with the corrected updater
        whenever the target exists (README, Findings). */
    method PerformScan(frameReady: bool, result: AnalysisResult, now: int)
      requires Valid()
      modifies this
      ensures Valid()
      ensures !(old(isTracking) && old(hasStream) && frameReady) ==>
        items == old(items) && scanCount == old(scanCount) && lastAnalysis == old(lastAnalysis)
      ensures old(isTracking) && old(hasStream) && frameReady ==>
        && lastAnalysis == Some(AnalysisLabel(result.matchId))
        && scanCount == old(scanCount) + 1
        && items == CreditScan(old(items), result, now, old(intervalTime))
        && (HasId(old(items), ScanTarget(result.matchId)) ==>
              items == CreditScanResolved(old(items), result, now, old(intervalTime)))
      ensures isTracking == old(isTracking) && hasStream == old(hasStream)
      ensures intervalTime == old(intervalTime) && timeLeft == old(timeLeft)
      ensures autoStopCountdown == old(autoStopCountdown)
    {
      if isTracking && hasStream && frameReady {
        lastAnalysis := Some("Analyzing...");
        CreditPreservesConsistency(items, result, now, intervalTime);
        if HasId(items, ScanTarget(result.matchId)) {
          CreditResolvedAgrees(items, result, now, intervalTime);
        }
        lastAnalysis := Some(AnalysisLabel(result.matchId));
        scanCount := scanCount + 1;
        items := CreditScan(items, result, now, intervalTime);
      }
    }
  }
}
