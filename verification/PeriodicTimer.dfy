/**
  The drift-compensating periodic callback of cyber/timer/timer.cc.  Times are nanoseconds and
  durations milliseconds; the 64-bit arithmetic wraps as written there, and `llround` is exact
  rounding half away from zero.
*/
module PeriodicTimer {
  import opened Common
  import Modular
  import TimingWheel

  const NS_PER_MS: int := 1_000_000
  const TWO_63: int := 0x8000_0000_0000_0000

  function ToUint64(x: int): (r: nat)
    ensures r < TWO_64
  {
    x % TWO_64
  }

  function ToInt64(x: int): (r: int)
    ensures -TWO_63 <= r < TWO_63
    ensures -TWO_63 <= x < TWO_63 ==> r == x
    ensures (r - x) % TWO_64 == 0
  {
    var u := x % TWO_64;
    if u < TWO_63 then u else u - TWO_64
  }

  /** Nanoseconds to the nearest millisecond, halves away from zero. */
  function RoundToMs(ns: int): (ms: int)
    ensures 2 * ms * NS_PER_MS - NS_PER_MS <= 2 * ns <= 2 * ms * NS_PER_MS + NS_PER_MS
    ensures 2 * ns == 2 * ms * NS_PER_MS - NS_PER_MS ==> ns > 0
    ensures 2 * ns == 2 * ms * NS_PER_MS + NS_PER_MS ==> ns < 0
    ensures ns >= 0 ==> ms >= 0
  {
    if ns >= 0 then (ns + NS_PER_MS / 2) / NS_PER_MS else -((-ns + NS_PER_MS / 2) / NS_PER_MS)
  }

  /** The fields of `TimerTask` that the callback uses. */
  datatype Fields = Fields(
    intervalMs: nat,
    nextFireDurationMs: nat,
    accumulatedErrorNs: int,
    lastExecuteTimeNs: nat)

  function Accumulated(f: Fields, start: nat): int {
    if f.lastExecuteTimeNs == 0 then f.accumulatedErrorNs
    else ToInt64(f.accumulatedErrorNs + ToUint64(start - f.lastExecuteTimeNs - f.intervalMs * NS_PER_MS))
  }

  /** The branch that stretches or shortens the next duration by the error. */
  predicate Compensates(f: Fields, start: nat, end: nat) {
    var executeMs := RoundToMs(ToUint64(end - start));
    && executeMs < f.intervalMs
    && ToInt64(f.intervalMs - executeMs - TimingWheel.TIMER_RESOLUTION_MS) >= RoundToMs(Accumulated(f, start))
  }

  /** The fields after the callback ran from `start` to `end`. */
  function Fire(f: Fields, start: nat, end: nat): Fields {
    var executeMs := RoundToMs(ToUint64(end - start));
    var error := Accumulated(f, start);
    Fields(
      f.intervalMs,
      if Compensates(f, start, end) then ToUint64(f.intervalMs - executeMs - RoundToMs(error))
      else TimingWheel.TIMER_RESOLUTION_MS,
      error, start)
  }

  class TimerTask {
    var intervalMs: nat
    var nextFireDurationMs: nat
    var accumulatedErrorNs: int
    var lastExecuteTimeNs: nat

    function Value(): Fields
      reads this
    {
      Fields(intervalMs, nextFireDurationMs, accumulatedErrorNs, lastExecuteTimeNs)
    }

    constructor (period: nat)
      ensures Value() == Fields(period, period, 0, 0)
    {
      intervalMs, nextFireDurationMs := period, period;
      accumulatedErrorNs, lastExecuteTimeNs := 0, 0;
    }

    /** The lambda that `InitTimerTask` installs, between its two clock readings. */
    method Callback(start: nat, end: nat)
      modifies this
      ensures Value() == Fire(old(Value()), start, end)
    {
      var executeTimeNs := ToUint64(end - start);
      var executeTimeMs := RoundToMs(executeTimeNs);
      if lastExecuteTimeNs == 0 {
        lastExecuteTimeNs := start;
      } else {
        accumulatedErrorNs := ToInt64(accumulatedErrorNs + ToUint64(start - lastExecuteTimeNs - intervalMs * NS_PER_MS));
      }
      lastExecuteTimeNs := start;
      if executeTimeMs >= intervalMs {
        nextFireDurationMs := TimingWheel.TIMER_RESOLUTION_MS;
      } else {
        var accumulatedErrorMs := RoundToMs(accumulatedErrorNs);
        if ToInt64(intervalMs - executeTimeMs - TimingWheel.TIMER_RESOLUTION_MS) >= accumulatedErrorMs {
          nextFireDurationMs := ToUint64(intervalMs - executeTimeMs - accumulatedErrorMs);
        } else {
          nextFireDurationMs := TimingWheel.TIMER_RESOLUTION_MS;
        }
      }
    }
  }

  /** `InitTimerTask` refuses a zero period and one the wheel cannot hold. */
  method InitTimerTask(period: nat) returns (ok: bool, task: TimerTask?)
    ensures ok <==> 0 < period < TimingWheel.TIMER_MAX_INTERVAL_MS
    ensures ok <==> task != null
    ensures ok ==> fresh(task) && task.Value() == Fields(period, period, 0, 0)
  {
    if period == 0 {
      return false, null;
    }
    if period >= TimingWheel.TIMER_MAX_INTERVAL_MS {
      return false, null;
    }
    task := new TimerTask(period);
    ok := true;
  }

  // ---------------------------------------------------------------- whole runs

  /** One firing: the clock before and after the user's callback. */
  datatype Firing = Firing(start: nat, end: nat)

  function Initial(period: nat): Fields {
    Fields(period, period, 0, 0)
  }

  /** The task after a sequence of firings. */
  function After(period: nat, firings: seq<Firing>): (f: Fields)
    ensures f.intervalMs == period
    decreases |firings|
  {
    if firings == [] then Initial(period)
    else
      var k := |firings| - 1;
      Fire(After(period, firings[..k]), firings[k].start, firings[k].end)
  }

  /** The ideal time from the first start to start number `k`, counted from 0. */
  function Grid(period: nat, k: nat): int {
    k * period * NS_PER_MS
  }

  lemma GridStep(period: nat, k: nat)
    ensures Grid(period, k + 1) == Grid(period, k) + period * NS_PER_MS
  {
    assert (k + 1) * period == k * period + period;
  }

  /** How late firing `k`, counted from 0, is against the ideal grid that starts with the first. */
  function Drift(period: nat, firings: seq<Firing>, k: nat): int
    requires k < |firings|
  {
    firings[k].start - firings[0].start - Grid(period, k)
  }

  ghost predicate ClockRuns(firings: seq<Firing>) {
    forall k :: 0 <= k < |firings| ==> 0 < firings[k].start <= firings[k].end
  }

  lemma DriftStep(period: nat, firings: seq<Firing>, k: nat)
    requires 0 < k < |firings|
    ensures Drift(period, firings, k)
         == Drift(period, firings, k - 1) + firings[k].start - firings[k - 1].start - period * NS_PER_MS
  {
    GridStep(period, k - 1);
  }

  /**
    The accumulated error telescopes: after any number of firings it is the drift of the last one
    against the grid of the first, as a 64-bit number, and so exactly the drift unless that
    exceeds 292 years.
  */
  lemma {:induction false} ErrorTelescopes(period: nat, firings: seq<Firing>)
    requires ClockRuns(firings) && firings != []
    ensures var f, k := After(period, firings), |firings| - 1;
      && f.accumulatedErrorNs == ToInt64(Drift(period, firings, k))
      && (-TWO_63 <= Drift(period, firings, k) < TWO_63 ==> f.accumulatedErrorNs == Drift(period, firings, k))
      && f.lastExecuteTimeNs == firings[k].start
    decreases |firings|
  {
    hide Compensates, Fire, ToInt64, ToUint64, Grid;
    var k := |firings| - 1;
    var before := firings[..k];
    LastFiring(period, firings);
    DriftIs(period, firings, k);
    if before == [] {
      InRangeIsSame(0);
    } else {
      ErrorTelescopes(period, before);
      DriftStep(period, firings, k);
      var d := firings[k].start - firings[k - 1].start - period * NS_PER_MS;
      SumWraps(Drift(period, before, k - 1), d);
      InRangeIsSame(Drift(period, firings, k));
    }
  }

  lemma SumWraps(a: int, b: int)
    ensures ToInt64(ToInt64(a) + ToUint64(b)) == ToInt64(a + b)
  {
    var j, k := (ToInt64(a) - a) / TWO_64, b / TWO_64;
    assert ToInt64(a) + ToUint64(b) == a + b + (j - k) * TWO_64;
    Modular.ModShift(a + b, j - k, TWO_64);
  }

  /**
    A start at clock zero is taken for no start at all: whatever came before, the firings behind it
    add their drift against a grid of their own, which begins with the first of them, and the step
    from the zero start to that one is lost.
  */
  lemma {:induction false} ZeroStartIsForgotten(period: nat, before: seq<Firing>, rest: seq<Firing>)
    requires before != [] && before[|before| - 1].start == 0
    requires rest != [] && ClockRuns(rest)
    ensures var f := After(period, before + rest);
      && f.accumulatedErrorNs == ToInt64(After(period, before).accumulatedErrorNs + Drift(period, rest, |rest| - 1))
      && f.lastExecuteTimeNs == rest[|rest| - 1].start
    decreases |rest|
  {
    hide *;
    var k, all := |rest| - 1, before + rest;
    NextError(period, all);
    NextError(period, before);
    StartsArePositive(rest, k);
    assert all[..|all| - 1] == before + rest[..k] && all[|all| - 1] == rest[k];
    if k == 0 {
      assert before + rest[..0] == before;
      DriftIs(period, rest, 0);
    } else {
      ZeroStartIsForgotten(period, before, rest[..k]);
      DriftStep(period, rest, k);
      DriftIs(period, rest, k);
      var error := After(period, before).accumulatedErrorNs;
      SumWraps(error + Drift(period, rest, k - 1), rest[k].start - rest[k - 1].start - period * NS_PER_MS);
    }
  }

  /** What one more firing does to the error and the last start. */
  lemma NextError(period: nat, firings: seq<Firing>)
    requires firings != []
    ensures var f, g, start := After(period, firings[..|firings| - 1]), After(period, firings), firings[|firings| - 1].start;
      && g.lastExecuteTimeNs == start
      && ToInt64(g.accumulatedErrorNs) == g.accumulatedErrorNs
      && g.accumulatedErrorNs == (if f.lastExecuteTimeNs == 0 then f.accumulatedErrorNs
           else ToInt64(f.accumulatedErrorNs + ToUint64(start - f.lastExecuteTimeNs - period * NS_PER_MS)))
  {
    hide *;
    LastFiring(period, firings);
    ErrorRange(period, firings);
    InRangeIsSame(After(period, firings).accumulatedErrorNs);
    AccumulatedIs(After(period, firings[..|firings| - 1]), firings[|firings| - 1].start);
  }

  lemma InRangeIsSame(x: int)
    ensures -TWO_63 <= x < TWO_63 ==> ToInt64(x) == x
    ensures 0 <= x < TWO_64 ==> ToUint64(x) == x
  {
  }

  lemma AccumulatedIs(f: Fields, start: nat)
    ensures Accumulated(f, start) == if f.lastExecuteTimeNs == 0 then f.accumulatedErrorNs
      else ToInt64(f.accumulatedErrorNs + ToUint64(start - f.lastExecuteTimeNs - f.intervalMs * NS_PER_MS))
  {
  }

  lemma StartsArePositive(firings: seq<Firing>, k: nat)
    requires ClockRuns(firings) && k < |firings|
    ensures firings[k].start > 0 && ClockRuns(firings[..k])
    ensures k > 0 ==> firings[k - 1].start > 0
  {
  }

  lemma DriftIs(period: nat, firings: seq<Firing>, k: nat)
    requires k < |firings|
    ensures Drift(period, firings, k) == firings[k].start - firings[0].start - Grid(period, k)
    ensures Drift(period, firings, 0) == 0
    ensures k > 0 ==> Drift(period, firings[..k], k - 1) == Drift(period, firings, k - 1)
  {
  }

  /** In particular a clock that starts at zero starts the timer's grid with the first later start. */
  lemma {:induction false} ZerosAddNothing(period: nat, zeros: seq<Firing>)
    requires forall i :: 0 <= i < |zeros| ==> zeros[i].start == 0
    ensures After(period, zeros).accumulatedErrorNs == 0 && After(period, zeros).lastExecuteTimeNs == 0
    decreases |zeros|
  {
    if zeros != [] {
      ZerosAddNothing(period, zeros[..|zeros| - 1]);
    }
  }

  /** The next duration is never below the resolution of the wheel, and never wraps. */
  lemma DurationAtLeastResolution(f: Fields, start: nat, end: nat)
    requires f.intervalMs < TimingWheel.TIMER_MAX_INTERVAL_MS
    requires -TWO_63 <= f.accumulatedErrorNs < TWO_63
    ensures Fire(f, start, end).nextFireDurationMs >= TimingWheel.TIMER_RESOLUTION_MS
    ensures Compensates(f, start, end) ==>
      Fire(f, start, end).nextFireDurationMs
        == f.intervalMs - RoundToMs(ToUint64(end - start)) - RoundToMs(Accumulated(f, start))
  {
  }

  /**
    The whole rule of the next duration, after any firings.  It is the period, less the rounded time
    of the callback and less the rounded drift of its start, if the callback is shorter than the
    period and this is at least the resolution of the wheel; otherwise it is exactly the resolution.
    The first duration is the period.
  */
  lemma NextDurationRule(period: nat, firings: seq<Firing>)
    requires 0 < period < TimingWheel.TIMER_MAX_INTERVAL_MS && ClockRuns(firings)
    requires firings != [] ==>
      var k := |firings| - 1;
      -TWO_63 <= Drift(period, firings, k) < TWO_63 && firings[k].end - firings[k].start < TWO_64
    ensures After(period, firings).nextFireDurationMs ==
      if firings == [] then period
      else
        var k := |firings| - 1;
        var executed, drift := RoundToMs(firings[k].end - firings[k].start), RoundToMs(Drift(period, firings, k));
        if executed < period && period - executed - drift >= 2 then period - executed - drift else 2
  {
    if firings != [] {
      var k := |firings| - 1;
      assert firings[k].start <= firings[k].end;
      ErrorTelescopes(period, firings);
      LastFiring(period, firings);
      hide *;
      FireRule(After(period, firings[..k]), firings[k].start, firings[k].end);
    }
  }

  lemma FireRule(f: Fields, start: nat, end: nat)
    requires 0 < f.intervalMs < TimingWheel.TIMER_MAX_INTERVAL_MS && 0 <= end - start < TWO_64
    requires -TWO_63 <= Accumulated(f, start) < TWO_63
    ensures var executed, drift := RoundToMs(end - start), RoundToMs(Accumulated(f, start));
      Fire(f, start, end).nextFireDurationMs ==
        if executed < f.intervalMs && f.intervalMs - executed - drift >= 2 then f.intervalMs - executed - drift else 2
  {
    hide Accumulated, RoundToMs, ToInt64, ToUint64;
    var executed, drift := RoundToMs(end - start), RoundToMs(Accumulated(f, start));
    InRangeIsSame(end - start);
    InRangeIsSame(f.intervalMs - executed - TimingWheel.TIMER_RESOLUTION_MS);
    InRangeIsSame(f.intervalMs - executed - drift);
  }

  /**
    In the compensating branch the planned next start, the end of the callback plus the chosen
    duration, is within one millisecond of the grid.
  */
  lemma PlannedStartIsOnGrid(period: nat, firings: seq<Firing>)
    requires 0 < period < TimingWheel.TIMER_MAX_INTERVAL_MS && firings != [] && ClockRuns(firings)
    requires var k := |firings| - 1;
      && -TWO_63 <= Drift(period, firings, k) < TWO_63
      && firings[k].end - firings[k].start < TWO_64
      && Compensates(After(period, firings[..k]), firings[k].start, firings[k].end)
    ensures var k := |firings| - 1;
      var planned := firings[k].end + After(period, firings).nextFireDurationMs * NS_PER_MS;
      -NS_PER_MS <= planned - firings[0].start - Grid(period, k + 1) <= NS_PER_MS
  {
    var k := |firings| - 1;
    var f, first := After(period, firings[..k]), firings[0].start;
    LastFiring(period, firings);
    DriftIs(period, firings, k);
    InRangeIsSame(firings[k].end - firings[k].start);
    assert firings[k].start <= firings[k].end;
    hide *;
    ErrorRange(period, firings[..k]);
    ErrorTelescopes(period, firings);
    DurationAtLeastResolution(f, firings[k].start, firings[k].end);
    PlanIsNear(firings[k].start, firings[k].end, period, Drift(period, firings, k));
    GridStep(period, k);
  }

  lemma LastFiring(period: nat, firings: seq<Firing>)
    requires firings != []
    ensures var k := |firings| - 1; var f := After(period, firings[..k]);
      && After(period, firings) == Fire(f, firings[k].start, firings[k].end)
      && After(period, firings).accumulatedErrorNs == Accumulated(f, firings[k].start)
      && After(period, firings).lastExecuteTimeNs == firings[k].start
  {
  }

  /** Two roundings, of the execution time and of the error, cost half a millisecond each. */
  lemma PlanIsNear(start: int, end: int, period: int, drift: int)
    ensures var planned := end + (period - RoundToMs(end - start) - RoundToMs(drift)) * NS_PER_MS;
      -NS_PER_MS <= planned - (start - drift) - period * NS_PER_MS <= NS_PER_MS
  {
    var e, r := RoundToMs(end - start), RoundToMs(drift);
    assert (period - e - r) * NS_PER_MS == period * NS_PER_MS - e * NS_PER_MS - r * NS_PER_MS;
  }

  lemma {:induction false} ErrorRange(period: nat, firings: seq<Firing>)
    ensures -TWO_63 <= After(period, firings).accumulatedErrorNs < TWO_63
    decreases |firings|
  {
    if firings != [] {
      ErrorRange(period, firings[..|firings| - 1]);
    }
  }

  /** Every callback is short, and every start but the first comes at most `early` before and `late` after its plan. */
  ghost predicate WheelKeepsUp(period: nat, firings: seq<Firing>, early: nat, late: nat) {
    forall k :: 0 <= k < |firings| - 1 ==>
      ShortCallback(period, firings[k], late) && OnTime(period, firings, early, late, k)
  }

  /**
    The callback leaves room in the period for the resolution of the wheel and for making up one
    millisecond and one lateness.
  */
  predicate ShortCallback(period: nat, firing: Firing, late: nat) {
    RoundToMs(firing.end - firing.start) + RoundToMs(NS_PER_MS + late) + TimingWheel.TIMER_RESOLUTION_MS <= period
  }

  ghost predicate OnTime(period: nat, firings: seq<Firing>, early: nat, late: nat, k: nat)
    requires k < |firings| - 1
  {
    var planned := firings[k].end + After(period, firings[..k + 1]).nextFireDurationMs * NS_PER_MS;
    planned - early <= firings[k + 1].start <= planned + late
  }

  /** A start is within one millisecond and the wheel's own error of the grid. */
  predicate Near(drift: int, early: nat, late: nat) {
    -NS_PER_MS - early <= drift <= NS_PER_MS + late
  }

  lemma RoundIsMonotone(x: int, y: int)
    requires x <= y
    ensures RoundToMs(x) <= RoundToMs(y)
  {
  }

  lemma RoundIsOdd(x: int)
    ensures RoundToMs(-x) == -RoundToMs(x)
  {
  }

  /** A short callback that starts near the grid takes the compensating branch. */
  lemma ShortIsCompensated(period: nat, firings: seq<Firing>, early: nat, late: nat)
    requires 0 < period < TimingWheel.TIMER_MAX_INTERVAL_MS && firings != [] && ClockRuns(firings)
    requires early < TWO_63 - NS_PER_MS
    requires var k := |firings| - 1;
      ShortCallback(period, firings[k], late) && Near(Drift(period, firings, k), early, late)
    ensures var k := |firings| - 1;
      && firings[k].end - firings[k].start < TWO_64
      && -TWO_63 <= Drift(period, firings, k) < TWO_63
      && Compensates(After(period, firings[..k]), firings[k].start, firings[k].end)
  {
    var k := |firings| - 1;
    var x := firings[k].end - firings[k].start;
    assert 0 <= RoundToMs(x) && 0 <= RoundToMs(NS_PER_MS + late);
    assert 2 * x <= 2 * RoundToMs(x) * NS_PER_MS + NS_PER_MS;
    InRangeIsSame(x);
    RoundIsMonotone(Drift(period, firings, k), NS_PER_MS + late);
    RoundIsMonotone(-TWO_63, Drift(period, firings, k));
    ErrorTelescopes(period, firings);
    LastFiring(period, firings);
  }

  /** A start that is near the grid, with a short callback and a punctual wheel, makes the next start near. */
  lemma NextIsNear(period: nat, firings: seq<Firing>, early: nat, late: nat, k: nat)
    requires 0 < period < TimingWheel.TIMER_MAX_INTERVAL_MS && ClockRuns(firings)
    requires early < TWO_63 - NS_PER_MS && k < |firings| - 1
    requires ShortCallback(period, firings[k], late) && OnTime(period, firings, early, late, k)
    requires Near(Drift(period, firings, k), early, late)
    ensures Near(Drift(period, firings, k + 1), early, late)
  {
    hide After, Drift, Grid, ClockRuns, ShortCallback, Compensates;
    var upto := firings[..k + 1];
    StartsArePositive(firings, k + 1);
    DriftIs(period, firings, k + 1);
    ShortIsCompensated(period, upto, early, late);
    PlannedStartIsOnGrid(period, upto);
  }

  /**
    So drift does not build up: while callbacks are short and the wheel fires at most `early` before
    and `late` after the planned time, every firing, however many there were, is within one
    millisecond and the wheel's own error of the grid.
  */
  lemma {:induction false} DriftStaysBounded(period: nat, firings: seq<Firing>, early: nat, late: nat, k: nat)
    requires 0 < period < TimingWheel.TIMER_MAX_INTERVAL_MS && ClockRuns(firings)
    requires early < TWO_63 - NS_PER_MS
    requires WheelKeepsUp(period, firings, early, late) && k < |firings|
    ensures -NS_PER_MS - early <= Drift(period, firings, k) <= NS_PER_MS + late
    decreases k
  {
    if k == 0 {
      DriftIs(period, firings, 0);
    } else {
      DriftStaysBounded(period, firings, early, late, k - 1);
      assert ShortCallback(period, firings[k - 1], late) && OnTime(period, firings, early, late, k - 1);
      hide ShortCallback, OnTime, Drift, ClockRuns;
      NextIsNear(period, firings, early, late, k - 1);
    }
  }
}
