/**
  A periodic timer (cyber/timer/timer.cc) on the timing wheel (cyber/timer/timing_wheel.cc) whose
  ticks run every two milliseconds, give or take a jitter: what the wheel's rounding does to the
  timer's grid, and which periods are too long for it.
*/
module TimerOnWheel {
  import opened PeriodicTimer
  import W = TimingWheel

  const RESOLUTION_NS: int := W.TIMER_RESOLUTION_MS * NS_PER_MS

  /** Where the wheel stands when a callback adds its task again. */
  datatype Position = Position(now: nat, nextTick: nat)

  /** The time of index advance `n` and of its tick, without jitter. */
  function TimeOf(origin: int, n: nat): int {
    origin + n * RESOLUTION_NS
  }

  /** A callback that ends at `end` finds the wheel between advance `now` and the next one. */
  predicate AddedAt(origin: int, jitter: nat, end: nat, p: Position) {
    && p.now <= p.nextTick <= p.now + 1
    && TimeOf(origin, p.now) - jitter <= end <= TimeOf(origin, p.now + 1) + jitter
  }

  /** A callback started by tick `n`. */
  predicate StartedBy(origin: int, jitter: nat, start: nat, n: nat) {
    TimeOf(origin, n) <= start <= TimeOf(origin, n) + jitter
  }

  function NextDuration(period: nat, firings: seq<Firing>, k: nat): nat
    requires k < |firings|
  {
    After(period, firings[..k + 1]).nextFireDurationMs
  }

  /** Firing `k` adds the task at its position, and the tick that this asks for starts the next firing. */
  ghost predicate Rearms(period: nat, firings: seq<Firing>, p: Position, origin: int, jitter: nat, k: nat)
    requires k < |firings| - 1
  {
    && AddedAt(origin, jitter, firings[k].end, p)
    && StartedBy(origin, jitter, firings[k + 1].start, W.FireTime(p.now, p.nextTick, NextDuration(period, firings, k)))
  }

  ghost predicate OnWheel(period: nat, firings: seq<Firing>, positions: seq<Position>, origin: int, jitter: nat) {
    && |positions| == |firings|
    && forall k :: 0 <= k < |firings| - 1 ==> Rearms(period, firings, positions[k], origin, jitter, k)
  }

  /** How much too early and too late a task fires that the wheel holds for exactly its ticks. */
  function Early(jitter: nat): nat {
    RESOLUTION_NS + jitter
  }

  function Late(jitter: nat): nat {
    NS_PER_MS + 2 * jitter
  }

  /** The wheel can hold the longest duration that makes up for a start that is `early` too early. */
  predicate Fits(period: nat, early: nat, now: nat) {
    now % W.WORK_WHEEL_SIZE + W.TicksOf(period + RoundToMs(NS_PER_MS + early))
      < (W.ASSISTANT_WHEEL_SIZE + 1) * W.WORK_WHEEL_SIZE
  }

  /** The last firing is near the grid or late, and made up for. */
  ghost predicate MadeUp(period: nat, firings: seq<Firing>, early: nat) {
    firings != [] && ClockRuns(firings) && var k := |firings| - 1;
      && firings[k].end - firings[k].start < TWO_63
      && -NS_PER_MS - early <= Drift(period, firings, k) < TWO_63
      && Compensates(After(period, firings[..k]), firings[k].start, firings[k].end)
  }

  // ---------------------------------------------------------------- which durations the wheel holds

  lemma MadeUpDuration(period: nat, firings: seq<Firing>, early: nat)
    requires 0 < period < W.TIMER_MAX_INTERVAL_MS && early < TWO_63 - NS_PER_MS
    requires MadeUp(period, firings, early)
    ensures var k := |firings| - 1; var d := After(period, firings).nextFireDurationMs;
      && d == period - RoundToMs(firings[k].end - firings[k].start) - RoundToMs(Drift(period, firings, k))
      && W.TIMER_RESOLUTION_MS <= d <= period + RoundToMs(NS_PER_MS + early)
  {
    var k := |firings| - 1;
    var x, drift := firings[k].end - firings[k].start, Drift(period, firings, k);
    assert firings[k].start <= firings[k].end;
    hide *;
    IntervalOf(period, firings[..k]);
    InRangeIsSame(x);
    InRangeIsSame(drift);
    ErrorRange(period, firings[..k]);
    ErrorTelescopes(period, firings);
    LastFiring(period, firings);
    DurationAtLeastResolution(After(period, firings[..k]), firings[k].start, firings[k].end);
    RoundIsMonotone(-NS_PER_MS - early, drift);
    RoundIsOdd(NS_PER_MS + early);
    RoundIsMonotone(0, x);
  }

  /** Firings of a clock that stands still. */
  function Waiting(n: nat): seq<Firing> {
    seq(n, _ => Firing(1, 1))
  }

  /** A firing that comes `n` nanoseconds before its place on the grid, behind `n` that came far before theirs. */
  function EarlyRun(period: nat, n: nat): (firings: seq<Firing>)
    requires period > 0
  {
    GridIsLong(period, n);
    var start: nat := 1 + Grid(period, n) - n;
    Waiting(n) + [Firing(start, start)]
  }

  lemma GridIsLong(period: nat, n: nat)
    requires period > 0
    ensures Grid(period, n) >= n
  {
    assert n * (period - 1) >= 0;
    assert n * period == n * (period - 1) + n;
  }

  lemma EarlyRunIsEarly(period: nat, n: nat)
    requires 0 < n < TWO_63 && period > 0
    ensures var firings := EarlyRun(period, n);
      && |firings| == n + 1 && ClockRuns(firings) && firings[n].start == firings[n].end
      && Drift(period, firings, n) == 0 - n
      && Accumulated(After(period, firings[..n]), firings[n].start) == 0 - n
  {
    hide After, Accumulated;
    GridIsLong(period, n);
    var firings := EarlyRun(period, n);
    var start := firings[n].start;
    assert start == 1 + Grid(period, n) - n && firings[0] == Firing(1, 1);
    assert forall k :: 0 <= k < n ==> firings[k] == Firing(1, 1);
    ErrorTelescopes(period, firings);
    LastFiring(period, firings);
  }

  lemma EarlyRunIsMadeUp(period: nat, early: nat)
    requires 0 < period < W.TIMER_MAX_INTERVAL_MS && early < TWO_63 - NS_PER_MS
    ensures var firings := EarlyRun(period, NS_PER_MS + early);
      && MadeUp(period, firings, early)
      && After(period, firings).nextFireDurationMs == period + RoundToMs(NS_PER_MS + early)
  {
    hide After, Accumulated, ToUint64, ClockRuns, Drift, EarlyRun, Grid;
    var n: int := NS_PER_MS + early;
    var firings := EarlyRun(period, n);
    EarlyRunIsEarly(period, n);
    IntervalOf(period, firings[..n]);
    RoundIsOdd(n);
    RoundIsMonotone(NS_PER_MS, n);
    InRangeIsSame(0);
    MadeUpDuration(period, firings, early);
  }

  lemma IntervalOf(period: nat, firings: seq<Firing>)
    ensures After(period, firings).intervalMs == period
  {
  }

  /**
    From a position of the wheel, every duration that a timer chooses while it is at most a
    millisecond and `early` ahead of its grid fires on exactly the tick it asks for, if and only if
    the longest of them is less than 65 revolutions ahead of the start of the current one.
  */
  lemma MadeUpFiresExactlyIff(period: nat, early: nat, p: Position)
    requires 0 < period < W.TIMER_MAX_INTERVAL_MS && early < TWO_63 - NS_PER_MS
    requires p.now <= p.nextTick <= p.now + 1
    ensures Fits(period, early, p.now) <==> forall firings: seq<Firing> :: MadeUp(period, firings, early) ==>
      var d := After(period, firings).nextFireDurationMs; W.FireTime(p.now, p.nextTick, d) == p.now + W.TicksOf(d)
  {
    hide MadeUp, After, W.FireTime;
    forall firings: seq<Firing> | Fits(period, early, p.now) && MadeUp(period, firings, early)
      ensures var d := After(period, firings).nextFireDurationMs; W.FireTime(p.now, p.nextTick, d) == p.now + W.TicksOf(d)
    {
      MadeUpDuration(period, firings, early);
      W.FireTimeIsExact(p.now, p.nextTick, After(period, firings).nextFireDurationMs);
    }
    var longest := EarlyRun(period, NS_PER_MS + early);
    EarlyRunIsMadeUp(period, early);
    RoundIsMonotone(0, NS_PER_MS + early);
    W.FireTimeIsExact(p.now, p.nextTick, After(period, longest).nextFireDurationMs);
  }

  /** From every position of the wheel, exactly if the longest duration is within the maximal interval. */
  lemma FitsEverywhereIff(period: nat, early: nat)
    ensures (forall now: nat :: Fits(period, early, now)) <==>
      period + RoundToMs(NS_PER_MS + early) <= W.TIMER_MAX_INTERVAL_MS
  {
    RoundIsMonotone(0, NS_PER_MS + early);
    assert Fits(period, early, W.WORK_WHEEL_SIZE - 1) ==>
      period + RoundToMs(NS_PER_MS + early) <= W.TIMER_MAX_INTERVAL_MS;
  }

  // ---------------------------------------------------------------- the drift on the wheel

  /** Rounding up to whole ticks of a wheel that stands inside a tick. */
  lemma TicksArePunctual(origin: int, jitter: nat, end: nat, p: Position, durationMs: nat, start: nat)
    requires durationMs > 0 && AddedAt(origin, jitter, end, p)
    requires StartedBy(origin, jitter, start, p.now + W.TicksOf(durationMs))
    ensures var planned := end + durationMs * NS_PER_MS;
      planned - Early(jitter) <= start <= planned + Late(jitter)
  {
    var n := W.TicksOf(durationMs);
    assert TimeOf(origin, p.now + n) == TimeOf(origin, p.now) + n * RESOLUTION_NS;
    assert TimeOf(origin, p.now + 1) == TimeOf(origin, p.now) + RESOLUTION_NS;
    assert durationMs <= 2 * n <= durationMs + 1;
    assert n * RESOLUTION_NS == 2 * n * NS_PER_MS;
  }

  /**
    The timer on the wheel: while callbacks are short and the wheel can hold what the timer asks
    for, no start, however many there were, is more than three milliseconds and a jitter before its
    place on the grid or more than two milliseconds and two jitters behind it.
  */
  lemma {:induction false} DriftOnWheelIsBounded(period: nat, firings: seq<Firing>, positions: seq<Position>,
                                                 origin: int, jitter: nat, k: nat)
    requires 0 < period < W.TIMER_MAX_INTERVAL_MS && ClockRuns(firings) && k < |firings|
    requires OnWheel(period, firings, positions, origin, jitter)
    requires forall i :: 0 <= i < k ==>
      ShortCallback(period, firings[i], Late(jitter)) && Fits(period, Early(jitter), positions[i].now)
    ensures -3 * NS_PER_MS - jitter <= Drift(period, firings, k) <= 2 * NS_PER_MS + 2 * jitter
    decreases k
  {
    if k == 0 {
      DriftIs(period, firings, 0);
    } else {
      var i := k - 1;
      DriftOnWheelIsBounded(period, firings, positions, origin, jitter, i);
      assert ShortCallback(period, firings[i], Late(jitter)) && Fits(period, Early(jitter), positions[i].now);
      assert Rearms(period, firings, positions[i], origin, jitter, i);
      WheelIsOnTime(period, firings, positions[i], origin, jitter, i);
      NextIsNear(period, firings, Early(jitter), Late(jitter), i);
    }
  }

  lemma WheelIsOnTime(period: nat, firings: seq<Firing>, p: Position, origin: int, jitter: nat, k: nat)
    requires 0 < period < W.TIMER_MAX_INTERVAL_MS && ClockRuns(firings) && k < |firings| - 1
    requires Rearms(period, firings, p, origin, jitter, k) && Near(Drift(period, firings, k), Early(jitter), Late(jitter))
    requires ShortCallback(period, firings[k], Late(jitter)) && Fits(period, Early(jitter), p.now)
    ensures OnTime(period, firings, Early(jitter), Late(jitter), k)
  {
    hide After, W.FireTime, Compensates;
    var upto := firings[..k + 1];
    assert ClockRuns(upto) && upto[..k] == firings[..k];
    DriftIs(period, firings, k + 1);
    ShortIsCompensated(period, upto, Early(jitter), Late(jitter));
    RoundIsMonotone(0, NS_PER_MS + Late(jitter));
    MadeUpDuration(period, upto, Early(jitter));
    var d := After(period, upto).nextFireDurationMs;
    MadeUpFiresExactlyIff(period, Early(jitter), p);
    assert MadeUp(period, upto, Early(jitter));
    TicksArePunctual(origin, jitter, firings[k].end, p, d, firings[k + 1].start);
  }

  // ---------------------------------------------------------------- on the wheel of timers

  /**
    The same over the operations of the wheel: operation `adds[k]` is firing `k` adding its task, at
    a time when the wheel stands inside a tick; the last entry is any later moment.
  */
  ghost predicate Driven(period: nat, firings: seq<Firing>, t: W.Task, ops: seq<W.Op>, adds: seq<nat>,
                         origin: int, jitter: nat)
  {
    && |adds| == |firings|
    && forall k :: 0 <= k < |firings| - 1 ==> DrivenStep(period, firings, t, ops, adds[k], adds[k + 1], origin, jitter, k)
  }

  ghost predicate DrivenStep(period: nat, firings: seq<Firing>, t: W.Task, ops: seq<W.Op>, a: nat, b: nat,
                             origin: int, jitter: nat, k: nat)
    requires k < |firings| - 1
  {
    && a < b <= |ops| && ops[a] == W.Add(t, NextDuration(period, firings, k))
    && W.LeavesAlone(ops[a + 1..b], t)
    && var s, s' := W.ApplyAll(W.START, ops[..a]), W.ApplyAll(W.START, ops[..b]);
      && t !in s.dead && t !in s.pending
      && AddedAt(origin, jitter, firings[k].end, Position(s.now, s.nextTick))
      && exists n: nat :: W.Fired(t, n) in s'.fired && W.Fired(t, n) !in s.fired
           && StartedBy(origin, jitter, firings[k + 1].start, n)
  }

  function PositionAt(ops: seq<W.Op>, a: nat): Position {
    if a <= |ops| then
      var s := W.ApplyAll(W.START, ops[..a]);
      Position(s.now, s.nextTick)
    else Position(0, 0)
  }

  lemma {:induction false} ApplyAllConcat(s: W.Timers, a: seq<W.Op>, b: seq<W.Op>)
    ensures W.ApplyAll(s, a + b) == W.ApplyAll(W.ApplyAll(s, a), b)
    decreases |b|
  {
    hide W.Apply;
    if b == [] {
      assert a + b == a;
    } else {
      var k := |b| - 1;
      ApplyAllConcat(s, a, b[..k]);
      assert (a + b)[..|a + b| - 1] == a + b[..k] && (a + b)[|a + b| - 1] == b[k];
    }
  }

  lemma DrivenRearms(period: nat, firings: seq<Firing>, t: W.Task, ops: seq<W.Op>, a: nat, b: nat,
                     origin: int, jitter: nat, k: nat)
    requires k < |firings| - 1 && DrivenStep(period, firings, t, ops, a, b, origin, jitter, k)
    ensures a <= |ops| && Rearms(period, firings, PositionAt(ops, a), origin, jitter, k)
  {
    hide W.FireTime, After;
    var d := NextDuration(period, firings, k);
    var s, s' := W.ApplyAll(W.START, ops[..a]), W.ApplyAll(W.START, ops[..b]);
    var x := W.ApplyAll(s, [W.Add(t, d)]);
    W.TimersStayOk(W.START, ops[..a]);
    W.TimersStayOk(s, [W.Add(t, d)]);
    assert ops[..b] == ops[..a] + ([W.Add(t, d)] + ops[a + 1..b]);
    ApplyAllConcat(W.START, ops[..a], [W.Add(t, d)] + ops[a + 1..b]);
    ApplyAllConcat(s, [W.Add(t, d)], ops[a + 1..b]);
    assert x == W.Apply(s, W.Add(t, d));
    W.WaitsThenFires(x, t, ops[a + 1..b]);
  }

  /** Every timer that the operations drive is on the wheel, so its drift is bounded. */
  lemma DrivenIsOnWheel(period: nat, firings: seq<Firing>, t: W.Task, ops: seq<W.Op>, adds: seq<nat>,
                        origin: int, jitter: nat)
    requires Driven(period, firings, t, ops, adds, origin, jitter)
    ensures |adds| == |firings|
    ensures OnWheel(period, firings, seq(|adds|, k requires 0 <= k < |adds| => PositionAt(ops, adds[k])), origin, jitter)
  {
    hide DrivenStep, Rearms, PositionAt;
    forall k | 0 <= k < |firings| - 1
      ensures Rearms(period, firings, PositionAt(ops, adds[k]), origin, jitter, k)
    {
      assert DrivenStep(period, firings, t, ops, adds[k], adds[k + 1], origin, jitter, k);
      DrivenRearms(period, firings, t, ops, adds[k], adds[k + 1], origin, jitter, k);
    }
  }

  /** So the drift of a timer that the operations of the wheel drive is bounded. */
  lemma DrivenDriftIsBounded(period: nat, firings: seq<Firing>, t: W.Task, ops: seq<W.Op>, adds: seq<nat>,
                             origin: int, jitter: nat, k: nat)
    requires 0 < period < W.TIMER_MAX_INTERVAL_MS && ClockRuns(firings) && k < |firings|
    requires Driven(period, firings, t, ops, adds, origin, jitter)
    requires forall i :: 0 <= i < k ==> ShortCallback(period, firings[i], Late(jitter))
    requires period + RoundToMs(NS_PER_MS + Early(jitter)) <= W.TIMER_MAX_INTERVAL_MS
    ensures -3 * NS_PER_MS - jitter <= Drift(period, firings, k) <= 2 * NS_PER_MS + 2 * jitter
  {
    hide Driven, OnWheel, ShortCallback, Fits, Drift;
    DrivenIsOnWheel(period, firings, t, ops, adds, origin, jitter);
    FitsEverywhereIff(period, Early(jitter));
    var positions := seq(|adds|, i requires 0 <= i < |adds| => PositionAt(ops, adds[i]));
    DriftOnWheelIsBounded(period, firings, positions, origin, jitter, k);
  }

  // ---------------------------------------------------------------- a period that is too long

  const LONGEST: nat := W.TIMER_MAX_INTERVAL_MS - 1

  const LONG_RUN: seq<Firing> := [
    Firing(2_000_000, 3_600_000), Firing(65_536_000_000, 65_537_600_000),
    Firing(131_070_000_000, 131_070_100_000), Firing(131_072_000_000, 131_072_000_000)]

  const LONG_POSITIONS: seq<Position> := [
    Position(1, 2), Position(32_768, 32_769), Position(65_535, 65_536), Position(65_536, 65_537)]

  /**
    The longest period that is accepted is too long: on a wheel without jitter, with two callbacks
    of 1.6 milliseconds and one of 0.1, the third callback asks for 65537 milliseconds, and the
    fourth starts two milliseconds after the third, a whole period too early.
  */
  lemma LongestPeriodFiresEarly()
    ensures ClockRuns(LONG_RUN) && OnWheel(LONGEST, LONG_RUN, LONG_POSITIONS, 0, 0)
    ensures forall k :: 0 <= k < 4 ==> ShortCallback(LONGEST, LONG_RUN[k], Late(0))
    ensures LONG_RUN[3].start == LONG_RUN[2].start + RESOLUTION_NS
    ensures Drift(LONGEST, LONG_RUN, 3) == -(LONGEST * NS_PER_MS)
  {
    LongFires();
    hide Fire, W.FireTime;
    LastFiring(LONGEST, LONG_RUN[..1]);
    LastFiring(LONGEST, LONG_RUN[..2]);
    LastFiring(LONGEST, LONG_RUN[..3]);
    assert LONG_RUN[..1][..0] == [] && LONG_RUN[..2][..1] == LONG_RUN[..1] && LONG_RUN[..3][..2] == LONG_RUN[..2];
    assert Rearms(LONGEST, LONG_RUN, LONG_POSITIONS[0], 0, 0, 0);
    assert Rearms(LONGEST, LONG_RUN, LONG_POSITIONS[1], 0, 0, 1);
    assert Rearms(LONGEST, LONG_RUN, LONG_POSITIONS[2], 0, 0, 2);
  }

  /** What the three callbacks ask for, and when the wheel meets it. */
  lemma LongFires()
    ensures Fire(Initial(LONGEST), 2_000_000, 3_600_000) == Fields(LONGEST, 65_533, 0, 2_000_000)
    ensures Fire(Fields(LONGEST, 65_533, 0, 2_000_000), 65_536_000_000, 65_537_600_000)
         == Fields(LONGEST, 65_534, -1_000_000, 65_536_000_000)
    ensures Fire(Fields(LONGEST, 65_534, -1_000_000, 65_536_000_000), 131_070_000_000, 131_070_100_000)
         == Fields(LONGEST, 65_537, -2_000_000, 131_070_000_000)
    ensures W.FireTime(1, 2, 65_533) == 32_768 && W.FireTime(32_768, 32_769, 65_534) == 65_535
    ensures W.FireTime(65_535, 65_536, 65_537) == 65_536
  {
  }
}
