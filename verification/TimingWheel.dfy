/**
  The two-level timing wheel of cyber/timer/timing_wheel.h and timing_wheel.cc.  `AddTask` is one
  step, and so is an index advance together with the assistant's advance and `Cascade`; an add
  may come before or after the tick of the current index.
*/
module TimingWheel {
  import Modular

  type Task = nat

  const WORK_WHEEL_SIZE: nat := 512
  const ASSISTANT_WHEEL_SIZE: nat := 64
  const TIMER_RESOLUTION_MS: nat := 2
  const TIMER_MAX_INTERVAL_MS: nat := WORK_WHEEL_SIZE * ASSISTANT_WHEEL_SIZE * TIMER_RESOLUTION_MS

  /**
    The number of index advances that a duration asks for: the ceiling of the division by the
    resolution, which a double holds exactly for every duration that it holds exactly.
  */
  function TicksOf(durationMs: nat): nat {
    (durationMs + TIMER_RESOLUTION_MS - 1) / TIMER_RESOLUTION_MS
  }

  /**
    The advance, counted from the start of the wheel, whose tick fires a task added now;
    `nextTick` is the next tick to run, the current one or the one after.
  */
  function FireTime(now: nat, nextTick: nat, durationMs: nat): nat {
    var w := now % WORK_WHEEL_SIZE;
    var n := TicksOf(durationMs);
    var turns := (w + n) / WORK_WHEEL_SIZE;
    if n == 0 then (if nextTick <= now then now else now + WORK_WHEEL_SIZE)
    else if turns <= ASSISTANT_WHEEL_SIZE then now + n
    else now - w + ((turns - 1) % ASSISTANT_WHEEL_SIZE + 1) * WORK_WHEEL_SIZE + (w + n) % WORK_WHEEL_SIZE
  }

  // ---------------------------------------------------------------- where tasks wait

  /**
    What the wheel's invariant is about: the buckets, the remainders, the tasks whose weak
    pointer no longer locks, the number of index advances so far, the next tick to run, and the
    abstract timer set: every live task in the wheel with the advance that is to fire it.
  */
  datatype Wheels = Wheels(
    work: seq<seq<Task>>,
    assistant: seq<seq<Task>>,
    remainder: map<Task, nat>,
    dead: set<Task>,
    now: nat,
    nextTick: nat,
    pending: map<Task, nat>)

  /** A task waits in work slot `s` for a tick of the coming revolution. */
  ghost predicate DueInWork(v: Wheels, t: Task, s: nat) {
    t in v.pending && v.pending[t] % WORK_WHEEL_SIZE == s && v.nextTick <= v.pending[t] < v.nextTick + WORK_WHEEL_SIZE
  }

  /** A task waits in assistant slot `s` for a later revolution, and remembers its work slot. */
  ghost predicate DueInAssistant(v: Wheels, t: Task, s: nat) {
    && t in v.pending && t in v.remainder && v.remainder[t] == v.pending[t] % WORK_WHEEL_SIZE
    && v.pending[t] / WORK_WHEEL_SIZE % ASSISTANT_WHEEL_SIZE == s
    && v.now / WORK_WHEEL_SIZE < v.pending[t] / WORK_WHEEL_SIZE <= v.now / WORK_WHEEL_SIZE + ASSISTANT_WHEEL_SIZE
  }

  /** No live task stands twice in a bucket. */
  ghost predicate Once(bucket: seq<Task>, dead: set<Task>) {
    forall i, j :: 0 <= i < j < |bucket| && bucket[i] == bucket[j] ==> bucket[i] in dead
  }

  ghost predicate Sizes(v: Wheels) {
    && |v.work| == WORK_WHEEL_SIZE && |v.assistant| == ASSISTANT_WHEEL_SIZE
    && v.now <= v.nextTick <= v.now + 1
    && v.pending.Keys !! v.dead
  }

  ghost predicate InWork(v: Wheels, t: Task)
    requires Sizes(v) && t in v.pending
  {
    t in v.work[v.pending[t] % WORK_WHEEL_SIZE]
  }

  ghost predicate InAssistant(v: Wheels, t: Task)
    requires Sizes(v) && t in v.pending
  {
    t in v.assistant[v.pending[t] / WORK_WHEEL_SIZE % ASSISTANT_WHEEL_SIZE]
  }

  ghost predicate WorkOk(v: Wheels)
    requires Sizes(v)
  {
    forall s: nat :: s < WORK_WHEEL_SIZE ==>
      Once(v.work[s], v.dead) && forall t :: t in v.work[s] ==> t in v.dead || DueInWork(v, t, s)
  }

  ghost predicate AssistantOk(v: Wheels)
    requires Sizes(v)
  {
    forall s: nat :: s < ASSISTANT_WHEEL_SIZE ==>
      Once(v.assistant[s], v.dead) && forall t :: t in v.assistant[s] ==> t in v.dead || DueInAssistant(v, t, s)
  }

  /** Every pending task is in exactly one bucket of one of the two wheels. */
  ghost predicate Ok(v: Wheels) {
    && Sizes(v)
    && WorkOk(v)
    && AssistantOk(v)
    && (forall t :: t in v.pending ==> (InWork(v, t) <==> !InAssistant(v, t)))
  }

  lemma AppendOnce(bucket: seq<Task>, t: Task, dead: set<Task>)
    requires Once(bucket, dead) && t !in bucket
    ensures Once(bucket + [t], dead)
  {
  }

  ghost function PutWork(v: Wheels, t: Task, s: nat): Wheels
    requires s < |v.work|
  {
    v.(work := v.work[s := v.work[s] + [t]])
  }

  ghost function PutAssistant(v: Wheels, t: Task, s: nat): Wheels
    requires s < |v.assistant|
  {
    v.(assistant := v.assistant[s := v.assistant[s] + [t]])
  }

  /** A task that is nowhere may be put into the work wheel if it is due within a revolution. */
  lemma AddToWork(v: Wheels, t: Task, d: nat)
    requires Ok(v) && t !in v.dead && t !in v.pending
    requires v.nextTick <= d < v.nextTick + WORK_WHEEL_SIZE
    ensures Ok(PutWork(v.(pending := v.pending[t := d]), t, d % WORK_WHEEL_SIZE))
  {
    var s := d % WORK_WHEEL_SIZE;
    var v' := PutWork(v.(pending := v.pending[t := d]), t, s);
    NowhereBefore(v, t);
    forall r: nat | r < WORK_WHEEL_SIZE
      ensures Once(v'.work[r], v'.dead) && forall u :: u in v'.work[r] ==> u in v'.dead || DueInWork(v', u, r)
    {
      AppendOnce(v.work[s], t, v.dead);
    }
    assert AssistantOk(v');
    forall u | u in v'.pending ensures InWork(v', u) <==> !InAssistant(v', u) {
      if u != t {
        assert InWork(v, u) <==> !InAssistant(v, u);
      }
    }
  }

  lemma AddToAssistant(v: Wheels, t: Task, d: nat)
    requires Ok(v) && t !in v.dead && t !in v.pending
    requires v.now / WORK_WHEEL_SIZE < d / WORK_WHEEL_SIZE <= v.now / WORK_WHEEL_SIZE + ASSISTANT_WHEEL_SIZE
    ensures Ok(PutAssistant(v.(pending := v.pending[t := d], remainder := v.remainder[t := d % WORK_WHEEL_SIZE]),
                            t, d / WORK_WHEEL_SIZE % ASSISTANT_WHEEL_SIZE))
  {
    var s := d / WORK_WHEEL_SIZE % ASSISTANT_WHEEL_SIZE;
    var v' := PutAssistant(v.(pending := v.pending[t := d], remainder := v.remainder[t := d % WORK_WHEEL_SIZE]), t, s);
    NowhereBefore(v, t);
    assert WorkOk(v');
    forall r: nat | r < ASSISTANT_WHEEL_SIZE
      ensures Once(v'.assistant[r], v'.dead) && forall u :: u in v'.assistant[r] ==> u in v'.dead || DueInAssistant(v', u, r)
    {
      AppendOnce(v.assistant[s], t, v.dead);
    }
    forall u | u in v'.pending ensures InWork(v', u) <==> !InAssistant(v', u) {
      if u != t {
        assert InWork(v, u) <==> !InAssistant(v, u);
      }
    }
  }

  lemma NowhereBefore(v: Wheels, t: Task)
    requires Ok(v) && t !in v.dead && t !in v.pending
    ensures forall s: nat :: s < WORK_WHEEL_SIZE ==> t !in v.work[s]
    ensures forall s: nat :: s < ASSISTANT_WHEEL_SIZE ==> t !in v.assistant[s]
  {
  }

  /** The tasks of a bucket whose weak pointer locks, in order. */
  function Live(bucket: seq<Task>, dead: set<Task>): (r: seq<Task>)
    ensures forall t :: t in r <==> t in bucket && t !in dead
  {
    if bucket == [] then []
    else (if bucket[0] in dead then [] else [bucket[0]]) + Live(bucket[1..], dead)
  }

  /** What the loop of `Tick` has started, moving on by one task. */
  lemma LiveStep(fired: seq<Task>, bucket: seq<Task>, dead: set<Task>)
    ensures bucket == [] ==> fired + Live(bucket, dead) == fired
    ensures bucket != [] ==>
      fired + Live(bucket, dead) == (if bucket[0] in dead then fired else fired + [bucket[0]]) + Live(bucket[1..], dead)
  {
  }

  lemma {:induction false} LiveOnce(bucket: seq<Task>, dead: set<Task>)
    requires Once(bucket, dead)
    ensures forall i, j :: 0 <= i < j < |Live(bucket, dead)| ==> Live(bucket, dead)[i] != Live(bucket, dead)[j]
  {
    if bucket != [] {
      LiveOnce(bucket[1..], dead);
      if bucket[0] !in dead {
        assert bucket[0] !in bucket[1..];
      }
    }
  }

  /** The tasks whose deadline is the next tick. */
  ghost function DueNow(v: Wheels): set<Task> {
    set t | t in v.pending && v.pending[t] == v.nextTick
  }

  /** The live tasks of the current work slot are exactly those that are due. */
  lemma SlotIsDue(v: Wheels)
    requires Ok(v) && v.nextTick == v.now
    ensures forall t :: t in v.work[v.now % WORK_WHEEL_SIZE] && t !in v.dead <==> t in DueNow(v)
  {
    var s := v.now % WORK_WHEEL_SIZE;
    forall t ensures t in v.work[s] && t !in v.dead <==> t in DueNow(v) {
      if t in v.work[s] && t !in v.dead {
        assert DueInWork(v, t, s);
        if v.pending[t] != v.now {
          Modular.RemaindersDiffer(v.now, v.pending[t], WORK_WHEEL_SIZE);
        }
      } else if t in v.pending && v.pending[t] == v.now {
        assert InWork(v, t) <==> !InAssistant(v, t);
      }
    }
  }

  lemma SlotOnce(v: Wheels, s: nat)
    requires Ok(v) && s < WORK_WHEEL_SIZE
    ensures |v.work| == WORK_WHEEL_SIZE && Once(v.work[s], v.dead)
  {
  }

  /** Clearing the current slot and dropping what was due leaves a wheel for the next tick. */
  lemma TickKeepsOk(v: Wheels)
    requires Ok(v) && v.nextTick == v.now
    ensures Ok(v.(work := v.work[v.now % WORK_WHEEL_SIZE := []], pending := v.pending - DueNow(v), nextTick := v.now + 1))
  {
    var s := v.now % WORK_WHEEL_SIZE;
    var v' := v.(work := v.work[s := []], pending := v.pending - DueNow(v), nextTick := v.now + 1);
    SlotIsDue(v);
    forall r: nat | r < WORK_WHEEL_SIZE
      ensures Once(v'.work[r], v'.dead) && forall u :: u in v'.work[r] ==> u in v'.dead || DueInWork(v', u, r)
    {
      assert forall u :: u in v.work[r] && u !in v.dead ==> DueInWork(v, u, r);
    }
    forall r: nat | r < ASSISTANT_WHEEL_SIZE
      ensures Once(v'.assistant[r], v'.dead) && forall u :: u in v'.assistant[r] ==> u in v'.dead || DueInAssistant(v', u, r)
    {
      assert forall u :: u in v.assistant[r] && u !in v.dead ==> DueInAssistant(v, u, r);
    }
    forall u | u in v'.pending ensures InWork(v', u) <==> !InAssistant(v', u) {
      assert InWork(v, u) <==> !InAssistant(v, u);
      assert InWork(v, u) ==> DueInWork(v, u, v.pending[u] % WORK_WHEEL_SIZE);
    }
  }

  /** A task of the assistant slot being cascaded is due in the revolution that begins now. */
  ghost predicate DueThisTurn(v: Wheels, t: Task) {
    && t in v.pending && t in v.remainder && v.remainder[t] == v.pending[t] % WORK_WHEEL_SIZE
    && v.pending[t] / WORK_WHEEL_SIZE == v.now / WORK_WHEEL_SIZE
  }

  /** The invariant while slot `a` of the assistant wheel is being cascaded. */
  ghost predicate OkBut(v: Wheels, a: nat) {
    && Sizes(v) && a < ASSISTANT_WHEEL_SIZE
    && v.nextTick == v.now && v.now % WORK_WHEEL_SIZE == 0 && v.now / WORK_WHEEL_SIZE % ASSISTANT_WHEEL_SIZE == a
    && WorkOk(v)
    && CascadingOk(v, a)
    && (forall t :: t in v.pending ==> (InWork(v, t) <==> !InAssistant(v, t)))
  }

  ghost predicate CascadingOk(v: Wheels, a: nat)
    requires Sizes(v)
  {
    forall s: nat :: s < ASSISTANT_WHEEL_SIZE ==>
      Once(v.assistant[s], v.dead) && forall t :: t in v.assistant[s] ==>
        t in v.dead || if s == a then DueThisTurn(v, t) else DueInAssistant(v, t, s)
  }

  /** How the indices of the two wheels follow the count of advances. */
  lemma IndicesFollow(now: nat)
    ensures (now % WORK_WHEEL_SIZE + 1) % WORK_WHEEL_SIZE == (now + 1) % WORK_WHEEL_SIZE
    ensures (now + 1) / WORK_WHEEL_SIZE ==
      if (now + 1) % WORK_WHEEL_SIZE == 0 then now / WORK_WHEEL_SIZE + 1 else now / WORK_WHEEL_SIZE
    ensures (now / WORK_WHEEL_SIZE % ASSISTANT_WHEEL_SIZE + 1) % ASSISTANT_WHEEL_SIZE
         == (now / WORK_WHEEL_SIZE + 1) % ASSISTANT_WHEEL_SIZE
  {
    var q, n: nat := now / WORK_WHEEL_SIZE, ASSISTANT_WHEEL_SIZE;
    assert q % n + 1 == q + 1 + (-(q / n)) * n;
    Modular.ModShift(q + 1, -(q / n), n);
  }

  lemma AdvanceKeepsWork(v: Wheels)
    requires Sizes(v) && WorkOk(v) && v.nextTick == v.now + 1
    ensures WorkOk(v.(now := v.now + 1))
  {
    var v' := v.(now := v.now + 1);
    forall r: nat | r < WORK_WHEEL_SIZE
      ensures Once(v'.work[r], v'.dead) && forall u :: u in v'.work[r] ==> u in v'.dead || DueInWork(v', u, r)
    {
      assert forall u :: u in v.work[r] && u !in v.dead ==> DueInWork(v, u, r);
    }
  }

  /** The slot of the revolution that begins is due now, the others keep waiting. */
  lemma AdvanceOne(v: Wheels, u: Task, r: nat)
    requires DueInAssistant(v, u, r) && v.nextTick == v.now + 1
    ensures var v' := v.(now := v.now + 1);
      if v'.now % WORK_WHEEL_SIZE == 0 && r == v'.now / WORK_WHEEL_SIZE % ASSISTANT_WHEEL_SIZE
      then DueThisTurn(v', u) else DueInAssistant(v', u, r)
  {
    IndicesFollow(v.now);
    var q, d: nat := v.now / WORK_WHEEL_SIZE, v.pending[u] / WORK_WHEEL_SIZE;
    if (v.now + 1) % WORK_WHEEL_SIZE == 0 && r == (q + 1) % ASSISTANT_WHEEL_SIZE && d != q + 1 {
      Modular.RemaindersDiffer(q + 1, d, ASSISTANT_WHEEL_SIZE);
    }
  }

  lemma AdvanceKeepsAssistant(v: Wheels)
    requires Sizes(v) && AssistantOk(v) && v.nextTick == v.now + 1
    ensures var v' := v.(now := v.now + 1);
      if v'.now % WORK_WHEEL_SIZE == 0 then CascadingOk(v', v'.now / WORK_WHEEL_SIZE % ASSISTANT_WHEEL_SIZE)
      else AssistantOk(v')
  {
    forall r: nat, u | r < ASSISTANT_WHEEL_SIZE && u in v.assistant[r] && u !in v.dead
      ensures var v' := v.(now := v.now + 1);
        if v'.now % WORK_WHEEL_SIZE == 0 && r == v'.now / WORK_WHEEL_SIZE % ASSISTANT_WHEEL_SIZE
        then DueThisTurn(v', u) else DueInAssistant(v', u, r)
    {
      assert DueInAssistant(v, u, r);
      AdvanceOne(v, u, r);
    }
  }

  lemma AdvanceKeepsPlaces(v: Wheels)
    requires Sizes(v) && v.nextTick == v.now + 1
    requires forall t :: t in v.pending ==> (InWork(v, t) <==> !InAssistant(v, t))
    ensures var v' := v.(now := v.now + 1);
      forall t :: t in v'.pending ==> (InWork(v', t) <==> !InAssistant(v', t))
  {
    var v' := v.(now := v.now + 1);
    forall u | u in v'.pending ensures InWork(v', u) <==> !InAssistant(v', u) {
      assert InWork(v, u) <==> !InAssistant(v, u);
    }
  }

  /** An index advance inside a revolution moves nothing; one that wraps starts a cascade. */
  lemma AdvanceKeepsOk(v: Wheels)
    requires Ok(v) && v.nextTick == v.now + 1
    ensures var v' := v.(now := v.now + 1);
      if v'.now % WORK_WHEEL_SIZE == 0 then OkBut(v', v'.now / WORK_WHEEL_SIZE % ASSISTANT_WHEEL_SIZE) else Ok(v')
  {
    hide WorkOk, AssistantOk, CascadingOk, InWork, InAssistant;
    AdvanceKeepsWork(v);
    AdvanceKeepsAssistant(v);
    AdvanceKeepsPlaces(v);
  }

  /** The first task of the slot leaves it, into its work slot if it is live. */
  ghost function CascadeOne(v: Wheels, a: nat): Wheels
    requires OkBut(v, a) && v.assistant[a] != []
  {
    var t := v.assistant[a][0];
    var v' := v.(assistant := v.assistant[a := v.assistant[a][1..]]);
    if t in v.dead then v'
    else
      assert DueThisTurn(v, t);
      PutWork(v', t, v.remainder[t])
  }

  lemma CascadeOneKeepsOk(v: Wheels, a: nat)
    requires OkBut(v, a) && v.assistant[a] != []
    ensures OkBut(CascadeOne(v, a), a)
  {
    var t := v.assistant[a][0];
    var v' := CascadeOne(v, a);
    assert v.assistant[a] == [t] + v'.assistant[a];
    forall s: nat, u | s < ASSISTANT_WHEEL_SIZE && u in v'.assistant[s] && u !in v'.dead
      ensures if s == a then DueThisTurn(v', u) else DueInAssistant(v', u, s)
    {
      assert u in v.assistant[s];
    }
    if t !in v.dead {
      assert DueThisTurn(v, t);
      assert InAssistant(v, t) && !InWork(v, t);
      var r := v.remainder[t];
      AppendOnce(v.work[r], t, v.dead);
      forall s: nat | s < WORK_WHEEL_SIZE
        ensures Once(v'.work[s], v'.dead) && forall u :: u in v'.work[s] ==> u in v'.dead || DueInWork(v', u, s)
      {
        assert forall u :: u in v.work[s] && u !in v.dead ==> DueInWork(v, u, s);
      }
      assert t !in v'.assistant[a];
    }
    forall u | u in v'.pending ensures InWork(v', u) <==> !InAssistant(v', u) {
      assert InWork(v, u) <==> !InAssistant(v, u);
    }
  }

  lemma CascadedIsOk(v: Wheels, a: nat)
    requires OkBut(v, a) && v.assistant[a] == []
    ensures Ok(v)
  {
  }

  // ---------------------------------------------------------------- the wheel

  class TimingWheel {
    const workWheel: array<seq<Task>>
    const assistantWheel: array<seq<Task>>
    var currentWorkWheelIndex: nat
    var currentAssistantWheelIndex: nat
    var tickCount: nat
    var remainder: map<Task, nat>   // remainder_interval_ms of the tasks
    var dead: set<Task>             // tasks whose weak pointer no longer locks

    ghost var now: nat
    ghost var nextTick: nat
    ghost var pending: map<Task, nat>

    ghost function View(): Wheels
      reads this, workWheel, assistantWheel
    {
      Wheels(workWheel[..], assistantWheel[..], remainder, dead, now, nextTick, pending)
    }

    ghost predicate Valid()
      reads this, workWheel, assistantWheel
    {
      && workWheel.Length == WORK_WHEEL_SIZE && assistantWheel.Length == ASSISTANT_WHEEL_SIZE
      && currentWorkWheelIndex == now % WORK_WHEEL_SIZE
      && currentAssistantWheelIndex == now / WORK_WHEEL_SIZE % ASSISTANT_WHEEL_SIZE
      && Ok(View())
    }

    constructor ()
      ensures Valid() && fresh(workWheel) && fresh(assistantWheel)
      ensures now == 0 && nextTick == 0 && pending == map[] && dead == {}
    {
      workWheel := new seq<Task>[WORK_WHEEL_SIZE](_ => []);
      assistantWheel := new seq<Task>[ASSISTANT_WHEEL_SIZE](_ => []);
      currentWorkWheelIndex, currentAssistantWheelIndex, tickCount := 0, 0, 0;
      remainder, dead := map[], {};
      now, nextTick, pending := 0, 0, map[];
    }

    /** The last shared pointer to a task goes away; its weak pointers stay in their buckets. */
    method Expire(task: Task)
      requires Valid()
      modifies this
      ensures Valid() && dead == old(dead) + {task}
      ensures now == old(now) && nextTick == old(nextTick) && pending == old(pending) - {task}
    {
      ghost var v := View();
      dead := dead + {task};
      pending := pending - {task};
      ExpireKeepsOk(v, task);
    }

    /** `AddTask` of a live task that is not in the wheel. */
    method AddTask(task: Task, nextFireDurationMs: nat)
      requires Valid() && task !in dead && task !in pending
      modifies this, workWheel, assistantWheel
      ensures Valid() && dead == old(dead)
      ensures now == old(now) && nextTick == old(nextTick)
      ensures pending == old(pending)[task := FireTime(now, nextTick, nextFireDurationMs)]
    {
      ghost var d := FireTime(now, nextTick, nextFireDurationMs);
      FireTimePlace(now, nextTick, nextFireDurationMs);
      var workWheelIndex := currentWorkWheelIndex + TicksOf(nextFireDurationMs);
      if workWheelIndex >= WORK_WHEEL_SIZE {
        var realWorkWheelIndex := workWheelIndex % WORK_WHEEL_SIZE;
        RemainderIsFree(View(), task, realWorkWheelIndex);
        remainder := remainder[task := realWorkWheelIndex];
        var assistantTicks := workWheelIndex / WORK_WHEEL_SIZE;
        if assistantTicks == 1 && realWorkWheelIndex < currentWorkWheelIndex {
          AppendToWork(realWorkWheelIndex, task, d);
        } else {
          var assistantWheelIndex := (currentAssistantWheelIndex + assistantTicks) % ASSISTANT_WHEEL_SIZE;
          AppendToAssistant(assistantWheelIndex, task, d);
        }
      } else {
        AppendToWork(workWheelIndex, task, d);
      }
    }

    /** The loop of `Tick` over one bucket: every task leaves it, the live ones are started. */
    method DrainSlot(slot: nat) returns (fired: seq<Task>)
      requires slot < workWheel.Length
      modifies workWheel
      ensures fired == Live(old(workWheel[slot]), dead)
      ensures workWheel[..] == old(workWheel[..])[slot := []]
    {
      hide Live;
      ghost var bucket := workWheel[slot];
      ghost var others := workWheel[..];
      fired := [];
      assert fired + Live(bucket, dead) == Live(bucket, dead);
      while workWheel[slot] != []
        invariant fired + Live(workWheel[slot], dead) == Live(bucket, dead)
        invariant forall s :: 0 <= s < workWheel.Length && s != slot ==> workWheel[s] == others[s]
        decreases |workWheel[slot]|
      {
        LiveStep(fired, workWheel[slot], dead);
        if workWheel[slot][0] !in dead {
          fired := fired + [workWheel[slot][0]];
        }
        workWheel[slot] := workWheel[slot][1..];
      }
      LiveStep(fired, [], dead);
    }

    /** `Tick`: empties the current work slot and returns the tasks whose callbacks it starts. */
    method Tick() returns (fired: seq<Task>)
      requires Valid() && nextTick == now
      modifies this`nextTick, this`pending, workWheel
      ensures Valid() && nextTick == now + 1
      ensures forall t :: t in fired <==> t in old(pending) && old(pending)[t] == now
      ensures forall i, j :: 0 <= i < j < |fired| ==> fired[i] != fired[j]
      ensures pending == old(pending) - (set t | t in fired)
    {
      hide Ok;
      ghost var v := View();
      SlotIsDue(v);
      TickKeepsOk(v);
      SlotOnce(v, currentWorkWheelIndex);
      LiveOnce(workWheel[currentWorkWheelIndex], dead);
      fired := DrainSlot(currentWorkWheelIndex);
      assert (set t | t in fired) == DueNow(v);
      nextTick := now + 1;
      pending := pending - DueNow(v);
      assert View() == v.(
        work := v.work[v.now % WORK_WHEEL_SIZE := []], pending := v.pending - DueNow(v), nextTick := v.now + 1);
    }

    /** `Cascade`: every live task of an assistant slot moves to the work slot it remembers. */
    method Cascade(index: nat)
      requires workWheel.Length == WORK_WHEEL_SIZE && assistantWheel.Length == ASSISTANT_WHEEL_SIZE
      requires OkBut(View(), index)
      modifies workWheel, assistantWheel
      ensures Ok(View())
    {
      while assistantWheel[index] != []
        invariant OkBut(View(), index)
        decreases |assistantWheel[index]|
      {
        ghost var v := View();
        CascadeOneKeepsOk(v, index);
        var task := assistantWheel[index][0];
        if task !in dead {
          assert DueThisTurn(v, task);
          workWheel[remainder[task]] := workWheel[remainder[task]] + [task];
        }
        assistantWheel[index] := assistantWheel[index][1..];
        assert View() == CascadeOne(v, index);
      }
      CascadedIsOk(View(), index);
    }

    /** The rest of a turn of `TickFunc`: the indices move on, and a full revolution cascades. */
    method Advance()
      requires Valid() && nextTick == now + 1
      modifies this`now, this`currentWorkWheelIndex, this`currentAssistantWheelIndex, workWheel, assistantWheel
      ensures Valid() && now == old(now) + 1
    {
      hide Ok, OkBut;
      IndicesFollow(now);
      AdvanceKeepsOk(View());
      ghost var v := View().(now := now + 1);
      currentWorkWheelIndex := (currentWorkWheelIndex + 1) % WORK_WHEEL_SIZE;
      now := now + 1;
      assert View() == v;
      if currentWorkWheelIndex == 0 {
        currentAssistantWheelIndex := (currentAssistantWheelIndex + 1) % ASSISTANT_WHEEL_SIZE;
        Cascade(currentAssistantWheelIndex);
      }
    }

    /** One turn of `TickFunc`. */
    method Turn() returns (fired: seq<Task>)
      requires Valid() && nextTick == now
      modifies this, workWheel, assistantWheel
      ensures Valid() && now == nextTick == old(now) + 1 && tickCount == old(tickCount) + 1 && dead == old(dead)
      ensures forall t :: t in fired <==> t in old(pending) && old(pending)[t] == old(now)
      ensures forall i, j :: 0 <= i < j < |fired| ==> fired[i] != fired[j]
      ensures pending == old(pending) - (set t | t in fired)
    {
      fired := Tick();
      tickCount := tickCount + 1;
      Advance();
    }

    /** `TimerBucket::AddTask` of a work slot, for a task due at `d`. */
    method AppendToWork(slot: nat, task: Task, ghost d: nat)
      requires Valid() && task !in dead && task !in pending
      requires slot == d % WORK_WHEEL_SIZE && nextTick <= d < nextTick + WORK_WHEEL_SIZE
      modifies this`pending, workWheel
      ensures Valid() && pending == old(pending)[task := d]
    {
      AddToWork(View(), task, d);
      ghost var v := PutWork(View().(pending := pending[task := d]), task, slot);
      workWheel[slot] := workWheel[slot] + [task];
      pending := pending[task := d];
      assert View() == v;
    }

    /** `TimerBucket::AddTask` of an assistant slot, for a task due at `d`. */
    method AppendToAssistant(slot: nat, task: Task, ghost d: nat)
      requires Valid() && task !in dead && task !in pending
      requires slot == d / WORK_WHEEL_SIZE % ASSISTANT_WHEEL_SIZE
      requires task in remainder && remainder[task] == d % WORK_WHEEL_SIZE
      requires now / WORK_WHEEL_SIZE < d / WORK_WHEEL_SIZE <= now / WORK_WHEEL_SIZE + ASSISTANT_WHEEL_SIZE
      modifies this`pending, assistantWheel
      ensures Valid() && pending == old(pending)[task := d]
    {
      AddToAssistant(View(), task, d);
      ghost var v := PutAssistant(View().(pending := pending[task := d]), task, slot);
      assert v.remainder == remainder[task := d % WORK_WHEEL_SIZE];
      assistantWheel[slot] := assistantWheel[slot] + [task];
      pending := pending[task := d];
      assert View() == v;
    }
  }

  lemma ExpireKeepsOk(v: Wheels, t: Task)
    requires Ok(v)
    ensures Ok(v.(dead := v.dead + {t}, pending := v.pending - {t}))
  {
    var v' := v.(dead := v.dead + {t}, pending := v.pending - {t});
    forall u | u in v'.pending ensures InWork(v', u) <==> !InAssistant(v', u) {
      assert InWork(v, u) <==> !InAssistant(v, u);
    }
  }

  /** The remainder of a task that is not in the assistant wheel does not matter. */
  lemma RemainderIsFree(v: Wheels, t: Task, r: nat)
    requires Ok(v) && t !in v.pending
    ensures Ok(v.(remainder := v.remainder[t := r]))
  {
    var v' := v.(remainder := v.remainder[t := r]);
    forall u | u in v'.pending ensures InWork(v', u) <==> !InAssistant(v', u) {
      assert InWork(v, u) <==> !InAssistant(v, u);
    }
  }

  lemma DivMod512(q: nat, r: nat)
    requires r < WORK_WHEEL_SIZE
    ensures (q * WORK_WHEEL_SIZE + r) / WORK_WHEEL_SIZE == q && (q * WORK_WHEEL_SIZE + r) % WORK_WHEEL_SIZE == r
  {
    Modular.DivModUnique(q * WORK_WHEEL_SIZE + r, WORK_WHEEL_SIZE, q, r);
  }

  lemma AssistantSlotOf(q: nat, turns: nat)
    ensures (q + ((turns + ASSISTANT_WHEEL_SIZE - 1) % ASSISTANT_WHEEL_SIZE + 1)) % ASSISTANT_WHEEL_SIZE
         == (q % ASSISTANT_WHEEL_SIZE + turns) % ASSISTANT_WHEEL_SIZE
    ensures (q + turns) % ASSISTANT_WHEEL_SIZE == (q % ASSISTANT_WHEEL_SIZE + turns) % ASSISTANT_WHEEL_SIZE
  {
    var n: nat := ASSISTANT_WHEEL_SIZE;
    var m := (turns + n - 1) / n;
    assert (turns + n - 1) % n + 1 == turns + (1 - m) * n;
    assert q % n == q - (q / n) * n;
    Modular.ModShift(q + turns, 1 - m, n);
    Modular.ModShift(q % n + turns, q / n, n);
  }

  /** The place that `AddTask` computes is the one from which the task fires at `FireTime`. */
  lemma FireTimePlace(now: nat, nextTick: nat, durationMs: nat)
    requires now <= nextTick <= now + 1
    ensures var d := FireTime(now, nextTick, durationMs);
      var w := now % WORK_WHEEL_SIZE;
      var i := w + TicksOf(durationMs);
      var slot, turns := i % WORK_WHEEL_SIZE, i / WORK_WHEEL_SIZE;
      && d % WORK_WHEEL_SIZE == slot
      && (if turns == 0 || (turns == 1 && slot < w)
          then nextTick <= d < nextTick + WORK_WHEEL_SIZE
          else && now / WORK_WHEEL_SIZE < d / WORK_WHEEL_SIZE <= now / WORK_WHEEL_SIZE + ASSISTANT_WHEEL_SIZE
               && d / WORK_WHEEL_SIZE % ASSISTANT_WHEEL_SIZE
                  == (now / WORK_WHEEL_SIZE % ASSISTANT_WHEEL_SIZE + turns) % ASSISTANT_WHEEL_SIZE)
  {
    var q, w := now / WORK_WHEEL_SIZE, now % WORK_WHEEL_SIZE;
    var n := TicksOf(durationMs);
    var slot, turns := (w + n) % WORK_WHEEL_SIZE, (w + n) / WORK_WHEEL_SIZE;
    if n == 0 {
      Modular.ModShift(now, 1, WORK_WHEEL_SIZE);
    } else {
      var k := if turns <= ASSISTANT_WHEEL_SIZE then turns else (turns - 1) % ASSISTANT_WHEEL_SIZE + 1;
      assert FireTime(now, nextTick, durationMs) == (q + k) * WORK_WHEEL_SIZE + slot;
      DivMod512(q + k, slot);
      AssistantSlotOf(q, turns);
      if turns > ASSISTANT_WHEEL_SIZE {
        Modular.ModShift(turns - 1, 1, ASSISTANT_WHEEL_SIZE);
      }
    }
  }

  // ---------------------------------------------------------------- when a task fires

  /**
    A positive duration fires on exactly its own advance if and only if the place computed for it
    is less than 65 revolutions ahead of the start of the current one; every duration up to the
    maximal interval is, from every position of the wheel.
  */
  lemma FireTimeIsExact(now: nat, nextTick: nat, durationMs: nat)
    requires now <= nextTick <= now + 1 && durationMs > 0
    ensures FireTime(now, nextTick, durationMs) == now + TicksOf(durationMs)
      <==> now % WORK_WHEEL_SIZE + TicksOf(durationMs) < (ASSISTANT_WHEEL_SIZE + 1) * WORK_WHEEL_SIZE
    ensures durationMs <= TIMER_MAX_INTERVAL_MS ==> FireTime(now, nextTick, durationMs) == now + TicksOf(durationMs)
    ensures TicksOf(durationMs) * TIMER_RESOLUTION_MS >= durationMs > (TicksOf(durationMs) - 1) * TIMER_RESOLUTION_MS
  {
    var w, n := now % WORK_WHEEL_SIZE, TicksOf(durationMs);
    var turns := (w + n) / WORK_WHEEL_SIZE;
    assert now + n == now - w + turns * WORK_WHEEL_SIZE + (w + n) % WORK_WHEEL_SIZE;
    if turns > ASSISTANT_WHEEL_SIZE {
      assert (turns - 1) % ASSISTANT_WHEEL_SIZE + 1 <= ASSISTANT_WHEEL_SIZE < turns;
    }
  }

  /** Longer ones fire early, by whole turns of the assistant wheel. */
  lemma TooLongFiresEarly(now: nat, nextTick: nat, durationMs: nat)
    requires now <= nextTick <= now + 1
    requires now % WORK_WHEEL_SIZE + TicksOf(durationMs) >= (ASSISTANT_WHEEL_SIZE + 1) * WORK_WHEEL_SIZE
    ensures var early := now + TicksOf(durationMs) - FireTime(now, nextTick, durationMs);
      early > 0 && early % (ASSISTANT_WHEEL_SIZE * WORK_WHEEL_SIZE) == 0
  {
    var w, n := now % WORK_WHEEL_SIZE, TicksOf(durationMs);
    var turns := (w + n) / WORK_WHEEL_SIZE;
    var k := (turns - 1) % ASSISTANT_WHEEL_SIZE + 1;
    var m := (turns - 1) / ASSISTANT_WHEEL_SIZE;
    assert turns - k == m * ASSISTANT_WHEEL_SIZE && m >= 1;
    assert now + n - FireTime(now, nextTick, durationMs) == m * (ASSISTANT_WHEEL_SIZE * WORK_WHEEL_SIZE);
  }

  // ---------------------------------------------------------------- whole runs

  datatype Op = Add(task: Task, durationMs: nat) | Expire(task: Task) | DoTick | DoAdvance

  datatype Fired = Fired(task: Task, at: nat)

  /** The set of timers that the methods above implement, with what has fired when. */
  datatype Timers = Timers(now: nat, nextTick: nat, dead: set<Task>, pending: map<Task, nat>, fired: set<Fired>)

  /** The contracts of the methods; an operation that does not apply changes nothing. */
  function Apply(s: Timers, op: Op): Timers {
    match op
    case Add(t, d) =>
      if t in s.dead || t in s.pending then s else s.(pending := s.pending[t := FireTime(s.now, s.nextTick, d)])
    case Expire(t) => s.(dead := s.dead + {t}, pending := s.pending - {t})
    case DoTick =>
      if s.nextTick != s.now then s
      else
        var due := set t | t in s.pending && s.pending[t] == s.now;
        s.(nextTick := s.now + 1, pending := s.pending - due, fired := s.fired + set t | t in due :: Fired(t, s.now))
    case DoAdvance =>
      if s.nextTick == s.now then s else s.(now := s.now + 1)
  }

  function ApplyAll(s: Timers, ops: seq<Op>): Timers
    decreases |ops|
  {
    if ops == [] then s else Apply(ApplyAll(s, ops[..|ops| - 1]), ops[|ops| - 1])
  }

  const START: Timers := Timers(0, 0, {}, map[], {})

  ghost predicate TimersOk(s: Timers) {
    && s.now <= s.nextTick <= s.now + 1
    && s.pending.Keys !! s.dead
    && (forall t :: t in s.pending ==> s.pending[t] >= s.nextTick)
    && (forall f :: f in s.fired ==> f.at < s.nextTick)
  }

  lemma {:induction false} TimersStayOk(s: Timers, ops: seq<Op>)
    requires TimersOk(s)
    ensures TimersOk(ApplyAll(s, ops))
    decreases |ops|
  {
    if ops != [] {
      TimersStayOk(s, ops[..|ops| - 1]);
      var x := ApplyAll(s, ops[..|ops| - 1]);
      if ops[|ops| - 1].Add? {
        FireTimePlace(x.now, x.nextTick, ops[|ops| - 1].durationMs);
        FireTimeNotPast(x.now, x.nextTick, ops[|ops| - 1].durationMs);
      }
    }
  }

  lemma FireTimeNotPast(now: nat, nextTick: nat, durationMs: nat)
    requires now <= nextTick <= now + 1
    ensures FireTime(now, nextTick, durationMs) >= nextTick
  {
  }

  /** The run neither adds the task again nor lets it expire. */
  ghost predicate LeavesAlone(ops: seq<Op>, t: Task) {
    forall k :: 0 <= k < |ops| ==> !(ops[k].Add? && ops[k].task == t) && !(ops[k].Expire? && ops[k].task == t)
  }

  /**
    A live task added with a duration from 1 to the maximal interval fires exactly once, on the
    tick of exactly the advance that its duration asks for, whatever was added, fired or expired
    before and is afterwards, and waits until then.
  */
  lemma FiresExactlyOnce(before: seq<Op>, t: Task, durationMs: nat, after: seq<Op>)
    requires 1 <= durationMs <= TIMER_MAX_INTERVAL_MS
    requires var s := ApplyAll(START, before); t !in s.dead && t !in s.pending
    requires LeavesAlone(after, t)
    ensures var s := ApplyAll(START, before);
      var s' := ApplyAll(Apply(s, Add(t, durationMs)), after);
      var due := s.now + TicksOf(durationMs);
      && (forall at: nat :: Fired(t, at) in s'.fired <==> Fired(t, at) in s.fired || (at == due && s'.nextTick > due))
      && (forall at: nat :: Fired(t, at) in s.fired ==> at < due)
      && (s'.nextTick <= due ==> t in s'.pending && s'.pending[t] == due)
  {
    TimersStayOk(START, before);
    var s := ApplyAll(START, before);
    FireTimeIsExact(s.now, s.nextTick, durationMs);
    TimersStayOk(s, [Add(t, durationMs)]);
    WaitsThenFires(Apply(s, Add(t, durationMs)), t, after);
  }

  lemma {:induction false} WaitsThenFires(s: Timers, t: Task, after: seq<Op>)
    requires TimersOk(s) && t in s.pending && LeavesAlone(after, t)
    ensures var s' := ApplyAll(s, after);
      var due := s.pending[t];
      && TimersOk(s')
      && (s'.nextTick <= due ==> t in s'.pending && s'.pending[t] == due)
      && (s'.nextTick > due ==> t !in s'.pending)
      && (forall at: nat :: Fired(t, at) in s'.fired <==> Fired(t, at) in s.fired || (at == due && s'.nextTick > due))
    decreases |after|
  {
    TimersStayOk(s, after);
    if after != [] {
      var k := |after| - 1;
      assert LeavesAlone(after[..k], t);
      WaitsThenFires(s, t, after[..k]);
      var x, y := ApplyAll(s, after[..k]), ApplyAll(s, after);
      assert y == Apply(x, after[k]);
      if after[k].DoTick? && x.nextTick == x.now {
        forall at: nat
          ensures Fired(t, at) in y.fired <==>
            Fired(t, at) in x.fired || (at == x.now && t in x.pending && x.pending[t] == x.now)
        {
        }
      }
    }
  }

  lemma ApplyNext(ops: seq<Op>, n: nat)
    requires n < |ops|
    ensures ApplyAll(START, ops[..n + 1]) == Apply(ApplyAll(START, ops[..n]), ops[n])
  {
    assert ops[..n + 1][..n] == ops[..n] && ops[..n + 1][n] == ops[n];
  }

  /** What the wheel and its clock stand for, with what has fired when. */
  ghost function TimersOf(w: TimingWheel, fired: set<Fired>): Timers
    reads w
  {
    Timers(w.now, w.nextTick, w.dead, w.pending, fired)
  }

  lemma TickIsNear(v: Wheels)
    requires Ok(v)
    ensures v.now <= v.nextTick <= v.now + 1
  {
  }

  /** Carries out an operation that applies to the timers the wheel stands for. */
  method Carry(wheel: TimingWheel, timers: Timers, op: Op) returns (fired: set<Fired>)
    requires wheel.Valid() && TimersOf(wheel, timers.fired) == timers
    modifies wheel, wheel.workWheel, wheel.assistantWheel
    ensures wheel.Valid() && TimersOf(wheel, timers.fired + fired) == Apply(timers, op)
  {
    hide Ok, FireTime;
    TickIsNear(wheel.View());
    fired := {};
    match op
    case Add(t, d) =>
      if t !in timers.dead && t !in timers.pending {
        wheel.AddTask(t, d);
      }
    case Expire(t) =>
      wheel.Expire(t);
    case DoTick =>
      if timers.nextTick == timers.now {
        var started := wheel.Tick();
        assert (set t | t in started) == set t | t in timers.pending && timers.pending[t] == timers.now;
        fired := set t | t in started :: Fired(t, timers.now);
      }
    case DoAdvance =>
      if timers.nextTick != timers.now {
        wheel.Advance();
      }
  }

  /**
    The wheel is that set of timers: over any operations, those that apply carried out by the wheel
    and `fired` collected from what its ticks start, both go the same way.
  */
  method Drive(ops: seq<Op>) returns (wheel: TimingWheel, fired: set<Fired>)
    ensures fresh(wheel) && wheel.Valid() && TimersOf(wheel, fired) == ApplyAll(START, ops)
  {
    hide Ok, Apply;
    wheel := new TimingWheel();
    fired := {};
    var timers := START;
    for n := 0 to |ops|
      invariant fresh(wheel) && fresh(wheel.workWheel) && fresh(wheel.assistantWheel) && wheel.Valid()
      invariant timers == ApplyAll(START, ops[..n]) && TimersOf(wheel, fired) == timers
    {
      ApplyNext(ops, n);
      var started := Carry(wheel, timers, ops[n]);
      fired := fired + started;
      timers := Apply(timers, ops[n]);
    }
    assert ops[..|ops|] == ops;
  }
}
