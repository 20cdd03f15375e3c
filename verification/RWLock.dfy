/**
  The reader/writer lock of cyber/base/atomic_rw_lock.h, taken and released by the guards of
  cyber/base/rw_lock_guard.h, as a transition system.
*/
module RWLock {

  type Tid = nat

  const RW_LOCK_FREE: int := 0
  const WRITE_EXCLUSIVE: int := -1

  /** Where a thread is, with its local copy of lock_num_. */
  datatype PC =
    | Outside
    | ReadCheck(lockNum: int)   // about to test the copy and, if writers go first, load write_lock_wait_num_
    | ReadReload                // about to load lock_num_ again
    | ReadCas(lockNum: int)     // about to exchange lock_num_
    | Reading                   // holds a ReadLockGuard
    | WriteCas                  // counted as waiting, about to exchange lock_num_
    | WriteWon                  // exchange won, still counted as waiting
    | Writing                   // holds a WriteLockGuard

  datatype State = State(writeFirst: bool, lockNum: int, waiting: nat, threads: map<Tid, PC>)

  /**
    One action of one thread is one atomic load, fetch-and-add or compare-and-exchange.  A weak
    exchange may fail at any time.  Yielding after five retries changes nothing and is left out.
  */
  datatype Action = StartRead | StartWrite | Proceed | FailWeakly

  function PCOf(s: State, t: Tid): PC {
    if t in s.threads then s.threads[t] else Outside
  }

  function At(s: State, t: Tid, pc: PC): State {
    s.(threads := s.threads[t := pc])
  }

  function Init(writeFirst: bool): State {
    State(writeFirst, RW_LOCK_FREE, 0, map[])
  }

  /** One action of thread `t`; an action that does not apply changes nothing. */
  function Step(s: State, t: Tid, a: Action): State {
    var pc := PCOf(s, t);
    match a
    case StartRead => if pc.Outside? then At(s, t, ReadCheck(s.lockNum)) else s
    case StartWrite => if pc.Outside? then At(s.(waiting := s.waiting + 1), t, WriteCas) else s
    case FailWeakly => if pc.ReadCas? then At(s, t, ReadCheck(s.lockNum)) else s
    case Proceed =>
      match pc
      case ReadCheck(n) =>
        if n < RW_LOCK_FREE || (s.writeFirst && s.waiting > 0) then At(s, t, ReadReload) else At(s, t, ReadCas(n))
      case ReadReload => At(s, t, ReadCheck(s.lockNum))
      case ReadCas(n) =>
        if s.lockNum == n then At(s.(lockNum := n + 1), t, Reading) else At(s, t, ReadCheck(s.lockNum))
      case Reading => At(s.(lockNum := s.lockNum - 1), t, Outside)
      case WriteCas => if s.lockNum == RW_LOCK_FREE then At(s.(lockNum := WRITE_EXCLUSIVE), t, WriteWon) else s
      case WriteWon => At(s.(waiting := if s.waiting > 0 then s.waiting - 1 else 0), t, Writing)
      case Writing => At(s.(lockNum := s.lockNum + 1), t, Outside)
      case Outside => s
  }

  /** The state after a whole schedule. */
  function Execute(s: State, schedule: seq<(Tid, Action)>): State
    decreases |schedule|
  {
    if schedule == [] then s
    else
      var k := |schedule| - 1;
      Step(Execute(s, schedule[..k]), schedule[k].0, schedule[k].1)
  }

  // ---------------------------------------------------------------- invariant

  /** The threads whose state satisfies `c`. */
  function Class(threads: map<Tid, PC>, c: PC -> bool): set<Tid> {
    set t | t in threads && c(threads[t])
  }

  function Readers(s: State): set<Tid> {
    Class(s.threads, (pc: PC) => pc.Reading?)
  }

  function Writers(s: State): set<Tid> {
    Class(s.threads, (pc: PC) => pc.WriteWon? || pc.Writing?)
  }

  /** The writers between their increment and their decrement of write_lock_wait_num_. */
  function Waiters(s: State): set<Tid> {
    Class(s.threads, (pc: PC) => pc.WriteCas? || pc.WriteWon?)
  }

  ghost predicate Inv(s: State) {
    && (if s.lockNum == WRITE_EXCLUSIVE then |Writers(s)| == 1 && Readers(s) == {}
        else s.lockNum == |Readers(s)| && Writers(s) == {})
    && s.waiting == |Waiters(s)|
    && (forall t: Tid {:trigger PCOf(s, t)} :: PCOf(s, t).ReadCas? ==> PCOf(s, t).lockNum >= 0)
  }

  function Indicator(b: bool): nat { if b then 1 else 0 }

  lemma ClassCount(threads: map<Tid, PC>, t: Tid, pc': PC, c: PC -> bool)
    ensures |Class(threads[t := pc'], c)|
         == |Class(threads, c)| + Indicator(c(pc')) - Indicator(t in threads && c(threads[t]))
  {
    var before, after := Class(threads, c), Class(threads[t := pc'], c);
    assert after == if c(pc') then before + {t} else before - {t};
  }

  /** Only the acting thread can change class, and the counts follow it. */
  lemma StepMovesOneThread(s: State, t: Tid, a: Action)
    ensures var s' := Step(s, t, a);
      var pc, pc' := PCOf(s, t), PCOf(s', t);
      && (forall u :: u != t ==> PCOf(s', u) == PCOf(s, u))
      && |Readers(s')| == |Readers(s)| + Indicator(pc'.Reading?) - Indicator(pc.Reading?)
      && |Writers(s')| == |Writers(s)| + Indicator(pc'.WriteWon? || pc'.Writing?) - Indicator(pc.WriteWon? || pc.Writing?)
      && |Waiters(s')| == |Waiters(s)| + Indicator(pc'.WriteCas? || pc'.WriteWon?) - Indicator(pc.WriteCas? || pc.WriteWon?)
  {
    var s' := Step(s, t, a);
    if s' != s {
      var pc' := PCOf(s', t);
      assert s'.threads == s.threads[t := pc'];
      ClassCount(s.threads, t, pc', (pc: PC) => pc.Reading?);
      ClassCount(s.threads, t, pc', (pc: PC) => pc.WriteWon? || pc.Writing?);
      ClassCount(s.threads, t, pc', (pc: PC) => pc.WriteCas? || pc.WriteWon?);
    }
  }

  lemma StepKeepsInv(s: State, t: Tid, a: Action)
    requires Inv(s)
    ensures Inv(Step(s, t, a))
  {
    var s', pc := Step(s, t, a), PCOf(s, t);
    StepMovesOneThread(s, t, a);
    assert pc.Reading? ==> t in Readers(s);
    assert pc.Writing? || pc.WriteWon? ==> t in Writers(s);
  }

  lemma OnlyElement(s: set<Tid>, t: Tid)
    requires t in s && |s| == 1
    ensures s == {t}
  {
    assert |s - {t}| == 0;
  }

  lemma {:induction false} ReachableInv(writeFirst: bool, schedule: seq<(Tid, Action)>)
    ensures Inv(Execute(Init(writeFirst), schedule))
    decreases |schedule|
  {
    if schedule == [] {
      assert Readers(Init(writeFirst)) == {} && Writers(Init(writeFirst)) == {} && Waiters(Init(writeFirst)) == {};
    } else {
      var k := |schedule| - 1;
      ReachableInv(writeFirst, schedule[..k]);
      StepKeepsInv(Execute(Init(writeFirst), schedule[..k]), schedule[k].0, schedule[k].1);
    }
  }

  // ---------------------------------------------------------------- whole runs

  /**
    In every reachable state the lock number is -1 with one writer and no reader, or the number
    of readers with no writer, and the wait counter is the number of waiting writers.
  */
  lemma NumbersAreExact(writeFirst: bool, schedule: seq<(Tid, Action)>)
    ensures var s := Execute(Init(writeFirst), schedule);
      && (s.lockNum == WRITE_EXCLUSIVE <==> Writers(s) != {})
      && (s.lockNum == WRITE_EXCLUSIVE ==> |Writers(s)| == 1 && Readers(s) == {})
      && (s.lockNum != WRITE_EXCLUSIVE ==> s.lockNum == |Readers(s)|)
      && s.waiting == |Waiters(s)|
  {
    ReachableInv(writeFirst, schedule);
    var s := Execute(Init(writeFirst), schedule);
    assert s.lockNum == WRITE_EXCLUSIVE ==> Writers(s) != {};
  }

  /** A writer's guard excludes every other guard; a reader's guard excludes writers. */
  lemma MutualExclusion(writeFirst: bool, schedule: seq<(Tid, Action)>, t: Tid, u: Tid)
    requires t != u
    ensures var s := Execute(Init(writeFirst), schedule);
      PCOf(s, t).Writing? ==> !PCOf(s, u).Writing? && !PCOf(s, u).WriteWon? && !PCOf(s, u).Reading?
  {
    ReachableInv(writeFirst, schedule);
    var s := Execute(Init(writeFirst), schedule);
    if PCOf(s, t).Writing? {
      assert t in Writers(s);
      OnlyElement(Writers(s), t);
      assert u !in Writers(s) && u !in Readers(s);
    }
  }

  /** The readers inside and those whose check is behind them. */
  function Admitted(s: State): set<Tid> {
    set t | t in s.threads && (s.threads[t].Reading? || s.threads[t].ReadCas?)
  }

  /** Some writer waits at every moment of the run of `schedule` from `s`. */
  ghost predicate WriterWaitsThroughout(s: State, schedule: seq<(Tid, Action)>) {
    forall k :: 0 <= k <= |schedule| ==> Execute(s, schedule[..k]).waiting > 0
  }

  /**
    Writers first: over any stretch of any run during which some writer waits, no reader gets in
    whose check was not already behind it when the stretch began, not even one that was inside
    and left.
  */
  lemma {:induction false} NoLateReaders(s: State, schedule: seq<(Tid, Action)>)
    requires s.writeFirst && WriterWaitsThroughout(s, schedule)
    ensures var s' := Execute(s, schedule); s'.writeFirst && Admitted(s') <= Admitted(s)
    decreases |schedule|
  {
    if schedule != [] {
      var k := |schedule| - 1;
      forall j | 0 <= j <= k ensures Execute(s, schedule[..k][..j]).waiting > 0 {
        assert schedule[..k][..j] == schedule[..j];
      }
      NoLateReaders(s, schedule[..k]);
      NoneAdmitted(Execute(s, schedule[..k]), schedule[k].0, schedule[k].1);
    }
  }

  lemma NoneAdmitted(s: State, t: Tid, a: Action)
    requires s.writeFirst && s.waiting > 0
    ensures Step(s, t, a).writeFirst && Admitted(Step(s, t, a)) <= Admitted(s)
  {
    var s' := Step(s, t, a);
    forall u | u in Admitted(s') ensures u in Admitted(s) {
      assert u != t ==> PCOf(s', u) == PCOf(s, u);
    }
  }

  // ---------------------------------------------------------------- undisturbed threads

  lemma ThreeSteps(s: State, t: Tid, first: Action)
    ensures Execute(s, [(t, first), (t, Proceed), (t, Proceed)]) == Step(Step(Step(s, t, first), t, Proceed), t, Proceed)
  {
    hide Step;
    var one := [(t, first)];
    var two := [(t, first), (t, Proceed)];
    var all := [(t, first), (t, Proceed), (t, Proceed)];
    assert one[..0] == [] && two[..1] == one && all[..2] == two;
    assert Execute(s, one) == Step(s, t, first);
    assert Execute(s, two) == Step(Execute(s, one), t, Proceed);
  }

  /**
    An undisturbed thread gets in with three actions: a reader, if no writer is inside and, with
    writers first, none waits; a writer, if nobody is inside.
  */
  lemma UndisturbedGetsIn(writeFirst: bool, schedule: seq<(Tid, Action)>, t: Tid)
    requires PCOf(Execute(Init(writeFirst), schedule), t).Outside?
    ensures var s := Execute(Init(writeFirst), schedule);
      && (Writers(s) == {} && (s.writeFirst ==> Waiters(s) == {}) ==>
            var s' := Execute(s, [(t, StartRead), (t, Proceed), (t, Proceed)]);
            PCOf(s', t).Reading? && Readers(s') == Readers(s) + {t})
      && (Writers(s) == {} && Readers(s) == {} ==>
            var s' := Execute(s, [(t, StartWrite), (t, Proceed), (t, Proceed)]);
            PCOf(s', t).Writing? && Writers(s') == {t})
  {
    ReachableInv(writeFirst, schedule);
    var s := Execute(Init(writeFirst), schedule);
    hide Execute;
    ThreeSteps(s, t, StartRead);
    ThreeSteps(s, t, StartWrite);
    if Writers(s) == {} && (s.writeFirst ==> Waiters(s) == {}) {
      ReaderGetsIn(s, t);
    }
    if Writers(s) == {} && Readers(s) == {} {
      WriterGetsIn(s, t);
    }
  }

  lemma ReaderGetsIn(s: State, t: Tid)
    requires PCOf(s, t).Outside? && s.lockNum >= 0 && (s.writeFirst ==> s.waiting == 0)
    ensures var s' := Step(Step(Step(s, t, StartRead), t, Proceed), t, Proceed);
      PCOf(s', t).Reading? && Readers(s') == Readers(s) + {t}
  {
    var s1 := Step(s, t, StartRead);
    var s2 := Step(s1, t, Proceed);
    var s3 := Step(s2, t, Proceed);
    assert s3.threads == s.threads[t := Reading];
  }

  lemma WriterGetsIn(s: State, t: Tid)
    requires PCOf(s, t).Outside? && s.lockNum == 0 && Writers(s) == {}
    ensures var s' := Step(Step(Step(s, t, StartWrite), t, Proceed), t, Proceed);
      PCOf(s', t).Writing? && Writers(s') == {t}
  {
    var s1 := Step(s, t, StartWrite);
    var s2 := Step(s1, t, Proceed);
    var s3 := Step(s2, t, Proceed);
    assert s3.threads == s.threads[t := Writing];
    assert forall u :: u in Writers(s3) && u != t ==> u in Writers(s);
  }

  /** A guard that is released lets go: the thread is outside again, and inside is who was inside but it. */
  lemma ReleaseLetsGo(writeFirst: bool, schedule: seq<(Tid, Action)>, t: Tid)
    requires var pc := PCOf(Execute(Init(writeFirst), schedule), t); pc.Reading? || pc.Writing?
    ensures var s := Execute(Init(writeFirst), schedule);
      var s' := Step(s, t, Proceed);
      PCOf(s', t).Outside? && Readers(s') == Readers(s) - {t} && Writers(s') == Writers(s) - {t}
  {
    var s := Execute(Init(writeFirst), schedule);
    assert Step(s, t, Proceed).threads == s.threads[t := Outside];
  }
}
