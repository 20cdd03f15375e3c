/**
  The multi-producer, multi-consumer ring of cyber/base/bounded_queue.h as a transition system.
  The counters are unbounded.
*/
module BoundedQueue {
  import opened Common
  import opened Modular

  type Tid = nat

  datatype Slot<T> = Torn | Holds(value: T)

  /** Where a thread is inside `Enqueue` or `Dequeue`, with its local variables. */
  datatype PC<T> =
    | Idle
    | EnqCheck(elem: T, oldTail: nat)     // about to load head_ and test for full
    | EnqCas(elem: T, oldTail: nat)       // about to exchange tail_
    | EnqClaimed(elem: T, oldTail: nat)   // owns position oldTail, slot not touched yet
    | EnqCopying(elem: T, oldTail: nat)   // slot half written
    | EnqCommit(elem: T, oldTail: nat)    // slot written, about to exchange commit_
    | EnqReturned(ok: bool)
    | DeqCheck(oldHead: nat)              // about to load commit_ and test for empty
    | DeqRead(oldHead: nat)               // about to copy the slot out
    | DeqCas(oldHead: nat, copy: Slot<T>) // about to exchange head_
    | DeqReturned(taken: Slot<T>)
    | DeqEmpty

  /**
    The shared fields and the threads, followed by history: every element in the order of the
    successful exchanges on tail_, the thread that made each, and every element handed out in
    the order of the successful exchanges on head_.
  */
  datatype State<T> = State(
    head: nat, tail: nat, commit: nat,
    pool: seq<Slot<T>>,
    threads: map<Tid, PC<T>>,
    enqueued: seq<T>,
    enqueuedBy: seq<Tid>,
    dequeued: seq<Slot<T>>)

  /**
    What the scheduler may do with a thread.  One action is one atomic load, one compare-and-exchange
    or one access to a slot.  A slot is written in two actions, so that a reader may catch it half
    written (`Torn`).  A weak compare-and-exchange may fail at any time.
  */
  datatype Action<T> = StartEnqueue(elem: T) | StartDequeue | Proceed | FailWeakly

  function PCOf<T>(s: State<T>, t: Tid): PC<T> {
    if t in s.threads then s.threads[t] else Idle
  }

  function At<T>(s: State<T>, t: Tid, pc: PC<T>): State<T> {
    s.(threads := s.threads[t := pc])
  }

  /** `GetIndex`: the remainder, computed without the remainder operator. */
  function GetIndex(num: nat, poolSize: nat): nat
    requires poolSize > 0
  {
    num - (num / poolSize) * poolSize
  }

  /** The slot of position `p`. */
  function SlotAt<T>(pool: seq<Slot<T>>, p: nat): Slot<T>
    requires |pool| > 0
  {
    pool[p % |pool|]
  }

  function Put<T>(pool: seq<Slot<T>>, p: nat, v: Slot<T>): seq<Slot<T>>
    requires |pool| > 0
  {
    pool[p % |pool| := v]
  }

  /** `Init(size)`: two more slots than elements, all default constructed. */
  function Init<T>(size: nat, default: T): State<T> {
    State(0, 1, 1, seq(size + 2, i => Holds(default)), map[], [], [], [])
  }

  predicate MayStart<T>(pc: PC<T>) {
    pc.Idle? || pc.EnqReturned? || pc.DeqReturned? || pc.DeqEmpty?
  }

  /** One action of thread `t`; an action that does not apply changes nothing. */
  function Step<T>(s: State<T>, t: Tid, a: Action<T>): State<T>
    requires |s.pool| > 0
  {
    var pc := PCOf(s, t);
    match a
    case StartEnqueue(e) => if MayStart(pc) then At(s, t, EnqCheck(e, s.tail)) else s
    case StartDequeue => if MayStart(pc) then At(s, t, DeqCheck(s.head)) else s
    case FailWeakly => StepFail(s, t, pc)
    case Proceed => if pc.DeqCheck? || pc.DeqRead? || pc.DeqCas? then StepDequeue(s, t, pc) else StepEnqueue(s, t, pc)
  }

  /** A failed exchange reloads the expected value; the commit loop resets it instead. */
  function StepFail<T>(s: State<T>, t: Tid, pc: PC<T>): State<T> {
    match pc
    case EnqCas(e, _) => At(s, t, EnqCheck(e, s.tail))
    case DeqCas(_, _) => At(s, t, DeqCheck(s.head))
    case _ => s
  }

  function StepEnqueue<T>(s: State<T>, t: Tid, pc: PC<T>): State<T>
    requires |s.pool| > 0
  {
    var n := |s.pool|;
    match pc
    case EnqCheck(e, p) =>
      if GetIndex(p + 1, n) == GetIndex(s.head, n) then At(s, t, EnqReturned(false)) else At(s, t, EnqCas(e, p))
    case EnqCas(e, p) =>
      if s.tail == p
      then At(s.(tail := p + 1, enqueued := s.enqueued + [e], enqueuedBy := s.enqueuedBy + [t]), t, EnqClaimed(e, p))
      else StepFail(s, t, pc)
    case EnqClaimed(e, p) =>
      At(s.(pool := Put(s.pool, p, Torn)), t, EnqCopying(e, p))
    case EnqCopying(e, p) =>
      At(s.(pool := Put(s.pool, p, Holds(e))), t, EnqCommit(e, p))
    case EnqCommit(e, p) =>
      if s.commit == p then At(s.(commit := p + 1), t, EnqReturned(true)) else s
    case _ => s
  }

  function StepDequeue<T>(s: State<T>, t: Tid, pc: PC<T>): State<T>
    requires |s.pool| > 0
  {
    match pc
    case DeqCheck(h) => if h + 1 == s.commit then At(s, t, DeqEmpty) else At(s, t, DeqRead(h))
    case DeqRead(h) => At(s, t, DeqCas(h, SlotAt(s.pool, h + 1)))
    case DeqCas(h, v) =>
      if s.head == h then At(s.(head := h + 1, dequeued := s.dequeued + [v]), t, DeqReturned(v))
      else StepFail(s, t, pc)
    case _ => s
  }

  /** The state after a whole schedule. */
  function Execute<T>(s: State<T>, schedule: seq<(Tid, Action<T>)>): State<T>
    requires |s.pool| > 0
    ensures |Execute(s, schedule).pool| == |s.pool|
    decreases |schedule|
  {
    if schedule == [] then s
    else
      var k := |schedule| - 1;
      Step(Execute(s, schedule[..k]), schedule[k].0, schedule[k].1)
  }

  // ---------------------------------------------------------------- invariant

  /** Thread state `pc` owns position `p`: it won the exchange on tail_ and has not committed. */
  predicate Owns<T>(pc: PC<T>, p: nat) {
    (pc.EnqClaimed? || pc.EnqCopying? || pc.EnqCommit?) && pc.oldTail == p
  }

  /** The thread that won position `p`. */
  function Producer(enqueuedBy: seq<Tid>, p: nat): Tid
    requires 1 <= p <= |enqueuedBy|
  {
    enqueuedBy[p - 1]
  }

  ghost predicate Counters<T>(s: State<T>) {
    && s.head < s.commit <= s.tail
    && s.tail - s.head <= |s.pool| - 1
    && s.tail == |s.enqueued| + 1 == |s.enqueuedBy| + 1
    && s.head == |s.dequeued|
  }

  /** Every committed, not yet removed position holds its element. */
  ghost predicate Contents<T>(s: State<T>)
    requires Counters(s)
  {
    && (forall i :: 0 <= i < s.head ==> s.dequeued[i] == Holds(s.enqueued[i]))
    && (forall p: nat :: s.head < p < s.commit ==> SlotAt(s.pool, p) == Holds(s.enqueued[p - 1]))
  }

  /** The positions in [commit, tail) are exactly the owned ones, each owned by one thread. */
  ghost predicate Ownership<T>(s: State<T>)
    requires Counters(s)
  {
    && (forall p: nat :: s.commit <= p < s.tail ==> Owns(PCOf(s, Producer(s.enqueuedBy, p)), p))
    && (forall t: Tid, p: nat {:trigger Owns(PCOf(s, t), p)} ::
          Owns(PCOf(s, t), p) ==> s.commit <= p < s.tail && Producer(s.enqueuedBy, p) == t)
  }

  /** What a thread may rely on, however stale its local copy of a counter is. */
  ghost predicate LocalFacts<T>(s: State<T>, pc: PC<T>)
    requires Counters(s)
  {
    match pc
    case EnqCheck(_, p) => 1 <= p <= s.tail
    case EnqCas(_, p) => 1 <= p <= s.tail && (p == s.tail ==> s.tail - s.head < |s.pool| - 1)
    case EnqClaimed(e, p) => 1 <= p < s.tail && s.enqueued[p - 1] == e
    case EnqCopying(e, p) => 1 <= p < s.tail && s.enqueued[p - 1] == e
    case EnqCommit(e, p) => 1 <= p < s.tail && s.enqueued[p - 1] == e && SlotAt(s.pool, p) == Holds(e)
    case DeqCheck(h) => h <= s.head
    case DeqRead(h) => h <= s.head && (h == s.head ==> h + 1 < s.commit)
    case DeqCas(h, v) =>
      h <= s.head && (h == s.head ==> h + 1 < s.commit && v == Holds(s.enqueued[h]))
    case _ => true
  }

  ghost predicate Inv<T>(s: State<T>) {
    && Counters(s)
    && Contents(s)
    && Ownership(s)
    && (forall t: Tid {:trigger PCOf(s, t)} :: LocalFacts(s, PCOf(s, t)))
  }

  // ---------------------------------------------------------------- ring arithmetic

  lemma GetIndexIsRemainder(num: nat, n: nat)
    requires n > 0
    ensures GetIndex(num, n) == num % n
  {
  }

  /** The copy is behind head_, and the next position is whole revolutions of the ring before head_. */
  predicate StaleOnHead<T>(s: State<T>, p: nat)
    requires |s.pool| > 0
  {
    p < s.head && (s.head - (p + 1)) % |s.pool| == 0
  }

  /** The full test on ring indices, for every copy of tail_ that a thread can hold. */
  lemma FullTest<T>(s: State<T>, p: nat)
    requires Counters(s) && p <= s.tail
    ensures GetIndex(p + 1, |s.pool|) == GetIndex(s.head, |s.pool|) <==>
      (p == s.tail && s.tail - s.head == |s.pool| - 1) || StaleOnHead(s, p)
  {
    var n := |s.pool|;
    GetIndexIsRemainder(p + 1, n);
    GetIndexIsRemainder(s.head, n);
    if p < s.head {
      SameRemainder(p + 1, s.head, n);
    } else if p + 1 < s.head + n {
      RemaindersDiffer(s.head, p + 1, n);
    } else {
      AddModulus(s.head, n);
    }
  }

  lemma SameRemainder(x: nat, y: nat, n: nat)
    requires n > 0 && x <= y
    ensures x % n == y % n <==> (y - x) % n == 0
  {
    var q := (y - x) / n;
    if (y - x) % n == 0 {
      assert y == x + q * n;
      ModShift(x, q, n);
    }
    if x % n == y % n {
      var k := y / n - x / n;
      assert y - x == 0 + k * n;
      ModShift(0, k, n);
    }
  }

  // ---------------------------------------------------------------- preservation

  lemma InitInv<T>(size: nat, default: T)
    ensures Inv(Init(size, default))
  {
  }

  /** Moving a thread between states that own nothing keeps the invariant. */
  lemma MoveKeepsInv<T>(s: State<T>, t: Tid, pc: PC<T>)
    requires Inv(s)
    requires forall p: nat :: !Owns(PCOf(s, t), p)
    requires forall p: nat :: !Owns(pc, p)
    requires LocalFacts(s, pc)
    ensures Inv(At(s, t, pc))
  {
    var s' := At(s, t, pc);
    assert forall u :: PCOf(s', u) == if u == t then pc else PCOf(s, u);
  }

  lemma ClaimKeepsInv<T>(s: State<T>, t: Tid)
    requires Inv(s) && PCOf(s, t).EnqCas? && s.tail == PCOf(s, t).oldTail
    ensures Inv(StepEnqueue(s, t, PCOf(s, t)))
  {
    var s' := StepEnqueue(s, t, PCOf(s, t));
    assert forall u :: u != t ==> PCOf(s', u) == PCOf(s, u);
    forall u: Tid ensures LocalFacts(s', PCOf(s', u)) {
      assert LocalFacts(s, PCOf(s, u));
    }
    forall q: nat | s'.commit <= q < s'.tail
      ensures Owns(PCOf(s', Producer(s'.enqueuedBy, q)), q)
    {
      if q < s.tail {
        assert Producer(s'.enqueuedBy, q) == Producer(s.enqueuedBy, q);
      }
    }
    forall u: Tid, q: nat | Owns(PCOf(s', u), q)
      ensures s'.commit <= q < s'.tail && Producer(s'.enqueuedBy, q) == u
    {
      if u != t {
        assert Owns(PCOf(s, u), q);
        assert Producer(s'.enqueuedBy, q) == Producer(s.enqueuedBy, q);
      }
    }
  }

  /** A write is seen at its own position and at no other position of the same revolution. */
  lemma PutGet<T>(pool: seq<Slot<T>>, p: nat, v: Slot<T>, q: nat)
    requires |pool| > 0 && p - |pool| < q < p + |pool|
    ensures SlotAt(Put(pool, p, v), q) == if q == p then v else SlotAt(pool, q)
  {
    if q < p {
      RemaindersDiffer(q, p, |pool|);
    } else if p < q {
      RemaindersDiffer(p, q, |pool|);
    }
  }

  /** The slot of an owned position may be written: it is behind no committed element. */
  lemma WriteKeepsContents<T>(s: State<T>, p: nat, v: Slot<T>)
    requires Counters(s) && Contents(s) && s.commit <= p < s.tail
    ensures Contents(s.(pool := Put(s.pool, p, v)))
  {
    forall q: nat | s.head < q < s.commit ensures SlotAt(Put(s.pool, p, v), q) == SlotAt(s.pool, q) {
      PutGet(s.pool, p, v, q);
    }
  }

  /** Nobody else has written the slot that thread `t` writes. */
  lemma WriteKeepsFacts<T>(s: State<T>, t: Tid, p: nat, v: Slot<T>, u: Tid)
    requires Inv(s) && Owns(PCOf(s, t), p) && u != t
    ensures LocalFacts(s.(pool := Put(s.pool, p, v)), PCOf(s, u))
  {
    var other := PCOf(s, u);
    assert LocalFacts(s, other);
    if other.EnqCommit? {
      assert Owns(other, other.oldTail);
      PutGet(s.pool, p, v, other.oldTail);
    }
  }

  /** A thread that moves on with its position changes the owner of none. */
  lemma MoveOnKeepsOwnership<T>(s: State<T>, s': State<T>, t: Tid)
    requires Counters(s) && Ownership(s) && Counters(s')
    requires s'.commit == s.commit && s'.tail == s.tail && s'.enqueuedBy == s.enqueuedBy
    requires forall u: Tid, q: nat {:trigger Owns(PCOf(s', u), q)} :: Owns(PCOf(s', u), q) <==> Owns(PCOf(s, u), q)
    ensures Ownership(s')
  {
    forall q: nat | s'.commit <= q < s'.tail
      ensures Owns(PCOf(s', Producer(s'.enqueuedBy, q)), q)
    {
      assert Owns(PCOf(s, Producer(s.enqueuedBy, q)), q);
    }
  }

  /** Thread `t` writes the slot of the position it owns and moves on, still owning it. */
  lemma WriteKeepsInv<T>(s: State<T>, t: Tid, v: Slot<T>, pc': PC<T>)
    requires Inv(s) && (PCOf(s, t).EnqClaimed? || PCOf(s, t).EnqCopying?)
    requires var pc := PCOf(s, t);
      pc' == EnqCopying(pc.elem, pc.oldTail) || (pc' == EnqCommit(pc.elem, pc.oldTail) && v == Holds(pc.elem))
    ensures Inv(At(s.(pool := Put(s.pool, PCOf(s, t).oldTail, v)), t, pc'))
  {
    var pc := PCOf(s, t);
    var p := pc.oldTail;
    var s' := At(s.(pool := Put(s.pool, p, v)), t, pc');
    assert Owns(pc, p) && LocalFacts(s, pc);
    assert forall u :: PCOf(s', u) == if u == t then pc' else PCOf(s, u);
    PutGet(s.pool, p, v, p);
    WriteKeepsContents(s, p, v);
    forall u: Tid ensures LocalFacts(s', PCOf(s', u)) {
      if u != t {
        WriteKeepsFacts(s, t, p, v, u);
      }
    }
    MoveOnKeepsOwnership(s, s', t);
  }

  /** The owner of the first uncommitted position has written it. */
  lemma CommitKeepsContents<T>(s: State<T>, t: Tid)
    requires Inv(s) && PCOf(s, t).EnqCommit? && s.commit == PCOf(s, t).oldTail
    ensures var s' := StepEnqueue(s, t, PCOf(s, t)); Counters(s') && Contents(s')
  {
    var pc := PCOf(s, t);
    assert Owns(pc, pc.oldTail) && LocalFacts(s, pc);
    hide Ownership;
  }

  /** A position that leaves the claimed range has lost its owner. */
  lemma CommitKeepsOwnership<T>(s: State<T>, t: Tid)
    requires Counters(s) && Ownership(s) && PCOf(s, t).EnqCommit? && s.commit == PCOf(s, t).oldTail < s.tail
    ensures var s' := StepEnqueue(s, t, PCOf(s, t)); Counters(s') && Ownership(s')
  {
    var pc := PCOf(s, t);
    var s' := StepEnqueue(s, t, pc);
    assert s'.enqueuedBy == s.enqueuedBy && s'.commit == s.commit + 1 && s'.tail == s.tail;
    assert Owns(pc, pc.oldTail);
    assert forall u :: PCOf(s', u) == if u == t then EnqReturned(true) else PCOf(s, u);
    forall q: nat | s'.commit <= q < s'.tail
      ensures Owns(PCOf(s', Producer(s'.enqueuedBy, q)), q)
    {
      assert Owns(PCOf(s, Producer(s.enqueuedBy, q)), q);
    }
    forall u: Tid, q: nat | Owns(PCOf(s', u), q)
      ensures s'.commit <= q < s'.tail && Producer(s'.enqueuedBy, q) == u
    {
      assert Owns(PCOf(s, u), q);
    }
  }

  lemma CommitKeepsInv<T>(s: State<T>, t: Tid)
    requires Inv(s) && PCOf(s, t).EnqCommit? && s.commit == PCOf(s, t).oldTail
    ensures Inv(StepEnqueue(s, t, PCOf(s, t)))
  {
    var s' := StepEnqueue(s, t, PCOf(s, t));
    FactsOf(s, t);
    CommitKeepsContents(s, t);
    CommitKeepsOwnership(s, t);
    hide Contents, Ownership;
    forall u: Tid ensures LocalFacts(s', PCOf(s', u)) {
      assert LocalFacts(s, PCOf(s, u));
    }
  }

  lemma TakeKeepsInv<T>(s: State<T>, t: Tid)
    requires Inv(s) && PCOf(s, t).DeqCas? && s.head == PCOf(s, t).oldHead
    ensures Inv(StepDequeue(s, t, PCOf(s, t)))
  {
    var pc := PCOf(s, t);
    var s' := StepDequeue(s, t, pc);
    assert LocalFacts(s, pc);
    assert forall u :: u != t ==> PCOf(s', u) == PCOf(s, u);
    forall u ensures LocalFacts(s', PCOf(s', u)) {
      assert LocalFacts(s, PCOf(s, u));
    }
  }

  lemma FailKeepsInv<T>(s: State<T>, t: Tid)
    requires Inv(s)
    ensures Inv(StepFail(s, t, PCOf(s, t)))
  {
    match PCOf(s, t)
    case EnqCas(e, _) => MoveKeepsInv(s, t, EnqCheck(e, s.tail));
    case DeqCas(_, _) => MoveKeepsInv(s, t, DeqCheck(s.head));
    case _ =>
  }

  lemma StepEnqueueKeepsInv<T>(s: State<T>, t: Tid)
    requires Inv(s)
    ensures Inv(StepEnqueue(s, t, PCOf(s, t)))
  {
    var pc := PCOf(s, t);
    assert LocalFacts(s, pc);
    hide Contents, Ownership;
    match pc
    case EnqCheck(e, p) =>
      if GetIndex(p + 1, |s.pool|) == GetIndex(s.head, |s.pool|) {
        MoveKeepsInv(s, t, EnqReturned(false));
      } else {
        FullTest(s, s.tail);
        MoveKeepsInv(s, t, EnqCas(e, p));
      }
    case EnqCas(_, p) => if s.tail == p { ClaimKeepsInv(s, t); } else { FailKeepsInv(s, t); }
    case EnqClaimed(e, p) => WriteKeepsInv(s, t, Torn, EnqCopying(e, p));
    case EnqCopying(e, p) => WriteKeepsInv(s, t, Holds(e), EnqCommit(e, p));
    case EnqCommit(_, p) => if s.commit == p { CommitKeepsInv(s, t); }
    case _ =>
  }

  lemma StepDequeueKeepsInv<T>(s: State<T>, t: Tid)
    requires Inv(s)
    ensures Inv(StepDequeue(s, t, PCOf(s, t)))
  {
    var pc := PCOf(s, t);
    assert LocalFacts(s, pc);
    match pc
    case DeqCheck(h) =>
      if h + 1 == s.commit { MoveKeepsInv(s, t, DeqEmpty); } else { MoveKeepsInv(s, t, DeqRead(h)); }
    case DeqRead(h) => MoveKeepsInv(s, t, DeqCas(h, SlotAt(s.pool, h + 1)));
    case DeqCas(h, _) => if s.head == h { TakeKeepsInv(s, t); } else { FailKeepsInv(s, t); }
    case _ =>
  }

  lemma StepKeepsInv<T>(s: State<T>, t: Tid, a: Action<T>)
    requires Inv(s)
    ensures Inv(Step(s, t, a))
  {
    match a
    case StartEnqueue(e) => if MayStart(PCOf(s, t)) { MoveKeepsInv(s, t, EnqCheck(e, s.tail)); }
    case StartDequeue => if MayStart(PCOf(s, t)) { MoveKeepsInv(s, t, DeqCheck(s.head)); }
    case FailWeakly => FailKeepsInv(s, t);
    case Proceed => StepEnqueueKeepsInv(s, t); StepDequeueKeepsInv(s, t);
  }

  lemma {:induction false} ReachableInv<T>(size: nat, default: T, schedule: seq<(Tid, Action<T>)>)
    ensures Inv(Execute(Init(size, default), schedule))
    decreases |schedule|
  {
    if schedule == [] {
      InitInv(size, default);
    } else {
      var k := |schedule| - 1;
      ReachableInv(size, default, schedule[..k]);
      StepKeepsInv(Execute(Init(size, default), schedule[..k]), schedule[k].0, schedule[k].1);
    }
  }

  // ---------------------------------------------------------------- whole runs

  /** The abstract queue: the committed elements that have not been handed out, oldest first. */
  function Queue<T>(s: State<T>): seq<T>
    requires s.head + 1 <= s.commit <= |s.enqueued| + 1
  {
    s.enqueued[s.head..s.commit - 1]
  }

  /** What a thread has been asked to do: by its last start that took effect. */
  datatype Call<T> = NoCall | Enqueues(elem: T) | Dequeues

  ghost function CallOf<T>(s: State<T>, schedule: seq<(Tid, Action<T>)>, t: Tid): Call<T>
    requires |s.pool| > 0
    decreases |schedule|
  {
    if schedule == [] then NoCall
    else
      var k := |schedule| - 1;
      var a := schedule[k].1;
      if schedule[k].0 == t && (a.StartEnqueue? || a.StartDequeue?) && MayStart(PCOf(Execute(s, schedule[..k]), t))
      then (if a.StartEnqueue? then Enqueues(a.elem) else Dequeues)
      else CallOf(s, schedule[..k], t)
  }

  /** The elements that the callers passed, in the order of the exchanges on tail_. */
  ghost function Passed<T>(s: State<T>, schedule: seq<(Tid, Action<T>)>): seq<T>
    requires |s.pool| > 0
    decreases |schedule|
  {
    if schedule == [] then []
    else
      var k := |schedule| - 1;
      var call := CallOf(s, schedule[..k], schedule[k].0);
      Passed(s, schedule[..k]) +
      if Execute(s, schedule).tail > Execute(s, schedule[..k]).tail && call.Enqueues? then [call.elem] else []
  }

  /** A thread works on what it was asked to do. */
  ghost predicate Serves<T>(pc: PC<T>, call: Call<T>) {
    match pc
    case Idle => call.NoCall?
    case EnqCheck(e, _) => call == Enqueues(e)
    case EnqCas(e, _) => call == Enqueues(e)
    case EnqClaimed(e, _) => call == Enqueues(e)
    case EnqCopying(e, _) => call == Enqueues(e)
    case EnqCommit(e, _) => call == Enqueues(e)
    case EnqReturned(_) => call.Enqueues?
    case _ => call.Dequeues?
  }

  lemma StepServes<T>(s: State<T>, t: Tid, a: Action<T>, call: Call<T>)
    requires |s.pool| > 0 && Serves(PCOf(s, t), call)
    ensures Serves(PCOf(Step(s, t, a), t),
                   if a.StartEnqueue? && MayStart(PCOf(s, t)) then Enqueues(a.elem)
                   else if a.StartDequeue? && MayStart(PCOf(s, t)) then Dequeues else call)
    ensures var s' := Step(s, t, a);
      && (s'.tail == s.tail ==> s'.enqueued == s.enqueued)
      && (s'.tail > s.tail ==> call.Enqueues? && s'.enqueued == s.enqueued + [call.elem])
      && s'.tail >= s.tail
    ensures forall u :: u != t ==> PCOf(Step(s, t, a), u) == PCOf(s, u)
  {
    hide GetIndex, SlotAt, Put;
  }

  /**
    A thread inside `Enqueue` holds the element that its caller passed, and the claimed elements are
    those that the claiming threads were called with.
  */
  lemma {:induction false} ArgumentsAreKept<T>(s: State<T>, schedule: seq<(Tid, Action<T>)>, t: Tid)
    requires |s.pool| > 0 && s.threads == map[] && s.enqueued == []
    ensures Serves(PCOf(Execute(s, schedule), t), CallOf(s, schedule, t))
    ensures Execute(s, schedule).enqueued == Passed(s, schedule)
    decreases |schedule|
  {
    hide Step, Serves;
    if schedule != [] {
      var k := |schedule| - 1;
      var x, u := Execute(s, schedule[..k]), schedule[k].0;
      ArgumentsAreKept(s, schedule[..k], t);
      ArgumentsAreKept(s, schedule[..k], u);
      StepServes(x, u, schedule[k].1, CallOf(s, schedule[..k], u));
    } else {
      IdleServes<T>();
    }
  }

  lemma IdleServes<T>()
    ensures Serves<T>(Idle, NoCall)
  {
  }

  /**
    Linearizable FIFO over every schedule: the values handed out, in the order of the exchanges on
    head_, are the first of the elements that the callers passed, in the order of the exchanges on
    tail_, whole and once each; and never more than `size` elements are inside.
  */
  lemma Fifo<T>(size: nat, default: T, schedule: seq<(Tid, Action<T>)>)
    ensures var s, passed := Execute(Init(size, default), schedule), Passed(Init(size, default), schedule);
      && s.enqueued == passed
      && |s.dequeued| <= |passed| <= |s.dequeued| + size
      && (forall i :: 0 <= i < |s.dequeued| ==> s.dequeued[i] == Holds(passed[i]))
  {
    ReachableInv(size, default, schedule);
    ArgumentsAreKept(Init(size, default), schedule, 0);
  }

  /** The counters of every reachable state, and how many claimed elements are inside; `head` and `tail` count them. */
  lemma CountersInRange<T>(size: nat, default: T, schedule: seq<(Tid, Action<T>)>)
    ensures var s := Execute(Init(size, default), schedule);
      && s.head < s.commit <= s.tail && 0 <= Inside(s) <= size
      && s.head == |s.dequeued| && s.tail == |s.enqueued| + 1
  {
    ReachableInv(size, default, schedule);
  }

  /** The claimed elements that have not been handed out. */
  function Inside<T>(s: State<T>): int {
    s.tail - s.head - 1
  }

  /** `Size()`: the difference of two loads, on 64 bits. */
  function SizeOf(tail: nat, head: nat): nat {
    (tail - head - 1) % TWO_64
  }

  lemma StepGrows<T>(s: State<T>, t: Tid, a: Action<T>)
    requires |s.pool| > 0
    ensures s.head <= Step(s, t, a).head && s.tail <= Step(s, t, a).tail
  {
    hide GetIndex, SlotAt, Put;
  }

  lemma {:induction false} CountersGrow<T>(s: State<T>, a: seq<(Tid, Action<T>)>, b: seq<(Tid, Action<T>)>)
    requires |s.pool| > 0
    ensures Execute(s, a).head <= Execute(s, a + b).head && Execute(s, a).tail <= Execute(s, a + b).tail
    decreases |b|
  {
    hide Step;
    if b == [] {
      assert a + b == a;
    } else {
      var k := |b| - 1;
      CountersGrow(s, a, b[..k]);
      assert (a + b)[..|a + b| - 1] == a + b[..k] && (a + b)[|a + b| - 1] == b[k];
      StepGrows(Execute(s, a + b[..k]), b[k].0, b[k].1);
    }
  }

  /**
    `Size()` that loads tail_ behind the actions `a` and head_ after the further actions `b`: what was
    inside at the first load, less what has been taken since.  So it is at most what was inside at
    either load, and in the range of sizes if and only if no more was taken than had been inside,
    otherwise close to 2^64.
  */
  lemma SizeLoadsTailFirst<T>(size: nat, default: T, a: seq<(Tid, Action<T>)>, b: seq<(Tid, Action<T>)>)
    requires var s, s' := Execute(Init(size, default), a), Execute(Init(size, default), a + b);
      |s'.dequeued| - |s.dequeued| < TWO_64 - size
    ensures var s, s' := Execute(Init(size, default), a), Execute(Init(size, default), a + b);
      var r, taken := SizeOf(s.tail, s'.head), |s'.dequeued| - |s.dequeued|;
      && 0 <= taken
      && (taken <= Inside(s) ==> r == Inside(s) - taken <= Inside(s'))
      && (taken > Inside(s) ==> r == TWO_64 - (taken - Inside(s)))
      && (r <= size <==> taken <= Inside(s))
  {
    hide Execute;
    CountersInRange(size, default, a);
    CountersInRange(size, default, a + b);
    CountersGrow(Init(size, default), a, b);
    var s, s' := Execute(Init(size, default), a), Execute(Init(size, default), a + b);
    WrapOnce(s.tail - s'.head - 1);
  }

  /**
    `Size()` that loads head_ first: what was inside then and what has been claimed since.  So it is
    at least what was inside at either load, and in the range of sizes if and only if no more was
    claimed than there had been room for.
  */
  lemma SizeLoadsHeadFirst<T>(size: nat, default: T, a: seq<(Tid, Action<T>)>, b: seq<(Tid, Action<T>)>)
    requires var s, s' := Execute(Init(size, default), a), Execute(Init(size, default), a + b);
      |s'.enqueued| - |s.enqueued| < TWO_64 - size
    ensures var s, s' := Execute(Init(size, default), a), Execute(Init(size, default), a + b);
      var r, claimed := SizeOf(s'.tail, s.head), |s'.enqueued| - |s.enqueued|;
      && 0 <= claimed
      && r == Inside(s) + claimed >= Inside(s')
      && (r <= size <==> claimed <= size - Inside(s))
  {
    hide Execute;
    CountersInRange(size, default, a);
    CountersInRange(size, default, a + b);
    CountersGrow(Init(size, default), a, b);
    var s, s' := Execute(Init(size, default), a), Execute(Init(size, default), a + b);
    WrapOnce(s'.tail - s.head - 1);
  }

  lemma WrapOnce(x: int)
    ensures 0 <= x < TWO_64 ==> x % TWO_64 == x
    ensures 0 - TWO_64 <= x < 0 ==> x % TWO_64 == x + TWO_64
  {
  }

  /** Every claimed and uncommitted position has exactly one producer; no other position has one. */
  lemma OneProducerPerPosition<T>(size: nat, default: T, schedule: seq<(Tid, Action<T>)>, p: nat)
    ensures var s := Execute(Init(size, default), schedule);
      && (s.commit <= p < s.tail <==> exists t: Tid :: Owns(PCOf(s, t), p))
      && (forall t: Tid, u: Tid :: Owns(PCOf(s, t), p) && Owns(PCOf(s, u), p) ==> t == u)
  {
    ReachableInv(size, default, schedule);
    var s := Execute(Init(size, default), schedule);
    if s.commit <= p < s.tail {
      assert Owns(PCOf(s, Producer(s.enqueuedBy, p)), p);
    }
  }

  /**
    Every step of every run is a step of an atomic queue of capacity `size`: it appends the element
    that a returning `Enqueue` was called with, hands the front to a returning `Dequeue`, reports
    empty when the queue is empty, or leaves the queue as it is.
  */
  lemma StepRefinesQueue<T>(size: nat, default: T, schedule: seq<(Tid, Action<T>)>, t: Tid, a: Action<T>)
    ensures var s := Execute(Init(size, default), schedule);
      var s' := Step(s, t, a);
      && Counters(s) && Counters(s') && |Queue(s')| <= size
      && AtomicStep(Queue(s), Queue(s'), CallOf(Init(size, default), schedule, t), PCOf(s, t), PCOf(s', t))
  {
    hide Step, LocalFacts, Contents, Ownership, AtomicStep, CallOf;
    ReachableInv(size, default, schedule);
    var s := Execute(Init(size, default), schedule);
    StepKeepsInv(s, t, a);
    ExecuteSnoc(Init(size, default), schedule, t, a);
    ArgumentsAreKept(Init(size, default), schedule, t);
    StepIsAtomic(s, t, a, CallOf(Init(size, default), schedule, t));
  }

  /** What a step does to the queue: a call takes effect in the step with which it returns. */
  ghost predicate AtomicStep<T>(queue: seq<T>, queue': seq<T>, call: Call<T>, pc: PC<T>, pc': PC<T>) {
    if !pc.EnqReturned? && pc'.EnqReturned? then
      call.Enqueues? && queue' == if pc'.ok then queue + [call.elem] else queue
    else if !pc.DeqReturned? && pc'.DeqReturned? then
      call.Dequeues? && queue != [] && pc'.taken == Holds(queue[0]) && queue' == queue[1..]
    else if !pc.DeqEmpty? && pc'.DeqEmpty? then call.Dequeues? && queue == [] && queue' == []
    else queue' == queue
  }

  /** How the slices of the history move with the counters. */
  lemma SliceMoves<T>(history: seq<T>, e: T, lo: nat, hi: nat)
    requires lo <= hi <= |history|
    ensures (history + [e])[lo..hi] == history[lo..hi]
    ensures hi < |history| ==> history[lo..hi + 1] == history[lo..hi] + [history[hi]]
    ensures lo < hi ==>
      history[lo..hi] != [] && history[lo..hi][0] == history[lo] && history[lo + 1..hi] == history[lo..hi][1..]
  {
  }

  lemma EnqueueIsAtomic<T>(s: State<T>, t: Tid, pc: PC<T>, call: Call<T>)
    requires Counters(s) && LocalFacts(s, pc) && Counters(StepEnqueue(s, t, pc)) && Serves(pc, call)
    requires !pc.DeqCheck? && !pc.DeqRead? && !pc.DeqCas? && PCOf(s, t) == pc
    ensures var s' := StepEnqueue(s, t, pc); AtomicStep(Queue(s), Queue(s'), call, pc, PCOf(s', t))
  {
    hide GetIndex, SlotAt, Put;
    if pc.EnqCas? && s.tail == pc.oldTail {
      SliceMoves(s.enqueued, pc.elem, s.head, s.commit - 1);
    } else if pc.EnqCommit? && s.commit == pc.oldTail {
      SliceMoves(s.enqueued, pc.elem, s.head, s.commit - 1);
    }
  }

  lemma DequeueIsAtomic<T>(s: State<T>, t: Tid, pc: PC<T>, call: Call<T>)
    requires Counters(s) && LocalFacts(s, pc) && Counters(StepDequeue(s, t, pc)) && Serves(pc, call)
    requires pc.DeqCheck? || pc.DeqRead? || pc.DeqCas?
    ensures var s' := StepDequeue(s, t, pc); AtomicStep(Queue(s), Queue(s'), call, pc, PCOf(s', t))
  {
    hide SlotAt;
    if pc.DeqCas? && s.head == pc.oldHead {
      SliceMoves(s.enqueued, s.enqueued[s.head], s.head, s.commit - 1);
    }
  }

  lemma StepIsAtomic<T>(s: State<T>, t: Tid, a: Action<T>, call: Call<T>)
    requires Inv(s) && Counters(Step(s, t, a)) && Serves(PCOf(s, t), call)
    ensures Counters(s) && AtomicStep(Queue(s), Queue(Step(s, t, a)), call, PCOf(s, t), PCOf(Step(s, t, a), t))
  {
    var pc := PCOf(s, t);
    FactsOf(s, t);
    hide Inv, LocalFacts, StepEnqueue, StepDequeue;
    if a.Proceed? {
      if pc.DeqCheck? || pc.DeqRead? || pc.DeqCas? {
        DequeueIsAtomic(s, t, pc, call);
      } else {
        EnqueueIsAtomic(s, t, pc, call);
      }
    }
  }

  /** With this action an `Enqueue` is turned away. */
  predicate Rejected<T>(s: State<T>, t: Tid, a: Action<T>)
    requires |s.pool| > 0
  {
    !PCOf(s, t).EnqReturned? && PCOf(Step(s, t, a), t) == EnqReturned(false)
  }

  lemma FactsOf<T>(s: State<T>, t: Tid)
    requires Inv(s)
    ensures Counters(s) && LocalFacts(s, PCOf(s, t))
  {
    assert LocalFacts(s, PCOf(s, t));
  }

  /** The copy is current and the queue is full, or the copy has fallen behind head_ by whole revolutions. */
  predicate TurnedAway<T>(s: State<T>, size: nat, p: nat)
    requires |s.pool| > 0
  {
    (p == s.tail && s.tail - s.head - 1 == size) || StaleOnHead(s, p)
  }

  /**
    Exactly when an `Enqueue` is turned away, in every reachable state: by its test of head_, with a
    current copy of tail_ if and only if the queue is full, with a stale one if and only if it has
    fallen behind head_ by whole revolutions; never with a copy in between.
  */
  lemma EnqueueRejectedIff<T>(size: nat, default: T, schedule: seq<(Tid, Action<T>)>, t: Tid, a: Action<T>)
    ensures var s := Execute(Init(size, default), schedule);
      Rejected(s, t, a) <==> PCOf(s, t).EnqCheck? && a.Proceed? && TurnedAway(s, size, PCOf(s, t).oldTail)
  {
    hide Inv, GetIndex, Execute;
    ReachableInv(size, default, schedule);
    var s := Execute(Init(size, default), schedule);
    FactsOf(s, t);
    if PCOf(s, t).EnqCheck? {
      FullTest(s, PCOf(s, t).oldTail);
    }
  }

  /** So while there is room, an `Enqueue` is turned away exactly because of a copy that is stale on head_. */
  lemma SpuriousIffStale<T>(size: nat, default: T, schedule: seq<(Tid, Action<T>)>, t: Tid)
    requires PCOf(Execute(Init(size, default), schedule), t).EnqCheck?
    ensures var s := Execute(Init(size, default), schedule);
      s.tail - s.head - 1 < size ==> (Rejected(s, t, Proceed) <==> StaleOnHead(s, PCOf(s, t).oldTail))
  {
    EnqueueRejectedIff(size, default, schedule, t, Proceed);
  }

  // ---------------------------------------------------------------- undisturbed calls

  function Proceeds<T>(t: Tid, first: Action<T>, n: nat): seq<(Tid, Action<T>)> {
    if n == 0 then [(t, first)] else Proceeds(t, first, n - 1) + [(t, Proceed)]
  }

  /** What holds when thread `t` has started in `x` and proceeded `k` times, undisturbed. */
  ghost predicate Alone<T>(x: State<T>, y: State<T>, t: Tid, first: Action<T>, k: nat) {
    && Inv(y) && |y.pool| == |x.pool| && MayStart(PCOf(x, t))
    && if first.StartEnqueue? then
         y.head == x.head && y.tail == (if k < 2 then x.tail else x.tail + 1)
         && y.enqueued == (if k < 2 then x.enqueued else x.enqueued + [first.elem])
         && y.commit == (if k < 5 then x.tail else x.tail + 1)
         && match k
            case 0 => PCOf(y, t) == EnqCheck(first.elem, x.tail)
            case 1 => PCOf(y, t) == EnqCas(first.elem, x.tail)
            case 2 => PCOf(y, t) == EnqClaimed(first.elem, x.tail)
            case 3 => PCOf(y, t) == EnqCopying(first.elem, x.tail)
            case 4 => PCOf(y, t) == EnqCommit(first.elem, x.tail)
            case _ => PCOf(y, t) == EnqReturned(true)
       else
         y.tail == x.tail && y.commit == x.commit && y.head == (if k < 3 then x.head else x.head + 1)
         && y.enqueued == x.enqueued
         && match k
            case 0 => PCOf(y, t) == DeqCheck(x.head)
            case 1 => PCOf(y, t) == DeqRead(x.head)
            case 2 => PCOf(y, t).DeqCas? && PCOf(y, t).oldHead == x.head
            case _ => x.head < |x.enqueued| && PCOf(y, t) == DeqReturned(Holds(x.enqueued[x.head]))
  }

  /** An `Enqueue` meets room and no other producer, a `Dequeue` meets an element. */
  ghost predicate MayGoThrough<T>(x: State<T>, first: Action<T>) {
    if first.StartEnqueue? then x.commit == x.tail && Inside(x) < |x.pool| - 2
    else first.StartDequeue? && x.head + 1 < x.commit
  }

  lemma AloneStep<T>(x: State<T>, y: State<T>, t: Tid, first: Action<T>, k: nat)
    requires MayGoThrough(x, first) && Alone(x, y, t, first, k)
    requires k < if first.StartEnqueue? then 5 else 3
    ensures Alone(x, Step(y, t, Proceed), t, first, k + 1)
  {
    StepKeepsInv(y, t, Proceed);
    FactsOf(y, t);
    hide Inv, Contents, Ownership, Put, GetIndex;
    if first.StartEnqueue? && k == 0 {
      FullTest(y, y.tail);
    }
  }

  lemma {:induction false} AloneGoesOn<T>(x: State<T>, t: Tid, first: Action<T>, k: nat)
    requires Inv(x) && MayStart(PCOf(x, t)) && MayGoThrough(x, first)
    requires k <= if first.StartEnqueue? then 5 else 3
    ensures Alone(x, Execute(x, Proceeds(t, first, k)), t, first, k)
  {
    if k == 0 {
      StepKeepsInv(x, t, first);
      assert [(t, first)][..0] == [];
      assert Execute(x, [(t, first)]) == Step(x, t, first);
    } else {
      AloneGoesOn(x, t, first, k - 1);
      AloneStep(x, Execute(x, Proceeds(t, first, k - 1)), t, first, k - 1);
      ExecuteSnoc(x, Proceeds(t, first, k - 1), t, Proceed);
    }
  }

  /** What undisturbed calls do. */
  ghost predicate GoesThrough<T>(s: State<T>, size: nat, t: Tid, e: T) {
    && Counters(s) && |s.pool| > 0
    && (s.commit == s.tail && Inside(s) < size ==>
          var s' := Execute(s, Proceeds(t, StartEnqueue(e), 5));
          PCOf(s', t) == EnqReturned(true) && Counters(s') && Queue(s') == Queue(s) + [e])
    && (Queue(s) != [] ==>
          var s' := Execute(s, Proceeds(t, StartDequeue, 3));
          PCOf(s', t) == DeqReturned(Holds(Queue(s)[0])) && Counters(s') && Queue(s') == Queue(s)[1..])
    && (Queue(s) == [] ==> PCOf(Execute(s, Proceeds(t, StartDequeue, 1)), t) == DeqEmpty)
  }

  /**
    Calls get through, from every reachable state.  With room and nobody else inside `Enqueue`, an
    undisturbed `Enqueue` returns true after five accesses with its argument at the back; with an
    element queued, an undisturbed `Dequeue` returns the front after three; and on an empty queue it
    reports empty after one.
  */
  lemma CallsGetThrough<T>(size: nat, default: T, schedule: seq<(Tid, Action<T>)>, t: Tid, e: T)
    requires MayStart(PCOf(Execute(Init(size, default), schedule), t))
    ensures GoesThrough(Execute(Init(size, default), schedule), size, t, e)
  {
    ReachableInv(size, default, schedule);
    var s := Execute(Init(size, default), schedule);
    hide Execute, Proceeds, Step, LocalFacts, Ownership, Contents, Alone;
    if MayGoThrough(s, StartEnqueue(e)) {
      AloneGoesOn(s, t, StartEnqueue(e), 5);
      Appended(s, Execute(s, Proceeds(t, StartEnqueue(e), 5)), t, e);
    }
    if MayGoThrough(s, StartDequeue) {
      AloneGoesOn(s, t, StartDequeue, 3);
      Removed(s, Execute(s, Proceeds(t, StartDequeue, 3)), t);
    } else {
      FindsNothing(s, t);
    }
  }

  lemma Appended<T>(s: State<T>, s': State<T>, t: Tid, e: T)
    requires Counters(s) && s.commit == s.tail && Alone(s, s', t, StartEnqueue(e), 5)
    ensures PCOf(s', t) == EnqReturned(true) && Counters(s') && Queue(s') == Queue(s) + [e]
  {
  }

  lemma Removed<T>(s: State<T>, s': State<T>, t: Tid)
    requires Counters(s) && Queue(s) != [] && Alone(s, s', t, StartDequeue, 3)
    ensures PCOf(s', t) == DeqReturned(Holds(Queue(s)[0])) && Counters(s') && Queue(s') == Queue(s)[1..]
  {
  }

  lemma FindsNothing<T>(s: State<T>, t: Tid)
    requires |s.pool| > 0 && MayStart(PCOf(s, t)) && s.head + 1 == s.commit
    ensures PCOf(Execute(s, Proceeds(t, StartDequeue, 1)), t) == DeqEmpty
  {
    var none: seq<(Tid, Action<T>)> := [];
    var first := [(t, StartDequeue)];
    ExecuteSnoc(s, none, t, StartDequeue);
    ExecuteSnoc(s, first, t, Proceed);
    assert none + first == first && Proceeds<T>(t, StartDequeue, 0) == first;
  }

  // ---------------------------------------------------------------- a spurious rejection

  /** Thread `t` enqueues `e` and takes it out again, undisturbed. */
  function Round<T>(t: Tid, e: T): seq<(Tid, Action<T>)> {
    [(t, StartEnqueue(e)), (t, Proceed), (t, Proceed), (t, Proceed), (t, Proceed), (t, Proceed),
     (t, StartDequeue), (t, Proceed), (t, Proceed), (t, Proceed)]
  }

  lemma ExecuteSnoc<T>(s: State<T>, schedule: seq<(Tid, Action<T>)>, t: Tid, a: Action<T>)
    requires |s.pool| > 0
    ensures Execute(s, schedule + [(t, a)]) == Step(Execute(s, schedule), t, a)
  {
    assert (schedule + [(t, a)])[..|schedule|] == schedule;
  }

  /** What holds after the first `k` actions of a round of `t` that started in `x`. */
  ghost predicate InRound<T>(x: State<T>, y: State<T>, t: Tid, u: Tid, e: T, k: nat) {
    && Inv(y) && PCOf(y, u) == PCOf(x, u) && |y.pool| > 2
    && y.tail == (if k < 3 then x.tail else x.tail + 1)
    && y.commit == (if k < 6 then x.tail else x.tail + 1)
    && y.head + 1 == (if k < 10 then x.tail else x.tail + 1)
    && match k
       case 0 => MayStart(PCOf(y, t))
       case 1 => PCOf(y, t) == EnqCheck(e, x.tail)
       case 2 => PCOf(y, t) == EnqCas(e, x.tail)
       case 3 => PCOf(y, t) == EnqClaimed(e, x.tail)
       case 4 => PCOf(y, t) == EnqCopying(e, x.tail)
       case 5 => PCOf(y, t) == EnqCommit(e, x.tail)
       case 6 => PCOf(y, t) == EnqReturned(true)
       case 7 => PCOf(y, t) == DeqCheck(y.head)
       case 8 => PCOf(y, t) == DeqRead(y.head)
       case 9 => PCOf(y, t).DeqCas? && PCOf(y, t).oldHead == y.head
       case _ => PCOf(y, t).DeqReturned?
  }

  lemma RoundStep<T>(x: State<T>, y: State<T>, t: Tid, u: Tid, e: T, k: nat)
    requires k < 10 && t != u && InRound(x, y, t, u, e, k)
    ensures InRound(x, Step(y, t, Round(t, e)[k].1), t, u, e, k + 1)
  {
    StepKeepsInv(y, t, Round(t, e)[k].1);
    if k == 1 {
      FullTest(y, y.tail);
    }
  }

  lemma ExecutePrefix<T>(s: State<T>, schedule: seq<(Tid, Action<T>)>, r: seq<(Tid, Action<T>)>, k: nat)
    requires |s.pool| > 0 && k < |r|
    ensures Execute(s, schedule + r[..k + 1]) == Step(Execute(s, schedule + r[..k]), r[k].0, r[k].1)
  {
    assert schedule + r[..k + 1] == schedule + r[..k] + [(r[k].0, r[k].1)];
    ExecuteSnoc(s, schedule + r[..k], r[k].0, r[k].1);
  }

  /** From an empty queue a round moves all counters on by one and touches no other thread. */
  lemma {:induction false} RoundAdvances<T>(s: State<T>, schedule: seq<(Tid, Action<T>)>, t: Tid, u: Tid, e: T, k: nat)
    requires |s.pool| > 0 && t != u && k <= 10
    requires InRound(Execute(s, schedule), Execute(s, schedule), t, u, e, 0)
    ensures InRound(Execute(s, schedule), Execute(s, schedule + Round(t, e)[..k]), t, u, e, k)
  {
    if k == 0 {
      assert schedule + Round(t, e)[..0] == schedule;
    } else {
      RoundAdvances(s, schedule, t, u, e, k - 1);
      ExecutePrefix(s, schedule, Round(t, e), k - 1);
      RoundStep(Execute(s, schedule), Execute(s, schedule + Round(t, e)[..k - 1]), t, u, e, k - 1);
    }
  }

  function Rounds<T>(t: Tid, e: T, n: nat): seq<(Tid, Action<T>)> {
    if n == 0 then [] else Rounds(t, e, n - 1) + Round(t, e)[..10]
  }

  lemma {:induction false} RoundsAdvance<T>(size: nat, default: T, e: T, n: nat)
    requires size > 0
    ensures var s := Execute(Init(size, default), Rounds(1, e, n));
      s.head == n && s.commit == s.tail == n + 1 && MayStart(PCOf(s, 1))
  {
    if n > 0 {
      RoundsAdvance(size, default, e, n - 1);
      ReachableInv(size, default, Rounds(1, e, n - 1));
      hide Inv;
      RoundAdvances(Init(size, default), Rounds(1, e, n - 1), 1, 0, e, 10);
    }
  }

  /** So `Size()` may report any number of a queue that is empty at both loads, and any number below 2^64 from the top. */
  lemma SizeMayBeAnything<T>(size: nat, default: T, e: T, n: nat)
    requires size > 0 && n < TWO_64
    ensures var s, s' := Execute(Init(size, default), []), Execute(Init(size, default), Rounds(1, e, n));
      && Inside(s) == Inside(s') == 0
      && SizeOf(s'.tail, s.head) == n
      && SizeOf(s.tail, s'.head) == if n == 0 then 0 else TWO_64 - n
  {
    hide Rounds;
    RoundsAdvance(size, default, e, n);
    WrapOnce(n);
    WrapOnce(0 - n);
  }

  /**
    Such schedules exist for every positive capacity: a thread that loaded tail_ before two rounds of
    another thread is turned away although the queue is empty.
  */
  lemma StaleTailRejectsOnEmptyQueue<T>(size: nat, default: T, e: T)
    requires size > 0
    ensures exists schedule: seq<(Tid, Action<T>)> :: SpuriousRejection(size, default, schedule, 0)
  {
    var s := Init(size, default);
    InitInv(size, default);
    var first: seq<(Tid, Action<T>)> := [];
    assert Execute(s, first) == s;
    ExecuteSnoc(s, first, 0, StartEnqueue(e));
    var second := first + [(0, StartEnqueue(e))];
    StepKeepsInv(s, 0, StartEnqueue(e));
    RoundAdvances(s, second, 1, 0, e, 10);
    var third := second + Round(1, e)[..10];
    RoundAdvances(s, third, 1, 0, e, 10);
    var last := third + Round(1, e)[..10];
    var x := Execute(s, last);
    assert StaleOnHead(x, 1);
    FullTest(x, 1);
    assert SpuriousRejection(size, default, last, 0);
  }

  /** A thread is turned away by an empty queue. */
  ghost predicate SpuriousRejection<T>(size: nat, default: T, schedule: seq<(Tid, Action<T>)>, t: Tid) {
    var s := Execute(Init(size, default), schedule);
    Rejected(s, t, Proceed) && s.tail == s.head + 1
  }
}
