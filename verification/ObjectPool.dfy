/**
  The concurrent object pool of cyber/base/concurrent_object_pool.h as a transition system: a
  stack of free nodes whose head carries an unbounded version count.  Nodes are the indices
  0..capacity of the arena.
*/
module ObjectPool {

  type Tid = nat
  type Node = nat

  datatype Link = Null | To(node: Node)

  datatype Head = Head(count: nat, link: Link)

  /** Where a thread is inside `FindFreeHead` or `ReleaseObject`, with its local variables. */
  datatype PC =
    | Idle
    | GetNext(oldHead: Head)               // about to read old_head.node->next
    | GetCas(oldHead: Head, next: Link)    // about to exchange free_head_
    | GetNull                              // returned no object
    | GetDone(node: Node)                  // returned this object
    | RelLink(node: Node, oldHead: Head)   // about to write node->next
    | RelCas(node: Node, oldHead: Head)    // about to exchange free_head_

  /**
    The shared fields, the threads, and history: the free nodes as an abstract stack, the
    objects given out with the thread that got each, and the nodes inside `ReleaseObject`.
  */
  datatype State = State(
    head: Head,
    next: seq<Link>,
    threads: map<Tid, PC>,
    free: seq<Node>,
    held: map<Node, Tid>,
    releasing: map<Node, Tid>)

  /**
    One action of one thread is one atomic load or compare-and-exchange of free_head_, or one plain
    access to a node's `next`; tests on values already loaded belong to the action that loaded them.
    A weak exchange may fail at any time.
  */
  datatype Action = StartGet | StartRelease(node: Node) | Proceed | FailWeakly

  function PCOf(s: State, t: Tid): PC {
    if t in s.threads then s.threads[t] else Idle
  }

  function At(s: State, t: Tid, pc: PC): State {
    s.(threads := s.threads[t := pc])
  }

  predicate MayStart(pc: PC) {
    pc.Idle? || pc.GetNull? || pc.GetDone?
  }

  /** The constructor chains node i to node i + 1 and the last one to null. */
  function Init(capacity: nat): State
    requires capacity > 0
  {
    State(Head(0, To(0)),
          seq(capacity, (i: nat) => if i + 1 < capacity then To(i + 1) else Null),
          map[], seq(capacity, (i: nat) => i), map[], map[])
  }

  /** A (re)load of free_head_ in `FindFreeHead`, with the null test on it. */
  function LoadForGet(s: State, t: Tid): State {
    if s.head.link.Null? then At(s, t, GetNull) else At(s, t, GetNext(s.head))
  }

  /** One action of thread `t`; an action that does not apply changes nothing. */
  function Step(s: State, t: Tid, a: Action): State {
    var pc := PCOf(s, t);
    match a
    case StartGet => if MayStart(pc) then LoadForGet(s, t) else s
    case StartRelease(n) =>
      if MayStart(pc) && n in s.held
      then At(s.(held := s.held - {n}, releasing := s.releasing[n := t]), t, RelLink(n, s.head))
      else s
    case FailWeakly => StepFail(s, t, pc)
    case Proceed => StepProceed(s, t, pc)
  }

  function StepFail(s: State, t: Tid, pc: PC): State {
    match pc
    case GetCas(_, _) => LoadForGet(s, t)
    case RelCas(n, _) => At(s, t, RelLink(n, s.head))
    case _ => s
  }

  function StepProceed(s: State, t: Tid, pc: PC): State {
    match pc
    case GetNext(h) =>
      if h.link.To? && h.link.node < |s.next| then At(s, t, GetCas(h, s.next[h.link.node])) else s
    case GetCas(h, nxt) =>
      if s.head == h && h.link.To?
      then At(s.(head := Head(h.count + 1, nxt), free := Pop(s.free), held := s.held[h.link.node := t]),
              t, GetDone(h.link.node))
      else StepFail(s, t, pc)
    case RelLink(n, h) =>
      if n < |s.next| then At(s.(next := s.next[n := h.link]), t, RelCas(n, h)) else s
    case RelCas(n, h) =>
      if s.head == h
      then At(s.(head := Head(h.count + 1, To(n)), free := [n] + s.free, releasing := s.releasing - {n}), t, Idle)
      else StepFail(s, t, pc)
    case _ => s
  }

  function Pop(stack: seq<Node>): seq<Node> {
    if stack == [] then [] else stack[1..]
  }

  function Execute(s: State, schedule: seq<(Tid, Action)>): State
    ensures |Execute(s, schedule).next| == |s.next|
    decreases |schedule|
  {
    if schedule == [] then s
    else
      var k := |schedule| - 1;
      Step(Execute(s, schedule[..k]), schedule[k].0, schedule[k].1)
  }

  // ---------------------------------------------------------------- invariant

  function First(stack: seq<Node>): Link {
    if stack == [] then Null else To(stack[0])
  }

  /** Following `next` from the head visits exactly the abstract stack and ends in null. */
  ghost predicate Chain(s: State) {
    && s.head.link == First(s.free)
    && (forall i :: 0 <= i < |s.free| ==> s.free[i] < |s.next| && s.next[s.free[i]] == First(s.free[i + 1..]))
    && (forall i, j :: 0 <= i < j < |s.free| ==> s.free[i] != s.free[j])
  }

  /** Every node is free, given out, or being released: in exactly one of the three. */
  ghost predicate Partition(s: State) {
    && (forall n: Node :: n < |s.next| <==> n in s.free || n in s.held || n in s.releasing)
    && (forall n :: n in s.free ==> n !in s.held && n !in s.releasing)
    && s.held.Keys !! s.releasing.Keys
  }

  predicate Releases(pc: PC, n: Node) {
    (pc.RelLink? || pc.RelCas?) && pc.node == n
  }

  ghost predicate Releasers(s: State) {
    && (forall n :: n in s.releasing ==> Releases(PCOf(s, s.releasing[n]), n))
    && (forall t: Tid, n: Node {:trigger Releases(PCOf(s, t), n)} ::
          Releases(PCOf(s, t), n) ==> n in s.releasing && s.releasing[n] == t)
  }

  /** An old head whose count is still current is the current head. */
  ghost predicate Current(s: State, h: Head) {
    h.count <= s.head.count && (h.count == s.head.count ==> h == s.head)
  }

  ghost predicate LocalFacts(s: State, pc: PC) {
    match pc
    case GetNext(h) => Current(s, h) && h.link.To? && h.link.node < |s.next|
    case GetCas(h, nxt) =>
      Current(s, h) && h.link.To? && h.link.node < |s.next|
      && (h == s.head ==> nxt == s.next[h.link.node])
    case RelLink(n, h) => Current(s, h)
    case RelCas(n, h) => Current(s, h) && n < |s.next| && s.next[n] == h.link
    case _ => true
  }

  ghost predicate Inv(s: State) {
    && Chain(s)
    && Partition(s)
    && Releasers(s)
    && (forall t: Tid {:trigger PCOf(s, t)} :: LocalFacts(s, PCOf(s, t)))
  }

  // ---------------------------------------------------------------- preservation

  lemma InitInv(capacity: nat)
    requires capacity > 0
    ensures Inv(Init(capacity))
  {
    var s := Init(capacity);
    forall n: Node | n < capacity ensures n in s.free {
      assert s.free[n] == n;
    }
  }

  lemma MoveKeepsInv(s: State, t: Tid, pc: PC)
    requires Inv(s) && LocalFacts(s, pc)
    requires forall n: Node :: Releases(PCOf(s, t), n) <==> Releases(pc, n)
    ensures Inv(At(s, t, pc))
  {
    var s' := At(s, t, pc);
    assert forall u :: PCOf(s', u) == if u == t then pc else PCOf(s, u);
    forall u: Tid ensures LocalFacts(s', PCOf(s', u)) {
      assert LocalFacts(s, PCOf(s, u));
    }
    forall u: Tid, m: Node | Releases(PCOf(s', u), m) ensures m in s'.releasing && s'.releasing[m] == u {
      assert Releases(PCOf(s, u), m);
    }
  }

  /** What a thread relies on survives every step that writes no `next` and moves the head only forward. */
  lemma FactsSurvive(s: State, s': State, pc: PC)
    requires LocalFacts(s, pc) && s'.next == s.next
    requires s'.head == s.head || s'.head.count > s.head.count
    ensures LocalFacts(s', pc)
  {
  }

  /** The exchange of a pop installs the true successor, whatever happened since it was read. */
  lemma PopKeepsInv(s: State, t: Tid)
    requires Inv(s) && PCOf(s, t).GetCas? && s.head == PCOf(s, t).oldHead
    ensures Inv(StepProceed(s, t, PCOf(s, t)))
  {
    var s' := StepProceed(s, t, PCOf(s, t));
    PopKeepsChain(s, t);
    PopKeepsReleasers(s, t);
    hide Chain, Partition, Releasers;
    forall u: Tid ensures LocalFacts(s', PCOf(s', u)) {
      if u != t {
        FactsSurvive(s, s', PCOf(s, u));
      }
    }
  }

  lemma PopKeepsChain(s: State, t: Tid)
    requires Inv(s) && PCOf(s, t).GetCas? && s.head == PCOf(s, t).oldHead
    ensures Chain(StepProceed(s, t, PCOf(s, t))) && Partition(StepProceed(s, t, PCOf(s, t)))
  {
    var pc := PCOf(s, t);
    var s' := StepProceed(s, t, pc);
    assert LocalFacts(s, pc);
    hide Inv, Releasers, LocalFacts;
    var n := s.free[0];
    assert s.free == [n] + s'.free;
    forall i | 0 <= i < |s'.free| ensures s'.next[s'.free[i]] == First(s'.free[i + 1..]) {
      assert s'.free[i] == s.free[i + 1] && s'.free[i + 1..] == s.free[i + 2..];
    }
  }

  lemma PopKeepsReleasers(s: State, t: Tid)
    requires Inv(s) && PCOf(s, t).GetCas? && s.head == PCOf(s, t).oldHead
    ensures Releasers(StepProceed(s, t, PCOf(s, t)))
  {
    var s' := StepProceed(s, t, PCOf(s, t));
    assert LocalFacts(s, PCOf(s, t));
    hide Chain, Partition, LocalFacts;
    assert forall u :: u != t ==> PCOf(s', u) == PCOf(s, u);
    forall m | m in s'.releasing ensures Releases(PCOf(s', s'.releasing[m]), m) {
      assert Releases(PCOf(s, s.releasing[m]), m);
    }
    forall u: Tid, m: Node | Releases(PCOf(s', u), m) ensures m in s'.releasing && s'.releasing[m] == u {
      assert Releases(PCOf(s, u), m);
    }
  }

  lemma StartReleaseKeepsInv(s: State, t: Tid, n: Node)
    requires Inv(s) && MayStart(PCOf(s, t)) && n in s.held
    ensures Inv(Step(s, t, StartRelease(n)))
  {
    var s' := Step(s, t, StartRelease(n));
    assert Chain(s') && Partition(s');
    StartKeepsReleasers(s, t, n);
    hide Chain, Partition, Releasers;
    forall u: Tid ensures LocalFacts(s', PCOf(s', u)) {
      if u != t {
        FactsSurvive(s, s', PCOf(s, u));
      }
    }
  }

  lemma StartKeepsReleasers(s: State, t: Tid, n: Node)
    requires Inv(s) && MayStart(PCOf(s, t)) && n in s.held
    ensures Releasers(Step(s, t, StartRelease(n)))
  {
    var s' := Step(s, t, StartRelease(n));
    assert n !in s.releasing;
    hide Chain, Partition, LocalFacts;
    assert forall u :: u != t ==> PCOf(s', u) == PCOf(s, u);
    forall m | m in s'.releasing ensures Releases(PCOf(s', s'.releasing[m]), m) {
      if m != n {
        assert Releases(PCOf(s, s.releasing[m]), m);
      }
    }
    forall u: Tid, m: Node | Releases(PCOf(s', u), m) ensures m in s'.releasing && s'.releasing[m] == u {
      if u != t {
        assert Releases(PCOf(s, u), m);
      }
    }
  }

  /** The write to `next` touches a node that only the releasing thread can reach. */
  lemma LinkKeepsInv(s: State, t: Tid)
    requires Inv(s) && PCOf(s, t).RelLink?
    ensures Inv(StepProceed(s, t, PCOf(s, t)))
  {
    var pc := PCOf(s, t);
    var n := pc.node;
    var s' := StepProceed(s, t, pc);
    assert LocalFacts(s, pc) && Releases(pc, n);
    assert forall u :: u != t ==> PCOf(s', u) == PCOf(s, u);
    forall u: Tid ensures LocalFacts(s', PCOf(s', u)) {
      var other := PCOf(s, u);
      assert LocalFacts(s, other);
      if u != t && other.RelCas? {
        assert Releases(other, other.node);
      }
      if other.GetCas? && other.oldHead == s.head {
        assert s.free[0] in s.free;
      }
    }
    forall m | m in s'.releasing ensures Releases(PCOf(s', s'.releasing[m]), m) {
      assert Releases(PCOf(s, s.releasing[m]), m);
    }
    forall u: Tid, m: Node | Releases(PCOf(s', u), m) ensures m in s'.releasing && s'.releasing[m] == u {
      assert Releases(PCOf(s, u), m);
    }
  }

  lemma PushKeepsChain(s: State, n: Node, count: nat)
    requires Chain(s) && n !in s.free && n < |s.next| && s.next[n] == s.head.link
    ensures Chain(s.(head := Head(count, To(n)), free := [n] + s.free))
  {
    var free' := [n] + s.free;
    forall i | 0 <= i < |free'|
      ensures free'[i] < |s.next| && s.next[free'[i]] == First(free'[i + 1..])
    {
      if i == 0 {
        assert free'[1..] == s.free;
      } else {
        assert free'[i] == s.free[i - 1] && free'[i + 1..] == s.free[i..];
      }
    }
  }

  lemma PushKeepsInv(s: State, t: Tid)
    requires Inv(s) && PCOf(s, t).RelCas? && s.head == PCOf(s, t).oldHead
    ensures Inv(StepProceed(s, t, PCOf(s, t)))
  {
    var pc := PCOf(s, t);
    var n := pc.node;
    var s' := StepProceed(s, t, pc);
    assert LocalFacts(s, pc) && Releases(pc, n);
    PushKeepsChain(s, n, s.head.count + 1);
    assert Chain(s');
    assert Partition(s') by {
      assert forall m :: m in s'.free <==> m == n || m in s.free;
    }
    PushKeepsReleasers(s, t);
    hide Chain, Partition, Releasers;
    forall u: Tid ensures LocalFacts(s', PCOf(s', u)) {
      if u != t {
        FactsSurvive(s, s', PCOf(s, u));
      }
    }
  }

  lemma PushKeepsReleasers(s: State, t: Tid)
    requires Inv(s) && PCOf(s, t).RelCas? && s.head == PCOf(s, t).oldHead
    ensures Releasers(StepProceed(s, t, PCOf(s, t)))
  {
    var pc := PCOf(s, t);
    var s' := StepProceed(s, t, pc);
    assert Releases(pc, pc.node);
    hide Chain, Partition, LocalFacts;
    assert forall u :: u != t ==> PCOf(s', u) == PCOf(s, u);
    forall m | m in s'.releasing ensures Releases(PCOf(s', s'.releasing[m]), m) {
      assert Releases(PCOf(s, s.releasing[m]), m);
    }
    forall u: Tid, m: Node | Releases(PCOf(s', u), m) ensures m in s'.releasing && s'.releasing[m] == u {
      assert Releases(PCOf(s, u), m);
    }
  }

  lemma LoadKeepsInv(s: State, t: Tid)
    requires Inv(s) && forall n: Node :: !Releases(PCOf(s, t), n)
    ensures Inv(LoadForGet(s, t))
  {
    if s.head.link.Null? { MoveKeepsInv(s, t, GetNull); } else { MoveKeepsInv(s, t, GetNext(s.head)); }
  }

  lemma FailKeepsInv(s: State, t: Tid)
    requires Inv(s)
    ensures Inv(StepFail(s, t, PCOf(s, t)))
  {
    match PCOf(s, t)
    case GetCas(_, _) => LoadKeepsInv(s, t);
    case RelCas(n, _) => MoveKeepsInv(s, t, RelLink(n, s.head));
    case _ =>
  }

  lemma StepKeepsInv(s: State, t: Tid, a: Action)
    requires Inv(s)
    ensures Inv(Step(s, t, a))
  {
    var pc := PCOf(s, t);
    assert LocalFacts(s, pc);
    match a
    case StartGet => if MayStart(pc) { LoadKeepsInv(s, t); }
    case StartRelease(n) => if MayStart(pc) && n in s.held { StartReleaseKeepsInv(s, t, n); }
    case FailWeakly => FailKeepsInv(s, t);
    case Proceed =>
      match pc {
        case GetNext(h) => MoveKeepsInv(s, t, GetCas(h, s.next[h.link.node]));
        case GetCas(h, _) => if s.head == h { PopKeepsInv(s, t); } else { FailKeepsInv(s, t); }
        case RelLink(_, _) => LinkKeepsInv(s, t);
        case RelCas(_, h) => if s.head == h { PushKeepsInv(s, t); } else { FailKeepsInv(s, t); }
        case _ =>
      }
  }

  lemma {:induction false} ReachableInv(capacity: nat, schedule: seq<(Tid, Action)>)
    requires capacity > 0
    ensures var s := Execute(Init(capacity), schedule); Inv(s) && |s.next| == capacity
    decreases |schedule|
  {
    if schedule == [] {
      InitInv(capacity);
    } else {
      var k := |schedule| - 1;
      ReachableInv(capacity, schedule[..k]);
      StepKeepsInv(Execute(Init(capacity), schedule[..k]), schedule[k].0, schedule[k].1);
    }
  }

  // ---------------------------------------------------------------- whole runs

  /** The nodes met by following `next` from `from`, at most `fuel` of them. */
  function Walk(next: seq<Link>, from: Link, fuel: nat): seq<Node>
    decreases fuel
  {
    if from.Null? || fuel == 0 || from.node >= |next| then []
    else [from.node] + Walk(next, next[from.node], fuel - 1)
  }

  lemma {:induction false} WalkFollowsStack(s: State, i: nat, fuel: nat)
    requires Chain(s) && i <= |s.free| && |s.free| - i <= fuel
    ensures Walk(s.next, First(s.free[i..]), fuel) == s.free[i..]
    decreases |s.free| - i
  {
    if i < |s.free| {
      WalkFollowsStack(s, i + 1, fuel - 1);
      assert s.free[i..] == [s.free[i]] + s.free[i + 1..];
    }
  }

  /**
    In every reachable state the real free list, found by walking the pointers with no bound
    that matters, is finite and free of repetition, and with the objects given out and those
    being released it makes up the whole arena, each node once.
  */
  lemma NodesConserved(capacity: nat, schedule: seq<(Tid, Action)>, fuel: nat)
    requires capacity > 0 && fuel >= capacity
    ensures var s := Execute(Init(capacity), schedule);
      var list := Walk(s.next, s.head.link, fuel);
      && (forall i, j :: 0 <= i < j < |list| ==> list[i] != list[j])
      && (forall n: Node :: n < capacity <==> n in list || n in s.held || n in s.releasing)
      && (forall n :: n in list ==> n !in s.held && n !in s.releasing)
      && s.held.Keys !! s.releasing.Keys
      && |list| + |s.held| + |s.releasing| == capacity
  {
    ReachableInv(capacity, schedule);
    var s := Execute(Init(capacity), schedule);
    PartitionCounts(s);
    WalkFollowsStack(s, 0, fuel);
    assert s.free[0..] == s.free;
  }

  /** The elements of a sequence without repetition are as many as its length. */
  lemma {:induction false} DistinctCount(q: seq<Node>, elems: set<Node>)
    requires forall i, j :: 0 <= i < j < |q| ==> q[i] != q[j]
    requires forall n :: n in elems <==> n in q
    ensures |elems| == |q|
    decreases |q|
  {
    if q == [] {
      assert elems == {};
    } else {
      var k := |q| - 1;
      assert q == q[..k] + [q[k]];
      DistinctCount(q[..k], elems - {q[k]});
    }
  }

  /** A set that holds exactly the nodes below `k` has `k` elements. */
  lemma {:induction false} RangeCount(k: nat, elems: set<Node>)
    requires forall n: Node :: n in elems <==> n < k
    ensures |elems| == k
  {
    if k == 0 {
      assert elems == {};
    } else {
      RangeCount(k - 1, elems - {k - 1});
    }
  }

  lemma CountParts(a: set<Node>, b: set<Node>, c: set<Node>, k: nat)
    requires a !! b && a !! c && b !! c && forall n: Node :: n in a || n in b || n in c <==> n < k
    ensures |a| + |b| + |c| == k
  {
    RangeCount(k, a + b + c);
  }

  lemma PartitionCounts(s: State)
    requires Chain(s) && Partition(s)
    ensures |s.free| + |s.held| + |s.releasing| == |s.next|
  {
    var f := set n | n in s.free;
    DistinctCount(s.free, f);
    CountParts(f, s.held.Keys, s.releasing.Keys, |s.next|);
  }

  /**
    Every step of every run is a step of an atomic stack: a returning pop takes the top and makes
    it the caller's alone, a returning push puts its node on top, and null is returned only at a
    moment when nothing is free.  The node that a push returns is the one its caller gave up, which
    from then on is nobody's.
  */
  lemma StepRefinesStack(capacity: nat, schedule: seq<(Tid, Action)>, t: Tid, a: Action)
    requires capacity > 0
    ensures var s := Execute(Init(capacity), schedule);
      AtomicStep(s, Step(s, t, a), t, a)
  {
    ReachableInv(capacity, schedule);
    hide Execute, Inv;
    StepIsAtomic(Execute(Init(capacity), schedule), t, a);
  }

  lemma StepIsAtomic(s: State, t: Tid, a: Action)
    requires Inv(s)
    ensures AtomicStep(s, Step(s, t, a), t, a)
  {
    AtomicFacts(s, t);
    StepKeepsInv(s, t, a);
    HeadIsFirst(Step(s, t, a));
    hide Inv, AtomicStep, Step, Ready;
    if a.Proceed? {
      ProceedIsAtomic(s, t);
    } else {
      OtherIsAtomic(s, t, a);
    }
  }

  lemma ProceedIsAtomic(s: State, t: Tid)
    requires Ready(s, t) && var s' := Step(s, t, Proceed); s'.head.link == First(s'.free)
    ensures AtomicStep(s, Step(s, t, Proceed), t, Proceed)
  {
  }

  lemma OtherIsAtomic(s: State, t: Tid, a: Action)
    requires Ready(s, t) && !a.Proceed? && var s' := Step(s, t, a); s'.head.link == First(s'.free)
    ensures AtomicStep(s, Step(s, t, a), t, a)
  {
  }

  lemma HeadIsFirst(s: State)
    requires Inv(s)
    ensures s.head.link == First(s.free)
  {
  }

  /** What the exchanges of a thread rest on. */
  ghost predicate Ready(s: State, t: Tid) {
    var pc := PCOf(s, t);
    && s.head.link == First(s.free)
    && (pc.GetCas? && s.head == pc.oldHead ==>
          && s.free != [] && s.free == [s.free[0]] + s.free[1..] && pc.oldHead.link == To(s.free[0])
          && s.free[0] < |s.next| && pc.next == s.next[s.free[0]] && s.free[0] !in s.held)
    && (pc.RelLink? || pc.RelCas? ==> pc.node in s.releasing && s.releasing[pc.node] == t)
  }

  lemma AtomicFacts(s: State, t: Tid)
    requires Inv(s)
    ensures Ready(s, t)
  {
    var pc := PCOf(s, t);
    assert LocalFacts(s, pc);
    assert pc.RelLink? || pc.RelCas? ==> Releases(pc, pc.node);
    if s.free != [] {
      assert s.free[0] in s.free;
    }
  }

  ghost predicate AtomicStep(s: State, s': State, t: Tid, a: Action) {
    var pc, pc' := PCOf(s, t), PCOf(s', t);
    && s'.head.link == First(s'.free)
    && if pc'.GetDone? && pc' != pc then
         && s.free == [pc'.node] + s'.free
         && pc'.node !in s.held && s'.held == s.held[pc'.node := t] && s'.releasing == s.releasing
         && pc'.node < |s.next| && s'.head.link == s.next[pc'.node] && s'.next == s.next
       else if pc'.Idle? && pc' != pc then
         && (pc.RelLink? || pc.RelCas?) && pc.node in s.releasing && s.releasing[pc.node] == t
         && s'.free == [pc.node] + s.free && s'.held == s.held && s'.releasing == s.releasing - {pc.node}
       else if a.StartRelease? && MayStart(pc) && a.node in s.held then
         && s'.held == s.held - {a.node} && s'.releasing == s.releasing[a.node := t] && s'.free == s.free
       else
         && s'.free == s.free && s'.held == s.held && s'.releasing == s.releasing
         && (pc'.GetNull? && pc' != pc ==> s.free == [])
  }

  // ---------------------------------------------------------------- undisturbed calls

  lemma ThreeActions(s: State, t: Tid, first: Action)
    ensures Execute(s, [(t, first)]) == Step(s, t, first)
    ensures Execute(s, [(t, first), (t, Proceed), (t, Proceed)]) == Step(Step(Step(s, t, first), t, Proceed), t, Proceed)
  {
    hide Step;
    var one := [(t, first)];
    var two := [(t, first), (t, Proceed)];
    var all := [(t, first), (t, Proceed), (t, Proceed)];
    assert one[..0] == [] && two[..1] == one && all[..2] == two;
    assert Execute(s, one) == Step(s, t, first);
    assert Execute(s, two) == Step(Execute(s, one), t, Proceed);
  }

  /**
    Calls get through, from every reachable state: an undisturbed `GetObject` returns the top after
    two accesses, or null at once if nothing is free, and an undisturbed `ReleaseObject` of a node that
    is given out puts it on top after two.
  */
  lemma CallsGetThrough(capacity: nat, schedule: seq<(Tid, Action)>, t: Tid, n: Node)
    requires capacity > 0 && MayStart(PCOf(Execute(Init(capacity), schedule), t))
    ensures var s := Execute(Init(capacity), schedule);
      && (s.free == [] ==> PCOf(Execute(s, [(t, StartGet)]), t) == GetNull)
      && (s.free != [] ==>
            var s' := Execute(s, [(t, StartGet), (t, Proceed), (t, Proceed)]);
            PCOf(s', t) == GetDone(s.free[0]) && s'.free == s.free[1..] && s'.held == s.held[s.free[0] := t])
      && (n in s.held ==>
            var s' := Execute(s, [(t, StartRelease(n)), (t, Proceed), (t, Proceed)]);
            PCOf(s', t) == Idle && s'.free == [n] + s.free && s'.held == s.held - {n})
  {
    ReachableInv(capacity, schedule);
    var s := Execute(Init(capacity), schedule);
    ThreeActions(s, t, StartGet);
    ThreeActions(s, t, StartRelease(n));
    hide Execute, Partition, Releasers, LocalFacts;
    if s.free != [] {
      GetAlone(s, t);
    }
    if n in s.held {
      Arena(s, n);
      ReleaseAlone(s, t, n);
    }
  }

  lemma Arena(s: State, n: Node)
    requires Partition(s) && n in s.held
    ensures n < |s.next|
  {
  }

  lemma GetAlone(s: State, t: Tid)
    requires MayStart(PCOf(s, t)) && s.free != [] && s.head.link == To(s.free[0]) && s.free[0] < |s.next|
    ensures var s' := Step(Step(Step(s, t, StartGet), t, Proceed), t, Proceed);
      PCOf(s', t) == GetDone(s.free[0]) && s'.free == s.free[1..] && s'.held == s.held[s.free[0] := t]
  {
    var s2 := Step(Step(s, t, StartGet), t, Proceed);
    assert PCOf(s2, t) == GetCas(s.head, s.next[s.free[0]]) && s2 == s.(threads := s2.threads);
  }

  lemma ReleaseAlone(s: State, t: Tid, n: Node)
    requires MayStart(PCOf(s, t)) && n in s.held && n < |s.next|
    ensures var s' := Step(Step(Step(s, t, StartRelease(n)), t, Proceed), t, Proceed);
      PCOf(s', t) == Idle && s'.free == [n] + s.free && s'.held == s.held - {n}
  {
    var s2 := Step(Step(s, t, StartRelease(n)), t, Proceed);
    assert PCOf(s2, t) == RelCas(n, s.head) && s2.head == s.head && s2.free == s.free && s2.held == s.held - {n};
  }
}
