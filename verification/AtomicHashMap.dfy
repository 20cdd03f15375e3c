/**
  The lock-free hash map of cyber/base/atomic_hash_map.h as a transition system.  A bucket is an
  insert-only list, sorted by key, behind a sentinel entry.
*/
module AtomicHashMap {
  import opened Common

  type Tid = nat
  type Id = nat       // an entry; the first `buckets` of them are the sentinels
  type Ptr = nat      // a value

  datatype Link = Null | To(id: Id)

  datatype Entry = Entry(key: int, valuePtr: Ptr, next: Link)

  /** `Has`, `Get` and `Set`; a `Set` keeps what it has allocated across its retries. */
  datatype Op<V> =
    | Has
    | Get
    | Set(value: V, newValue: Option<Ptr>, newEntry: Option<Id>)

  /** Where a thread is inside one of them, with its local variables. */
  datatype PC<V> =
    | Idle
    | Searching(op: Op<V>, key: int, prev: Id)                  // about to load prev->next
    | Linking(op: Op<V>, key: int, prev: Id, target: Link)      // about to store new_entry->next
    | CasNext(op: Op<V>, key: int, prev: Id, target: Link)      // about to exchange prev->next
    | LoadValue(op: Op<V>, key: int, found: Id)                 // about to load found->value_ptr
    | CasValue(op: Op<V>, key: int, found: Id, oldValue: Ptr)   // about to exchange found->value_ptr
    | Returned(op: Op<V>, key: int, ok: bool, result: Option<V>)

  /** The shared cells, never freed, with history: the entries that are linked and the abstract map. */
  datatype Memory<V> = Memory(
    buckets: nat,
    entries: seq<Entry>,
    values: seq<V>,
    linked: set<Id>,
    contents: map<int, V>)

  datatype State<V> = State(mem: Memory<V>, threads: map<Tid, PC<V>>)

  /**
    One action of one thread is one atomic load, store or compare-and-exchange of a `next` or
    `value_ptr`; comparisons of keys, which never change, belong to the action that loaded the entry.
  */
  datatype Action<V> = Start(op: Op<V>, key: int) | Proceed

  function PCOf<V>(s: State<V>, t: Tid): PC<V> {
    if t in s.threads then s.threads[t] else Idle
  }

  function Init<V>(size: nat): State<V>
    requires size > 0
  {
    State(Memory(size, seq(size, i => Entry(0, 0, Null)), [], {}, map[]), map[])
  }

  /** `key & (size - 1)`, for a size that is a power of two. */
  function BucketOf(key: int, buckets: nat): nat
    requires buckets > 0
  {
    key % buckets
  }

  predicate Fresh<V>(op: Op<V>) {
    op.Set? ==> op.newValue.None? && op.newEntry.None?
  }

  predicate MayStart<V>(pc: PC<V>) {
    pc.Idle? || pc.Returned?
  }

  /** One action of thread `t`; an action that does not apply changes nothing. */
  function Step<V>(s: State<V>, t: Tid, a: Action<V>): State<V>
    requires s.mem.buckets > 0
  {
    var pc := PCOf(s, t);
    var (m', pc') :=
      match a
      case Start(op, k) =>
        (s.mem, if MayStart(pc) && Fresh(op) then Restart(s.mem, op, k) else pc)
      case Proceed => Act(s.mem, pc);
    State(m', s.threads[t := pc'])
  }

  /** A search begins at the sentinel of the key's bucket. */
  function Restart<V>(m: Memory<V>, op: Op<V>, k: int): PC<V>
    requires m.buckets > 0
  {
    Searching(op, k, BucketOf(k, m.buckets))
  }

  function Act<V>(m: Memory<V>, pc: PC<V>): (Memory<V>, PC<V>)
    requires m.buckets > 0
  {
    match pc
    case Searching(op, k, prev) => Search(m, op, k, prev)
    case Linking(op, k, prev, target) => StoreNext(m, op, k, prev, target)
    case CasNext(op, k, prev, target) => ExchangeNext(m, op, k, prev, target)
    case LoadValue(op, k, f) => ReadValue(m, op, k, f)
    case CasValue(op, k, f, p) => ExchangeValue(m, op, k, f, p)
    case _ => (m, pc)
  }

  /** One turn of the walk in `Has` and `Find`, with what the caller does when it ends. */
  function Search<V>(m: Memory<V>, op: Op<V>, k: int, prev: Id): (Memory<V>, PC<V>) {
    if prev >= |m.entries| then (m, Searching(op, k, prev))
    else
      var target := m.entries[prev].next;
      if target.Null? || target.id >= |m.entries| || m.entries[target.id].key > k then Missed(m, op, k, prev, target)
      else if m.entries[target.id].key < k then (m, Searching(op, k, target.id))
      else Found(m, op, k, target.id)
  }

  function Missed<V>(m: Memory<V>, op: Op<V>, k: int, prev: Id, target: Link): (Memory<V>, PC<V>) {
    match op
    case Set(v, nv, None) =>
      (m.(entries := m.entries + [Entry(k, |m.values|, Null)], values := m.values + [v]),
       Linking(Set(v, nv, Some(|m.entries|)), k, prev, target))
    case Set(_, _, Some(_)) => (m, Linking(op, k, prev, target))
    case _ => (m, Returned(op, k, false, None))
  }

  function Found<V>(m: Memory<V>, op: Op<V>, k: int, found: Id): (Memory<V>, PC<V>) {
    match op
    case Has => (m, Returned(op, k, true, None))
    case Set(v, None, ne) => (m.(values := m.values + [v]), LoadValue(Set(v, Some(|m.values|), ne), k, found))
    case _ => (m, LoadValue(op, k, found))
  }

  function StoreNext<V>(m: Memory<V>, op: Op<V>, k: int, prev: Id, target: Link): (Memory<V>, PC<V>) {
    if op.Set? && op.newEntry.Some? && op.newEntry.some < |m.entries|
    then
      var n := op.newEntry.some;
      (m.(entries := m.entries[n := m.entries[n].(next := target)]), CasNext(op, k, prev, target))
    else (m, Linking(op, k, prev, target))
  }

  /** A lost exchange searches again. */
  function ExchangeNext<V>(m: Memory<V>, op: Op<V>, k: int, prev: Id, target: Link): (Memory<V>, PC<V>)
    requires m.buckets > 0
  {
    if op.Set? && op.newEntry.Some? && prev < |m.entries| && m.entries[prev].next == target
    then
      var n := op.newEntry.some;
      (m.(entries := m.entries[prev := m.entries[prev].(next := To(n))],
          linked := m.linked + {n},
          contents := m.contents[k := op.value]),
       Returned(op, k, true, None))
    else (m, Restart(m, op, k))
  }

  function ReadValue<V>(m: Memory<V>, op: Op<V>, k: int, f: Id): (Memory<V>, PC<V>) {
    if f >= |m.entries| || m.entries[f].valuePtr >= |m.values| then (m, LoadValue(op, k, f))
    else
      var p := m.entries[f].valuePtr;
      (m, if op.Set? then CasValue(op, k, f, p) else Returned(op, k, true, Some(m.values[p])))
  }

  function ExchangeValue<V>(m: Memory<V>, op: Op<V>, k: int, f: Id, expected: Ptr): (Memory<V>, PC<V>)
    requires m.buckets > 0
  {
    if op.Set? && op.newValue.Some? && f < |m.entries| && m.entries[f].valuePtr == expected
    then
      (m.(entries := m.entries[f := m.entries[f].(valuePtr := op.newValue.some)],
          contents := m.contents[k := op.value]),
       Returned(op, k, true, None))
    else (m, Restart(m, op, k))
  }

  /** The state after a whole schedule. */
  function Execute<V>(s: State<V>, schedule: seq<(Tid, Action<V>)>): State<V>
    requires s.mem.buckets > 0
    ensures Execute(s, schedule).mem.buckets == s.mem.buckets
    decreases |schedule|
  {
    if schedule == [] then s
    else
      var k := |schedule| - 1;
      Step(Execute(s, schedule[..k]), schedule[k].0, schedule[k].1)
  }

  // ---------------------------------------------------------------- invariant

  ghost predicate Shape<V>(m: Memory<V>) {
    && 0 < m.buckets <= |m.entries|
    && (forall e :: e in m.linked ==> m.buckets <= e < |m.entries| && m.entries[e].valuePtr < |m.values|)
  }

  /** Entry `e` is the sentinel of bucket `b` or linked into it. */
  predicate InBucket<V>(m: Memory<V>, e: Id, b: nat)
    requires Shape(m)
  {
    (e == b && b < m.buckets) || (e in m.linked && BucketOf(m.entries[e].key, m.buckets) == b)
  }

  /** Entry `e` comes before key `k`; a sentinel comes before every key. */
  predicate Before<V>(m: Memory<V>, e: Id, k: int)
    requires Shape(m) && e < |m.entries|
  {
    e < m.buckets || m.entries[e].key < k
  }

  /** `next` leads to the next larger linked key of the bucket, or to null if there is none. */
  ghost predicate NextIsSuccessor<V>(m: Memory<V>, e: Id, b: nat)
    requires Shape(m) && InBucket(m, e, b)
  {
    var n := m.entries[e].next;
    && (n.To? ==> n.id in m.linked && InBucket(m, n.id, b) && Before(m, e, m.entries[n.id].key))
    && (forall g :: g in m.linked && InBucket(m, g, b) && Before(m, e, m.entries[g].key)
          ==> n.To? && m.entries[n.id].key <= m.entries[g].key)
  }

  ghost predicate Lists<V>(m: Memory<V>)
    requires Shape(m)
  {
    && (forall e, g :: e in m.linked && g in m.linked && m.entries[e].key == m.entries[g].key ==> e == g)
    && (forall e: Id, b: nat {:trigger NextIsSuccessor(m, e, b)} :: InBucket(m, e, b) ==> NextIsSuccessor(m, e, b))
  }

  /** The linked entries hold exactly the abstract map. */
  ghost predicate Abstraction<V>(m: Memory<V>)
    requires Shape(m)
  {
    && (forall e :: e in m.linked ==>
          m.entries[e].key in m.contents && m.contents[m.entries[e].key] == m.values[m.entries[e].valuePtr])
    && (forall k :: k in m.contents ==> exists e :: e in m.linked && m.entries[e].key == k)
  }

  /** What a `Set` has allocated is right and not linked; a new value means the key was found. */
  ghost predicate Allocated<V>(m: Memory<V>, op: Op<V>, k: int)
    requires Shape(m)
  {
    op.Set? ==>
      && (op.newValue.Some? ==> op.newValue.some < |m.values| && m.values[op.newValue.some] == op.value && k in m.contents)
      && (op.newEntry.Some? ==>
            var n := op.newEntry.some;
            && m.buckets <= n < |m.entries| && n !in m.linked && m.entries[n].key == k
            && m.entries[n].valuePtr < |m.values| && m.values[m.entries[n].valuePtr] == op.value)
  }

  /** `prev` and `target` enclose the place of key `k` in its bucket. */
  ghost predicate Encloses<V>(m: Memory<V>, prev: Id, target: Link, k: int)
    requires Shape(m)
  {
    var b := BucketOf(k, m.buckets);
    && InBucket(m, prev, b) && Before(m, prev, k)
    && (target.To? ==> target.id in m.linked && InBucket(m, target.id, b) && m.entries[target.id].key > k)
  }

  ghost predicate IsEntryOf<V>(m: Memory<V>, f: Id, k: int)
    requires Shape(m)
  {
    f in m.linked && m.entries[f].key == k
  }

  ghost predicate LocalFacts<V>(m: Memory<V>, pc: PC<V>)
    requires Shape(m)
  {
    match pc
    case Searching(op, k, prev) => Allocated(m, op, k) && Encloses(m, prev, Null, k)
    case Linking(op, k, prev, target) =>
      Allocated(m, op, k) && op.Set? && op.newEntry.Some? && op.newValue.None? && Encloses(m, prev, target, k)
    case CasNext(op, k, prev, target) =>
      Allocated(m, op, k) && op.Set? && op.newEntry.Some? && op.newValue.None? && Encloses(m, prev, target, k)
      && m.entries[op.newEntry.some].next == target
    case LoadValue(op, k, f) => Allocated(m, op, k) && !op.Has? && (op.Set? ==> op.newValue.Some?) && IsEntryOf(m, f, k)
    case CasValue(op, k, f, _) => Allocated(m, op, k) && op.Set? && op.newValue.Some? && IsEntryOf(m, f, k)
    case _ => true
  }

  /** The unlinked entry a thread holds, if any. */
  function Private<V>(pc: PC<V>): Option<Id> {
    if pc.Idle? || pc.Returned? || !pc.op.Set? then None else pc.op.newEntry
  }

  ghost predicate PrivateIsOwn<V>(s: State<V>) {
    forall t: Tid, u: Tid {:trigger PCOf(s, t), PCOf(s, u)} ::
      t != u && Private(PCOf(s, t)).Some? ==> Private(PCOf(s, t)) != Private(PCOf(s, u))
  }

  ghost predicate MemInv<V>(m: Memory<V>) {
    Shape(m) && Lists(m) && Abstraction(m)
  }

  ghost predicate Inv<V>(s: State<V>) {
    && MemInv(s.mem)
    && PrivateIsOwn(s)
    && (forall t: Tid {:trigger PCOf(s, t)} :: LocalFacts(s.mem, PCOf(s, t)))
  }

  // ---------------------------------------------------------------- how memory may change

  /** Nothing is ever unlinked, rekeyed, freed or removed from the abstract map. */
  ghost predicate Grows<V>(m: Memory<V>, m': Memory<V>) {
    && m'.buckets == m.buckets
    && |m.entries| <= |m'.entries|
    && (forall e :: 0 <= e < |m.entries| ==> m'.entries[e].key == m.entries[e].key)
    && m.values <= m'.values
    && m.linked <= m'.linked
    && m.contents.Keys <= m'.contents.Keys
  }

  /** A thread's facts survive any growth that leaves its private entry alone. */
  lemma FactsSurvive<V>(m: Memory<V>, m': Memory<V>, pc: PC<V>)
    requires Shape(m) && Shape(m') && Grows(m, m') && LocalFacts(m, pc)
    requires Private(pc).Some? ==>
      var n := Private(pc).some;
      n < |m.entries| ==> n !in m'.linked && m'.entries[n] == m.entries[n]
    ensures LocalFacts(m', pc)
  {
  }

  /** The invariant after thread `t` changes memory and moves on. */
  lemma ChangeKeepsInv<V>(s: State<V>, t: Tid, m': Memory<V>, pc': PC<V>)
    requires Inv(s) && MemInv(m') && Grows(s.mem, m') && LocalFacts(m', pc')
    requires Private(pc').None? || Private(pc') == Private(PCOf(s, t)) || Private(pc').some >= |s.mem.entries|
    requires forall n: Id :: s.mem.buckets <= n < |s.mem.entries| && n !in s.mem.linked && Private(PCOf(s, t)) != Some(n) ==>
      n !in m'.linked && m'.entries[n] == s.mem.entries[n]
    ensures Inv(State(m', s.threads[t := pc']))
  {
    var s' := State(m', s.threads[t := pc']);
    assert forall u :: PCOf(s', u) == if u == t then pc' else PCOf(s, u);
    forall u: Tid ensures LocalFacts(m', PCOf(s', u)) {
      var other := PCOf(s, u);
      assert LocalFacts(s.mem, other);
      if u != t {
        assert Private(other).Some? ==> Private(other) != Private(PCOf(s, t));
        FactsSurvive(s.mem, m', other);
      }
    }
    forall u: Tid, w: Tid | u != w && Private(PCOf(s', u)).Some?
      ensures Private(PCOf(s', u)) != Private(PCOf(s', w))
    {
      assert LocalFacts(s.mem, PCOf(s, u)) && LocalFacts(s.mem, PCOf(s, w));
    }
  }

  // ---------------------------------------------------------------- the single actions

  /** The walk cannot step over a key: what lies between `prev` and its `next` is absent. */
  lemma GapIsEmpty<V>(m: Memory<V>, prev: Id, k: int)
    requires MemInv(m) && Encloses(m, prev, Null, k)
    requires var target := m.entries[prev].next; target.To? ==> target.id < |m.entries| && m.entries[target.id].key > k
    ensures k !in m.contents
    ensures Encloses(m, prev, m.entries[prev].next, k)
  {
    var b := BucketOf(k, m.buckets);
    assert NextIsSuccessor(m, prev, b);
  }

  lemma SameLinks<V>(m: Memory<V>, m': Memory<V>, e: Id, b: nat)
    requires Shape(m) && Shape(m') && InBucket(m, e, b) && NextIsSuccessor(m, e, b)
    requires m'.buckets == m.buckets && m'.linked == m.linked
    requires forall e: Id :: e < m.buckets || e in m.linked ==>
      m'.entries[e].key == m.entries[e].key && m'.entries[e].next == m.entries[e].next
    ensures InBucket(m', e, b) && NextIsSuccessor(m', e, b)
  {
    var n := m.entries[e].next;
    if n.To? {
      assert InBucket(m', n.id, b);
    }
    forall g | g in m'.linked && InBucket(m', g, b) && Before(m', e, m'.entries[g].key)
      ensures n.To? && m'.entries[n.id].key <= m'.entries[g].key
    {
      assert InBucket(m, g, b) && Before(m, e, m.entries[g].key);
    }
  }

  /** Lists depend only on the keys and links of sentinels and linked entries. */
  lemma SameLists<V>(m: Memory<V>, m': Memory<V>)
    requires Shape(m) && Shape(m') && Lists(m)
    requires m'.buckets == m.buckets && m'.linked == m.linked
    requires forall e: Id :: e < m.buckets || e in m.linked ==>
      m'.entries[e].key == m.entries[e].key && m'.entries[e].next == m.entries[e].next
    ensures Lists(m')
  {
    forall e: Id, b: nat | InBucket(m', e, b) ensures NextIsSuccessor(m', e, b) {
      assert InBucket(m, e, b);
      SameLinks(m, m', e, b);
    }
  }

  /** Allocation alone changes no list and no value in the map. */
  lemma AllocKeepsMemInv<V>(m: Memory<V>, m': Memory<V>)
    requires MemInv(m)
    requires m'.buckets == m.buckets && m.entries <= m'.entries && m.values <= m'.values
    requires m'.linked == m.linked && m'.contents == m.contents
    ensures MemInv(m') && Grows(m, m')
  {
    assert forall e :: 0 <= e < |m.entries| ==> m'.entries[e] == m.entries[e];
    assert forall p :: 0 <= p < |m.values| ==> m'.values[p] == m.values[p];
    assert Shape(m');
    SameLists(m, m');
    assert Abstraction(m') by {
      forall k | k in m'.contents ensures exists e :: e in m'.linked && m'.entries[e].key == k {
        var e :| e in m.linked && m.entries[e].key == k;
        assert e in m'.linked && m'.entries[e].key == k;
      }
    }
  }

  lemma MissKeepsFacts<V>(m: Memory<V>, op: Op<V>, k: int, prev: Id)
    requires MemInv(m) && LocalFacts(m, Searching(op, k, prev)) && k !in m.contents
    requires Encloses(m, prev, m.entries[prev].next, k)
    ensures var (m', pc') := Missed(m, op, k, prev, m.entries[prev].next);
      MemInv(m') && Grows(m, m') && LocalFacts(m', pc')
  {
    hide Lists, Abstraction;
    var (m', pc') := Missed(m, op, k, prev, m.entries[prev].next);
    AllocKeepsMemInv(m, m');
  }

  lemma FoundKeepsFacts<V>(m: Memory<V>, op: Op<V>, k: int, prev: Id, f: Id)
    requires MemInv(m) && LocalFacts(m, Searching(op, k, prev)) && IsEntryOf(m, f, k)
    ensures var (m', pc') := Found(m, op, k, f);
      MemInv(m') && Grows(m, m') && LocalFacts(m', pc')
  {
    var (m', pc') := Found(m, op, k, f);
    AllocKeepsMemInv(m, m');
    assert k in m.contents;
    hide MemInv, Lists, Abstraction, BucketOf;
  }

  lemma SearchKeepsFacts<V>(m: Memory<V>, op: Op<V>, k: int, prev: Id)
    requires MemInv(m) && LocalFacts(m, Searching(op, k, prev))
    ensures var (m', pc') := Search(m, op, k, prev);
      MemInv(m') && Grows(m, m') && LocalFacts(m', pc')
  {
    assert NextIsSuccessor(m, prev, BucketOf(k, m.buckets));
    hide Lists, Abstraction, Missed, Found;
    var target := m.entries[prev].next;
    if target.Null? || m.entries[target.id].key > k {
      GapIsEmpty(m, prev, k);
      MissKeepsFacts(m, op, k, prev);
    } else if m.entries[target.id].key == k {
      FoundKeepsFacts(m, op, k, prev, target.id);
    }
  }

  /** A search publishes nothing, and what it holds in private is its own or new. */
  lemma SearchIsPrivate<V>(m: Memory<V>, op: Op<V>, k: int, prev: Id)
    ensures var (m', pc') := Search(m, op, k, prev);
      && m'.linked == m.linked && m.entries <= m'.entries
      && (Private(pc').None? || Private(pc') == Private(Searching(op, k, prev)) || Private(pc').some >= |m.entries|)
  {
  }

  lemma SearchKeepsInv<V>(s: State<V>, t: Tid)
    requires Inv(s) && PCOf(s, t).Searching?
    ensures Inv(Step(s, t, Proceed)) && Grows(s.mem, Step(s, t, Proceed).mem)
  {
    var m, pc := s.mem, PCOf(s, t);
    assert LocalFacts(m, pc);
    hide Lists, Abstraction, LocalFacts, Search;
    SearchKeepsFacts(m, pc.op, pc.key, pc.prev);
    SearchIsPrivate(m, pc.op, pc.key, pc.prev);
    var (m', pc') := Act(m, pc);
    ChangeKeepsInv(s, t, m', pc');
  }

  lemma StoreKeepsFacts<V>(m: Memory<V>, op: Op<V>, k: int, prev: Id, target: Link)
    requires MemInv(m) && LocalFacts(m, Linking(op, k, prev, target))
    ensures var (m', pc') := StoreNext(m, op, k, prev, target);
      MemInv(m') && Grows(m, m') && LocalFacts(m', pc')
  {
    var (m', pc') := StoreNext(m, op, k, prev, target);
    StoreKeepsMemInv(m, op.newEntry.some, target);
    StoreKeepsLocal(m, op, k, prev, target);
  }

  lemma StoreKeepsLocal<V>(m: Memory<V>, op: Op<V>, k: int, prev: Id, target: Link)
    requires Shape(m) && LocalFacts(m, Linking(op, k, prev, target))
    ensures var (m', pc') := StoreNext(m, op, k, prev, target);
      Shape(m') && LocalFacts(m', pc')
  {
  }

  lemma StoreKeepsMemInv<V>(m: Memory<V>, n: Id, target: Link)
    requires MemInv(m) && m.buckets <= n < |m.entries| && n !in m.linked
    ensures var m' := m.(entries := m.entries[n := m.entries[n].(next := target)]);
      MemInv(m') && Grows(m, m')
  {
    var m' := m.(entries := m.entries[n := m.entries[n].(next := target)]);
    SameLists(m, m');
    assert Abstraction(m') by {
      forall x | x in m'.contents ensures exists e :: e in m'.linked && m'.entries[e].key == x {
        var e :| e in m.linked && m.entries[e].key == x;
        assert e in m'.linked && m'.entries[e].key == x;
      }
    }
  }

  /** The store goes to an entry that nobody else can reach. */
  lemma StoreNextKeepsInv<V>(s: State<V>, t: Tid)
    requires Inv(s) && PCOf(s, t).Linking?
    ensures Inv(Step(s, t, Proceed)) && Grows(s.mem, Step(s, t, Proceed).mem)
  {
    var m, pc := s.mem, PCOf(s, t);
    assert LocalFacts(m, pc);
    var (m', pc') := Act(m, pc);
    StoreKeepsFacts(m, pc.op, pc.key, pc.prev, pc.target);
    ChangeKeepsInv(s, t, m', pc');
  }

  /** Entry `n` is ready to be linked behind `prev` as the entry of the absent key `k`. */
  ghost predicate CanLink<V>(m: Memory<V>, n: Id, prev: Id, k: int) {
    && MemInv(m)
    && m.buckets <= n < |m.entries| && n !in m.linked && m.entries[n].key == k
    && m.entries[n].valuePtr < |m.values|
    && InBucket(m, prev, BucketOf(k, m.buckets)) && m.entries[n].next == m.entries[prev].next
    && Encloses(m, prev, m.entries[prev].next, k)
    && k !in m.contents
  }

  function Linked<V>(m: Memory<V>, n: Id, prev: Id): Memory<V>
    requires prev < |m.entries|
  {
    m.(entries := m.entries[prev := m.entries[prev].(next := To(n))], linked := m.linked + {n})
  }

  lemma LinkedBuckets<V>(m: Memory<V>, n: Id, prev: Id, k: int, e: Id, b: nat)
    requires CanLink(m, n, prev, k)
    ensures Shape(Linked(m, n, prev))
    ensures InBucket(Linked(m, n, prev), e, b) <==> InBucket(m, e, b) || (e == n && b == BucketOf(k, m.buckets))
  {
  }

  /** The new entry gets the old successor of `prev`, and `prev` gets the new entry. */
  lemma NewEntryIsPlaced<V>(m: Memory<V>, n: Id, prev: Id, k: int)
    requires CanLink(m, n, prev, k)
    ensures Shape(Linked(m, n, prev))
    ensures var b := BucketOf(k, m.buckets);
      var m' := Linked(m, n, prev);
      InBucket(m', n, b) && NextIsSuccessor(m', n, b) && InBucket(m', prev, b) && NextIsSuccessor(m', prev, b)
  {
    var m', b := Linked(m, n, prev), BucketOf(k, m.buckets);
    assert NextIsSuccessor(m, prev, b);
    LinkedBuckets(m, n, prev, k, n, b);
    LinkedBuckets(m, n, prev, k, prev, b);
    var next := m.entries[prev].next;
    if next.To? {
      LinkedBuckets(m, n, prev, k, next.id, b);
    }
    forall g | g in m'.linked && InBucket(m', g, b)
      ensures g == n || InBucket(m, g, b)
    {
      LinkedBuckets(m, n, prev, k, g, b);
    }
  }

  /** Every other entry keeps its successor: the new key falls into no other gap. */
  lemma OtherEntriesKeepSuccessor<V>(m: Memory<V>, n: Id, prev: Id, k: int, e: Id, b: nat)
    requires CanLink(m, n, prev, k) && InBucket(m, e, b) && e != prev
    ensures Shape(Linked(m, n, prev)) && InBucket(Linked(m, n, prev), e, b)
    ensures NextIsSuccessor(Linked(m, n, prev), e, b)
  {
    var m' := Linked(m, n, prev);
    assert NextIsSuccessor(m, e, b) && NextIsSuccessor(m, prev, BucketOf(k, m.buckets));
    assert e != n;
    var next := m.entries[e].next;
    assert m'.entries[e] == m.entries[e];
    LinkedBuckets(m, n, prev, k, e, b);
    if next.To? {
      LinkedBuckets(m, n, prev, k, next.id, b);
    }
    forall g | g in m'.linked && InBucket(m', g, b) && Before(m', e, m'.entries[g].key)
      ensures next.To? && m'.entries[next.id].key <= m'.entries[g].key
    {
      LinkedBuckets(m, n, prev, k, g, b);
      if g == n {
        // prev lies behind e, so e's successor is at or before prev, hence before the new key
        assert prev in m.linked && Before(m, e, m.entries[prev].key) ==> InBucket(m, prev, b);
      }
    }
  }

  lemma LinkKeepsLists<V>(m: Memory<V>, n: Id, prev: Id, k: int)
    requires CanLink(m, n, prev, k)
    ensures Shape(Linked(m, n, prev)) && Lists(Linked(m, n, prev))
  {
    var m' := Linked(m, n, prev);
    LinkedBuckets(m, n, prev, k, n, BucketOf(k, m.buckets));
    forall e, g | e in m'.linked && g in m'.linked && m'.entries[e].key == m'.entries[g].key
      ensures e == g
    {
      assert m'.entries[e].key == m.entries[e].key && m'.entries[g].key == m.entries[g].key;
      assert forall x :: x in m.linked ==> m.entries[x].key in m.contents;
    }
    forall e: Id, b: nat | InBucket(m', e, b) ensures NextIsSuccessor(m', e, b) {
      LinkedBuckets(m, n, prev, k, e, b);
      NewEntryIsPlaced(m, n, prev, k);
      if e != n && e != prev {
        OtherEntriesKeepSuccessor(m, n, prev, k, e, b);
      } else {
        OneBucket(m', e, b, BucketOf(k, m.buckets));
      }
    }
  }

  lemma OneBucket<V>(m: Memory<V>, e: Id, b: nat, c: nat)
    requires Shape(m) && InBucket(m, e, b) && InBucket(m, e, c)
    ensures b == c
  {
  }

  lemma LinkKeepsMemInv<V>(m: Memory<V>, n: Id, prev: Id, k: int, v: V)
    requires CanLink(m, n, prev, k) && m.values[m.entries[n].valuePtr] == v
    ensures MemInv(Linked(m, n, prev).(contents := m.contents[k := v]))
  {
    var m' := Linked(m, n, prev).(contents := m.contents[k := v]);
    LinkKeepsLists(m, n, prev, k);
    SameLists(Linked(m, n, prev), m');
    assert forall e :: 0 <= e < |m.entries| ==>
      m'.entries[e].key == m.entries[e].key && m'.entries[e].valuePtr == m.entries[e].valuePtr;
    forall x | x in m'.contents ensures exists e :: e in m'.linked && m'.entries[e].key == x {
      if x == k {
        assert n in m'.linked && m'.entries[n].key == k;
      } else {
        var e :| e in m.linked && m.entries[e].key == x;
        assert e in m'.linked && m'.entries[e].key == x;
      }
    }
  }

  /** A thread that only moves on, without touching memory. */
  lemma MoveKeepsInv<V>(s: State<V>, t: Tid, pc': PC<V>)
    requires Inv(s) && LocalFacts(s.mem, pc')
    requires Private(pc').None? || Private(pc') == Private(PCOf(s, t))
    ensures Inv(State(s.mem, s.threads[t := pc']))
  {
    ChangeKeepsInv(s, t, s.mem, pc');
  }

  lemma ExchangeNextKeepsInv<V>(s: State<V>, t: Tid)
    requires Inv(s) && PCOf(s, t).CasNext?
    ensures Inv(Step(s, t, Proceed)) && Grows(s.mem, Step(s, t, Proceed).mem)
  {
    var m, pc := s.mem, PCOf(s, t);
    assert LocalFacts(m, pc);
    if m.entries[pc.prev].next == pc.target {
      GapIsEmpty(m, pc.prev, pc.key);
      LinkPrivateEntry(s, t, pc.op.newEntry.some);
    } else {
      MoveKeepsInv(s, t, Restart(m, pc.op, pc.key));
    }
  }

  lemma LinkPrivateEntry<V>(s: State<V>, t: Tid, n: Id)
    requires Inv(s) && PCOf(s, t).CasNext? && PCOf(s, t).op.Set? && PCOf(s, t).op.newEntry == Some(n)
    requires CanLink(s.mem, n, PCOf(s, t).prev, PCOf(s, t).key)
    requires s.mem.entries[PCOf(s, t).prev].next == PCOf(s, t).target
    requires s.mem.values[s.mem.entries[n].valuePtr] == PCOf(s, t).op.value
    ensures Inv(Step(s, t, Proceed)) && Grows(s.mem, Step(s, t, Proceed).mem)
  {
    var m, pc := s.mem, PCOf(s, t);
    var m' := Linked(m, n, pc.prev).(contents := m.contents[pc.key := pc.op.value]);
    LinkKeepsMemInv(m, n, pc.prev, pc.key, pc.op.value);
    ChangeKeepsInv(s, t, m', Returned(pc.op, pc.key, true, None));
  }

  lemma ReplaceKeepsMemInv<V>(m: Memory<V>, f: Id, k: int, p: Ptr, v: V)
    requires MemInv(m) && IsEntryOf(m, f, k) && p < |m.values| && m.values[p] == v
    ensures MemInv(m.(entries := m.entries[f := m.entries[f].(valuePtr := p)], contents := m.contents[k := v]))
  {
    var m' := m.(entries := m.entries[f := m.entries[f].(valuePtr := p)], contents := m.contents[k := v]);
    SameLists(m, m');
    forall x | x in m'.contents ensures exists e :: e in m'.linked && m'.entries[e].key == x {
      assert x in m.contents;
      var e :| e in m.linked && m.entries[e].key == x;
      assert e in m'.linked && m'.entries[e].key == x;
    }
  }

  lemma ExchangeValueKeepsInv<V>(s: State<V>, t: Tid)
    requires Inv(s) && PCOf(s, t).CasValue?
    ensures Inv(Step(s, t, Proceed)) && Grows(s.mem, Step(s, t, Proceed).mem)
  {
    var m, pc := s.mem, PCOf(s, t);
    assert LocalFacts(m, pc);
    var (m', pc') := Act(m, pc);
    if m.entries[pc.found].valuePtr == pc.oldValue {
      ReplaceKeepsMemInv(m, pc.found, pc.key, pc.op.newValue.some, pc.op.value);
    }
    ChangeKeepsInv(s, t, m', pc');
  }

  lemma StepKeepsInv<V>(s: State<V>, t: Tid, a: Action<V>)
    requires Inv(s)
    ensures Inv(Step(s, t, a)) && Grows(s.mem, Step(s, t, a).mem)
  {
    var m, pc := s.mem, PCOf(s, t);
    assert LocalFacts(m, pc);
    if a.Start? {
      if MayStart(pc) && Fresh(a.op) {
        MoveKeepsInv(s, t, Restart(m, a.op, a.key));
      } else {
        MoveKeepsInv(s, t, pc);
      }
    } else {
      ProceedKeepsInv(s, t);
    }
  }

  lemma ProceedKeepsInv<V>(s: State<V>, t: Tid)
    requires Inv(s)
    ensures Inv(Step(s, t, Proceed)) && Grows(s.mem, Step(s, t, Proceed).mem)
  {
    var pc := PCOf(s, t);
    if pc.Searching? {
      SearchKeepsInv(s, t);
    } else if pc.Linking? {
      StoreNextKeepsInv(s, t);
    } else if pc.CasNext? {
      ExchangeNextKeepsInv(s, t);
    } else if pc.CasValue? {
      ExchangeValueKeepsInv(s, t);
    } else {
      assert LocalFacts(s.mem, pc);
      MoveKeepsInv(s, t, Act(s.mem, pc).1);
    }
  }

  lemma InitInv<V>(size: nat)
    requires size > 0
    ensures Inv(Init<V>(size))
  {
  }

  lemma {:induction false} ReachableInv<V>(size: nat, schedule: seq<(Tid, Action<V>)>)
    requires size > 0
    ensures Inv(Execute(Init<V>(size), schedule))
    decreases |schedule|
  {
    if schedule == [] {
      InitInv<V>(size);
    } else {
      var k := |schedule| - 1;
      ReachableInv(size, schedule[..k]);
      StepKeepsInv(Execute(Init<V>(size), schedule[..k]), schedule[k].0, schedule[k].1);
    }
  }

  // ---------------------------------------------------------------- whole runs

  /** What a thread has been asked for: by its last start that took effect. */
  datatype Call<V> = NoCall | Calls(op: Op<V>, key: int)

  ghost function CallOf<V>(s: State<V>, schedule: seq<(Tid, Action<V>)>, t: Tid): Call<V>
    requires s.mem.buckets > 0
    decreases |schedule|
  {
    if schedule == [] then NoCall
    else
      var k := |schedule| - 1;
      var a := schedule[k].1;
      if schedule[k].0 == t && a.Start? && Fresh(a.op) && MayStart(PCOf(Execute(s, schedule[..k]), t))
      then Calls(a.op, a.key)
      else CallOf(s, schedule[..k], t)
  }

  /** A thread works on the key, the operation and the value it was called with. */
  ghost predicate Serves<V>(pc: PC<V>, call: Call<V>) {
    if pc.Idle? then call.NoCall?
    else call.Calls? && pc.key == call.key && match call.op
      case Has => pc.op.Has?
      case Get => pc.op.Get?
      case Set(v, _, _) => pc.op.Set? && pc.op.value == v
  }

  lemma StepServes<V>(s: State<V>, t: Tid, a: Action<V>, call: Call<V>)
    requires s.mem.buckets > 0 && Serves(PCOf(s, t), call)
    ensures Serves(PCOf(Step(s, t, a), t),
                   if a.Start? && Fresh(a.op) && MayStart(PCOf(s, t)) then Calls(a.op, a.key) else call)
    ensures forall u :: u != t ==> PCOf(Step(s, t, a), u) == PCOf(s, u)
  {
    hide BucketOf;
  }

  /** In every run every thread works on what its caller asked for. */
  lemma {:induction false} ArgumentsAreKept<V>(s: State<V>, schedule: seq<(Tid, Action<V>)>, t: Tid)
    requires s.mem.buckets > 0 && s.threads == map[]
    ensures Serves(PCOf(Execute(s, schedule), t), CallOf(s, schedule, t))
    decreases |schedule|
  {
    hide Step;
    if schedule != [] {
      var k := |schedule| - 1;
      ArgumentsAreKept(s, schedule[..k], t);
      ArgumentsAreKept(s, schedule[..k], schedule[k].0);
      StepServes(Execute(s, schedule[..k]), schedule[k].0, schedule[k].1, CallOf(s, schedule[..k], schedule[k].0));
    }
  }

  /** The map that the calls make: each `Set`, in the step with which it returns, puts its value at its key. */
  ghost function MapOf<V>(s: State<V>, schedule: seq<(Tid, Action<V>)>): map<int, V>
    requires s.mem.buckets > 0
    decreases |schedule|
  {
    if schedule == [] then map[]
    else
      var k := |schedule| - 1;
      var call := CallOf(s, schedule[..k], schedule[k].0);
      var before := MapOf(s, schedule[..k]);
      if SetReturns(s, schedule, k) then before[call.key := call.op.value] else before
  }

  /** Action `k` is the one with which a `Set` returns. */
  ghost predicate SetReturns<V>(s: State<V>, schedule: seq<(Tid, Action<V>)>, k: nat)
    requires s.mem.buckets > 0 && k < |schedule|
  {
    var (t, a) := schedule[k];
    && !PCOf(Execute(s, schedule[..k]), t).Returned? && PCOf(Execute(s, schedule[..k + 1]), t).Returned?
    && CallOf(s, schedule[..k], t).Calls? && CallOf(s, schedule[..k], t).op.Set?
  }

  /**
    Every step of every run is a step of an atomic map, on the keys and values of the callers: a
    returning `Set` overwrites its key, a hit reports a key and value that are in the map at that
    moment, a miss reports a key that is absent at that moment, and nothing else changes the map.
  */
  lemma StepRefinesMap<V>(size: nat, schedule: seq<(Tid, Action<V>)>, t: Tid, a: Action<V>)
    requires size > 0
    ensures var s := Execute(Init<V>(size), schedule);
      var s' := Step(s, t, a);
      AtomicStep(s.mem.contents, s'.mem.contents, CallOf(Init<V>(size), schedule, t), PCOf(s, t), PCOf(s', t))
  {
    ReachableInv(size, schedule);
    var s := Execute(Init<V>(size), schedule);
    assert LocalFacts(s.mem, PCOf(s, t));
    ArgumentsAreKept(Init<V>(size), schedule, t);
    ActIsAtomic(s.mem, PCOf(s, t), CallOf(Init<V>(size), schedule, t));
  }

  /** What the table holds is what the returned calls of `Set` have put there, in the order of their returns. */
  lemma {:induction false} ContentsAreOfCalls<V>(size: nat, schedule: seq<(Tid, Action<V>)>)
    requires size > 0
    ensures Execute(Init<V>(size), schedule).mem.contents == MapOf(Init<V>(size), schedule)
    decreases |schedule|
  {
    if schedule != [] {
      var k := |schedule| - 1;
      ContentsAreOfCalls(size, schedule[..k]);
      StepRefinesMap(size, schedule[..k], schedule[k].0, schedule[k].1);
      ExecuteLast(Init<V>(size), schedule);
      assert schedule[..k + 1] == schedule;
    }
  }

  ghost predicate SetOfKeyReturns<V>(s: State<V>, schedule: seq<(Tid, Action<V>)>, k: nat, key: int)
    requires s.mem.buckets > 0 && k < |schedule|
  {
    SetReturns(s, schedule, k) && CallOf(s, schedule[..k], schedule[k].0).key == key
  }

  /** No `Set` of `key` returns among the actions from number `from` on. */
  ghost predicate NoSetReturns<V>(s: State<V>, schedule: seq<(Tid, Action<V>)>, from: nat, key: int)
    requires s.mem.buckets > 0
  {
    forall k :: from <= k < |schedule| ==> !SetOfKeyReturns(s, schedule, k, key)
  }

  lemma SetReturnsOfPrefix<V>(s: State<V>, schedule: seq<(Tid, Action<V>)>, n: nat, k: nat)
    requires s.mem.buckets > 0 && k < n <= |schedule|
    ensures SetReturns(s, schedule[..n], k) <==> SetReturns(s, schedule, k)
    ensures forall key :: SetOfKeyReturns(s, schedule[..n], k, key) <==> SetOfKeyReturns(s, schedule, k, key)
    ensures schedule[..n][..k] == schedule[..k] && schedule[..n][k] == schedule[k]
  {
    assert schedule[..n][..k] == schedule[..k] && schedule[..n][..k + 1] == schedule[..k + 1];
  }

  lemma {:induction false} MapKeeps<V>(s: State<V>, schedule: seq<(Tid, Action<V>)>, from: nat, key: int)
    requires s.mem.buckets > 0 && from <= |schedule| && NoSetReturns(s, schedule, from, key)
    ensures var m, m' := MapOf(s, schedule[..from]), MapOf(s, schedule);
      (key in m <==> key in m') && (key in m ==> m'[key] == m[key])
    decreases |schedule|
  {
    hide CallOf, SetReturns, Execute;
    if |schedule| == from {
      assert schedule[..from] == schedule;
    } else {
      var last := |schedule| - 1;
      var front := schedule[..last];
      forall k | from <= k < last ensures !SetOfKeyReturns(s, front, k, key) {
        SetReturnsOfPrefix(s, schedule, last, k);
        assert !SetOfKeyReturns(s, schedule, k, key);
      }
      MapKeeps(s, front, from, key);
      assert front[..from] == schedule[..from];
      assert !SetOfKeyReturns(s, schedule, last, key);
    }
  }

  /**
    Reads see the last write: with action number `w` a `Set(key, value)` returned, and since then no
    other `Set` of that key has.  Then a `Get` of the key that returns now reports the value.
  */
  lemma GetReadsLastSet<V>(size: nat, schedule: seq<(Tid, Action<V>)>, w: nat, t: Tid, a: Action<V>)
    requires size > 0 && w < |schedule| && SetReturns(Init<V>(size), schedule, w)
    requires NoSetReturns(Init<V>(size), schedule, w + 1, CallOf(Init<V>(size), schedule[..w], schedule[w].0).key)
    ensures var written, get := CallOf(Init<V>(size), schedule[..w], schedule[w].0), CallOf(Init<V>(size), schedule, t);
      var s := Execute(Init<V>(size), schedule);
      var pc' := PCOf(Step(s, t, a), t);
      !PCOf(s, t).Returned? && pc'.Returned? && get.Calls? && get.op.Get? && get.key == written.key ==>
        pc'.ok && pc'.result == Some(written.op.value)
  {
    var i := Init<V>(size);
    MapKeeps(i, schedule, w + 1, CallOf(i, schedule[..w], schedule[w].0).key);
    SetReturnsOfPrefix(i, schedule, w + 1, w);
    hide CallOf, Step, Execute, SetReturns;
    ContentsAreOfCalls(size, schedule);
    StepRefinesMap(size, schedule, t, a);
  }

  lemma ActIsAtomic<V>(m: Memory<V>, pc: PC<V>, call: Call<V>)
    requires MemInv(m) && LocalFacts(m, pc) && Serves(pc, call)
    ensures var (m', pc') := Act(m, pc); AtomicStep(m.contents, m'.contents, call, pc, pc')
  {
    if pc.Searching? {
      SearchIsAtomic(m, pc.op, pc.key, pc.prev, call);
    } else if pc.LoadValue? && pc.op.Get? {
      assert m.entries[pc.found].key in m.contents;
    }
  }

  lemma SearchIsAtomic<V>(m: Memory<V>, op: Op<V>, k: int, prev: Id, call: Call<V>)
    requires MemInv(m) && LocalFacts(m, Searching(op, k, prev)) && Serves(Searching(op, k, prev), call)
    ensures var (m', pc') := Search(m, op, k, prev);
      AtomicStep(m.contents, m'.contents, call, Searching(op, k, prev), pc')
  {
    assert NextIsSuccessor(m, prev, BucketOf(k, m.buckets));
    var target := m.entries[prev].next;
    if target.Null? || m.entries[target.id].key > k {
      GapIsEmpty(m, prev, k);
    } else {
      assert m.entries[target.id].key in m.contents;
    }
  }

  ghost predicate AtomicStep<V>(map0: map<int, V>, map1: map<int, V>, call: Call<V>, pc: PC<V>, pc': PC<V>) {
    if !pc.Returned? && pc'.Returned? then
      call.Calls? && match call.op
      case Set(v, _, _) => pc'.ok && map1 == map0[call.key := v]
      case Has => map1 == map0 && (pc'.ok <==> call.key in map0)
      case Get =>
        map1 == map0 && (pc'.ok <==> call.key in map0)
        && pc'.result == (if pc'.ok then Some(map0[call.key]) else None)
    else map1 == map0
  }

  /** Once a key is in the map it stays, whatever the threads do next. */
  lemma {:induction false} KeysNeverVanish<V>(size: nat, before: seq<(Tid, Action<V>)>, after: seq<(Tid, Action<V>)>)
    requires size > 0
    ensures var s := Execute(Init<V>(size), before);
      var s' := Execute(Init<V>(size), before + after);
      s.mem.contents.Keys <= s'.mem.contents.Keys
    decreases |after|
  {
    if after == [] {
      assert before + after == before;
    } else {
      var k, whole := |after| - 1, before + after;
      ExecuteLast(Init<V>(size), whole);
      assert whole[..|whole| - 1] == before + after[..k] && whole[|whole| - 1] == after[k];
      hide *;
      KeysNeverVanish(size, before, after[..k]);
      StepsGrow(size, before + after[..k], after[k].0, after[k].1);
    }
  }

  lemma ExecuteLast<V>(s: State<V>, schedule: seq<(Tid, Action<V>)>)
    requires s.mem.buckets > 0 && schedule != []
    ensures var k := |schedule| - 1;
      Execute(s, schedule) == Step(Execute(s, schedule[..k]), schedule[k].0, schedule[k].1)
  {
  }

  lemma StepsGrow<V>(size: nat, schedule: seq<(Tid, Action<V>)>, t: Tid, a: Action<V>)
    requires size > 0
    ensures var s := Execute(Init<V>(size), schedule); s.mem.contents.Keys <= Step(s, t, a).mem.contents.Keys
  {
    ReachableInv(size, schedule);
    StepKeepsInv(Execute(Init<V>(size), schedule), t, a);
  }

  /**
    A lookup that misses: the key it was called with was absent at every earlier moment of the run,
    in particular when the lookup began.
  */
  lemma MissMeansAbsentAllAlong<V>(size: nat, before: seq<(Tid, Action<V>)>, during: seq<(Tid, Action<V>)>, t: Tid)
    requires size > 0
    requires var s := Execute(Init<V>(size), before + during);
      var pc' := PCOf(Step(s, t, Proceed), t);
      !PCOf(s, t).Returned? && pc'.Returned? && !pc'.ok
    ensures var call := CallOf(Init<V>(size), before + during, t);
      call.Calls? && call.key !in Execute(Init<V>(size), before).mem.contents
  {
    hide CallOf, Step, Execute;
    StepRefinesMap(size, before + during, t, Proceed);
    KeysNeverVanish(size, before, during);
  }

  /**
    An `Insert` that has once found its key, and so may have moved its argument into a new
    value, never again takes the path that builds an entry.
  */
  lemma FoundKeyIsNeverLost<V>(size: nat, schedule: seq<(Tid, Action<V>)>, t: Tid)
    requires size > 0
    ensures var s := Execute(Init<V>(size), schedule);
      var pc, call := PCOf(s, t), CallOf(Init<V>(size), schedule, t);
      && (pc.Linking? || pc.CasNext? ==> call.Calls? && call.op.Set? && pc.op.Set? && pc.op.newValue.None?)
      && (pc.Searching? && pc.op.Set? && pc.op.newValue.Some? ==> call.Calls? && call.key in s.mem.contents)
  {
    ReachableInv(size, schedule);
    ArgumentsAreKept(Init<V>(size), schedule, t);
    assert LocalFacts(Execute(Init<V>(size), schedule).mem, PCOf(Execute(Init<V>(size), schedule), t));
  }

  /** The keys met by following `next` from a link, at most `fuel` of them. */
  function KeysFrom<V>(m: Memory<V>, from: Link, fuel: nat): seq<int>
    decreases fuel
  {
    if from.Null? || fuel == 0 || from.id >= |m.entries| then []
    else [m.entries[from.id].key] + KeysFrom(m, m.entries[from.id].next, fuel - 1)
  }

  /** The linked entries of bucket `b` behind entry `e`. */
  ghost function Behind<V>(m: Memory<V>, e: Id, b: nat): set<Id>
    requires Shape(m) && e < |m.entries|
  {
    set g | g in m.linked && InBucket(m, g, b) && Before(m, e, m.entries[g].key)
  }

  ghost predicate StrictlySorted(q: seq<int>) {
    forall i, j :: 0 <= i < j < |q| ==> q[i] < q[j]
  }

  /** Stepping to the successor leaves exactly the other entries behind. */
  lemma BehindShrinks<V>(m: Memory<V>, e: Id, b: nat)
    requires MemInv(m) && InBucket(m, e, b)
    ensures m.entries[e].next.Null? ==> Behind(m, e, b) == {}
    ensures m.entries[e].next.To? ==>
      var n := m.entries[e].next.id;
      && n < |m.entries| && InBucket(m, n, b) && n in Behind(m, e, b) && Behind(m, n, b) == Behind(m, e, b) - {n}
      && (forall g :: g in Behind(m, n, b) ==> m.entries[n].key < m.entries[g].key)
  {
    assert NextIsSuccessor(m, e, b);
    if m.entries[e].next.To? {
      var n := m.entries[e].next.id;
      forall g ensures g in Behind(m, n, b) <==> g in Behind(m, e, b) - {n} {
        if g in m.linked && InBucket(m, g, b) && Before(m, e, m.entries[g].key) {
          assert m.entries[n].key <= m.entries[g].key;
        }
      }
    }
  }

  ghost function KeysOf<V>(m: Memory<V>, es: set<Id>): set<int>
    requires forall e :: e in es ==> e < |m.entries|
  {
    set e | e in es :: m.entries[e].key
  }

  lemma KeysOfAdd<V>(m: Memory<V>, n: Id, es: set<Id>)
    requires n < |m.entries| && forall e :: e in es ==> e < |m.entries|
    ensures KeysOf(m, {n} + es) == {m.entries[n].key} + KeysOf(m, es)
  {
  }

  /** The sequence is sorted and lists exactly the given keys. */
  ghost predicate Enumerates(q: seq<int>, keys: set<int>) {
    StrictlySorted(q) && forall k :: k in q <==> k in keys
  }

  lemma EnumeratesCons(x: int, q: seq<int>, keys: set<int>)
    requires Enumerates(q, keys) && forall k :: k in keys ==> x < k
    ensures Enumerates([x] + q, {x} + keys)
  {
    forall j | 0 <= j < |q| ensures x < q[j] {
      assert q[j] in q;
    }
  }

  lemma WalkCons<V>(m: Memory<V>, n: Id, rest: set<Id>, fuel: nat)
    requires n < |m.entries| && forall e :: e in rest ==> e < |m.entries| && m.entries[n].key < m.entries[e].key
    requires fuel > 0 && Enumerates(KeysFrom(m, m.entries[n].next, fuel - 1), KeysOf(m, rest))
    ensures Enumerates(KeysFrom(m, To(n), fuel), KeysOf(m, {n} + rest))
  {
    KeysOfAdd(m, n, rest);
    EnumeratesCons(m.entries[n].key, KeysFrom(m, m.entries[n].next, fuel - 1), KeysOf(m, rest));
  }

  lemma {:induction false} WalkVisitsBehind<V>(m: Memory<V>, e: Id, b: nat, fuel: nat)
    requires MemInv(m) && InBucket(m, e, b) && fuel >= |Behind(m, e, b)|
    ensures Enumerates(KeysFrom(m, m.entries[e].next, fuel), KeysOf(m, Behind(m, e, b)))
    decreases fuel
  {
    hide Lists, Abstraction;
    BehindShrinks(m, e, b);
    if m.entries[e].next.To? {
      var n := m.entries[e].next.id;
      assert Behind(m, e, b) == {n} + Behind(m, n, b);
      WalkVisitsBehind(m, n, b, fuel - 1);
      WalkCons(m, n, Behind(m, n, b), fuel);
    }
  }

  /**
    In every reachable state, walking bucket `b` from its sentinel meets the keys of the abstract
    map that belong to the bucket: all of them, each once, in increasing order.
  */
  lemma BucketsAreSortedAndComplete<V>(size: nat, schedule: seq<(Tid, Action<V>)>, b: nat, fuel: nat)
    requires b < size
    requires fuel >= |Execute(Init<V>(size), schedule).mem.linked|
    ensures var m := Execute(Init<V>(size), schedule).mem;
      b < |m.entries| &&
      var q := KeysFrom(m, m.entries[b].next, fuel);
      && StrictlySorted(q)
      && (forall k :: k in q <==> k in m.contents && BucketOf(k, size) == b)
  {
    ReachableInv(size, schedule);
    var m := Execute(Init<V>(size), schedule).mem;
    assert Behind(m, b, b) <= m.linked;
    SubsetCount(Behind(m, b, b), m.linked);
    WalkVisitsBehind(m, b, b, fuel);
    var q := KeysFrom(m, m.entries[b].next, fuel);
    forall k ensures k in q <==> k in m.contents && BucketOf(k, size) == b {
      if k in m.contents && BucketOf(k, size) == b {
        var g :| g in m.linked && m.entries[g].key == k;
        assert g in Behind(m, b, b);
        assert k in KeysOf(m, Behind(m, b, b));
      }
    }
  }

  // ---------------------------------------------------------------- undisturbed calls

  /** How many accesses of its own an undisturbed thread needs at most to return. */
  ghost function Rank<V>(m: Memory<V>, pc: PC<V>): nat
    requires Shape(m)
  {
    match pc
    case Searching(_, k, prev) =>
      4 + if prev < |m.entries| then |Behind(m, prev, BucketOf(k, m.buckets))| else 0
    case Linking(_, _, prev, target) => if prev < |m.entries| && m.entries[prev].next == target then 2 else |m.linked| + 7
    case CasNext(_, _, prev, target) => if prev < |m.entries| && m.entries[prev].next == target then 1 else |m.linked| + 6
    case LoadValue(_, _, _) => 2
    case CasValue(_, _, f, p) => if f < |m.entries| && m.entries[f].valuePtr == p then 1 else |m.linked| + 5
    case _ => 0
  }

  lemma RankDrops<V>(m: Memory<V>, pc: PC<V>)
    requires MemInv(m) && LocalFacts(m, pc) && !MayStart(pc)
    ensures var (m', pc') := Act(m, pc); Shape(m') ==> Rank(m', pc') < Rank(m, pc)
  {
    if pc.Searching? {
      BehindDrops(m, pc.prev, BucketOf(pc.key, m.buckets));
      hide Lists, Abstraction, Behind, BucketOf;
      SearchRankDrops(m, pc.op, pc.key, pc.prev);
    } else {
      BehindIsLinked(m, BucketOf(pc.key, m.buckets), BucketOf(pc.key, m.buckets));
      hide Lists, Abstraction, Behind, BucketOf;
      assert pc.LoadValue? || pc.CasValue? ==> pc.found in m.linked;
      ActRankDrops(m, pc);
    }
  }

  /** Behind the search only an exchange that was overtaken goes back. */
  lemma ActRankDrops<V>(m: Memory<V>, pc: PC<V>)
    requires Shape(m) && !MayStart(pc) && !pc.Searching?
    requires var b := BucketOf(pc.key, m.buckets); |Behind(m, b, b)| <= |m.linked|
    requires pc.Linking? || pc.CasNext? ==>
      pc.op.Set? && pc.op.newEntry.Some? && pc.op.newEntry.some < |m.entries| && pc.op.newEntry.some != pc.prev
    requires pc.Linking? ==> pc.prev < |m.entries|
    requires pc.LoadValue? ==> pc.found in m.linked
    requires pc.CasValue? ==> pc.op.Set? && pc.op.newValue.Some?
    ensures var (m', pc') := Act(m, pc); Shape(m') ==> Rank(m', pc') < Rank(m, pc)
  {
    hide Behind, BucketOf;
  }

  lemma BehindDrops<V>(m: Memory<V>, prev: Id, b: nat)
    requires MemInv(m) && InBucket(m, prev, b)
    ensures prev < |m.entries|
    ensures var target := m.entries[prev].next;
      target.To? ==> target.id < |m.entries| && |Behind(m, target.id, b)| < |Behind(m, prev, b)|
  {
    BehindShrinks(m, prev, b);
    hide Lists, Abstraction, Behind;
    var target := m.entries[prev].next;
    if target.To? {
      assert Behind(m, target.id, b) == Behind(m, prev, b) - {target.id};
    }
  }

  lemma SearchRankDrops<V>(m: Memory<V>, op: Op<V>, k: int, prev: Id)
    requires Shape(m) && prev < |m.entries|
    requires var b, target := BucketOf(k, m.buckets), m.entries[prev].next;
      target.To? ==> target.id < |m.entries| && |Behind(m, target.id, b)| < |Behind(m, prev, b)|
    ensures var (m', pc') := Search(m, op, k, prev); Shape(m') ==> Rank(m', pc') < Rank(m, Searching(op, k, prev))
  {
    hide Behind, BucketOf, Shape;
  }

  lemma BehindIsLinked<V>(m: Memory<V>, e: Id, b: nat)
    requires Shape(m) && e < |m.entries|
    ensures |Behind(m, e, b)| <= |m.linked|
  {
    SubsetCount(Behind(m, e, b), m.linked);
  }

  function Proceeds<V>(t: Tid, n: nat): seq<(Tid, Action<V>)> {
    seq(n, _ => (t, Proceed))
  }

  lemma {:induction false} ReturnsWithin<V>(s: State<V>, t: Tid, n: nat)
    requires Inv(s) && !PCOf(s, t).Idle? && n >= Rank(s.mem, PCOf(s, t))
    ensures PCOf(Execute(s, Proceeds(t, n)), t).Returned?
    decreases n
  {
    if n == 0 {
      assert Execute(s, Proceeds(t, 0)) == s;
    } else {
      var s' := Step(s, t, Proceed);
      StepKeepsInv(s, t, Proceed);
      assert LocalFacts(s.mem, PCOf(s, t));
      if !MayStart(PCOf(s, t)) {
        RankDrops(s.mem, PCOf(s, t));
      }
      StaysInCall(s, t);
      ReturnsWithin(s', t, n - 1);
      ExecuteFirst(s, t, n);
    }
  }

  lemma StaysInCall<V>(s: State<V>, t: Tid)
    requires Inv(s) && !PCOf(s, t).Idle?
    ensures var s' := Step(s, t, Proceed);
      && !PCOf(s', t).Idle? && (PCOf(s, t).Returned? ==> PCOf(s', t) == PCOf(s, t) && s'.mem == s.mem)
      && (s'.mem, PCOf(s', t)) == Act(s.mem, PCOf(s, t))
  {
  }

  lemma {:induction false} ExecuteFirst<V>(s: State<V>, t: Tid, n: nat)
    requires s.mem.buckets > 0 && n > 0
    ensures Execute(s, Proceeds(t, n)) == Execute(Step(s, t, Proceed), Proceeds(t, n - 1))
    decreases n
  {
    hide Step;
    var all: seq<(Tid, Action<V>)> := Proceeds(t, n);
    assert all[..n - 1] == Proceeds(t, n - 1) && all[n - 1] == (t, Proceed);
    if n > 1 {
      ExecuteFirst(s, t, n - 1);
      var rest: seq<(Tid, Action<V>)> := Proceeds(t, n - 1);
      assert rest[..n - 2] == Proceeds(t, n - 2) && rest[n - 2] == (t, Proceed);
    }
  }

  /**
    From every reachable state an undisturbed call returns, after at most as many accesses as entries
    are linked and seven.
  */
  lemma UndisturbedCallReturns<V>(size: nat, schedule: seq<(Tid, Action<V>)>, t: Tid, n: nat)
    requires size > 0
    requires var s := Execute(Init<V>(size), schedule); !PCOf(s, t).Idle? && n >= |s.mem.linked| + 7
    ensures PCOf(Execute(Execute(Init<V>(size), schedule), Proceeds(t, n)), t).Returned?
  {
    ReachableInv(size, schedule);
    var s := Execute(Init<V>(size), schedule);
    var pc := PCOf(s, t);
    hide Execute, Proceeds;
    if pc.Searching? && pc.prev < |s.mem.entries| {
      BehindIsLinked(s.mem, pc.prev, BucketOf(pc.key, s.mem.buckets));
    }
    ReturnsWithin(s, t, n);
  }
}
