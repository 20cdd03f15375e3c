/**
  The message ring of cyber/data/cache_buffer.h, the channel view of cyber/data/channel_buffer.h
  and the reader's cursor of cyber/data/data_visitor.h.  Each call is one critical section of the
  buffer's mutex, so the methods are sequential.  Positions are absolute and start at 1.
*/
module CacheBuffer {
  import opened Modular

  // ---------------------------------------------------------------- what readers may expect

  /** A reader: everything published so far, its cursor, and the positions it was given. */
  datatype Reader<T> = Reader(published: seq<T>, cursor: nat, delivered: seq<Delivery<T>>)

  datatype Delivery<T> = Delivery(pos: nat, value: T)

  datatype Event<T> = Fill(value: T) | TryFetch

  function Unread<T>(r: Reader<T>): int {
    |r.published| - r.cursor + 1
  }

  predicate NothingToFetch<T>(r: Reader<T>) {
    |r.published| == 0 || r.cursor == |r.published| + 1
  }

  /** The position of a fetch: the newest at first and after an overrun, else the next one. */
  function NextPosition<T>(r: Reader<T>, size: nat): nat {
    if r.cursor == 0 || Unread(r) > size then |r.published| else r.cursor
  }

  function Fetched<T>(r: Reader<T>, size: nat): (r': Reader<T>)
    requires r.cursor <= |r.published| + 1
  {
    if NothingToFetch(r) then r
    else
      var p := NextPosition(r, size);
      Reader(r.published, p + 1, r.delivered + [Delivery(p, r.published[p - 1])])
  }

  function Published<T>(r: Reader<T>, value: T): Reader<T> {
    r.(published := r.published + [value])
  }

  /** The reader after a run of fills and fetches; the ring keeps `size` messages. */
  function Run<T>(size: nat, events: seq<Event<T>>): (r: Reader<T>)
    ensures r.cursor <= |r.published| + 1
    decreases |events|
  {
    if events == [] then Reader([], 0, [])
    else
      var k := |events| - 1;
      var r := Run(size, events[..k]);
      match events[k]
      case Fill(v) => Published(r, v)
      case TryFetch => Fetched(r, size)
  }

  // ---------------------------------------------------------------- the ring

  class CacheBuffer<T(0)> {
    var head: nat
    var tail: nat
    var capacity: nat
    var buffer: array<T>
    ghost var published: seq<T>

    /** The slots hold the newest messages, one more than `Size()` counts once the ring is full. */
    ghost predicate Valid()
      reads this, buffer
    {
      && capacity == buffer.Length >= 1
      && tail == |published|
      && head == (if tail > capacity - 1 then tail - (capacity - 1) else 0)
      && (forall p: nat :: 1 <= p <= tail && tail < p + capacity ==> buffer[p % capacity] == published[p - 1])
    }

    constructor (size: nat)
      ensures Valid() && fresh(buffer)
      ensures capacity == size + 1 && published == []
    {
      head, tail := 0, 0;
      capacity := size + 1;
      buffer := new T[size + 1];
      published := [];
    }

    predicate Full()
      reads this
    {
      capacity - 1 == tail - head
    }

    predicate Empty()
      reads this
    {
      tail == 0
    }

    function Head(): nat
      reads this
    {
      head + 1
    }

    function Tail(): nat
      reads this
    {
      tail
    }

    function Size(): int
      reads this
    {
      tail - head
    }

    /** `at`: a position still kept holds the message published there. */
    function At(pos: nat): (m: T)
      requires Valid()
      reads this, buffer
      ensures 1 <= pos <= tail && tail < pos + capacity ==> m == published[pos - 1]
    {
      buffer[pos % capacity]
    }

    /** `Fill` without a fusion callback: a full ring overwrites its oldest slot. */
    method Fill(value: T)
      requires Valid()
      modifies this, buffer
      ensures Valid() && buffer == old(buffer) && capacity == old(capacity)
      ensures published == old(published) + [value]
    {
      if Full() {
        AddModulus(head, capacity);
        buffer[head % capacity] := value;
        head := head + 1;
        tail := tail + 1;
      } else {
        buffer[(tail + 1) % capacity] := value;
        tail := tail + 1;
      }
      published := published + [value];
      assert buffer[tail % capacity] == value;
      forall p: nat | 1 <= p < tail && tail < p + capacity
        ensures buffer[p % capacity] == published[p - 1]
      {
        RemaindersDiffer(p, tail, capacity);
      }
    }

    /** `Fetch`: moves the caller's index to the position it reads. */
    method Fetch(index: nat) returns (ok: bool, index': nat, m: T)
      requires Valid() && index <= tail + 1
      ensures var r := Reader(published, index, []);
        && (ok <==> !NothingToFetch(r))
        && (!ok ==> index' == index)
        && (ok ==> index' == NextPosition(r, capacity - 1) && 1 <= index' <= |published| && m == published[index' - 1])
    {
      index' := index;
      m := *;
      if Empty() {
        return false, index, m;
      }
      if index == 0 {
        index' := Tail();
      } else if index == Tail() + 1 {
        return false, index, m;
      } else if index < Head() {
        index' := Tail();
      }
      m := At(index');
      ok := true;
    }

    /** `Latest`: the newest message, if there is one. */
    method Latest() returns (ok: bool, m: T)
      requires Valid()
      ensures ok <==> published != []
      ensures ok ==> m == published[|published| - 1]
    {
      m := *;
      if Empty() {
        return false, m;
      }
      m := At(tail);
      ok := true;
    }

    /** `FetchMulti`: the newest messages, at most `fetchSize`, in publication order. */
    method FetchMulti(fetchSize: nat) returns (ok: bool, vec: seq<T>)
      requires Valid()
      ensures ok <==> published != []
      ensures var kept := if |published| < capacity then |published| else capacity - 1;
        var n := if fetchSize < kept then fetchSize else kept;
        vec == published[|published| - n..]
    {
      vec := [];
      if Empty() {
        return false, [];
      }
      var num := if fetchSize < Size() then fetchSize else Size();
      var index := Tail() - num + 1;
      while index <= Tail()
        invariant Tail() - num + 1 <= index <= Tail() + 1
        invariant vec == published[|published| - num..index - 1]
      {
        vec := vec + [At(index)];
        index := index + 1;
      }
      ok := true;
    }
  }

  /** A single-channel `DataVisitor` with its buffer. */
  class DataVisitor<T(0)> {
    const channel: CacheBuffer<T>
    var nextMsgIndex: nat
    ghost var reader: Reader<T>

    ghost predicate Valid()
      reads this, channel, channel.buffer
    {
      && channel.Valid()
      && nextMsgIndex == reader.cursor <= |reader.published| + 1
      && channel.published == reader.published
    }

    constructor (queueSize: nat)
      ensures Valid() && fresh(channel) && fresh(channel.buffer)
      ensures channel.capacity == queueSize + 1 && reader == Run(queueSize, [])
    {
      channel := new CacheBuffer<T>(queueSize);
      nextMsgIndex := 0;
      reader := Reader([], 0, []);
    }

    /** What `Dispatch` does to this visitor. */
    method Dispatch(msg: T)
      requires Valid()
      modifies this, channel, channel.buffer
      ensures Valid() && channel.buffer == old(channel.buffer) && channel.capacity == old(channel.capacity)
      ensures reader == Published(old(reader), msg)
    {
      channel.Fill(msg);
      reader := Published(reader, msg);
    }

    /** `TryFetch`: on success the cursor moves behind the position that was read. */
    method TryFetch() returns (ok: bool, m: T)
      requires Valid()
      modifies this
      ensures Valid()
      ensures reader == Fetched(old(reader), channel.capacity - 1)
      ensures ok <==> !NothingToFetch(old(reader))
      ensures ok ==> |reader.delivered| > 0 && m == reader.delivered[|reader.delivered| - 1].value
    {
      var index;
      ok, index, m := channel.Fetch(nextMsgIndex);
      if ok {
        nextMsgIndex := index + 1;
      }
      reader := Fetched(reader, channel.capacity - 1);
    }
  }

  // ---------------------------------------------------------------- whole runs

  ghost predicate Ordered<T>(r: Reader<T>) {
    && (forall i, j :: 0 <= i < j < |r.delivered| ==> r.delivered[i].pos < r.delivered[j].pos)
    && (forall i :: 0 <= i < |r.delivered| ==>
          1 <= r.delivered[i].pos <= |r.published| && r.delivered[i].value == r.published[r.delivered[i].pos - 1])
    && r.cursor == (if r.delivered == [] then 0 else r.delivered[|r.delivered| - 1].pos + 1)
  }

  lemma FetchedIsOrdered<T>(r: Reader<T>, size: nat)
    requires Ordered(r) && r.cursor <= |r.published| + 1
    ensures Ordered(Fetched(r, size))
  {
  }

  /**
    In every run the deliveries go strictly forward through the published messages, each value is
    the one published at its position, and the cursor stands behind the last of them.
  */
  lemma {:induction false} DeliveriesAreOrdered<T>(size: nat, events: seq<Event<T>>)
    ensures Ordered(Run(size, events))
    decreases |events|
  {
    if events != [] {
      var k := |events| - 1;
      DeliveriesAreOrdered(size, events[..k]);
      RunNext(size, events, k);
      assert events[..k + 1] == events;
      hide Run;
      match events[k] {
        case Fill(v) =>
        case TryFetch => FetchedIsOrdered(Run(size, events[..k]), size);
      }
    }
  }

  /** The published messages of a run are the filled ones, in order. */
  lemma {:induction false} PublishedGrows<T>(size: nat, events: seq<Event<T>>, more: seq<Event<T>>)
    ensures Run(size, events).published <= Run(size, events + more).published
    ensures Run(size, events).delivered <= Run(size, events + more).delivered
    decreases |more|
  {
    if more == [] {
      assert events + more == events;
    } else {
      var k := |more| - 1;
      assert (events + more)[..|events + more| - 1] == events + more[..k];
      PublishedGrows(size, events, more[..k]);
    }
  }

  /**
    A gap between consecutive deliveries means that, when the later fetch came, more than `size`
    messages were unread and the fetch landed on the newest.
  */
  lemma SkipMeansOverrun<T>(size: nat, events: seq<Event<T>>)
    ensures var r := Run(size, events);
      var r' := Run(size, events + [TryFetch]);
      r.delivered != [] && |r'.delivered| > |r.delivered| ==>
        var last, next := r.delivered[|r.delivered| - 1].pos, r'.delivered[|r.delivered|].pos;
        next != last + 1 ==> |r.published| - last > size && next == |r.published|
  {
    assert (events + [TryFetch])[..|events|] == events;
    DeliveriesAreOrdered(size, events);
  }

  /** At no fetch after the first are more than `size` messages unread. */
  ghost predicate KeepsUp<T>(size: nat, events: seq<Event<T>>) {
    forall k :: 0 <= k < |events| && events[k].TryFetch? ==>
      var r := Run(size, events[..k]);
      r.cursor > 0 ==> Unread(r) <= size
  }

  /** A reader that keeps up misses nothing after its first message. */
  lemma {:induction false} KeepingUpMissesNothing<T>(size: nat, events: seq<Event<T>>)
    requires KeepsUp(size, events)
    ensures var d := Run(size, events).delivered;
      forall i :: 0 <= i < |d| ==> d[i].pos == d[0].pos + i
    decreases |events|
  {
    if events != [] {
      var k := |events| - 1;
      var before := events[..k];
      forall j | 0 <= j < |before| && before[j].TryFetch?
        ensures var r := Run(size, before[..j]); r.cursor > 0 ==> Unread(r) <= size
      {
        assert before[..j] == events[..j] && events[j].TryFetch?;
      }
      KeepingUpMissesNothing(size, before);
      DeliveriesAreOrdered(size, before);
      assert events[k].TryFetch? ==> (Run(size, before).cursor > 0 ==> Unread(Run(size, before)) <= size);
    }
  }

  /** The values that a run fills in, in order. */
  function Fills<T>(events: seq<Event<T>>): seq<T>
    decreases |events|
  {
    if events == [] then []
    else
      var k := |events| - 1;
      Fills(events[..k]) + if events[k].Fill? then [events[k].value] else []
  }

  lemma {:induction false} FillsArePublished<T>(size: nat, events: seq<Event<T>>)
    ensures Run(size, events).published == Fills(events)
    decreases |events|
  {
    if events != [] {
      FillsArePublished(size, events[..|events| - 1]);
    }
  }

  /** The position of the last delivery, or zero. */
  function LastPosition<T>(delivered: seq<Delivery<T>>): nat {
    if delivered == [] then 0 else delivered[|delivered| - 1].pos
  }

  /**
    The whole rule of a fetch, over the events.  With nothing filled since the last delivery it gets
    nothing.  Otherwise it gets the value of the last fill, if it is the first to get anything or
    more than `size` values have come since the last delivery, and the value next to the last
    delivered one if not.
  */
  lemma FetchRule<T>(size: nat, events: seq<Event<T>>)
    ensures Fetches(Fills(events), size, Run(size, events).delivered, Run(size, events + [TryFetch]).delivered)
  {
    DeliveriesAreOrdered(size, events);
    FillsArePublished(size, events);
    FetchedFetches(Run(size, events), size);
    hide *;
    RunNext(size, events + [TryFetch], |events|);
    assert (events + [TryFetch])[..|events|] == events && (events + [TryFetch])[..|events| + 1] == events + [TryFetch];
  }

  ghost predicate Fetches<T>(fills: seq<T>, size: nat, d: seq<Delivery<T>>, d': seq<Delivery<T>>) {
    var last := LastPosition(d);
    && last <= |fills|
    && (|fills| == last ==> d' == d)
    && (|fills| > last ==>
          var p := if d == [] || |fills| - last > size then |fills| else last + 1;
          d' == d + [Delivery(p, fills[p - 1])])
  }

  lemma FetchedFetches<T>(r: Reader<T>, size: nat)
    requires Ordered(r) && r.cursor <= |r.published| + 1
    ensures Fetches(r.published, size, r.delivered, Fetched(r, size).delivered)
  {
  }

  /** A reader with no more than `size` messages unread gets exactly the next one. */
  lemma FetchDeliversNext<T>(size: nat, events: seq<Event<T>>)
    requires var r := Run(size, events); 0 < r.cursor && 0 < Unread(r) <= size
    ensures var r := Run(size, events);
      var r' := Run(size, events + [TryFetch]);
      r'.delivered == r.delivered + [Delivery(r.cursor, r.published[r.cursor - 1])] && r'.cursor == r.cursor + 1
  {
    assert (events + [TryFetch])[..|events|] == events;
  }

  // ---------------------------------------------------------------- the ring and the runs

  /** What a reader got, without the positions. */
  function Values<T>(delivered: seq<Delivery<T>>): (values: seq<T>)
    ensures |values| == |delivered|
    ensures forall i :: 0 <= i < |values| ==> values[i] == delivered[i].value
  {
    seq(|delivered|, i requires 0 <= i < |delivered| => delivered[i].value)
  }

  lemma RunNext<T>(size: nat, events: seq<Event<T>>, k: nat)
    requires k < |events|
    ensures var r, r' := Run(size, events[..k]), Run(size, events[..k + 1]);
      r' == match events[k] case Fill(v) => Published(r, v) case TryFetch => Fetched(r, size)
  {
    assert events[..k + 1][..k] == events[..k];
  }

  lemma NothingRun<T>(size: nat)
    ensures Run<T>(size, []) == Reader([], 0, [])
  {
  }

  /** The visitor over its ring goes through every run, and receives what the run delivers. */
  method Drive<T(0)>(size: nat, events: seq<Event<T>>) returns (visitor: DataVisitor<T>, received: seq<T>)
    ensures fresh(visitor) && visitor.Valid() && visitor.reader == Run(size, events)
    ensures received == Values(Run(size, events).delivered)
  {
    hide Run;
    visitor := new DataVisitor<T>(size);
    received := [];
    NothingRun<T>(size);
    assert events[..0] == [];
    for k := 0 to |events|
      invariant fresh(visitor) && fresh(visitor.channel) && fresh(visitor.channel.buffer) && visitor.Valid()
      invariant visitor.channel.capacity == size + 1
      invariant visitor.reader == Run(size, events[..k]) && received == Values(visitor.reader.delivered)
    {
      RunNext(size, events, k);
      match events[k] {
        case Fill(v) =>
          visitor.Dispatch(v);
        case TryFetch =>
          var ok, m := visitor.TryFetch();
          if ok {
            received := received + [m];
          }
      }
    }
    assert events[..|events|] == events;
  }
}
