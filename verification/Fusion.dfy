/**
  The "all latest" fusion of cyber/data/fusion/all_latest.h, behind a multi-channel `DataVisitor`.
  Channel 0 triggers; the other channels contribute their newest message.  One `Dispatch` is one
  step: it fills the buffer of its channel, and for channel 0 runs the fusion callback instead.
*/
module Fusion {
  import opened CacheBuffer

  datatype Arrival<T> = Arrival(channel: nat, msg: T)

  /** The trigger's message with one message per other channel, in channel order. */
  datatype Fused<T> = Fused(main: T, others: seq<T>)

  // ---------------------------------------------------------------- zip with latest

  /** The messages of channel `c`, in arrival order. */
  function MessagesOn<T>(trace: seq<Arrival<T>>, c: nat): seq<T>
    decreases |trace|
  {
    if trace == [] then []
    else
      var k := |trace| - 1;
      MessagesOn(trace[..k], c) + if trace[k].channel == c then [trace[k].msg] else []
  }

  /** Every other channel has something. */
  ghost predicate AllPresent<T>(trace: seq<Arrival<T>>, n: nat) {
    forall c :: 1 <= c <= n ==> MessagesOn(trace, c) != []
  }

  ghost function LatestOf<T>(trace: seq<Arrival<T>>, n: nat): (r: seq<T>)
    requires AllPresent(trace, n)
    ensures |r| == n
  {
    seq(n, (i: nat) requires i < n =>
      assert MessagesOn(trace, i + 1) != [];
      var q := MessagesOn(trace, i + 1); q[|q| - 1])
  }

  /** The tuples that a trace of dispatches must produce. */
  ghost function ZipLatest<T>(trace: seq<Arrival<T>>, n: nat): seq<Fused<T>>
    decreases |trace|
  {
    if trace == [] then []
    else
      var k := |trace| - 1;
      ZipLatest(trace[..k], n) + Contribution(trace[..k], n, trace[k])
  }

  ghost function Contribution<T>(trace: seq<Arrival<T>>, n: nat, a: Arrival<T>): seq<Fused<T>> {
    if a.channel == 0 && AllPresent(trace, n) then [Fused(a.msg, LatestOf(trace, n))] else []
  }

  lemma ArrivalExtends<T>(trace: seq<Arrival<T>>, a: Arrival<T>, n: nat)
    ensures ZipLatest(trace + [a], n) == ZipLatest(trace, n) + Contribution(trace, n, a)
    ensures forall c: nat {:trigger MessagesOn(trace + [a], c)} ::
      MessagesOn(trace + [a], c) == MessagesOn(trace, c) + if a.channel == c then [a.msg] else []
  {
    assert (trace + [a])[..|trace|] == trace;
  }

  // ---------------------------------------------------------------- the visitor

  class FusingVisitor<T(0)> {
    const others: seq<CacheBuffer<T>>
    const fusion: CacheBuffer<Fused<T>>
    var nextMsgIndex: nat
    ghost var trace: seq<Arrival<T>>
    ghost var reader: Reader<Fused<T>>

    ghost predicate Valid()
      reads this, fusion, fusion.buffer, others, set b | b in others :: b.buffer
    {
      && (forall i, j :: 0 <= i < j < |others| ==> others[i] != others[j] && others[i].buffer != others[j].buffer)
      && (forall b :: b in others ==> b.buffer as object != fusion.buffer && b as object != fusion)
      && fusion.Valid()
      && (forall i :: 0 <= i < |others| ==> others[i].Valid() && others[i].published == MessagesOn(trace, i + 1))
      && fusion.published == reader.published == ZipLatest(trace, |others|)
      && nextMsgIndex == reader.cursor <= |reader.published| + 1
    }

    /** The fusion buffer gets the queue size of channel 0. */
    constructor (queueSize: nat, others: seq<CacheBuffer<T>>)
      requires forall i, j :: 0 <= i < j < |others| ==> others[i] != others[j] && others[i].buffer != others[j].buffer
      requires forall b :: b in others ==> b.Valid() && b.published == []
      ensures Valid() && this.others == others
      ensures trace == [] && reader == Reader([], 0, []) && fusion.capacity == queueSize + 1
      ensures fresh(fusion) && fresh(fusion.buffer)
    {
      this.others := others;
      fusion := new CacheBuffer<Fused<T>>(queueSize);
      nextMsgIndex := 0;
      trace := [];
      reader := Reader([], 0, []);
    }

    /** The callback's calls of `Latest`, up to the first that fails. */
    method CollectLatest() returns (complete: bool, latest: seq<T>)
      requires Valid()
      ensures complete <==> AllPresent(trace, |others|)
      ensures complete ==> latest == LatestOf(trace, |others|)
    {
      latest := [];
      var i := 0;
      while i < |others|
        invariant 0 <= i == |latest| <= |others|
        invariant forall c :: 1 <= c <= i ==> MessagesOn(trace, c) != []
        invariant forall j :: 0 <= j < i ==>
          var q := MessagesOn(trace, j + 1); q != [] && latest[j] == q[|q| - 1]
      {
        var ok, m := others[i].Latest();
        if !ok {
          assert MessagesOn(trace, i + 1) == [];
          return false, [];
        }
        latest := latest + [m];
        i := i + 1;
      }
      complete := true;
    }

    /** The callback of channel 0. */
    method FusionCallback(msg: T)
      requires Valid()
      modifies fusion, fusion.buffer
      ensures fusion.Valid() && fusion.buffer == old(fusion.buffer) && fusion.capacity == old(fusion.capacity)
      ensures fusion.published == old(fusion.published) + Contribution(trace, |others|, Arrival(0, msg))
    {
      var complete, latest := CollectLatest();
      if complete {
        fusion.Fill(Fused(msg, latest));
      }
    }

    /** The fill of another channel touches that channel's buffer only. */
    method FillOther(channel: nat, msg: T)
      requires Valid() && 1 <= channel <= |others|
      modifies others[channel - 1], others[channel - 1].buffer
      ensures forall b :: b in others ==> b.buffer == old(b.buffer)
      ensures forall i :: 0 <= i < |others| ==>
        others[i].Valid() && others[i].published == old(others[i].published) + if i + 1 == channel then [msg] else []
    {
      var b := others[channel - 1];
      b.Fill(msg);
      forall i | 0 <= i < |others|
        ensures others[i].Valid() && others[i].published == old(others[i].published) + if i + 1 == channel then [msg] else []
      {
        if i + 1 != channel {
          assert others[i] != b && others[i].buffer != b.buffer;
        }
      }
    }

    /** One dispatch on one channel; a channel nobody reads is ignored. */
    method Dispatch(channel: nat, msg: T)
      requires Valid()
      modifies this, fusion, fusion.buffer, others, set b | b in others :: b.buffer
      ensures Valid() && fusion.buffer == old(fusion.buffer) && fusion.capacity == old(fusion.capacity)
      ensures forall b :: b in others ==> b.buffer == old(b.buffer)
      ensures trace == old(trace) + [Arrival(channel, msg)]
      ensures reader == old(reader).(published := ZipLatest(trace, |others|))
    {
      hide ZipLatest, MessagesOn, AllPresent;
      ghost var before, a := trace, Arrival(channel, msg);
      if channel == 0 {
        FusionCallback(msg);
      } else if channel <= |others| {
        FillOther(channel, msg);
      }
      trace := before + [a];
      reader := reader.(published := ZipLatest(trace, |others|));
      ArrivalExtends(before, a, |others|);
    }

    /** `TryFetch` through `Fusion`: the next tuple of the fusion buffer. */
    method TryFetch() returns (ok: bool, m: Fused<T>)
      requires Valid()
      modifies this
      ensures Valid() && trace == old(trace)
      ensures reader == Fetched(old(reader), fusion.capacity - 1)
      ensures ok <==> !NothingToFetch(old(reader))
      ensures ok ==> |reader.delivered| > 0 && m == reader.delivered[|reader.delivered| - 1].value
    {
      var index;
      ok, index, m := fusion.Fetch(nextMsgIndex);
      if ok {
        nextMsgIndex := index + 1;
      }
      reader := Fetched(reader, fusion.capacity - 1);
    }
  }

  // ---------------------------------------------------------------- what zip with latest means

  /** Message `i` is the last one of channel `c` before position `j`. */
  ghost predicate IsLatest<T>(trace: seq<Arrival<T>>, j: nat, c: nat, i: nat)
    requires j <= |trace|
  {
    && i < j && trace[i].channel == c
    && forall x :: i < x < j ==> trace[x].channel != c
  }

  /** Position `j` is a channel-0 message that arrives when every other channel has data. */
  ghost predicate Triggers<T>(trace: seq<Arrival<T>>, n: nat, j: nat) {
    && j < |trace| && trace[j].channel == 0
    && forall c {:trigger HasBefore(trace, j, c)} :: 1 <= c <= n ==> HasBefore(trace, j, c)
  }

  ghost predicate HasBefore<T>(trace: seq<Arrival<T>>, j: nat, c: nat)
    requires j <= |trace|
  {
    exists i :: 0 <= i < j && trace[i].channel == c
  }

  /** The latest message of channel `c` before position `j` is `m`. */
  ghost predicate LatestBefore<T>(trace: seq<Arrival<T>>, j: nat, c: nat, m: T)
    requires j <= |trace|
  {
    exists i: nat :: IsLatest(trace, j, c, i) && trace[i].msg == m
  }

  lemma {:induction false} MessagesOnLast<T>(trace: seq<Arrival<T>>, c: nat)
    ensures MessagesOn(trace, c) != [] <==> HasBefore(trace, |trace|, c)
    ensures MessagesOn(trace, c) != [] ==> LatestBefore(trace, |trace|, c, MessagesOn(trace, c)[|MessagesOn(trace, c)| - 1])
    decreases |trace|
  {
    if trace != [] {
      var k := |trace| - 1;
      MessagesOnLast(trace[..k], c);
      if trace[k].channel == c {
        assert IsLatest(trace, |trace|, c, k);
      } else if MessagesOn(trace, c) != [] {
        var q := MessagesOn(trace[..k], c);
        var i: nat :| IsLatest(trace[..k], k, c, i) && trace[..k][i].msg == q[|q| - 1];
        assert IsLatest(trace, |trace|, c, i);
      }
    }
  }

  /** The positions in a trace that produce a tuple, in order. */
  ghost function Sources<T>(trace: seq<Arrival<T>>, n: nat): seq<nat>
    decreases |trace|
  {
    if trace == [] then []
    else
      var k := |trace| - 1;
      Sources(trace[..k], n) + if Triggers(trace, n, k) then [k] else []
  }

  /** A tuple pairs the message at `j` with the latest message of every other channel at that time. */
  ghost predicate PairsLatest<T>(trace: seq<Arrival<T>>, n: nat, j: nat, f: Fused<T>) {
    && j < |trace| && f.main == trace[j].msg && |f.others| == n
    && forall c: nat :: c < n ==> LatestBefore(trace, j, c + 1, f.others[c])
  }

  lemma TriggersOfPrefix<T>(trace: seq<Arrival<T>>, n: nat, k: nat, j: nat)
    requires j < k <= |trace|
    ensures Triggers(trace[..k], n, j) <==> Triggers(trace, n, j)
  {
    forall c ensures HasBefore(trace[..k], j, c) <==> HasBefore(trace, j, c) {
    }
  }

  lemma LatestOfPrefix<T>(trace: seq<Arrival<T>>, k: nat, j: nat, c: nat, m: T)
    requires j <= k <= |trace| && LatestBefore(trace[..k], j, c, m)
    ensures LatestBefore(trace, j, c, m)
  {
    var i: nat :| IsLatest(trace[..k], j, c, i) && trace[..k][i].msg == m;
    assert IsLatest(trace, j, c, i);
  }

  lemma PairsOfPrefix<T>(trace: seq<Arrival<T>>, n: nat, k: nat, j: nat, f: Fused<T>)
    requires j < k <= |trace| && PairsLatest(trace[..k], n, j, f)
    ensures PairsLatest(trace, n, j, f)
  {
    forall c: nat | c < n ensures LatestBefore(trace, j, c + 1, f.others[c]) {
      LatestOfPrefix(trace, k, j, c + 1, f.others[c]);
    }
  }

  lemma ContributionPairs<T>(trace: seq<Arrival<T>>, n: nat)
    requires trace != []
    ensures var k := |trace| - 1;
      && (Contribution(trace[..k], n, trace[k]) != [] <==> Triggers(trace, n, k))
      && (Triggers(trace, n, k) ==> PairsLatest(trace, n, k, Contribution(trace[..k], n, trace[k])[0]))
  {
    var k := |trace| - 1;
    var before := trace[..k];
    forall c ensures HasBefore(before, k, c) <==> HasBefore(trace, k, c) {
    }
    forall c ensures MessagesOn(before, c) != [] <==> HasBefore(trace, k, c) {
      MessagesOnLast(before, c);
    }
    if trace[k].channel == 0 && AllPresent(before, n) {
      var f := Contribution(before, n, trace[k])[0];
      forall c: nat | c < n ensures LatestBefore(trace, k, c + 1, f.others[c]) {
        MessagesOnLast(before, c + 1);
        LatestOfPrefix(trace, k, k, c + 1, f.others[c]);
      }
    }
  }

  ghost predicate IncreasingBelow(q: seq<nat>, bound: nat) {
    && (forall a :: 0 <= a < |q| ==> q[a] < bound)
    && (forall a, b :: 0 <= a < b < |q| ==> q[a] < q[b])
  }

  lemma {:induction false} SourcesIncrease<T>(trace: seq<Arrival<T>>, n: nat)
    ensures IncreasingBelow(Sources(trace, n), |trace|)
    decreases |trace|
  {
    if trace != [] {
      var k := |trace| - 1;
      SourcesIncrease(trace[..k], n);
      assert IncreasingBelow(Sources(trace[..k], n), k);
    }
  }

  lemma {:induction false} SourcesAreTriggers<T>(trace: seq<Arrival<T>>, n: nat, j: nat)
    ensures j in Sources(trace, n) <==> Triggers(trace, n, j)
    decreases |trace|
  {
    if trace != [] {
      var k := |trace| - 1;
      SourcesIncrease(trace[..k], n);
      if j < k {
        SourcesAreTriggers(trace[..k], n, j);
        TriggersOfPrefix(trace, n, k, j);
      }
    }
  }

  lemma {:induction false} TuplesPairLatest<T>(trace: seq<Arrival<T>>, n: nat, a: nat)
    ensures |ZipLatest(trace, n)| == |Sources(trace, n)|
    ensures a < |Sources(trace, n)| ==> PairsLatest(trace, n, Sources(trace, n)[a], ZipLatest(trace, n)[a])
    decreases |trace|
  {
    if trace != [] {
      var k := |trace| - 1;
      TuplesPairLatest(trace[..k], n, a);
      ContributionPairs(trace, n);
      var z, src := ZipLatest(trace[..k], n), Sources(trace[..k], n);
      if a < |src| {
        PairsOfPrefix(trace, n, k, src[a], z[a]);
        assert ZipLatest(trace, n)[a] == z[a];
      }
    }
  }

  /**
    The tuples come in the order of their channel-0 messages, one for each that arrives when
    every other channel has data and none for the others, and each holds the latest messages at
    that moment.
  */
  lemma ZipLatestIsExact<T>(trace: seq<Arrival<T>>, n: nat)
    ensures var z, src := ZipLatest(trace, n), Sources(trace, n);
      && |z| == |src|
      && (forall a, b :: 0 <= a < b < |src| ==> src[a] < src[b])
      && (forall j: nat :: j in src <==> Triggers(trace, n, j))
      && (forall a :: 0 <= a < |src| ==> PairsLatest(trace, n, src[a], z[a]))
  {
    SourcesIncrease(trace, n);
    TuplesPairLatest(trace, n, 0);
    forall j: nat ensures j in Sources(trace, n) <==> Triggers(trace, n, j) {
      SourcesAreTriggers(trace, n, j);
    }
    forall a | 0 <= a < |Sources(trace, n)| ensures PairsLatest(trace, n, Sources(trace, n)[a], ZipLatest(trace, n)[a]) {
      TuplesPairLatest(trace, n, a);
    }
  }

  // ---------------------------------------------------------------- whole runs

  datatype Call<T> = Dispatched(a: Arrival<T>) | Tried

  /** The dispatches of a run. */
  function TraceOf<T>(calls: seq<Call<T>>): seq<Arrival<T>>
    decreases |calls|
  {
    if calls == [] then []
    else
      var k := |calls| - 1;
      TraceOf(calls[..k]) + if calls[k].Dispatched? then [calls[k].a] else []
  }

  /** What the methods above do to the reader over a run. */
  ghost function Observed<T>(n: nat, size: nat, calls: seq<Call<T>>): (r: Reader<Fused<T>>)
    ensures r.cursor <= |r.published| + 1
    ensures r.published == ZipLatest(TraceOf(calls), n)
    decreases |calls|
  {
    if calls == [] then Reader([], 0, [])
    else
      var k := |calls| - 1;
      var r := Observed(n, size, calls[..k]);
      if calls[k].Tried? then
        assert TraceOf(calls) == TraceOf(calls[..k]);
        Fetched(r, size)
      else
        assert TraceOf(calls)[..|TraceOf(calls)| - 1] == TraceOf(calls[..k]);
        r.(published := ZipLatest(TraceOf(calls), n))
  }

  /** The same run as fills and fetches of the fusion buffer alone. */
  ghost function BufferEvents<T>(n: nat, calls: seq<Call<T>>): seq<Event<Fused<T>>>
    decreases |calls|
  {
    if calls == [] then []
    else
      var k := |calls| - 1;
      BufferEvents(n, calls[..k]) +
      match calls[k]
      case Tried => [Event.TryFetch]
      case Dispatched(a) =>
        var z := Contribution(TraceOf(calls[..k]), n, a);
        if z == [] then [] else [Event.Fill(z[0])]
  }

  lemma {:induction false} ObservedIsBufferRun<T>(n: nat, size: nat, calls: seq<Call<T>>)
    ensures Observed(n, size, calls) == Run(size, BufferEvents(n, calls))
    decreases |calls|
  {
    if calls != [] {
      var k := |calls| - 1;
      ObservedIsBufferRun(n, size, calls[..k]);
      var ev := BufferEvents(n, calls[..k]);
      var all := BufferEvents(n, calls);
      if all != ev {
        assert all[..|all| - 1] == ev;
      }
      if calls[k].Dispatched? {
        var tr := TraceOf(calls);
        assert tr[..|tr| - 1] == TraceOf(calls[..k]);
      }
    }
  }

  /**
    Over every run of dispatches and fetches, the tuples a routine receives belong to channel-0
    messages in strictly increasing arrival order, none twice, and each pairs its message with
    the latest message of every other channel at the moment it arrived.
  */
  lemma FusionRefinesZipWithLatest<T>(n: nat, size: nat, calls: seq<Call<T>>)
    ensures var d := Observed(n, size, calls).delivered;
      var trace := TraceOf(calls);
      var src := Sources(trace, n);
      && (forall a :: 0 <= a < |d| ==> DeliveredFrom(trace, n, src, d[a]))
      && (forall a, b :: 0 <= a < b < |d| ==> d[a].pos < d[b].pos && src[d[a].pos - 1] < src[d[b].pos - 1])
  {
    hide Triggers, PairsLatest, Sources, ZipLatest, Observed, TraceOf, BufferEvents, Run;
    var trace := TraceOf(calls);
    var r, src := Observed(n, size, calls), Sources(trace, n);
    ObservedIsBufferRun(n, size, calls);
    DeliveriesAreOrdered(size, BufferEvents(n, calls));
    ZipLatestIsExact(trace, n);
    forall a | 0 <= a < |r.delivered| ensures DeliveredFrom(trace, n, src, r.delivered[a]) {
      assert src[r.delivered[a].pos - 1] in src;
    }
  }

  /** A delivered tuple stems from the trigger that its position stands for. */
  ghost predicate DeliveredFrom<T>(trace: seq<Arrival<T>>, n: nat, src: seq<nat>, d: Delivery<Fused<T>>) {
    && 1 <= d.pos <= |src|
    && Triggers(trace, n, src[d.pos - 1])
    && PairsLatest(trace, n, src[d.pos - 1], d.value)
  }

  /** What one more fetch gets. */
  ghost predicate FetchesFused<T>(trace: seq<Arrival<T>>, n: nat, size: nat,
                                  d: seq<Delivery<Fused<T>>>, d': seq<Delivery<Fused<T>>>)
  {
    var src, last := Sources(trace, n), LastPosition(d);
    && last <= |src|
    && (|src| == last ==> d' == d)
    && (|src| > last ==>
          var p := if d == [] || |src| - last > size then |src| else last + 1;
          |d'| == |d| + 1 && d'[..|d|] == d && d'[|d|].pos == p && PairsLatest(trace, n, src[p - 1], d'[|d|].value))
  }

  /**
    The whole rule of a fetch, over the triggers.  With no trigger since the last delivery it gets
    nothing.  Otherwise it gets the tuple of the last trigger, if it is the first to get anything or
    more than `size` triggers have come since the last delivery, and that of the next trigger if not.
  */
  lemma FusedFetchRule<T>(n: nat, size: nat, calls: seq<Call<T>>)
    ensures FetchesFused(TraceOf(calls), n, size, Observed(n, size, calls).delivered,
                         Observed(n, size, calls + [Tried]).delivered)
  {
    hide Sources, ZipLatest, PairsLatest, Run, Fills, Observed, TraceOf;
    var trace, events := TraceOf(calls), BufferEvents(n, calls);
    assert (calls + [Tried])[..|calls|] == calls;
    ObservedIsBufferRun(n, size, calls);
    ObservedIsBufferRun(n, size, calls + [Tried]);
    FetchRule(size, events);
    FillsArePublished(size, events);
    ZipLatestIsExact(trace, n);
  }

  // ---------------------------------------------------------------- the visitor and the runs

  lemma ObservedNext<T>(n: nat, size: nat, calls: seq<Call<T>>, k: nat)
    requires k < |calls|
    ensures var r, tr := Observed(n, size, calls[..k]), TraceOf(calls[..k + 1]);
      && tr == TraceOf(calls[..k]) + (if calls[k].Dispatched? then [calls[k].a] else [])
      && Observed(n, size, calls[..k + 1]) ==
           if calls[k].Tried? then Fetched(r, size) else r.(published := ZipLatest(tr, n))
  {
    assert calls[..k + 1][..k] == calls[..k];
  }

  /** One ring for each channel but the triggering one. */
  method OtherChannels<T(0)>(sizes: seq<nat>) returns (others: seq<CacheBuffer<T>>)
    ensures |others| == |sizes| && forall i :: 0 <= i < |others| ==>
      fresh(others[i]) && fresh(others[i].buffer) && others[i].Valid() && others[i].published == []
    ensures forall i, j :: 0 <= i < j < |others| ==> others[i] != others[j] && others[i].buffer != others[j].buffer
  {
    others := [];
    for k := 0 to |sizes|
      invariant |others| == k && forall i :: 0 <= i < k ==>
        fresh(others[i]) && fresh(others[i].buffer) && others[i].Valid() && others[i].published == []
      invariant forall i, j :: 0 <= i < j < k ==> others[i] != others[j] && others[i].buffer != others[j].buffer
    {
      var b := new CacheBuffer<T>(sizes[k]);
      others := others + [b];
    }
  }

  lemma ValuesNext<T>(r: Reader<T>, size: nat)
    requires r.cursor <= |r.published| + 1
    ensures var r' := Fetched(r, size);
      Values(r'.delivered) == Values(r.delivered) +
        if NothingToFetch(r) then [] else [r'.delivered[|r'.delivered| - 1].value]
  {
  }

  /** One call of a run. */
  method Carry<T(0)>(visitor: FusingVisitor<T>, call: Call<T>) returns (got: seq<Fused<T>>)
    requires visitor.Valid()
    modifies visitor, visitor.fusion, visitor.fusion.buffer, visitor.others, set b | b in visitor.others :: b.buffer
    ensures visitor.Valid()
    ensures visitor.fusion.buffer == old(visitor.fusion.buffer) && visitor.fusion.capacity == old(visitor.fusion.capacity)
    ensures forall b :: b in visitor.others ==> b.buffer == old(b.buffer)
    ensures visitor.trace == old(visitor.trace) + if call.Dispatched? then [call.a] else []
    ensures visitor.reader == if call.Tried? then Fetched(old(visitor.reader), visitor.fusion.capacity - 1)
                              else old(visitor.reader).(published := ZipLatest(visitor.trace, |visitor.others|))
    ensures Values(visitor.reader.delivered) == Values(old(visitor.reader).delivered) + got
  {
    hide ZipLatest, MessagesOn;
    got := [];
    match call {
      case Dispatched(a) =>
        visitor.Dispatch(a.channel, a.msg);
      case Tried =>
        ValuesNext(visitor.reader, visitor.fusion.capacity - 1);
        var ok, m := visitor.TryFetch();
        if ok {
          got := [m];
        }
    }
  }

  /** The visitor over its rings goes through every run, and receives the tuples that the run delivers. */
  method Drive<T(0)>(size: nat, sizes: seq<nat>, calls: seq<Call<T>>)
    returns (visitor: FusingVisitor<T>, received: seq<Fused<T>>)
    ensures fresh(visitor) && visitor.Valid() && visitor.trace == TraceOf(calls)
    ensures visitor.reader == Observed(|sizes|, size, calls)
    ensures received == Values(visitor.reader.delivered)
  {
    hide Observed, TraceOf, ZipLatest, MessagesOn, Fetched, Values, NothingToFetch;
    var others := OtherChannels<T>(sizes);
    visitor := new FusingVisitor<T>(size, others);
    received := [];
    NothingObserved<T>(|sizes|, size);
    assert calls[..0] == [];
    for k := 0 to |calls|
      invariant fresh(visitor) && fresh(visitor.fusion) && fresh(visitor.fusion.buffer) && visitor.Valid()
      invariant visitor.others == others && visitor.fusion.capacity == size + 1
      invariant forall b :: b in others ==> fresh(b) && fresh(b.buffer)
      invariant visitor.trace == TraceOf(calls[..k]) && visitor.reader == Observed(|sizes|, size, calls[..k])
      invariant received == Values(visitor.reader.delivered)
    {
      ObservedNext(|sizes|, size, calls, k);
      var got := Carry(visitor, calls[k]);
      received := received + got;
    }
    assert calls[..|calls|] == calls;
  }

  lemma NothingObserved<T>(n: nat, size: nat)
    ensures Observed<T>(n, size, []) == Reader([], 0, []) && TraceOf<T>([]) == [] && Values<Fused<T>>([]) == []
  {
  }
}
