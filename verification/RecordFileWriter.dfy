/**
  The chunked file writer of cyber/record/file/record_file_writer.cc.  File operations succeed and
  a chunk that is handed to the flush task is written at once.
*/
module RecordFileWriter {
  import opened RecordFormat

  /** The sum of the content sizes. */
  function Raw(ms: seq<Message>): nat
    decreases |ms|
  {
    if ms == [] then 0 else Raw(ms[..|ms| - 1]) + |ms[|ms| - 1].content|
  }

  /** The begin time as the writers keep it: zero stands for "not set", then the minimum. */
  function BeginOf(ms: seq<Message>): nat
    decreases |ms|
  {
    if ms == [] then 0 else NextBegin(BeginOf(ms[..|ms| - 1]), ms[|ms| - 1].time)
  }

  function NextBegin(begin: nat, t: nat): (r: nat)
    ensures r <= t
  {
    if begin == 0 || begin > t then t else begin
  }

  function EndOf(ms: seq<Message>): nat
    decreases |ms|
  {
    if ms == [] then 0
    else if EndOf(ms[..|ms| - 1]) < ms[|ms| - 1].time then ms[|ms| - 1].time
    else EndOf(ms[..|ms| - 1])
  }

  /** The last of `ms` brings them over a limit; a limit of zero is no limit. */
  predicate Exceeds(ms: seq<Message>, interval: nat, rawSize: nat) {
    ms != [] && (
      || (interval > 0 && ms[|ms| - 1].time - BeginOf(ms) > interval)
      || (rawSize > 0 && Raw(ms) > rawSize))
  }

  /** The messages that wait in the active chunk after `ms` were written. */
  function Active(ms: seq<Message>, interval: nat, rawSize: nat): (r: seq<Message>)
    decreases |ms|
  {
    if ms == [] then []
    else
      var chunk := Active(ms[..|ms| - 1], interval, rawSize) + [ms[|ms| - 1]];
      if Exceeds(chunk, interval, rawSize) then [] else chunk
  }

  ghost predicate Positive(ms: seq<Message>) {
    forall m :: m in ms ==> m.time > 0
  }

  /** The kept begin and end are bounds. */
  lemma {:induction false} BoundsHold(ms: seq<Message>)
    requires Positive(ms)
    ensures forall m :: m in ms ==> BeginOf(ms) <= m.time <= EndOf(ms)
    ensures ms != [] ==> (exists m :: m in ms && m.time == BeginOf(ms)) && exists m :: m in ms && m.time == EndOf(ms)
    ensures BeginOf(ms) == 0 <==> ms == []
    decreases |ms|
  {
    if ms != [] {
      var k := |ms| - 1;
      assert ms == ms[..k] + [ms[k]];
      assert Positive(ms[..k]) && ms[k] in ms;
      BoundsHold(ms[..k]);
    }
  }

  /** Of ordered messages they are the times of the first and the last. */
  lemma {:induction false} BoundsOfOrdered(ms: seq<Message>)
    requires Positive(ms) && Chronological(ms) && ms != []
    ensures BeginOf(ms) == ms[0].time && EndOf(ms) == ms[|ms| - 1].time
    decreases |ms|
  {
    var k := |ms| - 1;
    assert ms[k] in ms && Positive(ms[..k]) && Chronological(ms[..k]);
    if k == 0 {
      assert ms[..0] == [];
    } else {
      BoundsOfOrdered(ms[..k]);
      assert ms[0] in ms;
    }
  }

  datatype Chunk = Chunk(messages: seq<Message>, beginTime: nat, endTime: nat, rawSize: nat) {
    /** `Chunk::add`. */
    function Add(m: Message): Chunk {
      var begin := if beginTime == 0 then m.time else beginTime;
      Chunk(messages + [m],
            if begin > m.time then m.time else begin,
            if endTime < m.time then m.time else endTime,
            rawSize + |m.content|)
    }

    /** The header fields describe the messages. */
    ghost predicate Described() {
      beginTime == BeginOf(messages) && endTime == EndOf(messages) && rawSize == Raw(messages)
    }
  }

  lemma ActiveNext(ms: seq<Message>, m: Message, interval: nat, rawSize: nat)
    ensures var chunk := Active(ms, interval, rawSize) + [m];
      Active(ms + [m], interval, rawSize) == if Exceeds(chunk, interval, rawSize) then [] else chunk
  {
    assert (ms + [m])[..|ms|] == ms;
  }

  /** `Raw` is the total size. */
  lemma {:induction false} RawAdds(a: seq<Message>, b: seq<Message>, m: Message)
    ensures Raw(a + b) == Raw(a) + Raw(b) && Raw([m]) == |m.content|
    decreases |b|
  {
    assert [m][..0] == [];
    if b == [] {
      assert a + b == a;
    } else {
      var k := |b| - 1;
      assert (a + b)[..|a + b| - 1] == a + b[..k];
      RawAdds(a, b[..k], m);
    }
  }

  /**
    When a chunk is flushed: with the message that brings its total size over the one limit, or the
    time from its first message over the other, for positive times in order.
  */
  lemma FlushRule(ms: seq<Message>, m: Message, interval: nat, rawSize: nat)
    requires Positive(ms + [m]) && Chronological(ms + [m])
    ensures var chunk := Active(ms, interval, rawSize) + [m];
      var flush := (interval > 0 && m.time - chunk[0].time > interval) || (rawSize > 0 && Raw(chunk) > rawSize);
      Active(ms + [m], interval, rawSize) == if flush then [] else chunk
    ensures Active([], interval, rawSize) == []
  {
    var chunk := Active(ms, interval, rawSize) + [m];
    ActiveNext(ms, m, interval, rawSize);
    ActiveIsEnd(ms, interval, rawSize);
    NothingWaits(interval, rawSize);
    EndOfLonger(Active(ms, interval, rawSize), ms, m);
    EndKeepsOrder(ms + [m], chunk);
    ExceedsRule(chunk, interval, rawSize);
    hide Active, Raw, BeginOf, EndOf, Exceeds, Positive, Chronological, IsEnd;
  }

  lemma ExceedsRule(ms: seq<Message>, interval: nat, rawSize: nat)
    requires Positive(ms) && Chronological(ms) && ms != []
    ensures Exceeds(ms, interval, rawSize) <==>
      (interval > 0 && ms[|ms| - 1].time - ms[0].time > interval) || (rawSize > 0 && Raw(ms) > rawSize)
  {
    BoundsOfOrdered(ms);
  }

  lemma NothingWaits(interval: nat, rawSize: nat)
    ensures Active([], interval, rawSize) == []
  {
  }

  /** The last messages of `ms`. */
  predicate IsEnd(end: seq<Message>, ms: seq<Message>) {
    |end| <= |ms| && end == ms[|ms| - |end|..]
  }

  lemma EndOfLonger(end: seq<Message>, ms: seq<Message>, m: Message)
    ensures IsEnd(end, ms) ==> IsEnd(end + [m], ms + [m])
    ensures IsEnd([], ms + [m])
  {
  }

  lemma EndKeepsOrder(ms: seq<Message>, end: seq<Message>)
    requires IsEnd(end, ms) && Positive(ms) && Chronological(ms)
    ensures Positive(end) && Chronological(end)
  {
    var start := |ms| - |end|;
    assert forall i :: 0 <= i < |end| ==> end[i] == ms[start + i] && ms[start + i] in ms;
  }

  /** What waits are the last messages written. */
  lemma {:induction false} ActiveIsEnd(ms: seq<Message>, interval: nat, rawSize: nat)
    ensures IsEnd(Active(ms, interval, rawSize), ms)
    decreases |ms|
  {
    if ms != [] {
      var front, m := ms[..|ms| - 1], ms[|ms| - 1];
      assert ms == front + [m];
      ActiveIsEnd(front, interval, rawSize);
      EndOfLonger(Active(front, interval, rawSize), front, m);
    }
  }

  lemma AddDescribes(c: Chunk, m: Message)
    requires c.Described()
    ensures c.Add(m).Described()
  {
    assert (c.messages + [m])[..|c.messages|] == c.messages;
  }

  /** No index and no unknown section: another section may follow. */
  ghost predicate Open(sections: seq<Section>) {
    forall s :: s in sections ==> !s.IndexSection? && !s.UnknownSection?
  }

  lemma {:induction false} WellFormedConcat(a: seq<Section>, b: seq<Section>)
    requires Open(a) && WellFormed(a) && WellFormed(b)
    ensures WellFormed(a + b)
    decreases |a|
  {
    if a == [] {
      assert a + b == b;
    } else {
      assert a[0] in a && (a + b)[0] == a[0];
      if a[0].ChunkHeader? {
        assert (a + b)[1] == a[1] && (a + b)[2..] == a[2..] + b;
        WellFormedConcat(a[2..], b);
      } else {
        assert (a + b)[1..] == a[1..] + b;
        WellFormedConcat(a[1..], b);
      }
    }
  }

  function Names(sections: seq<Section>): set<string> {
    set s | s in sections && s.ChannelSection? :: s.name
  }

  /**
    Walking a file from the channels `seen`: every message that is marked in `known` comes behind
    the section of its channel.
  */
  ghost predicate Preceded(sections: seq<Section>, known: seq<bool>, seen: set<string>)
    decreases |sections|
  {
    if sections == [] then known == []
    else if sections[0].ChannelSection? then Preceded(sections[1..], known, seen + {sections[0].name})
    else if sections[0].ChunkBody? then
      var n := |sections[0].messages|;
      && n <= |known|
      && (forall i :: 0 <= i < n && known[i] ==> sections[0].messages[i].channel in seen)
      && Preceded(sections[1..], known[n..], seen)
    else Preceded(sections[1..], known, seen)
  }

  lemma {:induction false} PrecededConcat(a: seq<Section>, known: seq<bool>, seen: set<string>,
                                          b: seq<Section>, known': seq<bool>)
    requires Preceded(a, known, seen) && Preceded(b, known', seen + Names(a))
    ensures Preceded(a + b, known + known', seen)
    decreases |a|
  {
    if a == [] {
      assert a + b == b && known + known' == known' && seen + Names(a) == seen;
    } else {
      var rest := a[1..];
      assert (a + b)[0] == a[0] && (a + b)[1..] == rest + b;
      assert a == [a[0]] + rest;
      if a[0].ChannelSection? {
        assert seen + Names(a) == (seen + {a[0].name}) + Names(rest);
        PrecededConcat(rest, known, seen + {a[0].name}, b, known');
      } else {
        assert Names(a) == Names(rest);
        if a[0].ChunkBody? {
          var n := |a[0].messages|;
          PrecededConcat(rest, known[n..], seen, b, known');
          assert (known + known')[n..] == known[n..] + known';
        } else {
          PrecededConcat(rest, known, seen, b, known');
        }
      }
    }
  }

  /** What the file header says of the flushed messages, if they are in order. */
  ghost predicate HeaderFits(flushed: seq<Message>, beginTime: nat, endTime: nat) {
    if flushed == [] then beginTime == 0 && endTime == 0
    else beginTime == flushed[0].time && endTime == flushed[|flushed| - 1].time
  }

  /** The messages flushed and those of the active chunk, each marked in `known`. */
  ghost predicate Marked(sections: seq<Section>, pending: seq<Message>, known: seq<bool>) {
    var n := |Contents(sections)|;
    && |known| == n + |pending|
    && Preceded(sections, known[..n], {})
    && forall i :: 0 <= i < |pending| && known[n + i] ==> pending[i].channel in Names(sections)
  }

  /** The sections of a file that is being written. */
  ghost predicate Laid(sections: seq<Section>, beginTime: nat, endTime: nat) {
    && Open(sections)
    && (Positive(Contents(sections)) ==> WellFormed(sections))
    && (Positive(Contents(sections)) && Chronological(Contents(sections)) ==>
          HeaderFits(Contents(sections), beginTime, endTime))
  }

  function Pair(chunk: Chunk): seq<Section> {
    [ChunkHeader(chunk.beginTime, chunk.endTime), ChunkBody(chunk.messages)]
  }

  lemma PairContents(sections: seq<Section>, chunk: Chunk)
    ensures Contents(Pair(chunk)) == chunk.messages
    ensures Contents(sections + Pair(chunk)) == Contents(sections) + chunk.messages
  {
    var pair := Pair(chunk);
    assert pair[1..] == [ChunkBody(chunk.messages)] && pair[1..][1..] == [];
    assert Contents(pair[1..]) == chunk.messages + [];
    assert chunk.messages + [] == chunk.messages && [] + chunk.messages == chunk.messages;
    ContentsConcat(sections, pair);
  }

  /** A chunk of positive times makes a well-formed pair. */
  lemma PairIsWellFormed(chunk: Chunk)
    requires chunk.Described() && Positive(chunk.messages)
    ensures WellFormed(Pair(chunk))
  {
    BoundsHold(chunk.messages);
    assert Pair(chunk)[2..] == [];
  }

  /** Flushing a chunk that is not empty keeps the layout; the header takes over its bounds. */
  lemma FlushKeepsLaid(sections: seq<Section>, chunk: Chunk, beginTime: nat, endTime: nat)
    requires Laid(sections, beginTime, endTime) && chunk.Described() && chunk.messages != []
    ensures Laid(sections + Pair(chunk), if beginTime == 0 then chunk.beginTime else beginTime, chunk.endTime)
  {
    hide WellFormed, Contents, BeginOf, EndOf, Raw, Pair;
    var before, after := Contents(sections), Contents(sections) + chunk.messages;
    PairContents(sections, chunk);
    PairIsOpen(chunk);
    if Positive(after) {
      assert forall m :: m in before || m in chunk.messages ==> m in after;
      PairIsWellFormed(chunk);
      WellFormedConcat(sections, Pair(chunk));
      if Chronological(after) {
        ChronologicalParts(before, chunk.messages);
        BoundsOfOrdered(chunk.messages);
        assert before != [] ==> before[0] in before;
      }
    }
  }

  lemma PairIsOpen(chunk: Chunk)
    ensures Open(Pair(chunk))
  {
  }

  lemma ChronologicalParts(a: seq<Message>, b: seq<Message>)
    requires Chronological(a + b)
    ensures Chronological(a) && Chronological(b)
  {
    var s := a + b;
    forall i, j | 0 <= i < j < |a| ensures a[i].time <= a[j].time {
      assert s[i] == a[i] && s[j] == a[j];
    }
    forall i, j | 0 <= i < j < |b| ensures b[i].time <= b[j].time {
      assert s[|a| + i] == b[i] && s[|a| + j] == b[j];
    }
  }

  lemma NamesGrow(a: seq<Section>, b: seq<Section>)
    ensures Names(a + b) == Names(a) + Names(b)
  {
  }

  lemma AddKeepsMarked(sections: seq<Section>, pending: seq<Message>, known: seq<bool>, m: Message)
    requires Marked(sections, pending, known)
    ensures Marked(sections, pending + [m], known + [m.channel in Names(sections)])
  {
    var n := |Contents(sections)|;
    assert (known + [m.channel in Names(sections)])[..n] == known[..n];
  }

  lemma FlushKeepsMarked(sections: seq<Section>, chunk: Chunk, known: seq<bool>)
    requires Marked(sections, chunk.messages, known)
    ensures Marked(sections + Pair(chunk), [], known)
  {
    var n, pair := |Contents(sections)|, Pair(chunk);
    PairContents(sections, chunk);
    assert pair[1..][1..] == [];
    assert known[n..][|chunk.messages|..] == [];
    assert {} + Names(sections) == Names(sections);
    assert Preceded(pair[1..], known[n..], Names(sections));
    PrecededConcat(sections, known[..n], {}, pair, known[n..]);
    assert known[..n] + known[n..] == known && known[..|known|] == known;
  }

  lemma ChannelKeeps(sections: seq<Section>, channel: Section, pending: seq<Message>, known: seq<bool>, b: nat, e: nat)
    requires channel.ChannelSection? && Laid(sections, b, e) && Marked(sections, pending, known)
    ensures Laid(sections + [channel], b, e) && Marked(sections + [channel], pending, known)
    ensures Contents(sections + [channel]) == Contents(sections)
  {
    ContentsConcat(sections, [channel]);
    assert [channel][1..] == [];
    assert Contents(sections) + [] == Contents(sections);
    if Positive(Contents(sections)) {
      WellFormedConcat(sections, [channel]);
    }
    NamesGrow(sections, [channel]);
    var n := |Contents(sections)|;
    PrecededConcat(sections, known[..n], {}, [channel], []);
    assert known[..n] + [] == known[..n];
  }

  /** The header of a closed file of ordered messages, of which `active` waited at the end. */
  ghost predicate CoversUnlessEmptied(file: File, all: seq<Message>, active: seq<Message>) {
    && file.beginTime == (if all == [] then 0 else all[0].time)
    && file.endTime == (if active == [] || all == [] then 0 else all[|all| - 1].time)
  }

  /** The file that `Close` leaves: the last chunk, even an empty one, and the index. */
  function Closed(sections: seq<Section>, chunk: Chunk, beginTime: nat): File {
    File(true, if beginTime == 0 then chunk.beginTime else beginTime, chunk.endTime,
         (sections + Pair(chunk)) + [IndexSection])
  }

  lemma ClosedContents(sections: seq<Section>, chunk: Chunk, beginTime: nat)
    ensures Contents(Closed(sections, chunk, beginTime).sections) == Contents(sections) + chunk.messages
  {
    PairContents(sections, chunk);
    ContentsConcat(sections + Pair(chunk), [IndexSection]);
    assert [IndexSection][1..] == [];
    var all := Contents(sections) + chunk.messages;
    assert all + [] == all;
  }

  lemma ClosedIsWellFormed(sections: seq<Section>, chunk: Chunk, beginTime: nat)
    requires Open(sections) && WellFormed(sections) && chunk.Described() && Positive(chunk.messages)
    ensures WellFormed(Closed(sections, chunk, beginTime).sections)
  {
    PairIsWellFormed(chunk);
    WellFormedConcat(sections, Pair(chunk));
    WellFormedConcat(sections + Pair(chunk), [IndexSection]);
  }

  /** The header of the closed file: the times of the first and the last message, or an end of zero. */
  lemma ClosedBounds(sections: seq<Section>, chunk: Chunk, beginTime: nat, endTime: nat)
    requires Laid(sections, beginTime, endTime) && chunk.Described()
    requires var all := Contents(sections) + chunk.messages; Positive(all) && Chronological(all)
    ensures var f, all := Closed(sections, chunk, beginTime), Contents(sections) + chunk.messages;
      && f.beginTime == (if all == [] then 0 else all[0].time)
      && f.endTime == (if chunk.messages == [] then 0 else all[|all| - 1].time)
  {
    var flushed, all := Contents(sections), Contents(sections) + chunk.messages;
    assert forall m :: m in flushed || m in chunk.messages ==> m in all;
    ChronologicalParts(flushed, chunk.messages);
    if chunk.messages != [] {
      BoundsOfOrdered(chunk.messages);
    }
    assert flushed != [] ==> flushed[0] in flushed;
  }

  /** The header covers the messages of the closed file iff the last chunk holds one, or there are none. */
  lemma SoundIffLastChunk(sections: seq<Section>, chunk: Chunk, beginTime: nat, endTime: nat)
    requires Laid(sections, beginTime, endTime) && chunk.Described()
    requires var all := Contents(sections) + chunk.messages; Positive(all) && Chronological(all)
    ensures Sound(Closed(sections, chunk, beginTime)) <==>
      Contents(sections) + chunk.messages == [] || chunk.messages != []
  {
    var f, all := Closed(sections, chunk, beginTime), Contents(sections) + chunk.messages;
    assert Positive(chunk.messages) && Positive(Contents(sections)) by {
      assert forall m :: m in Contents(sections) || m in chunk.messages ==> m in all;
    }
    ClosedContents(sections, chunk, beginTime);
    ClosedIsWellFormed(sections, chunk, beginTime);
    ClosedBounds(sections, chunk, beginTime, endTime);
    assert f.valid;
    hide Laid, WellFormed, Contents, Closed;
    SoundIffCovered(f, all);
  }

  lemma SoundIffCovered(f: File, all: seq<Message>)
    requires f.valid && WellFormed(f.sections) && Contents(f.sections) == all && Positive(all) && Chronological(all)
    requires all != [] ==> f.beginTime == all[0].time
    ensures all == [] ==> Sound(f)
    ensures all != [] ==> (Sound(f) <==> f.endTime >= all[|all| - 1].time)
  {
    hide WellFormed, Contents;
    if all != [] {
      assert all[|all| - 1] in all;
      forall m | m in all ensures all[0].time <= m.time <= all[|all| - 1].time {
        var i :| 0 <= i < |all| && all[i] == m;
      }
    }
  }

  lemma ClosedIsLaidOut(sections: seq<Section>, chunk: Chunk, beginTime: nat, endTime: nat)
    requires Laid(sections, beginTime, endTime) && chunk.Described()
    ensures Positive(Contents(sections) + chunk.messages) ==> LaidOut(Closed(sections, chunk, beginTime))
  {
    hide WellFormed, Contents, Closed, Pair;
    var all := Contents(sections) + chunk.messages;
    if Positive(all) {
      assert forall m :: m in Contents(sections) || m in chunk.messages ==> m in all;
      ClosedIsWellFormed(sections, chunk, beginTime);
    }
  }

  /** Everything that holds of the file that `Close` leaves. */
  lemma ClosedFacts(sections: seq<Section>, chunk: Chunk, beginTime: nat, endTime: nat, known: seq<bool>)
    requires Laid(sections, beginTime, endTime) && Marked(sections, chunk.messages, known) && chunk.Described()
    ensures var f, all := Closed(sections, chunk, beginTime), Contents(sections) + chunk.messages;
      && Contents(f.sections) == all && Preceded(f.sections, known, {})
      && (Positive(all) ==> LaidOut(f))
      && (Positive(all) && Chronological(all) ==>
            && (Sound(f) <==> all == [] || chunk.messages != [])
            && CoversUnlessEmptied(f, all, chunk.messages))
  {
    var all := Contents(sections) + chunk.messages;
    ClosedContents(sections, chunk, beginTime);
    FlushKeepsMarked(sections, chunk, known);
    assert known[..|known|] == known && [IndexSection][1..] == [] && known + [] == known;
    PrecededConcat(sections + Pair(chunk), known, {}, [IndexSection], []);
    ClosedIsLaidOut(sections, chunk, beginTime, endTime);
    hide Laid, Marked, Contents, Sound, Preceded;
    if Positive(all) && Chronological(all) {
      SoundIffLastChunk(sections, chunk, beginTime, endTime);
      ClosedBounds(sections, chunk, beginTime, endTime);
    }
  }

  class RecordFileWriter {
    const chunkInterval: nat
    const chunkRawSize: nat
    var beginTime: nat          // of the file header
    var endTime: nat
    var sections: seq<Section>  // behind the header section
    var chunkActive: Chunk
    ghost var known: seq<bool>  // whether the channel of a message was known when it was written

    ghost function Messages(): seq<Message>
      reads this
    {
      Contents(sections) + chunkActive.messages
    }

    ghost predicate Valid()
      reads this
    {
      && Laid(sections, beginTime, endTime)
      && Marked(sections, chunkActive.messages, known)
      && chunkActive.Described()
      && chunkActive.messages == Active(Messages(), chunkInterval, chunkRawSize)
    }

    /** `Open` and `WriteHeader`, with a header that has no times yet. */
    constructor (chunkInterval: nat, chunkRawSize: nat)
      ensures Valid() && Messages() == [] && known == [] && sections == []
      ensures this.chunkInterval == chunkInterval && this.chunkRawSize == chunkRawSize
    {
      this.chunkInterval, this.chunkRawSize := chunkInterval, chunkRawSize;
      beginTime, endTime, sections, chunkActive := 0, 0, [], Chunk([], 0, 0, 0);
      known := [];
    }

    method WriteChannel(name: string, messageType: string, protoDesc: string)
      requires Valid()
      modifies this`sections
      ensures Valid() && Messages() == old(Messages())
      ensures sections == old(sections) + [ChannelSection(name, messageType, protoDesc)]
    {
      ChannelKeeps(sections, ChannelSection(name, messageType, protoDesc), chunkActive.messages, known, beginTime, endTime);
      sections := sections + [ChannelSection(name, messageType, protoDesc)];
    }

    /** `WriteChunk`: the pair of sections, and the bounds of the file header. */
    method Flush(chunk: Chunk)
      requires Laid(sections, beginTime, endTime) && chunk.Described()
      modifies this`sections, this`beginTime, this`endTime
      ensures sections == old(sections) + Pair(chunk) && endTime == chunk.endTime
      ensures beginTime == if old(beginTime) == 0 then chunk.beginTime else old(beginTime)
      ensures chunk.messages != [] ==> Laid(sections, beginTime, endTime)
    {
      if chunk.messages != [] {
        FlushKeepsLaid(sections, chunk, beginTime, endTime);
      }
      sections := sections + [ChunkHeader(chunk.beginTime, chunk.endTime)];
      sections := sections + [ChunkBody(chunk.messages)];
      if beginTime == 0 {
        beginTime := chunk.beginTime;
      }
      endTime := chunk.endTime;
      assert sections == old(sections) + Pair(chunk);
    }

    /** `WriteMessage`: into the active chunk, which is flushed once it exceeds a limit. */
    method WriteMessage(m: Message)
      requires Valid()
      modifies this
      ensures Valid() && Messages() == old(Messages()) + [m]
      ensures known == old(known) + [m.channel in old(Names(sections))]
      ensures Names(sections) == old(Names(sections)) && old(sections) <= sections
    {
      hide Laid, Marked, Contents, Active, Names, BeginOf, EndOf, Raw;
      ghost var all := Messages();
      AddDescribes(chunkActive, m);
      AddKeepsMarked(sections, chunkActive.messages, known, m);
      known := known + [m.channel in Names(sections)];
      chunkActive := chunkActive.Add(m);
      assert Messages() == all + [m];
      ActiveNext(all, m, chunkInterval, chunkRawSize);
      var needFlush := false;
      if chunkInterval > 0 && m.time - chunkActive.beginTime > chunkInterval {
        needFlush := true;
      }
      if chunkRawSize > 0 && chunkActive.rawSize > chunkRawSize {
        needFlush := true;
      }
      if !needFlush {
        return;
      }
      FlushActive();
      assert Messages() == all + [m];
    }

    /**
      `Close`: flushes the active chunk whether it holds anything or not, writes the index and the
      header.  The header covers the messages exactly if the active chunk held one of them.
    */
    method Close() returns (file: File)
      requires Valid()
      modifies this`sections, this`beginTime, this`endTime
      ensures file.valid && Contents(file.sections) == old(Messages())
      ensures Preceded(file.sections, known, {})
      ensures Positive(old(Messages())) ==> LaidOut(file)
      ensures Positive(old(Messages())) && Chronological(old(Messages())) ==>
        (Sound(file) <==> old(Messages()) == [] || Active(old(Messages()), chunkInterval, chunkRawSize) != [])
      ensures Positive(old(Messages())) && Chronological(old(Messages())) ==>
        CoversUnlessEmptied(file, old(Messages()), Active(old(Messages()), chunkInterval, chunkRawSize))
    {
      hide Laid, Marked, Contents, Active, Sound, Preceded, Positive, Chronological, CoversUnlessEmptied;
      ClosedFacts(sections, chunkActive, beginTime, endTime, known);
      ghost var closed := Closed(sections, chunkActive, beginTime);
      Flush(chunkActive);
      sections := sections + [IndexSection];
      file := File(true, beginTime, endTime, sections);
      assert file == closed;
    }

    /** Hands the active chunk to the flush task and starts a new one. */
    method FlushActive()
      requires Laid(sections, beginTime, endTime) && Marked(sections, chunkActive.messages, known)
      requires chunkActive.Described() && chunkActive.messages != []
      modifies this`sections, this`beginTime, this`endTime, this`chunkActive
      ensures Laid(sections, beginTime, endTime) && Marked(sections, [], known)
      ensures chunkActive == Chunk([], 0, 0, 0) && chunkActive.Described() && Contents(sections) == old(Messages())
      ensures Names(sections) == old(Names(sections)) && old(sections) <= sections
    {
      FlushKeepsMarked(sections, chunkActive, known);
      PairContents(sections, chunkActive);
      NamesGrow(sections, Pair(chunkActive));
      hide Laid, Marked, Contents;
      Flush(chunkActive);
      chunkActive := Chunk([], 0, 0, 0);
    }
  }
}
