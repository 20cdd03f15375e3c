/** The viewer of cyber/record/record_viewer.cc over any number of record files. */
module RecordViewer {
  import opened Common
  import opened HeaderGate
  import opened Overtaking
  import opened RecordFormat
  import opened RecordReader
  import opened TimeMerge
  import opened WindowMerge
  import opened WindowScan

  const STEP_TIME_NANOSEC: nat := 1_000_000_000
  const BUFFER_MIN_SIZE: nat := 128
  const MAX_TIME: nat := 0xFFFF_FFFF_FFFF_FFFF

  /** What one drained window leaves of a reader's messages, and what it puts into the buffer. */
  ghost predicate Drained(rest: seq<Message>, rest': seq<Message>, buffer: seq<Message>, buffer': seq<Message>,
                          b: nat, h: nat)
  {
    && InsertAll(buffer, Taken(rest, b, h)) == InsertAll(buffer', Taken(rest', b, h))
    && Left(rest, b, h) == Left(rest', b, h)
  }

  /** A read that delivers moves one message of the window into the buffer. */
  lemma DrainNext(all: seq<Message>, left: seq<Message>, m: Message, buffer: seq<Message>, b: nat, h: nat)
    requires b <= h && Reads(all, left, true, m, b, h)
    ensures Drained(all, left, buffer, InsertByTime(buffer, m), b, h)
  {
    var s := SkipBefore(all, b);
    SkipIsSuffix(all, b);
    SkipKeepsScan(all, b, h);
    assert s[0] == m && s[1..] == left;
    InsertAllConcat(buffer, [m], Taken(left, b, h));
    assert [m][..0] == [];
    assert InsertAll(buffer, [m]) == InsertByTime(buffer, m);
  }

  /** A read that delivers nothing finds the window drained. */
  lemma DrainDone(all: seq<Message>, left: seq<Message>, m: Message, b: nat, h: nat, e: nat, step: nat)
    requires b <= h <= e && Reads(all, left, false, m, b, h)
    ensures Taken(all, b, h) == []
    ensures Visible(left, h + 1, e, step) == Visible(Left(all, b, h), h + 1, e, step)
  {
    SkipKeepsScan(all, b, h);
    var s := SkipBefore(all, b);
    assert Taken(s, b, h) == [] && Left(s, b, h) == s;
    SkipKeepsVisible(all, b, h + 1, e, step);
    SkipKeepsVisible(left, b, h + 1, e, step);
  }

  /** The order in which `Init` sorts the readers. */
  predicate HeaderBefore(f: File, g: File) {
    f.beginTime < g.beginTime || (f.beginTime == g.beginTime && f.endTime <= g.endTime)
  }

  /** What a reader still holds, under its header; nothing once it is finished, or if it is invalid. */
  ghost function Rest(reader: RecordReader, finished: bool): Source
    reads reader
  {
    Source(if finished || !reader.file.valid then [] else reader.Remaining(), reader.file.beginTime, reader.file.endTime)
  }

  /** The inner loop of `FillBuffer`: reads one reader until it has nothing more in the window. */
  method DrainReader(reader: RecordReader, msgBuffer: seq<Message>, b: nat, h: nat, ghost e: nat, ghost step: nat)
    returns (buffer: seq<Message>)
    requires reader.Valid() && b <= e && h == WindowEnd(b, e, step)
    modifies reader
    ensures reader.Valid()
    ensures buffer == InsertAll(msgBuffer, TakenBy(old(Rest(reader, false)), b, h))
    ensures OneRead(old(Rest(reader, false)), Rest(reader, false), b, e, step)
  {
    hide LaidOut, ReadableTail, Ahead, Visible, Left, Taken, Shown, InsertAll, OneRead, TakenBy, LeftBy, SkipBefore;
    buffer := msgBuffer;
    ghost var all := Rest(reader, false);
    var meets := reader.file.valid && Meets(reader.file.beginTime, reader.file.endTime, b, h);
    while true
      invariant reader.Valid()
      invariant if meets then Drained(all.messages, Rest(reader, false).messages, msgBuffer, buffer, b, h)
                else buffer == msgBuffer && Rest(reader, false) == all
      decreases |Rest(reader, false).messages|
    {
      ghost var rest := Rest(reader, false).messages;
      var ok, m := reader.ReadMessage(b, h);
      if !ok {
        if meets {
          DrainDone(rest, Rest(reader, false).messages, m, b, h, e, step);
          InsertNothing(buffer);
        }
        break;
      }
      SkipIsSuffix(rest, b);
      DrainNext(rest, Rest(reader, false).messages, m, buffer, b, h);
      buffer := InsertByTime(buffer, m);
    }
    if meets {
      DrainedIsRead(all, Rest(reader, false), msgBuffer, buffer, b, e, step);
    } else {
      UnreadIsRead(all, msgBuffer, b, e, step);
    }
  }

  lemma InsertNothing(buffer: seq<Message>)
    ensures InsertAll(buffer, []) == buffer
  {
  }

  lemma DrainedIsRead(all: Source, left: Source, buffer: seq<Message>, buffer': seq<Message>, b: nat, e: nat, step: nat)
    requires b <= e && left.beginTime == all.beginTime && left.endTime == all.endTime
    requires var h := WindowEnd(b, e, step);
      && Meets(all.beginTime, all.endTime, b, h)
      && InsertAll(buffer, Taken(all.messages, b, h)) == buffer'
      && Visible(left.messages, h + 1, e, step) == Visible(Left(all.messages, b, h), h + 1, e, step)
    ensures OneRead(all, left, b, e, step) && buffer' == InsertAll(buffer, TakenBy(all, b, WindowEnd(b, e, step)))
  {
    var h := WindowEnd(b, e, step);
    ShownSame(LeftBy(all, b, h), left, h + 1, e, step);
  }

  /** A window that does not meet the header, or a reader without messages, changes nothing. */
  lemma UnreadIsRead(all: Source, buffer: seq<Message>, b: nat, e: nat, step: nat)
    requires all.messages == [] || !Meets(all.beginTime, all.endTime, b, WindowEnd(b, e, step))
    ensures OneRead(all, all, b, e, step) && InsertAll(buffer, TakenBy(all, b, WindowEnd(b, e, step))) == buffer
  {
    var h := WindowEnd(b, e, step);
    assert LeftBy(all, b, h) == all && TakenBy(all, b, h) == [];
  }

  ghost function RestsOf(readers: seq<RecordReader>, finished: seq<bool>): (r: seq<Source>)
    requires |finished| == |readers|
    reads readers
    ensures |r| == |readers|
    ensures forall i :: 0 <= i < |readers| ==> r[i] == Rest(readers[i], finished[i])
  {
    seq(|readers|, (i: nat) requires i < |readers| reads readers => Rest(readers[i], finished[i]))
  }

  predicate SortedByHeader(readers: seq<RecordReader>) {
    forall i, j :: 0 <= i < j < |readers| ==> HeaderBefore(readers[i].file, readers[j].file)
  }

  /** Sorts readers by (begin, end) of their headers; the order of equal headers is not fixed. */
  method SortReaders(readers: seq<RecordReader>) returns (sorted: seq<RecordReader>)
    requires forall i, j :: 0 <= i < j < |readers| ==> readers[i] != readers[j]
    ensures multiset(sorted) == multiset(readers) && SortedByHeader(sorted)
    ensures forall i, j :: 0 <= i < j < |sorted| ==> sorted[i] != sorted[j]
    ensures forall r :: r in sorted <==> r in readers
  {
    sorted := [];
    for i := 0 to |readers|
      invariant multiset(sorted) == multiset(readers[..i]) && SortedByHeader(sorted)
      invariant forall r :: r in sorted <==> r in readers[..i]
      invariant forall i, j :: 0 <= i < j < |sorted| ==> sorted[i] != sorted[j]
    {
      assert readers[..i + 1] == readers[..i] + [readers[i]];
      assert readers[i] !in readers[..i];
      sorted := InsertReader(sorted, readers[i]);
    }
    assert readers[..|readers|] == readers;
  }

  method InsertReader(sorted: seq<RecordReader>, reader: RecordReader) returns (r: seq<RecordReader>)
    requires SortedByHeader(sorted) && reader !in sorted
    requires forall i, j :: 0 <= i < j < |sorted| ==> sorted[i] != sorted[j]
    ensures SortedByHeader(r) && multiset(r) == multiset(sorted) + multiset{reader}
    ensures forall x :: x in r <==> x in sorted || x == reader
    ensures forall i, j :: 0 <= i < j < |r| ==> r[i] != r[j]
  {
    var k := 0;
    while k < |sorted| && HeaderBefore(sorted[k].file, reader.file)
      invariant k <= |sorted|
      invariant forall j :: 0 <= j < k ==> HeaderBefore(sorted[j].file, reader.file)
    {
      k := k + 1;
    }
    if k < |sorted| {
      forall j | k <= j < |sorted| ensures HeaderBefore(reader.file, sorted[j].file) {
        assert j == k || HeaderBefore(sorted[k].file, sorted[j].file);
      }
    }
    r := PutAt(sorted, k, reader);
    PutSorted(sorted, k, reader);
  }

  function PutAt(s: seq<RecordReader>, k: nat, x: RecordReader): (r: seq<RecordReader>)
    requires k <= |s|
    ensures |r| == |s| + 1
    ensures forall i :: 0 <= i < |r| ==> r[i] == if i < k then s[i] else if i == k then x else s[i - 1]
    ensures multiset(r) == multiset(s) + multiset{x}
  {
    assert s == s[..k] + s[k..];
    s[..k] + [x] + s[k..]
  }

  lemma PutSorted(s: seq<RecordReader>, k: nat, x: RecordReader)
    requires k <= |s| && SortedByHeader(s) && x !in s
    requires forall i, j :: 0 <= i < j < |s| ==> s[i] != s[j]
    requires forall j :: 0 <= j < k ==> HeaderBefore(s[j].file, x.file)
    requires forall j :: k <= j < |s| ==> HeaderBefore(x.file, s[j].file)
    ensures SortedByHeader(PutAt(s, k, x))
    ensures forall i, j :: 0 <= i < j < |s| + 1 ==> PutAt(s, k, x)[i] != PutAt(s, k, x)[j]
    ensures forall y :: y in PutAt(s, k, x) <==> y in s || y == x
  {
    var r := PutAt(s, k, x);
    forall i, j | 0 <= i < j < |r| ensures HeaderBefore(r[i].file, r[j].file) && r[i] != r[j] {
    }
    forall y | y in s ensures y in r {
      var i :| 0 <= i < |s| && s[i] == y;
      assert r[if i < k then i else i + 1] == y;
    }
    assert r[k] == x;
  }

  function MinBegin(readers: seq<RecordReader>): nat {
    if readers == [] then MAX_TIME
    else
      var k := |readers| - 1;
      var m := MinBegin(readers[..k]);
      if readers[k].file.valid && readers[k].file.beginTime < m then readers[k].file.beginTime else m
  }

  function MaxEnd(readers: seq<RecordReader>): nat {
    if readers == [] then 0
    else
      var k := |readers| - 1;
      var m := MaxEnd(readers[..k]);
      if readers[k].file.valid && readers[k].file.endTime > m then readers[k].file.endTime else m
  }

  function CutBegin(readers: seq<RecordReader>, b: nat): nat {
    if b < MinBegin(readers) then MinBegin(readers) else b
  }

  function CutEnd(readers: seq<RecordReader>, e: nat): nat {
    if e > MaxEnd(readers) then MaxEnd(readers) else e
  }

  /**
    What the range is cut to: its begin is the asked one or, if that is later, the least begin time of
    a valid file, and its end the asked one or, if that is earlier, the greatest end time.  Without a
    valid file nothing is left of it.
  */
  lemma {:induction false} CutRule(readers: seq<RecordReader>, b: nat, e: nat)
    ensures b <= CutBegin(readers, b) && CutEnd(readers, e) <= e
    ensures forall r :: r in readers && r.file.valid ==>
      MinBegin(readers) <= r.file.beginTime && r.file.endTime <= MaxEnd(readers)
    ensures MinBegin(readers) < MAX_TIME ==>
      exists r :: r in readers && r.file.valid && r.file.beginTime == MinBegin(readers)
    ensures MaxEnd(readers) > 0 ==>
      exists r :: r in readers && r.file.valid && r.file.endTime == MaxEnd(readers)
    ensures CutBegin(readers, b) == b || CutBegin(readers, b) == MinBegin(readers)
    ensures CutEnd(readers, e) == e || CutEnd(readers, e) == MaxEnd(readers)
    ensures CutBegin(readers, b) >= MinBegin(readers) && CutEnd(readers, e) <= MaxEnd(readers)
    decreases |readers|
  {
    if readers != [] {
      var k := |readers| - 1;
      assert readers == readers[..k] + [readers[k]];
      CutRule(readers[..k], b, e);
    }
  }

  /** The messages of a file under its header; an invalid file has none. */
  ghost function SourceOf(f: File): Source {
    Source(if f.valid then Contents(f.sections) else [], f.beginTime, f.endTime)
  }

  ghost function FilesOf(readers: seq<RecordReader>): seq<Source> {
    if readers == [] then []
    else
      var k := |readers| - 1;
      FilesOf(readers[..k]) + [SourceOf(readers[k].file)]
  }

  lemma {:induction false} FilesOfAt(readers: seq<RecordReader>)
    ensures |FilesOf(readers)| == |readers|
    ensures forall i :: 0 <= i < |readers| ==> FilesOf(readers)[i] == SourceOf(readers[i].file)
    decreases |readers|
  {
    hide SourceOf;
    if readers != [] {
      FilesOfAt(readers[..|readers| - 1]);
    }
  }

  lemma AllReset(readers: seq<RecordReader>, finished: seq<bool>)
    requires |finished| == |readers| && forall i :: 0 <= i < |readers| ==> !finished[i]
    requires forall i :: 0 <= i < |readers| ==> readers[i].Remaining() == Contents(readers[i].file.sections)
    ensures RestsOf(readers, finished) == FilesOf(readers)
  {
    hide RestsOf, FilesOf, Ahead, Contents;
    FilesOfAt(readers);
    assert forall i :: 0 <= i < |readers| ==> RestsOf(readers, finished)[i] == FilesOf(readers)[i];
  }

  class RecordViewer {
    const channels: set<string>
    const readers: seq<RecordReader>
    var beginTime: nat
    var endTime: nat
    var readersFinished: seq<bool>
    var currBeginTime: nat
    var msgBuffer: seq<Message>   // the multimap, in its order

    ghost predicate ReadersValid()
      reads this, readers
    {
      && (forall i, j :: 0 <= i < j < |readers| ==> readers[i] != readers[j])
      && (forall i :: 0 <= i < |readers| ==> readers[i].Valid())
      && |readersFinished| == |readers|
    }

    ghost predicate Valid()
      reads this, readers
    {
      && ReadersValid()
      && endTime + STEP_TIME_NANOSEC < TWO_64
      && forall m :: m in msgBuffer ==> m.time < currBeginTime
    }

    ghost function Rests(): seq<Source>
      requires |readersFinished| == |readers|
      reads this, readers
    {
      RestsOf(readers, readersFinished)
    }

    /** Everything that is still to come: the buffer, then the sort of what the later windows take. */
    ghost function Owed(): seq<Message>
      requires |readersFinished| == |readers|
      reads this, readers
    {
      msgBuffer + SortByTime(AllShown(Rests(), currBeginTime, endTime, STEP_TIME_NANOSEC))
    }

    /**
      `Init` and `UpdateTime`: sorts the readers by their headers and cuts the range to the times
      that the valid files cover.
    */
    constructor (readers: seq<RecordReader>, beginTime: nat, endTime: nat, channels: set<string>)
      requires forall i, j :: 0 <= i < j < |readers| ==> readers[i] != readers[j]
      requires forall i :: 0 <= i < |readers| ==> readers[i].Valid()
      requires forall i :: 0 <= i < |readers| && readers[i].file.valid ==>
        readers[i].file.endTime + STEP_TIME_NANOSEC < TWO_64
      ensures Valid() && this.channels == channels
      ensures multiset(this.readers) == multiset(readers) && SortedByHeader(this.readers)
      ensures forall r :: r in this.readers <==> r in readers
      ensures this.beginTime == CutBegin(this.readers, beginTime) && this.endTime == CutEnd(this.readers, endTime)
    {
      hide LaidOut, ReadableTail, Ahead, Contents, SortedByHeader, HeaderBefore;
      var sorted := SortReaders(readers);
      var minBeginTime, maxEndTime := MAX_TIME, 0;
      for i := 0 to |sorted|
        invariant minBeginTime == MinBegin(sorted[..i]) && maxEndTime == MaxEnd(sorted[..i])
        invariant maxEndTime + STEP_TIME_NANOSEC < TWO_64
      {
        assert sorted[..i + 1][..i] == sorted[..i];
        var f := sorted[i].file;
        if f.valid {
          assert sorted[i] in sorted && sorted[i] in readers;
          if minBeginTime > f.beginTime {
            minBeginTime := f.beginTime;
          }
          if maxEndTime < f.endTime {
            maxEndTime := f.endTime;
          }
        }
      }
      assert sorted[..|sorted|] == sorted;
      assert forall i :: 0 <= i < |sorted| ==> sorted[i] in readers;
      this.channels := channels;
      this.readers := sorted;
      this.beginTime := if beginTime < minBeginTime then minBeginTime else beginTime;
      this.endTime := if endTime > maxEndTime then maxEndTime else endTime;
      currBeginTime := if beginTime < minBeginTime then minBeginTime else beginTime;
      readersFinished := seq(|sorted|, _ => false);
      msgBuffer := [];
    }

    predicate IsValid()
      reads this
    {
      beginTime <= endTime
    }

    method Reset()
      requires Valid()
      modifies this`msgBuffer, this`currBeginTime, this`readersFinished, readers
      ensures Valid() && msgBuffer == [] && currBeginTime == beginTime && Rests() == FilesOf(readers)
    {
      hide LaidOut, ReadableTail, Ahead, Contents, RestsOf, FilesOf;
      for i := 0 to |readers|
        invariant ReadersValid()
        invariant forall j :: 0 <= j < i ==> readers[j].Remaining() == Contents(readers[j].file.sections)
      {
        readers[i].Reset();
      }
      readersFinished := seq(|readers|, _ => false);
      currBeginTime := beginTime;
      msgBuffer := [];
      AllReset(readers, readersFinished);
    }

    /**
      A full iteration, from `begin()` to `end()`: it hands out the merge of the readers' files,
      whatever state earlier iterations left the viewer in.
    */
    method Iterate() returns (out: seq<Message>)
      requires Valid()
      modifies this`msgBuffer, this`currBeginTime, this`readersFinished, readers
      ensures Valid()
      ensures out == Merged(channels, FilesOf(readers), beginTime, endTime, STEP_TIME_NANOSEC)
      ensures OfChannels(out, channels, Merged({}, FilesOf(readers), beginTime, endTime, STEP_TIME_NANOSEC))
    {
      hide Choose, Merged, OfChannels, FilesOf, RestsOf, Owed, LaidOut, ReadableTail, Ahead, Contents;
      MergeOfChannels(channels, FilesOf(readers), beginTime, endTime, STEP_TIME_NANOSEC);
      Reset();
      AtBegin();
      if IsValid() {
        out := Collect();
      } else {
        out := [];
      }
    }

    /** After `Reset` everything is owed, and nothing when the range is empty. */
    lemma AtBegin()
      requires Valid() && msgBuffer == [] && currBeginTime == beginTime && Rests() == FilesOf(readers)
      ensures Choose(channels, Owed()) == Merged(channels, FilesOf(readers), beginTime, endTime, STEP_TIME_NANOSEC)
      ensures beginTime > endTime ==> Choose(channels, Owed()) == []
    {
      var shown := AllShown(FilesOf(readers), beginTime, endTime, STEP_TIME_NANOSEC);
      assert [] + SortByTime(shown) == SortByTime(shown);
      if beginTime > endTime {
        NothingShownAfterEnd(FilesOf(readers), beginTime, endTime, STEP_TIME_NANOSEC);
      }
    }

    /** The loop of an iteration. */
    method Collect() returns (out: seq<Message>)
      requires Valid()
      modifies this`msgBuffer, this`currBeginTime, this`readersFinished, readers
      ensures Valid() && out == old(Choose(channels, Owed()))
    {
      hide Choose, SortByTime, AllShown, RestsOf, Owed, LaidOut, ReadableTail, Ahead;
      out := [];
      var more, message := Update();
      while more
        invariant Valid()
        invariant old(Choose(channels, Owed())) == out + if more then [message] + Choose(channels, Owed()) else []
        decreases more, |Owed()|
      {
        out := out + [message];
        more, message := Update();
      }
    }

    /** `FillBuffer`, first loop: a reader whose file ends before the window is finished and reset. */
    method FinishReaders(b: nat)
      requires Valid() && b == currBeginTime
      modifies this`readersFinished, readers
      ensures Valid()
      ensures AllShown(Rests(), b, endTime, STEP_TIME_NANOSEC)
           == old(AllShown(Rests(), b, endTime, STEP_TIME_NANOSEC))
    {
      hide Shown, AllShown, RestsOf, LaidOut, ReadableTail, Ahead, Contents;
      ghost var before := Rests();
      for i := 0 to |readers|
        invariant Valid()
        invariant SameShown(before, Rests(), b, endTime, STEP_TIME_NANOSEC)
      {
        if !readersFinished[i] && readers[i].file.endTime < b {
          NothingShown(Rest(readers[i], false), b, endTime, STEP_TIME_NANOSEC);
          NothingShown(Rest(readers[i], true), b, endTime, STEP_TIME_NANOSEC);
          readersFinished := readersFinished[i := true];
          readers[i].Reset();
        }
      }
      SameShownAll(before, Rests(), b, endTime, STEP_TIME_NANOSEC);
    }

    /** `FillBuffer`, second loop: reads the window [b, h] from every reader that is not finished. */
    method ReadWindow(b: nat, h: nat)
      requires Valid() && b == currBeginTime && h == WindowEnd(b, endTime, STEP_TIME_NANOSEC) && b <= endTime
      modifies this`msgBuffer, this`currBeginTime, readers
      ensures Valid() && currBeginTime == h + 1
      ensures msgBuffer == InsertAll(old(msgBuffer), AllTaken(old(Rests()), b, h))
      ensures WindowRead(old(Rests()), Rests(), b, endTime, STEP_TIME_NANOSEC)
    {
      hide LaidOut, ReadableTail, Ahead, Contents, RestsOf, InsertAll, AllTaken, TakenBy, OneRead, InRound, WindowRead;
      ghost var before, buffer := Rests(), msgBuffer;
      FirstRound(before, buffer, b, endTime, STEP_TIME_NANOSEC);
      for i := 0 to |readers|
        invariant ReadersValid()
        invariant InRound(before, Rests(), i, buffer, msgBuffer, b, endTime, STEP_TIME_NANOSEC)
      {
        ghost var now, filled := Rests(), msgBuffer;
        ReadOne(i, b, h);
        NextRound(before, now, i, Rests()[i], buffer, filled, b, endTime, STEP_TIME_NANOSEC);
      }
      LastRound(before, Rests(), buffer, msgBuffer, b, endTime, STEP_TIME_NANOSEC);
      currBeginTime := h + 1;
      InWindow(buffer, before, b, h);
    }

    /**
      `FillBuffer`: reads window after window until the buffer is large enough or the range is used
      up.  The end of a window is computed on 64 bits.
    */
    method FillBuffer() returns (filled: bool)
      requires Valid()
      modifies this`msgBuffer, this`currBeginTime, this`readersFinished, readers
      ensures Valid() && Owed() == old(Owed())
      ensures filled == (msgBuffer != [])
      ensures |msgBuffer| < BUFFER_MIN_SIZE ==> Owed() == msgBuffer
    {
      while currBeginTime <= endTime && |msgBuffer| < BUFFER_MIN_SIZE
        invariant Valid() && Owed() == old(Owed())
        decreases endTime + 1 - currBeginTime
      {
        var thisBeginTime := currBeginTime;
        var thisEndTime := StepEnd(thisBeginTime);
        if thisEndTime > endTime {
          thisEndTime := endTime;
        }
        NextWindow(thisBeginTime, thisEndTime);
      }
      if currBeginTime > endTime {
        NothingShownAfterEnd(Rests(), currBeginTime, endTime, STEP_TIME_NANOSEC);
      }
      filled := msgBuffer != [];
    }

    /** `FillBuffer`, one window. */
    method NextWindow(b: nat, h: nat)
      requires Valid() && b == currBeginTime && h == WindowEnd(b, endTime, STEP_TIME_NANOSEC) && b <= endTime
      modifies this`msgBuffer, this`currBeginTime, this`readersFinished, readers
      ensures Valid() && Owed() == old(Owed()) && currBeginTime == h + 1
    {
      hide InsertAll, SortByTime, AllShown, AllTaken, RestsOf, WindowRead, WindowEnd;
      FinishReaders(b);
      ghost var rests, buffer := Rests(), msgBuffer;
      ReadWindow(b, h);
      OneWindow(buffer, rests, Rests(), b, h, endTime, STEP_TIME_NANOSEC);
    }

    /** Takes the first entry out of the buffer. */
    method PopFirst() returns (m: Message)
      requires Valid() && msgBuffer != []
      modifies this`msgBuffer
      ensures Valid() && [m] + Owed() == old(Owed())
    {
      hide SortByTime, AllShown, RestsOf, LaidOut, ReadableTail, Ahead, Contents;
      ghost var later := SortByTime(AllShown(Rests(), currBeginTime, endTime, STEP_TIME_NANOSEC));
      m := msgBuffer[0];
      msgBuffer := msgBuffer[1..];
      assert old(msgBuffer) == [m] + msgBuffer;
      Associative([m], msgBuffer, later);
    }

    /**
      `Update`: the first message of what is owed that lies on a chosen channel.
    */
    method Update() returns (find: bool, message: Message)
      requires Valid()
      modifies this`msgBuffer, this`currBeginTime, this`readersFinished, readers
      ensures Valid()
      ensures find ==> Choose(channels, old(Owed())) == [message] + Choose(channels, Owed())
                       && |Owed()| < |old(Owed())|
      ensures !find ==> Choose(channels, old(Owed())) == []
    {
      hide Choose, SortByTime, AllShown, RestsOf, Owed, LaidOut, ReadableTail, Ahead;
      find, message := false, Message("", "", 0);
      while !find
        invariant Valid()
        invariant Choose(channels, old(Owed())) == (if find then [message] else []) + Choose(channels, Owed())
        invariant |Owed()| <= |old(Owed())| && (find ==> |Owed()| < |old(Owed())|)
        decreases !find, |Owed()|
      {
        if msgBuffer == [] {
          var filled := FillBuffer();
          if !filled {
            ChooseNothing(channels);
            break;
          }
        }
        var msg := PopFirst();
        ChooseFirst(channels, msg, Owed());
        if Chosen(channels, msg) {
          message := msg;
          find := true;
        }
      }
    }

    /** One round of that loop. */
    method ReadOne(i: nat, b: nat, h: nat)
      requires ReadersValid() && i < |readers| && b <= endTime && h == WindowEnd(b, endTime, STEP_TIME_NANOSEC)
      modifies this`msgBuffer, readers[i]
      ensures ReadersValid()
      ensures msgBuffer == InsertAll(old(msgBuffer), TakenBy(old(Rests()[i]), b, h))
      ensures Rests() == old(Rests())[i := Rests()[i]]
      ensures OneRead(old(Rests()[i]), Rests()[i], b, endTime, STEP_TIME_NANOSEC)
    {
      hide Shown, LeftBy, TakenBy, InsertAll, Contents, Ahead, RestsOf, LaidOut, ReadableTail;
      if readersFinished[i] {
        UnreadIsRead(Rests()[i], msgBuffer, b, endTime, STEP_TIME_NANOSEC);
        return;
      }
      msgBuffer := DrainReader(readers[i], msgBuffer, b, h, endTime, STEP_TIME_NANOSEC);
    }
  }

  lemma OneWindow(buffer: seq<Message>, rests: seq<Source>, rests': seq<Source>,
                  b: nat, h: nat, e: nat, step: nat)
    requires b <= e && h == WindowEnd(b, e, step) && WindowRead(rests, rests', b, e, step)
    requires forall m :: m in buffer ==> m.time < b
    ensures InsertAll(buffer, AllTaken(rests, b, h)) + SortByTime(AllShown(rests', h + 1, e, step))
         == buffer + SortByTime(AllShown(rests, b, e, step))
  {
    assert b <= h;
    hide *;
    SortByWindow(rests, rests', b, e, step);
    InWindow(buffer, rests, b, h);
    Associative(buffer, SortByTime(AllTaken(rests, b, h)), SortByTime(AllShown(rests', h + 1, e, step)));
  }

  lemma Associative(a: seq<Message>, b: seq<Message>, c: seq<Message>)
    ensures (a + b) + c == a + (b + c)
  {
  }

  /** The 64-bit sum; it wraps around only within one step of the top. */
  function StepEnd(b: nat): (r: nat)
    ensures b + STEP_TIME_NANOSEC < TWO_64 ==> r == b + STEP_TIME_NANOSEC
  {
    (b + STEP_TIME_NANOSEC) % TWO_64
  }

  lemma ChooseFirst(channels: set<string>, m: Message, ms: seq<Message>)
    ensures Choose(channels, [m] + ms) == (if Chosen(channels, m) then [m] else []) + Choose(channels, ms)
  {
    ChooseOne(channels, m);
    hide *;
    ChooseConcat(channels, [m], ms);
  }

  lemma ChooseOne(channels: set<string>, m: Message)
    ensures Choose(channels, [m]) == if Chosen(channels, m) then [m] else []
  {
    assert [m][..0] == [];
  }

  /** The first `i` readers have been read for the window, the others still hold what they held. */
  ghost predicate InRound(before: seq<Source>, now: seq<Source>, i: nat,
                          buffer: seq<Message>, filled: seq<Message>, b: nat, e: nat, step: nat)
  {
    && |now| == |before| && i <= |before| && now[i..] == before[i..]
    && WindowRead(before[..i], now[..i], b, e, step)
    && filled == InsertAll(buffer, AllTaken(before[..i], b, WindowEnd(b, e, step)))
  }

  lemma FirstRound(before: seq<Source>, buffer: seq<Message>, b: nat, e: nat, step: nat)
    ensures InRound(before, before, 0, buffer, buffer, b, e, step)
  {
  }

  lemma LastRound(before: seq<Source>, now: seq<Source>, buffer: seq<Message>, filled: seq<Message>,
                  b: nat, e: nat, step: nat)
    requires InRound(before, now, |before|, buffer, filled, b, e, step)
    ensures WindowRead(before, now, b, e, step)
    ensures filled == InsertAll(buffer, AllTaken(before, b, WindowEnd(b, e, step)))
  {
    assert before[..|before|] == before && now[..|before|] == now;
  }

  lemma NextRound(before: seq<Source>, now: seq<Source>, i: nat, rest: Source,
                  buffer: seq<Message>, filled: seq<Message>, b: nat, e: nat, step: nat)
    requires i < |before| && InRound(before, now, i, buffer, filled, b, e, step)
    requires OneRead(now[i], rest, b, e, step)
    ensures InRound(before, now[i := rest], i + 1, buffer,
                    InsertAll(filled, TakenBy(now[i], b, WindowEnd(b, e, step))), b, e, step)
  {
    var h, now' := WindowEnd(b, e, step), now[i := rest];
    assert now[i] == now[i..][0] && before[i] == before[i..][0];
    assert now'[i + 1..] == now[i..][1..] && before[i + 1..] == before[i..][1..];
    assert before[..i + 1][..i] == before[..i] && before[..i + 1][i] == before[i];
    InsertAllConcat(buffer, AllTaken(before[..i], b, h), TakenBy(before[i], b, h));
    var old', new' := before[..i + 1], now'[..i + 1];
    forall j: nat {:trigger new'[j]} | j < i + 1 ensures OneRead(old'[j], new'[j], b, e, step) {
      if j < i {
        assert now[..i][j] == now[j] && before[..i][j] == before[j];
      }
    }
  }

  /** After a window the buffer holds nothing later than its end. */
  lemma InWindow(buffer: seq<Message>, rests: seq<Source>, b: nat, h: nat)
    requires b <= h && forall m :: m in buffer ==> m.time < b
    ensures forall m :: m in InsertAll(buffer, AllTaken(rests, b, h)) ==> m.time < h + 1
    ensures InsertAll(buffer, AllTaken(rests, b, h)) == buffer + SortByTime(AllTaken(rests, b, h))
  {
    var taken := AllTaken(rests, b, h);
    AllTakenInWindow(rests, b, h);
    InsertAllLater(buffer, taken);
    forall m | m in SortByTime(taken) ensures m.time <= h {
      SortedMembers(taken, m);
    }
  }

  ghost predicate SameShown(a: seq<Source>, a': seq<Source>, b: nat, e: nat, step: nat) {
    && |a| == |a'|
    && forall i: nat {:trigger a'[i]} :: i < |a| ==> Shown(a'[i], b, e, step) == Shown(a[i], b, e, step)
  }

  lemma {:induction false} SameShownAll(a: seq<Source>, a': seq<Source>, b: nat, e: nat, step: nat)
    requires SameShown(a, a', b, e, step)
    ensures AllShown(a', b, e, step) == AllShown(a, b, e, step)
    decreases |a|
  {
    hide Shown;
    if a != [] {
      var k := |a| - 1;
      assert forall i: nat {:trigger a'[..k][i]} :: i < k ==> a'[..k][i] == a'[i];
      SameShownAll(a[..k], a'[..k], b, e, step);
      assert Shown(a'[k], b, e, step) == Shown(a[k], b, e, step);
    }
  }

  lemma {:induction false} SameRange(s: seq<Message>, b: nat, e: int, b': nat, e': int)
    requires forall m :: m in s ==> (b <= m.time <= e <==> b' <= m.time <= e')
    ensures InRange(s, b, e) == InRange(s, b', e')
    decreases |s|
  {
    if s != [] {
      assert s[|s| - 1] in s;
      SameRange(s[..|s| - 1], b, e, b', e');
    }
  }

  lemma {:induction false} CoveredByCut(readers: seq<RecordReader>, i: nat)
    requires i < |readers| && readers[i].file.valid
    ensures MinBegin(readers) <= readers[i].file.beginTime && readers[i].file.endTime <= MaxEnd(readers)
    decreases |readers|
  {
    if i < |readers| - 1 {
      CoveredByCut(readers[..|readers| - 1], i);
    }
  }

  lemma FilesOfLast(readers: seq<RecordReader>, n: nat)
    requires 0 < n <= |readers|
    ensures FilesOf(readers[..n]) == FilesOf(readers[..n - 1]) + [SourceOf(readers[n - 1].file)]
  {
    assert readers[..n][..n - 1] == readers[..n - 1];
  }

  lemma AllInRangeLast(files: seq<Source>, src: Source, b: nat, e: nat)
    ensures AllInRange(files + [src], b, e) == AllInRange(files, b, e) + InRange(src.messages, b, e)
  {
    assert (files + [src])[..|files|] == files;
  }

  /** Cutting the range to the times of the headers changes nothing that is in the range, if they cover the files. */
  lemma {:induction false} CutKeepsRange(readers: seq<RecordReader>, n: nat, b: nat, e: nat)
    requires n <= |readers| && forall i :: 0 <= i < |readers| ==> Covers(SourceOf(readers[i].file))
    ensures AllInRange(FilesOf(readers[..n]), CutBegin(readers, b), CutEnd(readers, e))
         == AllInRange(FilesOf(readers[..n]), b, e)
    decreases n
  {
    hide AllInRange, FilesOf, InRange, Contents;
    if n > 0 {
      CutKeepsRange(readers, n - 1, b, e);
      FilesOfLast(readers, n);
      var f := readers[n - 1].file;
      if f.valid {
        CoveredByCut(readers, n - 1);
      }
      SameRange(SourceOf(f).messages, CutBegin(readers, b), CutEnd(readers, e), b, e);
      AllInRangeLast(FilesOf(readers[..n - 1]), SourceOf(f), CutBegin(readers, b), CutEnd(readers, e));
      AllInRangeLast(FilesOf(readers[..n - 1]), SourceOf(f), b, e);
    } else {
      assert readers[..0] == [];
      NoFiles(CutBegin(readers, b), CutEnd(readers, e));
      NoFiles(b, e);
    }
  }

  lemma NoFiles(b: nat, e: nat)
    ensures FilesOf([]) == [] && AllInRange([], b, e) == []
  {
  }

  /**
    A viewer over any readers, whatever their headers say, iterated twice: both iterations hand out
    the same merge of what the files show, in time order.  It holds all messages of the asked range
    on the chosen channels exactly if none of these is cut off, overtaken or shut out by the header of
    its file; with files in order it is the stable sort of that range.
  */
  method IterateTwice(readers: seq<RecordReader>, beginTime: nat, endTime: nat, channels: set<string>)
    returns (viewer: RecordViewer, first: seq<Message>, second: seq<Message>)
    requires forall i, j :: 0 <= i < j < |readers| ==> readers[i] != readers[j]
    requires forall i :: 0 <= i < |readers| ==> readers[i].Valid()
    requires forall i :: 0 <= i < |readers| && readers[i].file.valid ==>
      readers[i].file.endTime + STEP_TIME_NANOSEC < TWO_64
    modifies readers
    ensures multiset(viewer.readers) == multiset(readers) && first == second && Chronological(first)
    ensures viewer.beginTime == CutBegin(viewer.readers, beginTime) && viewer.endTime == CutEnd(viewer.readers, endTime)
    ensures first == Merged(channels, FilesOf(viewer.readers), viewer.beginTime, viewer.endTime, STEP_TIME_NANOSEC)
    ensures OfChannels(first, channels,
                       Merged({}, FilesOf(viewer.readers), viewer.beginTime, viewer.endTime, STEP_TIME_NANOSEC))
    ensures multiset(first) == multiset(Choose(channels, AllInRange(FilesOf(viewer.readers), beginTime, endTime)))
      <==> NothingMissing(channels, FilesOf(viewer.readers), viewer.beginTime, viewer.endTime, STEP_TIME_NANOSEC,
                          beginTime, endTime)
    ensures (forall i :: 0 <= i < |readers| ==> InOrder(SourceOf(readers[i].file))) ==>
      first == Choose(channels, SortByTime(AllInRange(FilesOf(viewer.readers), beginTime, endTime)))
  {
    hide Merged, AllInRange, Choose, SortByTime, NothingMissing, InOrder, SourceOf, FilesOf;
    viewer := new RecordViewer(readers, beginTime, endTime, channels);
    ghost var files, b, e := FilesOf(viewer.readers), viewer.beginTime, viewer.endTime;
    assert forall i :: 0 <= i < |viewer.readers| ==> viewer.readers[i] in readers;
    first := viewer.Iterate();
    second := viewer.Iterate();
    MergeIsSorted(channels, files, b, e, STEP_TIME_NANOSEC);
    MergeIsCompleteIff(channels, files, b, e, STEP_TIME_NANOSEC, beginTime, endTime);
    if forall i :: 0 <= i < |readers| ==> InOrder(SourceOf(readers[i].file)) {
      SortOfFilesInOrder(channels, viewer.readers, b, e, beginTime, endTime);
    }
  }

  lemma {:induction false} FilesInOrder(readers: seq<RecordReader>)
    requires forall i :: 0 <= i < |readers| ==> InOrder(SourceOf(readers[i].file))
    ensures forall i :: 0 <= i < |FilesOf(readers)| ==> InOrder(FilesOf(readers)[i])
    decreases |readers|
  {
    hide InOrder, SourceOf;
    if readers != [] {
      FilesInOrder(readers[..|readers| - 1]);
    }
  }

  lemma SortOfFilesInOrder(channels: set<string>, readers: seq<RecordReader>, b: nat, e: nat, asked: nat, until: nat)
    requires forall i :: 0 <= i < |readers| ==> InOrder(SourceOf(readers[i].file))
    requires b == CutBegin(readers, asked) && e == CutEnd(readers, until)
    ensures Merged(channels, FilesOf(readers), b, e, STEP_TIME_NANOSEC)
      == Choose(channels, SortByTime(AllInRange(FilesOf(readers), asked, until)))
  {
    hide Merged, AllInRange, Choose, SortByTime, SourceOf, FilesOf, CutBegin, CutEnd, Covers, Chronological;
    FilesInOrder(readers);
    MergeOfChronologicalFiles(channels, FilesOf(readers), b, e, STEP_TIME_NANOSEC);
    CutKeepsRange(readers, |readers|, asked, until);
    assert readers[..|readers|] == readers;
  }
}
