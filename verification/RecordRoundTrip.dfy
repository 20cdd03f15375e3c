/** Recording and viewing: what the writer splits into segments the viewer merges again. */
module RecordRoundTrip {
  import opened Common
  import opened HeaderGate
  import opened Overtaking
  import opened RecordFileWriter
  import opened RecordFormat
  import opened RecordReader
  import opened RecordViewer
  import opened RecordWriter
  import opened WindowMerge
  import opened WindowScan

  /** The last message of the segment did not fill its chunk, or there is none. */
  predicate LastChunkHolds(ms: seq<Message>, limits: Limits) {
    ms == [] || Active(ms, limits.chunkInterval, limits.chunkRawSize) != []
  }

  predicate LastChunksHold(segments: seq<seq<Message>>, limits: Limits) {
    forall i {:trigger segments[i]} :: 0 <= i < |segments| ==> LastChunkHolds(segments[i], limits)
  }

  /** The messages of the segments whose last chunk holds one. */
  function Held(segments: seq<seq<Message>>, limits: Limits): seq<Message>
    decreases |segments|
  {
    if segments == [] then []
    else Held(segments[..|segments| - 1], limits) + HeldOf(segments[|segments| - 1], limits)
  }

  function HeldOf(ms: seq<Message>, limits: Limits): seq<Message> {
    if LastChunkHolds(ms, limits) then ms else []
  }

  /** Nothing is missing from them exactly if every last chunk holds. */
  lemma {:induction false} HeldIsAllIff(segments: seq<seq<Message>>, limits: Limits)
    ensures multiset(Held(segments, limits)) <= multiset(Concat(segments))
    ensures multiset(Held(segments, limits)) == multiset(Concat(segments)) <==> LastChunksHold(segments, limits)
    decreases |segments|
  {
    hide LastChunkHolds;
    if segments != [] {
      var k := |segments| - 1;
      HeldIsAllIff(segments[..k], limits);
      HeldOfIsAllIff(segments[k], limits);
      LastOfSegments(segments, limits);
      SumOfParts(multiset(Held(segments[..k], limits)), multiset(Concat(segments[..k])),
                 multiset(HeldOf(segments[k], limits)), multiset(segments[k]));
    }
  }

  lemma HeldOfIsAllIff(ms: seq<Message>, limits: Limits)
    ensures multiset(HeldOf(ms, limits)) <= multiset(ms)
    ensures multiset(HeldOf(ms, limits)) == multiset(ms) <==> LastChunkHolds(ms, limits)
  {
    if !LastChunkHolds(ms, limits) {
      assert ms[0] in multiset(ms);
    }
  }

  lemma LastOfSegments(segments: seq<seq<Message>>, limits: Limits)
    requires segments != []
    ensures var k := |segments| - 1; LastChunksHold(segments, limits) <==>
      LastChunksHold(segments[..k], limits) && LastChunkHolds(segments[k], limits)
  {
    hide LastChunkHolds;
    var k := |segments| - 1;
    assert forall i {:trigger segments[..k][i]} :: 0 <= i < k ==> segments[..k][i] == segments[i];
    assert forall i {:trigger segments[i]} :: 0 <= i < k ==> segments[..k][i] == segments[i];
  }

  lemma {:induction false} SegmentOrdered(files: seq<File>, i: nat)
    requires i < |files| && Positive(AllContents(files)) && Chronological(AllContents(files))
    ensures Positive(Contents(files[i].sections)) && Chronological(Contents(files[i].sections))
    ensures forall m :: m in Contents(files[i].sections) ==> m in AllContents(files)
    decreases |files|
  {
    var k := |files| - 1;
    var front, last := AllContents(files[..k]), Contents(files[k].sections);
    ChronologicalParts(front, last);
    assert AllContents(files) == front + last;
    assert forall m :: m in front || m in last ==> m in AllContents(files);
    if i < k {
      SegmentOrdered(files[..k], i);
    }
  }

  /** The header begins at the first message and ends at zero. */
  predicate Emptied(f: File) {
    var ms := Contents(f.sections);
    ms != [] && f.beginTime == ms[0].time && f.endTime == 0
  }

  /** The header of a segment covers its messages iff its last message did not fill a chunk; else it ends at zero. */
  lemma SegmentSoundIff(f: File, limits: Limits)
    requires HeaderExact(f, limits) && Positive(Contents(f.sections)) && Chronological(Contents(f.sections))
    ensures Sound(f) <==> LastChunkHolds(Contents(f.sections), limits)
    ensures !LastChunkHolds(Contents(f.sections), limits) ==> Emptied(f)
  {
  }

  lemma TakenOfOrdered(s: seq<Message>, h: nat)
    requires Chronological(s)
    ensures Taken(s, 0, h) == InRange(s, 0, h)
  {
    VisibleByWindow(s, 0, h, h);
    NothingAfterEnd(Left(s, 0, h), h + 1, h, h);
    ChronologicalIsVisible(s, 0, h, h);
    assert Taken(s, 0, h) + [] == Taken(s, 0, h);
  }

  /**
    What a viewer shows of a segment whose last message filled a chunk, so that by `SegmentSoundIff`
    its header ends at zero: nothing, unless its first window begins at zero and reaches the first message, and then what
    lies in that window.
  */
  lemma EmptiedSegmentIsNotViewed(f: File, b: nat, e: nat, step: nat)
    requires f.valid && Emptied(f)
    requires Positive(Contents(f.sections)) && Chronological(Contents(f.sections))
    ensures var ms, h := Contents(f.sections), WindowEnd(0, e, step);
      Shown(SourceOf(f), b, e, step) == if b == 0 && ms[0].time <= h then InRange(ms, 0, h) else []
  {
    hide Shown, Taken, InRange, LeftBy;
    var src := SourceOf(f);
    var ms := src.messages;
    assert ms[0] in ms && src.endTime == 0;
    if b > 0 {
      NothingShown(src, b, e, step);
    } else {
      var h := WindowEnd(0, e, step);
      ShownByWindow(src, 0, e, step);
      LeftKeepsHeader(src, 0, h);
      NothingShown(LeftBy(src, 0, h), h + 1, e, step);
      TakenOfOrdered(ms, h);
      assert TakenBy(src, 0, h) + [] == TakenBy(src, 0, h);
    }
  }

  lemma LeftKeepsHeader(src: Source, b: nat, h: nat)
    ensures LeftBy(src, b, h).beginTime == src.beginTime && LeftBy(src, b, h).endTime == src.endTime
  {
  }

  /** A segment whose header covers it is shown whole, if the range does not cut it. */
  lemma HeldSegmentIsViewed(f: File, b: nat, e: nat, step: nat)
    requires f.valid && Sound(f) && Chronological(Contents(f.sections))
    requires forall m :: m in Contents(f.sections) ==> b <= m.time <= e
    ensures Shown(SourceOf(f), b, e, step) == Contents(f.sections)
  {
    CoveredIsShown(SourceOf(f), b, e, step);
    ChronologicalIsVisible(Contents(f.sections), b, e, step);
    AllInRangeOf(Contents(f.sections), b, e);
  }

  lemma {:induction false} AllInRangeOf(s: seq<Message>, b: nat, e: nat)
    requires forall m :: m in s ==> b <= m.time <= e
    ensures InRange(s, b, e) == s
    decreases |s|
  {
    if s != [] {
      var k := |s| - 1;
      assert s == s[..k] + [s[k]];
      AllInRangeOf(s[..k], b, e);
    }
  }

  /** Such a segment is easy to get: a single message larger than a chunk. */
  lemma LargeMessageEmptiesChunk(m: Message, limits: Limits)
    requires 0 < limits.chunkRawSize < |m.content|
    ensures Active([m], limits.chunkInterval, limits.chunkRawSize) == []
  {
    assert [m][..0] == [];
    assert Active([], limits.chunkInterval, limits.chunkRawSize) + [m] == [m];
    assert Raw([m]) == Raw([]) + |m.content|;
  }

  lemma {:induction false} ChooseAll(s: seq<Message>)
    ensures Choose({}, s) == s
    decreases |s|
  {
    if s != [] {
      var k := |s| - 1;
      assert s == s[..k] + [s[k]];
      ChooseAll(s[..k]);
    }
  }

  // ---------------------------------------------------------------- the order of the readers

  ghost function ShownOf(reader: RecordReader, b: nat, e: nat): seq<Message> {
    Shown(SourceOf(reader.file), b, e, STEP_TIME_NANOSEC)
  }

  ghost function ShownOfAll(readers: seq<RecordReader>, b: nat, e: nat): seq<Message> {
    AllShown(FilesOf(readers), b, e, STEP_TIME_NANOSEC)
  }

  lemma ShownOfLast(readers: seq<RecordReader>, b: nat, e: nat)
    requires readers != []
    ensures var k := |readers| - 1;
      ShownOfAll(readers, b, e) == ShownOfAll(readers[..k], b, e) + ShownOf(readers[k], b, e)
  {
    hide Shown;
    var k := |readers| - 1;
    var files, src := FilesOf(readers[..k]), SourceOf(readers[k].file);
    assert FilesOf(readers) == files + [src] && (files + [src])[..|files|] == files;
  }

  lemma {:induction false} ShownWithout(readers: seq<RecordReader>, i: nat, b: nat, e: nat)
    requires i < |readers|
    ensures multiset(ShownOfAll(readers, b, e))
         == multiset(ShownOfAll(readers[..i] + readers[i + 1..], b, e)) + multiset(ShownOf(readers[i], b, e))
    decreases |readers|
  {
    hide *;
    var k := |readers| - 1;
    ShownOfLast(readers, b, e);
    if i == k {
      assert readers[..i] + readers[i + 1..] == readers[..k];
    } else {
      var rest := readers[..i] + readers[i + 1..];
      ShownWithout(readers[..k], i, b, e);
      assert rest[..|rest| - 1] == readers[..k][..i] + readers[..k][i + 1..] && rest[|rest| - 1] == readers[k];
      ShownOfLast(rest, b, e);
    }
  }

  /** The order of the readers does not matter to the messages that are shown. */
  lemma {:induction false} ShownOfPermuted(x: seq<RecordReader>, y: seq<RecordReader>, b: nat, e: nat)
    requires multiset(x) == multiset(y)
    ensures multiset(ShownOfAll(x, b, e)) == multiset(ShownOfAll(y, b, e))
    decreases |x|
  {
    hide ShownOfAll, ShownOf;
    assert |x| == |multiset(x)| == |multiset(y)| == |y|;
    if x != [] {
      var k := |x| - 1;
      assert x == x[..k] + [x[k]];
      assert x[k] in multiset(y);
      var i :| 0 <= i < |y| && y[i] == x[k];
      var rest := y[..i] + y[i + 1..];
      assert y == y[..i] + [y[i]] + y[i + 1..];
      assert multiset(x[..k]) == multiset(x) - multiset{x[k]};
      assert multiset(rest) == multiset(y) - multiset{y[i]};
      ShownOfPermuted(x[..k], rest, b, e);
      ShownOfLast(x, b, e);
      ShownWithout(y, i, b, e);
    } else {
      assert y == [];
    }
  }

  // ---------------------------------------------------------------- viewing a recording

  /** Files that a writer closed, of ordered messages with times that leave room for one more window. */
  ghost predicate Recorded(files: seq<File>, limits: Limits) {
    && (forall i :: 0 <= i < |files| ==> files[i].valid && HeaderExact(files[i], limits))
    && Positive(AllContents(files)) && Chronological(AllContents(files))
    && (forall m :: m in AllContents(files) ==> m.time + STEP_TIME_NANOSEC < TWO_64)
  }

  /** The asked range begins before the messages; if it begins at zero, by more than one window. */
  ghost predicate Asked(messages: seq<Message>, beginTime: nat) {
    forall m :: m in messages ==> beginTime <= m.time && (beginTime == 0 ==> m.time > STEP_TIME_NANOSEC)
  }

  ghost predicate ReadersOf(readers: seq<RecordReader>, files: seq<File>) {
    |readers| == |files| && forall i :: 0 <= i < |files| ==> readers[i].file == files[i]
  }

  method OpenSegments(files: seq<File>, ghost limits: Limits) returns (readers: seq<RecordReader>)
    requires Recorded(files, limits)
    ensures ReadersOf(readers, files)
    ensures forall i :: 0 <= i < |readers| ==>
      fresh(readers[i]) && readers[i].Valid() && readers[i].file.endTime + STEP_TIME_NANOSEC < TWO_64
    ensures forall i, j :: 0 <= i < j < |readers| ==> readers[i] != readers[j]
  {
    hide Contents, AllContents, HeaderExact, Positive, Chronological, LaidOut;
    readers := [];
    for i := 0 to |files|
      invariant |readers| == i && forall j :: 0 <= j < i ==> readers[j].file == files[j]
      invariant forall j :: 0 <= j < i ==>
        fresh(readers[j]) && readers[j].Valid() && readers[j].file.endTime + STEP_TIME_NANOSEC < TWO_64
      invariant forall j, k :: 0 <= j < k < i ==> readers[j] != readers[k]
    {
      SegmentCanBeRead(files, i, limits);
      var reader := new RecordReader(files[i]);
      readers := readers + [reader];
    }
  }

  lemma SegmentCanBeRead(files: seq<File>, i: nat, limits: Limits)
    requires i < |files| && HeaderExact(files[i], limits)
    requires Positive(AllContents(files)) && Chronological(AllContents(files))
    requires forall m :: m in AllContents(files) ==> m.time + STEP_TIME_NANOSEC < TWO_64
    ensures LaidOut(files[i]) && files[i].endTime + STEP_TIME_NANOSEC < TWO_64
  {
    SegmentOrdered(files, i);
    var ms := Contents(files[i].sections);
    if ms != [] {
      assert ms[|ms| - 1] in ms;
    }
  }

  /** One segment of a recording, viewed in a range cut to the headers of all of them. */
  lemma SegmentShown(readers: seq<RecordReader>, viewed: seq<RecordReader>, files: seq<File>, i: nat,
                     limits: Limits, beginTime: nat)
    requires Recorded(files, limits) && Asked(AllContents(files), beginTime)
    requires ReadersOf(readers, files) && multiset(viewed) == multiset(readers) && i < |files|
    ensures var b, e := CutBegin(viewed, beginTime), CutEnd(viewed, MAX_TIME);
      Shown(SourceOf(files[i]), b, e, STEP_TIME_NANOSEC) == HeldOf(Contents(files[i].sections), limits)
  {
    hide Shown, Active, Contents, AllContents, MinBegin, MaxEnd, InRange, Chronological;
    var b, e := CutBegin(viewed, beginTime), CutEnd(viewed, MAX_TIME);
    var f, ms := files[i], Contents(files[i].sections);
    SegmentOrdered(files, i);
    SegmentSoundIff(f, limits);
    if LastChunkHolds(ms, limits) {
      assert readers[i] in multiset(viewed);
      var j :| 0 <= j < |viewed| && viewed[j] == readers[i];
      CoveredByCut(viewed, j);
      HeldSegmentIsViewed(f, b, e, STEP_TIME_NANOSEC);
    } else {
      EmptiedSegmentIsNotViewed(f, b, e, STEP_TIME_NANOSEC);
    }
  }

  lemma HeldLast(files: seq<File>, n: nat, limits: Limits)
    requires 0 < n <= |files|
    ensures Held(ContentsOf(files[..n]), limits)
      == Held(ContentsOf(files[..n - 1]), limits) + HeldOf(Contents(files[n - 1].sections), limits)
  {
    assert files[..n][..n - 1] == files[..n - 1];
    var front, last := ContentsOf(files[..n - 1]), Contents(files[n - 1].sections);
    assert ContentsOf(files[..n]) == front + [last] && (front + [last])[..|front|] == front;
  }

  lemma {:induction false} SegmentsShown(readers: seq<RecordReader>, viewed: seq<RecordReader>, files: seq<File>, n: nat,
                                         limits: Limits, beginTime: nat)
    requires Recorded(files, limits) && Asked(AllContents(files), beginTime)
    requires ReadersOf(readers, files) && multiset(viewed) == multiset(readers) && n <= |files|
    ensures ShownOfAll(readers[..n], CutBegin(viewed, beginTime), CutEnd(viewed, MAX_TIME))
      == Held(ContentsOf(files[..n]), limits)
    decreases n
  {
    hide ShownOfAll, Held, HeldOf, Contents, ContentsOf, Recorded, Asked, CutBegin, CutEnd;
    if n > 0 {
      SegmentsShown(readers, viewed, files, n - 1, limits, beginTime);
      SegmentShown(readers, viewed, files, n - 1, limits, beginTime);
      HeldLast(files, n, limits);
      assert readers[..n][..n - 1] == readers[..n - 1];
      ShownOfLast(readers[..n], CutBegin(viewed, beginTime), CutEnd(viewed, MAX_TIME));
    } else {
      assert readers[..0] == [] && files[..0] == [];
      NoneShown(CutBegin(viewed, beginTime), CutEnd(viewed, MAX_TIME), limits);
    }
  }

  lemma NoneShown(b: nat, e: nat, limits: Limits)
    ensures ShownOfAll([], b, e) == [] && Held(ContentsOf([]), limits) == []
  {
  }

  /** Whatever order a viewer has put the readers into, it shows what the held chunks hold. */
  lemma RecordingShown(readers: seq<RecordReader>, viewed: seq<RecordReader>, files: seq<File>,
                       limits: Limits, beginTime: nat)
    requires Recorded(files, limits) && Asked(AllContents(files), beginTime)
    requires ReadersOf(readers, files) && multiset(viewed) == multiset(readers)
    ensures var out := Merged({}, FilesOf(viewed), CutBegin(viewed, beginTime), CutEnd(viewed, MAX_TIME), STEP_TIME_NANOSEC);
      multiset(out) == multiset(Held(ContentsOf(files), limits))
  {
    hide Recorded, Asked, Merged, Held, Contents, ContentsOf, CutBegin, CutEnd, AllShown, FilesOf;
    var b, e := CutBegin(viewed, beginTime), CutEnd(viewed, MAX_TIME);
    SegmentsShown(readers, viewed, files, |files|, limits, beginTime);
    assert readers[..|files|] == readers && files[..|files|] == files;
    ShownOfPermuted(readers, viewed, b, e);
    MergeIsSorted({}, FilesOf(viewed), b, e, STEP_TIME_NANOSEC);
    ChooseAll(AllShown(FilesOf(viewed), b, e, STEP_TIME_NANOSEC));
  }

  /** What a viewer shows of all segments of a recording: those whose last chunk holds, in time order. */
  method ViewSegments(files: seq<File>, ghost limits: Limits, beginTime: nat) returns (out: seq<Message>)
    requires Recorded(files, limits) && Asked(AllContents(files), beginTime)
    ensures multiset(out) == multiset(Held(ContentsOf(files), limits)) && Chronological(out)
  {
    hide Contents, AllContents, HeaderExact, Chronological, AllInRange, FilesOf, Choose, Merged, NothingMissing,
      Recorded, ReadersOf, Asked, Held, ContentsOf, SourceOf, InOrder, CutBegin, CutEnd;
    var readers := OpenSegments(files, limits);
    var viewer, first, second := IterateTwice(readers, beginTime, MAX_TIME, {});
    RecordingShown(readers, viewer.readers, files, limits, beginTime);
    out := first;
  }

  /**
    The round trip: messages with positive, non-decreasing times are written, the recording is
    closed and its segments are viewed.  Exactly the messages of those segments come back, in time
    order, whose last message did not fill a chunk; so all of them do if and only if there is no
    other segment.
  */
  method RecordAndView(messages: seq<Message>, limits: Limits, beginTime: nat) returns (files: seq<File>, out: seq<Message>)
    requires Positive(messages) && Chronological(messages) && Asked(messages, beginTime)
    requires forall m :: m in messages ==> m.time + STEP_TIME_NANOSEC < TWO_64
    ensures AllContents(files) == messages && ContentsOf(files) == Segments(messages, limits)
    ensures multiset(out) == multiset(Held(Segments(messages, limits), limits)) && Chronological(out)
    ensures multiset(out) == multiset(messages) <==> LastChunksHold(Segments(messages, limits), limits)
  {
    hide Contents, AllContents, HeaderExact, LastChunksHold, Positive, Chronological, Preceded, SplitRight, WithinLimits,
      RecordWriter.Valid, RecordWriter.Written, Held, ContentsOf, Segments, Asked, Concat;
    var writer := new RecordWriter(limits);
    for i := 0 to |messages|
      invariant writer.Valid() && fresh(writer) && fresh(writer.fileWriter) && writer.limits == limits
      invariant writer.Written() == messages[..i]
    {
      writer.WriteMessage(messages[i]);
      assert messages[..i + 1] == messages[..i] + [messages[i]];
    }
    assert messages[..|messages|] == messages;
    ghost var marks;
    files, marks := writer.Close();
    out := ViewSegments(files, limits, beginTime);
    HeldIsAllIff(ContentsOf(files), limits);
    ContentsOfAt(files, 0);
  }
}
