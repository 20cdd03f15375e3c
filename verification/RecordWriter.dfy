/** The segmenting writer of cyber/record/record_writer.cc.  File operations succeed. */
module RecordWriter {
  import opened RecordFormat
  import opened RecordFileWriter

  /** The limits of the header; zero means no limit. */
  datatype Limits = Limits(segmentInterval: nat, segmentRawSize: nat, chunkInterval: nat, chunkRawSize: nat)

  function Info(types: map<string, string>, descs: map<string, string>,
                      name: string): Section
    requires name in types && name in descs
  {
    ChannelSection(name, types[name], descs[name])
  }

  /** The file announces exactly the channels of `names`, each as it was registered. */
  ghost predicate Announces(sections: seq<Section>, names: set<string>,
                            types: map<string, string>, descs: map<string, string>) {
    && names <= types.Keys && names <= descs.Keys
    && (forall name :: name in names ==> Info(types, descs, name) in sections)
    && Names(sections) == names
  }

  lemma AnnouncesNames(sections: seq<Section>, names: set<string>, types: map<string, string>, descs: map<string, string>)
    requires Announces(sections, names, types, descs)
    ensures names <= types.Keys && names <= descs.Keys && Names(sections) == names
    ensures forall name :: name in names ==> ChannelSection(name, types[name], descs[name]) in sections
  {
  }

  lemma AnnounceNew(sections: seq<Section>, names: set<string>, types: map<string, string>, descs: map<string, string>,
                    name: string, messageType: string, protoDesc: string)
    requires Announces(sections, names, types, descs) && name !in names
    ensures Announces(sections + [ChannelSection(name, messageType, protoDesc)], names + {name},
                      types[name := messageType], descs[name := protoDesc])
  {
    NamesGrow(sections, [ChannelSection(name, messageType, protoDesc)]);
  }

  lemma AnnounceNone(types: map<string, string>, descs: map<string, string>)
    ensures Announces([], {}, types, descs)
  {
  }

  lemma AnnounceKnown(sections: seq<Section>, names: set<string>, types: map<string, string>, descs: map<string, string>,
                      name: string)
    requires Announces(sections, names, types, descs) && name in types && name in descs
    ensures Announces(sections + [Info(types, descs, name)], names + {name}, types, descs)
  {
    NamesGrow(sections, [Info(types, descs, name)]);
  }

  lemma AnnouncesStays(sections: seq<Section>, sections': seq<Section>, names: set<string>,
                       types: map<string, string>, descs: map<string, string>)
    requires Announces(sections, names, types, descs) && sections <= sections' && Names(sections') == Names(sections)
    ensures Announces(sections', names, types, descs)
  {
    forall name | name in names ensures Info(types, descs, name) in sections' {
      assert Info(types, descs, name) in sections;
    }
  }

  /** The messages of the files, one file after the other. */
  function AllContents(segments: seq<File>): seq<Message>
    decreases |segments|
  {
    if segments == [] then []
    else AllContents(segments[..|segments| - 1]) + Contents(segments[|segments| - 1].sections)
  }

  function AllMarks(known: seq<seq<bool>>): seq<bool>
    decreases |known|
  {
    if known == [] then [] else AllMarks(known[..|known| - 1]) + known[|known| - 1]
  }

  /** No proper prefix of `ms` was over a segment limit. */
  ghost predicate WithinLimits(ms: seq<Message>, limits: Limits) {
    forall k :: 0 <= k <= |ms| ==> !Exceeds(ms[..k], limits.segmentInterval, limits.segmentRawSize)
  }

  /** A segment that was closed by a split: the last message brought it over a limit, no earlier one. */
  ghost predicate SplitRight(f: File, limits: Limits) {
    FullSegment(Contents(f.sections), limits)
  }

  ghost predicate FullSegment(ms: seq<Message>, limits: Limits) {
    && ms != [] && Exceeds(ms, limits.segmentInterval, limits.segmentRawSize)
    && WithinLimits(ms[..|ms| - 1], limits)
  }

  /** How messages fall into segments: one is full with the message that brings it over a limit. */
  function Segments(ms: seq<Message>, limits: Limits): (r: seq<seq<Message>>)
    ensures r != []
    decreases |ms|
  {
    if ms == [] then [[]]
    else AddTo(Segments(ms[..|ms| - 1], limits), ms[|ms| - 1], limits)
  }

  function AddTo(segments: seq<seq<Message>>, m: Message, limits: Limits): (r: seq<seq<Message>>)
    requires segments != []
    ensures r != []
  {
    var k := |segments| - 1;
    var current := segments[k] + [m];
    segments[..k] + if Exceeds(current, limits.segmentInterval, limits.segmentRawSize) then [current, []] else [current]
  }

  function Concat(segments: seq<seq<Message>>): seq<Message>
    decreases |segments|
  {
    if segments == [] then [] else Concat(segments[..|segments| - 1]) + segments[|segments| - 1]
  }

  function ContentsOf(files: seq<File>): (r: seq<seq<Message>>)
    ensures |r| == |files|
  {
    if files == [] then [] else ContentsOf(files[..|files| - 1]) + [Contents(files[|files| - 1].sections)]
  }

  /** The last segment is the end of what was written. */
  lemma {:induction false} LastSegmentIsEnd(ms: seq<Message>, limits: Limits)
    ensures var segments := Segments(ms, limits); IsEnd(segments[|segments| - 1], ms)
    decreases |ms|
  {
    if ms != [] {
      var front, m := ms[..|ms| - 1], ms[|ms| - 1];
      LastSegmentIsEnd(front, limits);
      assert ms == front + [m];
      SegmentsNext(front, m, limits);
      AddToLast(Segments(front, limits), m, limits);
      var segments := Segments(front, limits);
      EndOfLonger(segments[|segments| - 1], front, m);
      hide *;
    }
  }

  lemma AddToLast(segments: seq<seq<Message>>, m: Message, limits: Limits)
    requires segments != []
    ensures var r := AddTo(segments, m, limits);
      r[|r| - 1] == [] || r[|r| - 1] == segments[|segments| - 1] + [m]
  {
    hide Exceeds;
  }

  /**
    When a file is split: behind the message that brings its total size over the one limit, or the
    time from its first message over the other, for positive times in order.
  */
  lemma SplitRule(ms: seq<Message>, m: Message, limits: Limits)
    requires Positive(ms + [m]) && Chronological(ms + [m])
    ensures Segments([], limits) == [[]]
    ensures var segments := Segments(ms, limits);
      var k := |segments| - 1;
      var current := segments[k] + [m];
      var split := (limits.segmentInterval > 0 && m.time - current[0].time > limits.segmentInterval)
        || (limits.segmentRawSize > 0 && Raw(current) > limits.segmentRawSize);
      Segments(ms + [m], limits) == segments[..k] + if split then [current, []] else [current]
  {
    var segments := Segments(ms, limits);
    var current := segments[|segments| - 1] + [m];
    SegmentsNext(ms, m, limits);
    LastSegmentIsEnd(ms, limits);
    NoSegments(limits);
    EndOfLonger(segments[|segments| - 1], ms, m);
    EndKeepsOrder(ms + [m], current);
    hide *;
    AddToRule(segments, m, limits);
  }

  lemma AddToRule(segments: seq<seq<Message>>, m: Message, limits: Limits)
    requires segments != []
    requires var current := segments[|segments| - 1] + [m]; Positive(current) && Chronological(current)
    ensures var k := |segments| - 1;
      var current := segments[k] + [m];
      var split := (limits.segmentInterval > 0 && m.time - current[0].time > limits.segmentInterval)
        || (limits.segmentRawSize > 0 && Raw(current) > limits.segmentRawSize);
      AddTo(segments, m, limits) == segments[..k] + if split then [current, []] else [current]
  {
    hide Raw, BeginOf, EndOf, Exceeds, Positive, Chronological;
    ExceedsRule(segments[|segments| - 1] + [m], limits.segmentInterval, limits.segmentRawSize);
  }

  lemma SegmentsNext(ms: seq<Message>, m: Message, limits: Limits)
    ensures Segments(ms + [m], limits) == AddTo(Segments(ms, limits), m, limits)
  {
    assert (ms + [m])[..|ms|] == ms;
  }

  lemma ConcatNext(segments: seq<seq<Message>>, last: seq<Message>)
    ensures Concat(segments + [last]) == Concat(segments) + last
  {
    assert (segments + [last])[..|segments|] == segments;
  }

  /** Full segments and one within the limits are the segments of what they hold together. */
  lemma {:induction false} SegmentsAreUnique(full: seq<seq<Message>>, current: seq<Message>, limits: Limits)
    requires forall i :: 0 <= i < |full| ==> FullSegment(full[i], limits)
    requires WithinLimits(current, limits)
    ensures Segments(Concat(full) + current, limits) == full + [current]
    decreases |full|, |current|
  {
    hide Segments, Concat, Exceeds;
    if current != [] {
      var front, m := current[..|current| - 1], current[|current| - 1];
      assert current == front + [m];
      WithinFront(current, limits);
      SegmentsAreUnique(full, front, limits);
      assert Concat(full) + current == (Concat(full) + front) + [m];
      SegmentsNext(Concat(full) + front, m, limits);
      assert (full + [front])[..|full|] == full;
    } else if full == [] {
      NoSegments(limits);
      assert Concat(full) + current == [] && full + [current] == [[]];
    } else {
      var k := |full| - 1;
      var front, m := full[k][..|full[k]| - 1], full[k][|full[k]| - 1];
      assert full[k] == front + [m] && full == full[..k] + [full[k]];
      SegmentsAreUnique(full[..k], front, limits);
      ConcatNext(full[..k], full[k]);
      assert Concat(full) + current == (Concat(full[..k]) + front) + [m];
      SegmentsNext(Concat(full[..k]) + front, m, limits);
      assert (full[..k] + [front])[..k] == full[..k];
      assert full[..k] + [full[k], []] == full + [[]];
    }
  }

  lemma NoSegments(limits: Limits)
    ensures Segments([], limits) == [[]] && Concat([]) == []
  {
  }

  /** A part of a segment within the limits is within them, and so is the last message. */
  lemma WithinFront(ms: seq<Message>, limits: Limits)
    requires WithinLimits(ms, limits) && ms != []
    ensures WithinLimits(ms[..|ms| - 1], limits)
    ensures !Exceeds(ms, limits.segmentInterval, limits.segmentRawSize)
  {
    var front := ms[..|ms| - 1];
    assert ms[..|ms|] == ms;
    forall k | 0 <= k <= |front| ensures front[..k] == ms[..k] {
    }
  }

  lemma {:induction false} ContentsOfAt(files: seq<File>, i: nat)
    requires i < |files|
    ensures ContentsOf(files)[i] == Contents(files[i].sections)
    ensures Concat(ContentsOf(files)) == AllContents(files)
    decreases |files|
  {
    var k := |files| - 1;
    ConcatNext(ContentsOf(files[..k]), Contents(files[k].sections));
    if k > 0 {
      ContentsOfAt(files[..k], if i < k then i else 0);
    }
  }

  /** The files of a closed recording are the segments of the messages it was given. */
  lemma FilesAreSegments(files: seq<File>, limits: Limits)
    requires files != [] && (forall i :: 0 <= i < |files| - 1 ==> SplitRight(files[i], limits))
    requires WithinLimits(Contents(files[|files| - 1].sections), limits)
    ensures ContentsOf(files) == Segments(AllContents(files), limits)
  {
    hide Segments, Concat, ContentsOf, AllContents, FullSegment, WithinLimits, Contents;
    var k := |files| - 1;
    var parts := ContentsOf(files);
    forall i | 0 <= i < |files| ensures parts[i] == Contents(files[i].sections) {
      ContentsOfAt(files, i);
    }
    ContentsOfAt(files, k);
    assert parts == parts[..k] + [parts[k]];
    ConcatNext(parts[..k], parts[k]);
    SegmentsAreUnique(parts[..k], parts[k], limits);
  }

  /** Ordered messages within the limits: their sizes and the time they span. */
  lemma LimitsHold(ms: seq<Message>, limits: Limits)
    requires WithinLimits(ms, limits) && Positive(ms) && Chronological(ms)
    ensures limits.segmentRawSize > 0 ==> Raw(ms) <= limits.segmentRawSize
    ensures limits.segmentInterval > 0 && ms != [] ==> ms[|ms| - 1].time - ms[0].time <= limits.segmentInterval
  {
    assert ms[..|ms|] == ms;
    assert !Exceeds(ms[..|ms|], limits.segmentInterval, limits.segmentRawSize);
    if ms != [] {
      BoundsOfOrdered(ms);
    }
  }

  lemma WithinNext(ms: seq<Message>, m: Message, limits: Limits)
    requires WithinLimits(ms, limits)
    ensures WithinLimits(ms + [m], limits) <==> !Exceeds(ms + [m], limits.segmentInterval, limits.segmentRawSize)
  {
    var all := ms + [m];
    assert all[..|all|] == all;
    forall k | 0 <= k < |all| ensures all[..k] == ms[..k] {
    }
  }

  class RecordWriter {
    const limits: Limits
    var segmentRawSize: nat
    var segmentBeginTime: nat
    var numbers: map<string, nat>
    var types: map<string, string>
    var descs: map<string, string>
    var fileWriter: RecordFileWriter
    var segments: seq<File>            // the files closed so far
    ghost var known: seq<seq<bool>>    // which of their messages were on a registered channel

    ghost predicate CountersFit()
      reads this`segmentRawSize, this`segmentBeginTime, this`fileWriter, fileWriter
    {
      && segmentRawSize == Raw(fileWriter.Messages())
      && segmentBeginTime == BeginOf(fileWriter.Messages())
      && WithinLimits(fileWriter.Messages(), limits)
    }

    ghost predicate SegmentsFit()
      reads this`segments, this`known
    {
      && |known| == |segments|
      && forall i :: 0 <= i < |segments| ==>
           segments[i].valid && SplitRight(segments[i], limits) && Preceded(segments[i].sections, known[i], {})
           && HeaderExact(segments[i], limits)
    }

    ghost predicate Valid()
      reads this, fileWriter
    {
      && fileWriter.Valid()
      && fileWriter.chunkInterval == limits.chunkInterval && fileWriter.chunkRawSize == limits.chunkRawSize
      && Announces(fileWriter.sections, numbers.Keys, types, descs) && CountersFit() && SegmentsFit()
    }

    /** Everything written so far, in order. */
    ghost function Written(): seq<Message>
      reads this`segments, this`fileWriter, fileWriter
    {
      AllContents(segments) + fileWriter.Messages()
    }

    /** For each of them, whether its channel was registered when it was written. */
    ghost function Marks(): seq<bool>
      reads this`known, this`fileWriter, fileWriter
    {
      AllMarks(known) + fileWriter.known
    }

    constructor (limits: Limits)
      ensures Valid() && fresh(fileWriter) && this.limits == limits
      ensures Written() == [] && Marks() == [] && numbers == map[]
    {
      hide Announces, WithinLimits, Exceeds, Raw, BeginOf, RecordFileWriter.Valid;
      WithinLimitsEmpty(limits);
      AnnounceNone(map[], map[]);
      this.limits := limits;
      segmentRawSize, segmentBeginTime := 0, 0;
      numbers, types, descs := map[], map[], map[];
      fileWriter := new RecordFileWriter(limits.chunkInterval, limits.chunkRawSize);
      segments, known := [], [];
      new;
      assert numbers.Keys == {};
    }

    predicate IsNewChannel(name: string)
      reads this
    {
      name !in numbers
    }

    /** A new channel is remembered and announced in the current file; a known one is left alone. */
    method WriteChannel(name: string, messageType: string, protoDesc: string)
      requires Valid()
      modifies this`numbers, this`types, this`descs, fileWriter
      ensures Valid() && Written() == old(Written()) && Marks() == old(Marks())
      ensures numbers == if name in old(numbers) then old(numbers) else old(numbers)[name := 0]
      ensures name !in old(numbers) ==> types[name] == messageType && descs[name] == protoDesc
      ensures name !in old(numbers) ==> ChannelSection(name, messageType, protoDesc) in fileWriter.sections
    {
      hide Announces, Names, Contents, Exceeds, WithinLimits, SplitRight, HeaderExact, Preceded, Laid,
        Marked, Active, Raw, BeginOf, AllContents;
      if IsNewChannel(name) {
        AnnounceNew(fileWriter.sections, numbers.Keys, types, descs, name, messageType, protoDesc);
        numbers, types, descs := numbers[name := 0], types[name := messageType], descs[name := protoDesc];
        assert numbers.Keys == old(numbers.Keys) + {name};
        fileWriter.WriteChannel(name, messageType, protoDesc);
      }
    }

    /** `SplitOutfile`: starts the next file and announces every known channel in it. */
    method SplitOutfile()
      requires numbers.Keys <= types.Keys && numbers.Keys <= descs.Keys && SegmentsFit()
      modifies this`fileWriter, this`segmentRawSize, this`segmentBeginTime
      ensures Valid() && fresh(fileWriter) && fileWriter.Messages() == [] && fileWriter.known == []
      ensures forall name :: name in numbers ==> ChannelSection(name, types[name], descs[name]) in fileWriter.sections
    {
      hide Announces, Names, Contents, Exceeds, WithinLimits, SplitRight, HeaderExact, Preceded, Laid,
        Marked, Active, Raw, BeginOf, AllContents;
      WithinLimitsEmpty(limits);
      AnnounceNone(types, descs);
      fileWriter := new RecordFileWriter(limits.chunkInterval, limits.chunkRawSize);
      segmentRawSize, segmentBeginTime := 0, 0;
      var names := numbers.Keys;
      assert numbers.Keys - names == {};
      while names != {}
        invariant fileWriter.Valid() && fresh(fileWriter) && fileWriter.Messages() == [] && fileWriter.known == []
        invariant fileWriter.chunkInterval == limits.chunkInterval && fileWriter.chunkRawSize == limits.chunkRawSize
        invariant names <= numbers.Keys && Announces(fileWriter.sections, numbers.Keys - names, types, descs)
        modifies fileWriter
        decreases |names|
      {
        var name :| name in names;
        AnnounceKnown(fileWriter.sections, numbers.Keys - names, types, descs, name);
        fileWriter.WriteChannel(name, types[name], descs[name]);
        assert numbers.Keys - (names - {name}) == (numbers.Keys - names) + {name};
        names := names - {name};
      }
      assert numbers.Keys - {} == numbers.Keys;
      AnnouncesNames(fileWriter.sections, numbers.Keys, types, descs);
    }

    /** The file that is over a limit is closed, and the next one begun. */
    method NextSegment()
      requires fileWriter.Valid() && SegmentsFit()
      requires fileWriter.chunkInterval == limits.chunkInterval && fileWriter.chunkRawSize == limits.chunkRawSize
      requires fileWriter.Messages() != []
      requires Exceeds(fileWriter.Messages(), limits.segmentInterval, limits.segmentRawSize)
      requires WithinLimits(fileWriter.Messages()[..|fileWriter.Messages()| - 1], limits)
      requires numbers.Keys <= types.Keys && numbers.Keys <= descs.Keys
      modifies this`fileWriter, this`segmentRawSize, this`segmentBeginTime, this`segments, this`known, fileWriter
      ensures Valid() && fresh(fileWriter) && Written() == old(Written()) && Marks() == old(Marks())
    {
      hide Announces, Contents, Exceeds, WithinLimits, SplitRight, HeaderExact, Preceded, Laid, Marked, Active, Raw, BeginOf;
      CloseSegment();
      SplitOutfile();
      assert AllContents(segments) + [] == AllContents(segments) && AllMarks(known) + [] == AllMarks(known);
    }

    /** Closes the current file into the list of segments. */
    method CloseSegment()
      requires fileWriter.Valid() && SegmentsFit()
      requires fileWriter.chunkInterval == limits.chunkInterval && fileWriter.chunkRawSize == limits.chunkRawSize
      requires fileWriter.Messages() != []
      requires Exceeds(fileWriter.Messages(), limits.segmentInterval, limits.segmentRawSize)
      requires WithinLimits(fileWriter.Messages()[..|fileWriter.Messages()| - 1], limits)
      modifies this`segments, this`known, fileWriter
      ensures SegmentsFit() && AllContents(segments) == old(Written()) && AllMarks(known) == old(Marks())
    {
      hide Contents, Preceded, Laid, Marked, Active, Raw, BeginOf, WithinLimits, Exceeds, Sound, Chronological, Positive;
      known := known + [fileWriter.known];
      assert known[..|known| - 1] == old(known);
      var file := fileWriter.Close();
      segments := segments + [file];
      assert segments[..|segments| - 1] == old(segments);
    }

    method OnNewMessage(name: string)
      modifies this`numbers
      ensures numbers.Keys == old(numbers.Keys)
      ensures forall c :: c in numbers ==> numbers[c] == old(numbers)[c] + if c == name then 1 else 0
    {
      if name in numbers {
        numbers := numbers[name := numbers[name] + 1];
      }
    }

    /** The counters of the segment after one more message. */
    method AddToSegment(m: Message)
      requires Valid()
      modifies this`segmentRawSize, this`segmentBeginTime, fileWriter
      ensures fileWriter.Valid() && fileWriter.Messages() == old(fileWriter.Messages()) + [m]
      ensures fileWriter.Messages()[..|fileWriter.Messages()| - 1] == old(fileWriter.Messages())
      ensures Written() == old(Written()) + [m] && Marks() == old(Marks()) + [m.channel in numbers]
      ensures Announces(fileWriter.sections, numbers.Keys, types, descs) && SegmentsFit()
      ensures segmentRawSize == Raw(fileWriter.Messages()) && segmentBeginTime == BeginOf(fileWriter.Messages())
      ensures WithinLimits(old(fileWriter.Messages()), limits)
      ensures WithinLimits(fileWriter.Messages(), limits)
         <==> !Exceeds(fileWriter.Messages(), limits.segmentInterval, limits.segmentRawSize)
      ensures Exceeds(fileWriter.Messages(), limits.segmentInterval, limits.segmentRawSize) <==>
        || (limits.segmentInterval > 0 && m.time - segmentBeginTime > limits.segmentInterval)
        || (limits.segmentRawSize > 0 && segmentRawSize > limits.segmentRawSize)
    {
      hide Announces, Names, Contents, WithinLimits, SplitRight, HeaderExact, Preceded, Laid, Marked, Active, Raw, BeginOf,
        SegmentsFit, AllContents, AllMarks, RecordFileWriter.Valid;
      ghost var ms := fileWriter.Messages();
      CountersNext(ms, m);
      WithinNext(ms, m, limits);
      AnnouncesNames(fileWriter.sections, numbers.Keys, types, descs);
      ghost var sections := fileWriter.sections;
      fileWriter.WriteMessage(m);
      AnnouncesStays(sections, fileWriter.sections, numbers.Keys, types, descs);
      segmentRawSize := segmentRawSize + |m.content|;
      if segmentBeginTime == 0 {
        segmentBeginTime := m.time;
      }
      if segmentBeginTime > m.time {
        segmentBeginTime := m.time;
      }
    }

    /** `WriteMessage`: into the current file; a file over a limit is closed and the next one begun. */
    method WriteMessage(m: Message)
      requires Valid()
      modifies this`numbers, this`fileWriter, this`segmentRawSize, this`segmentBeginTime,
        this`segments, this`known, fileWriter
      ensures Valid() && (fileWriter == old(fileWriter) || fresh(fileWriter))
      ensures Written() == old(Written()) + [m] && Marks() == old(Marks()) + [m.channel in old(numbers)]
      ensures numbers.Keys == old(numbers.Keys)
      ensures forall c :: c in numbers ==> numbers[c] == old(numbers)[c] + if c == m.channel then 1 else 0
    {
      hide Announces, Names, Contents, Exceeds, WithinLimits, SplitRight, HeaderExact, Preceded, Laid, Marked, Active, Raw,
        BeginOf, AllContents, AllMarks, RecordFileWriter.Valid, RecordFileWriter.Messages,
        SegmentsFit, Written, Marks;
      AnnouncesNames(fileWriter.sections, numbers.Keys, types, descs);
      OnNewMessage(m.channel);
      AddToSegment(m);
      if (limits.segmentInterval > 0 && m.time - segmentBeginTime > limits.segmentInterval)
         || (limits.segmentRawSize > 0 && segmentRawSize > limits.segmentRawSize)
      {
        NextSegment();
      }
    }

    /**
      `Close`: the last file joins the segments.  One after the other they hold everything that was
      written, in order; every file announces a registered channel before its messages; all but the
      last were split right behind the message that brought them over a limit.
    */
    method Close() returns (files: seq<File>, ghost marks: seq<seq<bool>>)
      requires Valid()
      modifies fileWriter
      ensures AllContents(files) == old(Written()) && AllMarks(marks) == old(Marks())
      ensures |marks| == |files| == |segments| + 1
      ensures forall i :: 0 <= i < |files| ==> Preceded(files[i].sections, marks[i], {})
      ensures forall i :: 0 <= i < |files| ==> files[i].valid && HeaderExact(files[i], limits)
      ensures forall i :: 0 <= i < |files| - 1 ==> SplitRight(files[i], limits)
      ensures WithinLimits(Contents(files[|files| - 1].sections), limits)
      ensures ContentsOf(files) == Segments(old(Written()), limits)
    {
      hide Announces, Contents, Exceeds, WithinLimits, SplitRight, Preceded, Laid, Marked, Active, Raw, BeginOf;
      marks := known + [fileWriter.known];
      var file := fileWriter.Close();
      files := segments + [file];
      assert files[..|segments|] == segments && marks[..|segments|] == known;
      FilesAreSegments(files, limits);
    }
  }

  lemma WithinLimitsEmpty(limits: Limits)
    ensures WithinLimits([], limits) && Raw([]) == 0 && BeginOf([]) == 0
  {
  }

  lemma CountersNext(ms: seq<Message>, m: Message)
    ensures Raw(ms + [m]) == Raw(ms) + |m.content| && BeginOf(ms + [m]) == NextBegin(BeginOf(ms), m.time)
    ensures (ms + [m])[..|ms + [m]| - 1] == ms
  {
    assert (ms + [m])[..|ms|] == ms;
  }

  /** With ordered messages the header of a closed file is right iff its last chunk was not empty. */
  ghost predicate HeaderExact(f: File, limits: Limits) {
    var ms := Contents(f.sections);
    var active := Active(ms, limits.chunkInterval, limits.chunkRawSize);
    Positive(ms) && Chronological(ms) ==>
      LaidOut(f) && (Sound(f) <==> ms == [] || active != []) && CoversUnlessEmptied(f, ms, active)
  }

  // ---------------------------------------------------------------- whole runs

  datatype Call = AddChannel(name: string, messageType: string, protoDesc: string) | AddMessage(message: Message)

  ghost predicate Registered(calls: seq<Call>, name: string) {
    exists i :: 0 <= i < |calls| && calls[i].AddChannel? && calls[i].name == name
  }

  /** How many messages of a channel were written since it was registered. */
  ghost function WrittenSince(calls: seq<Call>, name: string): nat
    decreases |calls|
  {
    if calls == [] then 0
    else
      var k := |calls| - 1;
      WrittenSince(calls[..k], name) +
      if calls[k].AddMessage? && calls[k].message.channel == name && Registered(calls[..k], name) then 1 else 0
  }

  function MessagesOf(calls: seq<Call>): seq<Message>
    decreases |calls|
  {
    if calls == [] then []
    else
      var k := |calls| - 1;
      MessagesOf(calls[..k]) + if calls[k].AddMessage? then [calls[k].message] else []
  }

  lemma CallsNext(calls: seq<Call>, k: nat, name: string)
    requires k < |calls|
    ensures Registered(calls[..k + 1], name) <==>
      Registered(calls[..k], name) || (calls[k].AddChannel? && calls[k].name == name)
    ensures WrittenSince(calls[..k + 1], name) == WrittenSince(calls[..k], name) +
      if calls[k].AddMessage? && calls[k].message.channel == name && Registered(calls[..k], name) then 1 else 0
    ensures MessagesOf(calls[..k + 1]) == MessagesOf(calls[..k]) + if calls[k].AddMessage? then [calls[k].message] else []
    ensures !Registered(calls[..k], name) ==> WrittenSince(calls[..k], name) == 0
  {
    var all := calls[..k + 1];
    assert all[..k] == calls[..k] && all[k] == calls[k];
    if Registered(calls[..k], name) {
      var i :| 0 <= i < k && calls[..k][i].AddChannel? && calls[..k][i].name == name;
      assert all[i] == calls[..k][i];
    }
    NoneWritten(calls[..k], name);
  }

  lemma {:induction false} NoneWritten(calls: seq<Call>, name: string)
    ensures !Registered(calls, name) ==> WrittenSince(calls, name) == 0
    decreases |calls|
  {
    if calls != [] && !Registered(calls, name) {
      var k := |calls| - 1;
      assert forall i :: 0 <= i < k ==> calls[..k][i] == calls[i];
      NoneWritten(calls[..k], name);
    }
  }

  /**
    The writer over any calls: it has written their messages, its channels are the registered ones,
    and the number of each is how many of its messages were written since it was registered.
  */
  method Record(limits: Limits, calls: seq<Call>) returns (writer: RecordWriter)
    ensures fresh(writer) && writer.Valid() && writer.Written() == MessagesOf(calls)
    ensures forall name :: name in writer.numbers <==> Registered(calls, name)
    ensures forall name :: name in writer.numbers ==> writer.numbers[name] == WrittenSince(calls, name)
  {
    hide *;
    writer := new RecordWriter(limits);
    assert calls[..0] == [];
    NothingCalled();
    for k := 0 to |calls|
      invariant fresh(writer) && fresh(writer.fileWriter) && writer.Valid()
      invariant writer.Written() == MessagesOf(calls[..k])
      invariant forall name :: name in writer.numbers <==> Registered(calls[..k], name)
      invariant forall name :: name in writer.numbers ==> writer.numbers[name] == WrittenSince(calls[..k], name)
    {
      forall name
        ensures Registered(calls[..k + 1], name) <==>
          Registered(calls[..k], name) || (calls[k].AddChannel? && calls[k].name == name)
        ensures WrittenSince(calls[..k + 1], name) == WrittenSince(calls[..k], name) +
          if calls[k].AddMessage? && calls[k].message.channel == name && Registered(calls[..k], name) then 1 else 0
        ensures !Registered(calls[..k], name) ==> WrittenSince(calls[..k], name) == 0
      {
        CallsNext(calls, k, name);
      }
      CallsNext(calls, k, "");
      match calls[k] {
        case AddChannel(name, messageType, protoDesc) => writer.WriteChannel(name, messageType, protoDesc);
        case AddMessage(m) => writer.WriteMessage(m);
      }
    }
    assert calls[..|calls|] == calls;
  }

  lemma NothingCalled()
    ensures MessagesOf([]) == [] && forall name :: !Registered([], name)
  {
  }
}
