/** The chunk-wise reader of cyber/record/record_reader.cc over one record file. */
module RecordReader {
  import opened RecordFormat
  import opened WindowScan

  /** The messages of the sections from number `p` on. */
  ghost function Ahead(sections: seq<Section>, p: nat): seq<Message>
    decreases |sections| - p
  {
    if p >= |sections| then []
    else if sections[p].ChunkBody? then sections[p].messages + Ahead(sections, p + 1)
    else Ahead(sections, p + 1)
  }

  /** The sections from number `p` on are laid out as a file's sections are. */
  ghost predicate Readable(sections: seq<Section>, p: nat)
    decreases |sections| - p
  {
    p >= |sections| ||
    match sections[p]
    case ChannelSection(_, _, _) => Readable(sections, p + 1)
    case ChunkHeader(_, _) =>
      p + 1 < |sections| && Truthful(sections[p], sections[p + 1]) && Readable(sections, p + 2)
    case ChunkBody(_) => false
    case IndexSection => p + 1 == |sections|
    case UnknownSection => false
  }

  /** Reading may stand in front of a body whose header was read already. */
  ghost predicate ReadableTail(sections: seq<Section>, p: nat) {
    if p < |sections| && sections[p].ChunkBody? then Readable(sections, p + 1) else Readable(sections, p)
  }

  lemma {:induction false} ReadableIsWellFormed(sections: seq<Section>, p: nat)
    requires p <= |sections|
    ensures Readable(sections, p) <==> WellFormed(sections[p..])
    ensures Ahead(sections, p) == Contents(sections[p..])
    decreases |sections| - p
  {
    if p < |sections| {
      var rest := sections[p..];
      assert rest[0] == sections[p] && rest[1..] == sections[p + 1..];
      ReadableIsWellFormed(sections, p + 1);
      if p + 1 < |sections| {
        assert rest[1] == sections[p + 1] && rest[2..] == sections[p + 2..];
        ReadableIsWellFormed(sections, p + 2);
      }
      assert [] + Contents(rest[1..]) == Contents(rest[1..]);
    }
  }

  lemma {:induction false} SkipAllBefore(a: seq<Message>, s: seq<Message>, b: nat)
    requires forall m :: m in a ==> m.time < b
    ensures SkipBefore(a + s, b) == SkipBefore(s, b)
  {
    if a != [] {
      assert (a + s)[1..] == a[1..] + s;
      SkipAllBefore(a[1..], s, b);
      assert a[0] in a;
    } else {
      assert a + s == s;
    }
  }

  lemma {:induction false} SkipIsSuffix(s: seq<Message>, b: nat)
    ensures SkipBefore(s, b) != [] ==> SkipBefore(s, b)[0].time >= b
    ensures SkipBefore(SkipBefore(s, b), b) == SkipBefore(s, b)
    ensures (forall m :: m in SkipBefore(s, b) ==> m in s) && |SkipBefore(s, b)| <= |s|
  {
    if s != [] {
      SkipIsSuffix(s[1..], b);
    }
  }

  /** No message of the window comes next: nothing is left, or the next message is later. */
  ghost predicate WindowDone(s: seq<Message>, b: nat, e: nat) {
    var r := SkipBefore(s, b);
    r == [] || r[0].time > e
  }

  /**
    The loop of `ReadNextChunk` stands before section `p`: `all` is what lay ahead at first, and
    a body that it is going to skip holds no message of the window.
  */
  ghost predicate AtSection(sections: seq<Section>, p: nat, skip: bool, all: seq<Message>, b: nat) {
    && ReadableTail(sections, p)
    && SkipBefore(Ahead(sections, p), b) == SkipBefore(all, b)
    && (skip ==> p < |sections| && sections[p].ChunkBody? && forall m :: m in sections[p].messages ==> m.time < b)
  }

  /** A truthful header tells whether its body may be skipped or lies behind the window. */
  lemma PassHeader(sections: seq<Section>, p: nat, skip: bool, all: seq<Message>, b: nat, e: nat)
    requires p < |sections| && sections[p].ChunkHeader? && AtSection(sections, p, skip, all, b)
    ensures AtSection(sections, p + 1, sections[p].endTime < b, all, b)
    ensures sections[p].beginTime > e ==> WindowDone(Ahead(sections, p + 1), b, e)
  {
    SkipIsSuffix(Ahead(sections, p + 1), b);
    if sections[p].beginTime > e && b <= e {
      var s := Ahead(sections, p + 1);
      assert s[0] in sections[p + 1].messages;
    }
  }

  lemma PassBody(sections: seq<Section>, p: nat, skip: bool, all: seq<Message>, b: nat)
    requires p < |sections| && sections[p].ChunkBody? && AtSection(sections, p, skip, all, b)
    ensures ReadableTail(sections, p + 1)
    ensures skip ==> AtSection(sections, p + 1, false, all, b)
  {
    if skip {
      SkipAllBefore(sections[p].messages, Ahead(sections, p + 1), b);
    }
  }

  /** Channel sections and the index hold no messages; there is no section of another kind. */
  lemma PassOther(sections: seq<Section>, p: nat, skip: bool, all: seq<Message>, b: nat)
    requires p < |sections| && AtSection(sections, p, skip, all, b)
    ensures !sections[p].UnknownSection?
    ensures sections[p].ChannelSection? || sections[p].IndexSection? ==> AtSection(sections, p + 1, skip, all, b)
    ensures sections[p].IndexSection? ==> Ahead(sections, p + 1) == []
    ensures sections[p].ChunkBody? ==> Ahead(sections, p) == sections[p].messages + Ahead(sections, p + 1)
  {
    if sections[p].ChannelSection? {
      assert Readable(sections, p + 1);
    }
  }

  lemma NothingAhead(sections: seq<Section>, p: nat, b: nat, e: nat)
    ensures p >= |sections| ==> Ahead(sections, p) == []
    ensures Ahead(sections, p) == [] ==> WindowDone(Ahead(sections, p), b, e)
  {
  }

  /** How `ReadMessage` leaves the loop over the current chunk. */
  datatype Outcome = Found(message: Message) | Later | Used

  /** A chunk is skipped first; what lies ahead of it only when the chunk is used up. */
  lemma {:induction false} SkipInFront(a: seq<Message>, ahead: seq<Message>, b: nat)
    ensures SkipBefore(a + ahead, b) ==
      if SkipBefore(a, b) == [] then SkipBefore(ahead, b) else SkipBefore(a, b) + ahead
  {
    if a == [] {
      assert a + ahead == ahead;
    } else {
      assert (a + ahead)[1..] == a[1..] + ahead;
      SkipInFront(a[1..], ahead, b);
    }
  }

  /** One read over the window [b, e] turns what remained, `all`, into `left`. */
  ghost predicate Reads(all: seq<Message>, left: seq<Message>, ok: bool, m: Message, b: nat, e: nat) {
    && ok == !WindowDone(all, b, e)
    && (ok ==> [m] + left == SkipBefore(all, b))
    && (!ok ==> SkipBefore(left, b) == SkipBefore(all, b))
  }

  lemma FoundInChunk(part: seq<Message>, left: seq<Message>, ahead: seq<Message>, m: Message, b: nat, e: nat)
    requires [m] + left == SkipBefore(part, b) && m.time <= e
    ensures Reads(part + ahead, left + ahead, true, m, b, e)
  {
    SkipInFront(part, ahead, b);
    assert ([m] + left) + ahead == [m] + (left + ahead);
  }

  lemma LaterInChunk(part: seq<Message>, left: seq<Message>, ahead: seq<Message>, m: Message, b: nat, e: nat)
    requires left != [] && left[0].time > e && SkipBefore(left, b) == SkipBefore(part, b)
    ensures Reads(part + ahead, left + ahead, false, m, b, e)
  {
    SkipInFront(part, ahead, b);
    SkipInFront(left, ahead, b);
    SkipIsSuffix(part + ahead, b);
  }

  class RecordReader {
    const file: File
    var position: nat          // the section that is read next
    var reachEnd: bool
    var messageIndex: nat
    var chunk: seq<Message>

    /** Everything not handed out or skipped yet. */
    ghost function Remaining(): seq<Message>
      reads this
    {
      (if messageIndex <= |chunk| then chunk[messageIndex..] else []) + Ahead(file.sections, position)
    }

    ghost predicate Valid()
      reads this
    {
      && LaidOut(file)
      && position <= |file.sections| && messageIndex <= |chunk|
      && (file.valid ==> ReadableTail(file.sections, position))
      && (reachEnd ==> Ahead(file.sections, position) == [])
    }

    constructor (file: File)
      requires LaidOut(file)
      ensures Valid() && this.file == file
      ensures Remaining() == Contents(file.sections)
    {
      this.file := file;
      position, reachEnd, messageIndex, chunk := 0, false, 0, [];
      new;
      ReadableIsWellFormed(file.sections, 0);
    }

    method Reset()
      requires LaidOut(file)
      modifies this
      ensures Valid() && Remaining() == Contents(file.sections)
    {
      position, reachEnd, messageIndex, chunk := 0, false, 0, [];
      ReadableIsWellFormed(file.sections, 0);
    }

    /**
      `ReadNextChunk`: loads the next chunk that may hold messages of the window.  It passes over
      whole chunks that end before the window, and gives up at one that begins behind it, with
      the chunk's header already read.
    */
    method ReadNextChunk(beginTime: nat, endTime: nat) returns (ok: bool)
      requires Valid() && file.valid
      modifies this`position, this`reachEnd, this`chunk
      ensures old(position) <= position <= |file.sections|
      ensures ReadableTail(file.sections, position)
      ensures reachEnd ==> Ahead(file.sections, position) == []
      ensures ok ==> old(position) < position && file.sections[position - 1] == ChunkBody(chunk)
      ensures SkipBefore((if ok then chunk else []) + Ahead(file.sections, position), beginTime)
           == SkipBefore(old(Ahead(file.sections, position)), beginTime)
      ensures !ok ==> chunk == old(chunk) && WindowDone(Ahead(file.sections, position), beginTime, endTime)
    {
      hide LaidOut, Readable, ReadableTail, Ahead, SkipBefore, WindowDone;
      ghost var all := Ahead(file.sections, position);
      var skipNextChunkBody := false;
      while !reachEnd
        invariant old(position) <= position <= |file.sections|
        invariant chunk == old(chunk)
        invariant AtSection(file.sections, position, skipNextChunkBody, all, beginTime)
        invariant reachEnd ==> Ahead(file.sections, position) == []
        decreases !reachEnd, |file.sections| - position
      {
        if position == |file.sections| {
          NothingAhead(file.sections, position, beginTime, endTime);
          assert [] + Ahead(file.sections, position) == Ahead(file.sections, position);
          return false;
        }
        PassOther(file.sections, position, skipNextChunkBody, all, beginTime);
        var section := file.sections[position];
        match section
        case IndexSection =>
          position := position + 1;
          reachEnd := true;
        case ChannelSection(_, _, _) =>
          position := position + 1;
        case ChunkHeader(chunkBegin, chunkEnd) =>
          PassHeader(file.sections, position, skipNextChunkBody, all, beginTime, endTime);
          position := position + 1;
          if chunkEnd < beginTime {
            skipNextChunkBody := true;
          }
          if chunkBegin > endTime {
            assert [] + Ahead(file.sections, position) == Ahead(file.sections, position);
            return false;
          }
        case ChunkBody(messages) =>
          PassBody(file.sections, position, skipNextChunkBody, all, beginTime);
          position := position + 1;
          if skipNextChunkBody {
            skipNextChunkBody := false;
          } else {
            chunk := messages;
            return true;
          }
        case UnknownSection =>
          return false;
      }
      NothingAhead(file.sections, position, beginTime, endTime);
      assert [] + Ahead(file.sections, position) == Ahead(file.sections, position);
      ok := false;
    }

    /**
      The loop of `ReadMessage` over the current chunk: it passes messages before the window, hands
      out the first one that is in it, and stops in front of one that is behind it.
    */
    method ReadFromChunk(beginTime: nat, endTime: nat) returns (outcome: Outcome)
      requires messageIndex <= |chunk|
      modifies this`messageIndex
      ensures messageIndex <= |chunk|
      ensures match outcome
        case Found(m) =>
          m.time <= endTime && [m] + chunk[messageIndex..] == SkipBefore(old(chunk[messageIndex..]), beginTime)
        case Later =>
          messageIndex < |chunk| && chunk[messageIndex].time > endTime
          && SkipBefore(chunk[messageIndex..], beginTime) == SkipBefore(old(chunk[messageIndex..]), beginTime)
        case Used =>
          messageIndex == |chunk| && SkipBefore(old(chunk[messageIndex..]), beginTime) == []
    {
      while messageIndex < |chunk|
        invariant messageIndex <= |chunk|
        invariant SkipBefore(chunk[messageIndex..], beginTime) == SkipBefore(old(chunk[messageIndex..]), beginTime)
      {
        var nextMessage := chunk[messageIndex];
        assert chunk[messageIndex..] == [nextMessage] + chunk[messageIndex + 1..];
        if nextMessage.time > endTime {
          return Later;
        }
        messageIndex := messageIndex + 1;
        if nextMessage.time >= beginTime {
          return Found(nextMessage);
        }
      }
      return Used;
    }

    /**
      `ReadMessage` over the closed window.  If the window meets the header's times, it hands out
      the next message that is not before the window when that message is in the window, and
      otherwise keeps everything that is not before the window; if not, it changes nothing.
    */
    method ReadMessage(beginTime: nat, endTime: nat) returns (ok: bool, message: Message)
      requires Valid()
      modifies this
      ensures Valid()
      ensures file.valid && Meets(file.beginTime, file.endTime, beginTime, endTime) ==>
        Reads(old(Remaining()), Remaining(), ok, message, beginTime, endTime)
      ensures !(file.valid && Meets(file.beginTime, file.endTime, beginTime, endTime)) ==>
        !ok && Remaining() == old(Remaining())
      decreases |file.sections| - position
    {
      hide LaidOut, Contents, Ahead, ReadableTail;
      ok, message := false, Message("", "", 0);
      if !file.valid {
        return;
      }
      if beginTime > file.endTime || endTime < file.beginTime {
        return;
      }
      ghost var part, ahead := chunk[messageIndex..], Ahead(file.sections, position);
      var outcome := ReadFromChunk(beginTime, endTime);
      match outcome
      case Found(m) =>
        ok, message := true, m;
        FoundInChunk(part, chunk[messageIndex..], ahead, m, beginTime, endTime);
      case Later =>
        LaterInChunk(part, chunk[messageIndex..], ahead, message, beginTime, endTime);
      case Used =>
        SkipInFront(part, ahead, beginTime);
        assert Remaining() == ahead;
        var loaded := ReadNextChunk(beginTime, endTime);
        if loaded {
          messageIndex := 0;
          assert Remaining() == chunk + Ahead(file.sections, position);
          ok, message := ReadMessage(beginTime, endTime);
        } else {
          assert Remaining() == Ahead(file.sections, position);
        }
    }
  }
}
