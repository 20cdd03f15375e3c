/**
  Record files as cyber/record/file lays them out: a header section with the time bounds of the
  file, then channel sections, pairs of chunk header and chunk body, and at the end an index.
  Offsets and serialisation are not modelled; a position is the number of a section.
*/
module RecordFormat {

  datatype Message = Message(channel: string, content: string, time: nat)

  datatype Section =
    | ChannelSection(name: string, messageType: string, protoDesc: string)
    | ChunkHeader(beginTime: nat, endTime: nat)
    | ChunkBody(messages: seq<Message>)
    | IndexSection
    | UnknownSection

  /** `valid` says that the file opened; the sections are those behind the header section. */
  datatype File = File(valid: bool, beginTime: nat, endTime: nat, sections: seq<Section>)

  /** The messages of the chunk bodies, in file order. */
  function Contents(sections: seq<Section>): seq<Message> {
    if sections == [] then []
    else (if sections[0].ChunkBody? then sections[0].messages else []) + Contents(sections[1..])
  }

  /** A chunk header's bounds hold for the body; an empty body has the bounds of a cleared chunk. */
  ghost predicate Truthful(header: Section, body: Section)
    requires header.ChunkHeader?
  {
    && body.ChunkBody?
    && (forall m :: m in body.messages ==> header.beginTime <= m.time <= header.endTime)
    && (body.messages == [] ==> header.beginTime == 0)
  }

  /** Chunk headers and bodies come in pairs, and nothing follows an index. */
  ghost predicate WellFormed(sections: seq<Section>) {
    sections == [] ||
    match sections[0]
    case ChannelSection(_, _, _) => WellFormed(sections[1..])
    case ChunkHeader(_, _) => |sections| > 1 && Truthful(sections[0], sections[1]) && WellFormed(sections[2..])
    case ChunkBody(_) => false
    case IndexSection => |sections| == 1
    case UnknownSection => false
  }

  /** The file header's bounds hold for every message. */
  ghost predicate Within(messages: seq<Message>, beginTime: nat, endTime: nat) {
    forall m :: m in messages ==> beginTime <= m.time <= endTime
  }

  ghost predicate LaidOut(f: File) {
    f.valid ==> WellFormed(f.sections)
  }

  /** A file whose header covers its messages. */
  ghost predicate Sound(f: File) {
    LaidOut(f) && (f.valid ==> Within(Contents(f.sections), f.beginTime, f.endTime))
  }

  /** A reader reads only for windows that meet the times of the file header. */
  predicate Meets(beginTime: nat, endTime: nat, w: nat, h: nat) {
    w <= endTime && h >= beginTime
  }

  lemma {:induction false} ContentsConcat(a: seq<Section>, b: seq<Section>)
    ensures Contents(a + b) == Contents(a) + Contents(b)
    decreases |a|
  {
    if a == [] {
      assert a + b == b;
    } else {
      assert (a + b)[1..] == a[1..] + b;
      ContentsConcat(a[1..], b);
    }
  }

  /** Messages in non-decreasing time order. */
  ghost predicate Chronological(messages: seq<Message>) {
    forall i, j :: 0 <= i < j < |messages| ==> messages[i].time <= messages[j].time
  }
}
