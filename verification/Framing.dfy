/**
  Message frames of cyber/message: the fixed header of message_header.h, written into a byte buffer,
  followed by the content; `SerializeToHC` and `ParseFromHC` of message_traits.h for raw messages.
  Bytes are numbers below 256, numbers are written most significant byte first, and sizes that are
  `int` in the original are 32-bit signed here.
*/
module Framing {
  import opened Common
  import Modular

  newtype byte = x: int | 0 <= x < 256

  // The fields of the header, one behind the other.
  const MAGIC_NUM: nat := 0
  const SEQ: nat := 8
  const TIMESTAMP_NS: nat := 16
  const SRC_ID: nat := 24
  const DST_ID: nat := 32
  const MSG_TYPE: nat := 40
  const MSG_TYPE_SIZE: nat := 129
  const CONTENT_SIZE: nat := 188
  const HEADER_SIZE: nat := 192

  // ---------------------------------------------------------------- numbers, highest byte first

  function Encode32(n: nat): (r: seq<byte>)
    requires n < TWO_32
    ensures |r| == 4
  {
    [(n / 0x100_0000) as byte, (n / 0x1_0000 % 256) as byte, (n / 256 % 256) as byte, (n % 256) as byte]
  }

  function Decode32(b: seq<byte>): (n: nat)
    requires |b| == 4
    ensures n < TWO_32
  {
    b[0] as nat * 0x100_0000 + b[1] as nat * 0x1_0000 + b[2] as nat * 256 + b[3] as nat
  }

  function Encode64(n: nat): (r: seq<byte>)
    requires n < TWO_64
    ensures |r| == 8
  {
    Encode32(n / TWO_32) + Encode32(n % TWO_32)
  }

  function Decode64(b: seq<byte>): (n: nat)
    requires |b| == 8
    ensures n < TWO_64
  {
    Decode32(b[..4]) * TWO_32 + Decode32(b[4..])
  }

  lemma DecodeEncoded32(n: nat)
    requires n < TWO_32
    ensures Decode32(Encode32(n)) == n
  {
    var a, b := n / 256, n / 0x1_0000;
    assert n == a * 256 + n % 256;
    Modular.DivModUnique(a, 256, b, a % 256);
    Modular.DivModUnique(b, 256, n / 0x100_0000, b % 256);
  }

  lemma EncodeDecoded32(b: seq<byte>)
    requires |b| == 4
    ensures Encode32(Decode32(b)) == b
  {
    var d := Decode32(b);
    Modular.DivModUnique(d, 256, b[0] as nat * 0x1_0000 + b[1] as nat * 256 + b[2] as nat, b[3] as nat);
    Modular.DivModUnique(d / 256, 256, b[0] as nat * 256 + b[1] as nat, b[2] as nat);
    Modular.DivModUnique(d, 0x1_0000, b[0] as nat * 256 + b[1] as nat, b[2] as nat * 256 + b[3] as nat);
    Modular.DivModUnique(d / 0x1_0000, 256, b[0] as nat, b[1] as nat);
    Modular.DivModUnique(d, 0x100_0000, b[0] as nat, b[1] as nat * 0x1_0000 + b[2] as nat * 256 + b[3] as nat);
  }

  /** `256^k`, for the places of a 64-bit number. */
  function PlaceValue(k: nat): (p: nat)
    ensures p > 0
  {
    if k == 0 then 1 else 256 * PlaceValue(k - 1)
  }

  lemma PlaceValues()
    ensures PlaceValue(1) == 256 && PlaceValue(2) == 0x1_0000 && PlaceValue(3) == 0x100_0000
    ensures PlaceValue(4) == TWO_32 && forall k: nat :: k < 4 ==> PlaceValue(k + 4) == PlaceValue(k) * TWO_32
  {
    assert PlaceValue(2) == 256 * 256 && PlaceValue(3) == 256 * 0x1_0000 && PlaceValue(4) == 256 * 0x100_0000;
    assert PlaceValue(5) == 256 * PlaceValue(4) && PlaceValue(6) == 256 * PlaceValue(5);
    assert PlaceValue(7) == 256 * PlaceValue(6);
  }

  /** The bytes of a number, the most significant one first. */
  lemma BytesOf32(n: nat, i: nat)
    requires n < TWO_32 && i < 4
    ensures Encode32(n)[i] as nat == n / PlaceValue(3 - i) % 256
  {
    PlaceValues();
    assert n / 0x100_0000 < 256;
  }

  lemma BytesOf64(n: nat, i: nat)
    requires n < TWO_64 && i < 8
    ensures Encode64(n)[i] as nat == n / PlaceValue(7 - i) % 256
  {
    PlaceValues();
    var hi, lo := n / TWO_32, n % TWO_32;
    if i < 4 {
      BytesOf32(hi, i);
      DivOfDiv(n, TWO_32, PlaceValue(3 - i));
    } else {
      BytesOf32(lo, i - 4);
      LowDigits(hi, lo, 7 - i);
    }
  }

  lemma DivOfDiv(n: nat, a: nat, b: nat)
    requires a > 0 && b > 0
    ensures a * b > 0 && n / (b * a) == n / a / b
  {
    var q := n / a / b;
    var r := n / a % b;
    assert n == (q * b + r) * a + n % a;
    assert (q * b + r) * a == q * (b * a) + r * a;
    Modular.MulMonotone(r, b - 1, a);
    assert (b - 1) * a == b * a - a;
    Modular.DivModUnique(n, b * a, q, r * a + n % a);
  }

  /** A multiple of 2^32 does not show in the places below. */
  lemma LowDigits(hi: nat, lo: nat, k: nat)
    requires k < 4
    ensures lo / PlaceValue(k) % 256 == (hi * TWO_32 + lo) / PlaceValue(k) % 256
  {
    PlaceValues();
    if k == 0 {
      DigitsBelow(hi, lo, 1, 0x100_0000);
    } else if k == 1 {
      DigitsBelow(hi, lo, 256, 0x1_0000);
    } else if k == 2 {
      DigitsBelow(hi, lo, 0x1_0000, 256);
    } else {
      DigitsBelow(hi, lo, 0x100_0000, 1);
    }
  }

  lemma DigitsBelow(hi: nat, lo: nat, p: nat, c: nat)
    requires p > 0 && (c * 256) * p == TWO_32
    ensures lo / p % 256 == (hi * TWO_32 + lo) / p % 256
  {
    var q, r := lo / p, lo % p;
    assert hi * TWO_32 == (hi * (c * 256)) * p;
    assert hi * TWO_32 + lo == (hi * (c * 256) + q) * p + r;
    Modular.DivModUnique(hi * TWO_32 + lo, p, hi * (c * 256) + q, r);
    assert hi * (c * 256) == (hi * c) * 256;
    Modular.ModShift(q, hi * c, 256);
  }

  /** Numbers and their bytes determine each other. */
  lemma RoundTrip32(n: nat, b: seq<byte>)
    requires n < TWO_32 && |b| == 4
    ensures Decode32(Encode32(n)) == n
    ensures Encode32(Decode32(b)) == b
  {
    DecodeEncoded32(n);
    EncodeDecoded32(b);
  }

  lemma RoundTrip64(n: nat, b: seq<byte>)
    requires n < TWO_64 && |b| == 8
    ensures Decode64(Encode64(n)) == n
    ensures Encode64(Decode64(b)) == b
  {
    var hi, lo := Encode32(n / TWO_32), Encode32(n % TWO_32);
    assert (hi + lo)[..4] == hi && (hi + lo)[4..] == lo;
    RoundTrip32(n / TWO_32, b[..4]);
    RoundTrip32(n % TWO_32, b[4..]);
    Modular.DivModUnique(Decode64(b), TWO_32, Decode32(b[..4]), Decode32(b[4..]));
    assert b == b[..4] + b[4..];
  }

  // ---------------------------------------------------------------- fields in place

  /** `bytes` with the field at `at` replaced by `value`. */
  function Put(bytes: seq<byte>, at: nat, value: seq<byte>): (r: seq<byte>)
    requires at + |value| <= |bytes|
    ensures |r| == |bytes|
  {
    bytes[..at] + value + bytes[at + |value|..]
  }

  function Get(bytes: seq<byte>, at: nat, size: nat): (r: seq<byte>)
    requires at + size <= |bytes|
    ensures |r| == size
  {
    bytes[at..at + size]
  }

  /** A field reads back as written, and no other field changes. */
  lemma PutGet(bytes: seq<byte>, at: nat, value: seq<byte>, other: nat, size: nat)
    requires at + |value| <= |bytes| && other + size <= |bytes|
    ensures Get(Put(bytes, at, value), at, |value|) == value
    ensures other + size <= at || at + |value| <= other ==>
      Get(Put(bytes, at, value), other, size) == Get(bytes, other, size)
  {
  }

  /** `Convert32ToArray`. */
  method Convert32ToArray(input: nat, output: array<byte>, at: nat)
    requires input < TWO_32 && at + 4 <= output.Length
    modifies output
    ensures output[..] == Put(old(output[..]), at, Encode32(input))
  {
    output[at] := (input / 0x100_0000) as byte;
    output[at + 1] := (input / 0x1_0000 % 256) as byte;
    output[at + 2] := (input / 256 % 256) as byte;
    output[at + 3] := (input % 256) as byte;
  }

  /** `Convert64ToArray`: the high half first. */
  method Convert64ToArray(input: nat, output: array<byte>, at: nat)
    requires input < TWO_64 && at + 8 <= output.Length
    modifies output
    ensures output[..] == Put(old(output[..]), at, Encode64(input))
  {
    ghost var before := output[..];
    Convert32ToArray(input / TWO_32, output, at);
    Convert32ToArray(input % TWO_32, output, at + 4);
    PutTwice(before, at, Encode32(input / TWO_32), Encode32(input % TWO_32));
  }

  lemma PutTwice(bytes: seq<byte>, at: nat, a: seq<byte>, b: seq<byte>)
    requires at + |a| + |b| <= |bytes|
    ensures Put(Put(bytes, at, a), at + |a|, b) == Put(bytes, at, a + b)
  {
  }

  /** The type field after `set_msg_type`: cut to 128 bytes, zero behind; an empty name sets nothing. */
  function TypeField(before: seq<byte>, name: seq<byte>): (r: seq<byte>)
    requires |before| == MSG_TYPE_SIZE
    ensures |r| == MSG_TYPE_SIZE
  {
    if name == [] then before
    else if |name| >= MSG_TYPE_SIZE then name[..MSG_TYPE_SIZE - 1] + [0]
    else name + seq(MSG_TYPE_SIZE - |name|, _ => 0)
  }

  /** A zero-terminated string: the bytes before the first zero. */
  function CString(b: seq<byte>): seq<byte> {
    if b == [] || b[0] == 0 then [] else [b[0]] + CString(b[1..])
  }

  lemma {:induction false} CStringOf(name: seq<byte>, tail: seq<byte>)
    requires tail != [] && tail[0] == 0
    ensures 0 !in name ==> CString(name + tail) == name
    ensures 0 in name ==> |CString(name + tail)| < |name|
  {
    if name == [] {
      assert name + tail == tail;
    } else {
      assert (name + tail)[1..] == name[1..] + tail;
      CStringOf(name[1..], tail);
    }
  }

  /** The type name reads back exactly if it fits and holds no zero byte. */
  lemma TypeRoundTrip(before: seq<byte>, name: seq<byte>)
    requires |before| == MSG_TYPE_SIZE && name != []
    ensures forall i :: 0 <= i < MSG_TYPE_SIZE ==>
      TypeField(before, name)[i] == if i < |name| && i < MSG_TYPE_SIZE - 1 then name[i] else 0
    ensures TypeField(before, []) == before
    ensures CString(TypeField(before, name)) == name <==> |name| < MSG_TYPE_SIZE && 0 !in name
    ensures |name| >= MSG_TYPE_SIZE && 0 !in name ==> CString(TypeField(before, name)) == name[..MSG_TYPE_SIZE - 1]
  {
    if |name| < MSG_TYPE_SIZE {
      CStringOf(name, seq(MSG_TYPE_SIZE - |name|, _ => 0 as byte));
    } else {
      CStringOf(name[..MSG_TYPE_SIZE - 1], [0]);
      CStringIsShorter(name[..MSG_TYPE_SIZE - 1] + [0]);
    }
  }

  lemma {:induction false} CStringIsShorter(b: seq<byte>)
    ensures |CString(b)| <= |b| && (b != [] && b[|b| - 1] == 0 ==> |CString(b)| < |b|)
  {
    if b != [] && b[0] != 0 {
      CStringIsShorter(b[1..]);
    }
  }

  /** `set_msg_type`. */
  method SetMsgType(header: array<byte>, name: seq<byte>)
    requires header.Length == HEADER_SIZE
    modifies header
    ensures header[..] == Put(old(header[..]), MSG_TYPE, TypeField(old(Get(header[..], MSG_TYPE, MSG_TYPE_SIZE)), name))
  {
    if |name| == 0 {
      return;
    }
    var realLen := |name|;
    if |name| >= MSG_TYPE_SIZE {
      realLen := MSG_TYPE_SIZE - 1;
    }
    ghost var before := header[..];
    forall i | 0 <= i < MSG_TYPE_SIZE {
      header[MSG_TYPE + i] := 0;
    }
    forall i | 0 <= i < realLen {
      header[MSG_TYPE + i] := name[i];
    }
    assert header[..] == Put(before, MSG_TYPE, TypeField(Get(before, MSG_TYPE, MSG_TYPE_SIZE), name));
  }

  // ---------------------------------------------------------------- the header

  const MAGIC: seq<byte> := [66, 68, 65, 67, 66, 68, 65, 67]   // "BDACBDAC"

  function Zeros(n: nat): (r: seq<byte>)
    ensures |r| == n
  {
    seq(n, _ => 0)
  }

  function FreshHeader(): (r: seq<byte>)
    ensures |r| == HEADER_SIZE
  {
    Put(Zeros(HEADER_SIZE), MAGIC_NUM, MAGIC)
  }

  /** `MessageHeader()`. */
  method NewHeader() returns (header: array<byte>)
    ensures fresh(header) && header[..] == FreshHeader()
  {
    header := new byte[HEADER_SIZE](_ => 0);
    for i := 0 to |MAGIC|
      invariant header[..] == Zeros(HEADER_SIZE)[..MAGIC_NUM] + MAGIC[..i] + Zeros(HEADER_SIZE)[MAGIC_NUM + i..]
    {
      header[MAGIC_NUM + i] := MAGIC[i];
    }
  }

  /** The values a header carries. */
  datatype Values = Values(sequence: nat, timestampNs: nat, srcId: nat, dstId: nat, typeName: seq<byte>, contentSize: nat)

  predicate Fit(v: Values) {
    v.sequence < TWO_64 && v.timestampNs < TWO_64 && v.srcId < TWO_64 && v.dstId < TWO_64
    && v.typeName != [] && v.contentSize < TWO_32
  }

  /** All setters, one after the other. */
  function SetAll(header: seq<byte>, v: Values): (r: seq<byte>)
    requires |header| == HEADER_SIZE && Fit(v)
    ensures |r| == HEADER_SIZE
  {
    var h1 := Put(header, SEQ, Encode64(v.sequence));
    var h2 := Put(h1, TIMESTAMP_NS, Encode64(v.timestampNs));
    var h3 := Put(h2, SRC_ID, Encode64(v.srcId));
    var h4 := Put(h3, DST_ID, Encode64(v.dstId));
    var h5 := Put(h4, MSG_TYPE, TypeField(Get(h4, MSG_TYPE, MSG_TYPE_SIZE), v.typeName));
    Put(h5, CONTENT_SIZE, Encode32(v.contentSize))
  }

  /** Every value survives, whatever the other fields hold, and the magic number stays. */
  lemma HeaderKeepsValues(header: seq<byte>, v: Values)
    requires |header| == HEADER_SIZE && Fit(v)
    ensures var h := SetAll(header, v);
      && Decode64(Get(h, SEQ, 8)) == v.sequence
      && Decode64(Get(h, TIMESTAMP_NS, 8)) == v.timestampNs
      && Decode64(Get(h, SRC_ID, 8)) == v.srcId
      && Decode64(Get(h, DST_ID, 8)) == v.dstId
      && Decode32(Get(h, CONTENT_SIZE, 4)) == v.contentSize
      && (|v.typeName| < MSG_TYPE_SIZE && 0 !in v.typeName ==> CString(Get(h, MSG_TYPE, MSG_TYPE_SIZE)) == v.typeName)
      && Get(h, MAGIC_NUM, 8) == Get(header, MAGIC_NUM, 8)
  {
    hide Put, Get, Encode64, Encode32, Decode64, Decode32, TypeField, CString;
    var h1 := Put(header, SEQ, Encode64(v.sequence));
    var h2 := Put(h1, TIMESTAMP_NS, Encode64(v.timestampNs));
    var h3 := Put(h2, SRC_ID, Encode64(v.srcId));
    var h4 := Put(h3, DST_ID, Encode64(v.dstId));
    var name := TypeField(Get(h4, MSG_TYPE, MSG_TYPE_SIZE), v.typeName);
    var h5 := Put(h4, MSG_TYPE, name);
    forall at: nat, size: nat | at + size <= HEADER_SIZE
      ensures at + size <= SEQ || SEQ + 8 <= at ==> Get(h1, at, size) == Get(header, at, size)
      ensures at + size <= TIMESTAMP_NS || TIMESTAMP_NS + 8 <= at ==> Get(h2, at, size) == Get(h1, at, size)
      ensures at + size <= SRC_ID || SRC_ID + 8 <= at ==> Get(h3, at, size) == Get(h2, at, size)
      ensures at + size <= DST_ID || DST_ID + 8 <= at ==> Get(h4, at, size) == Get(h3, at, size)
      ensures at + size <= MSG_TYPE || MSG_TYPE + MSG_TYPE_SIZE <= at ==> Get(h5, at, size) == Get(h4, at, size)
      ensures at + size <= CONTENT_SIZE ==> Get(SetAll(header, v), at, size) == Get(h5, at, size)
    {
      PutGet(header, SEQ, Encode64(v.sequence), at, size);
      PutGet(h1, TIMESTAMP_NS, Encode64(v.timestampNs), at, size);
      PutGet(h2, SRC_ID, Encode64(v.srcId), at, size);
      PutGet(h3, DST_ID, Encode64(v.dstId), at, size);
      PutGet(h4, MSG_TYPE, name, at, size);
      PutGet(h5, CONTENT_SIZE, Encode32(v.contentSize), at, size);
    }
    PutGet(header, SEQ, Encode64(v.sequence), 0, 0);
    PutGet(h1, TIMESTAMP_NS, Encode64(v.timestampNs), 0, 0);
    PutGet(h2, SRC_ID, Encode64(v.srcId), 0, 0);
    PutGet(h3, DST_ID, Encode64(v.dstId), 0, 0);
    PutGet(h4, MSG_TYPE, name, 0, 0);
    PutGet(h5, CONTENT_SIZE, Encode32(v.contentSize), 0, 0);
    RoundTrip64(v.sequence, MAGIC);
    RoundTrip64(v.timestampNs, MAGIC);
    RoundTrip64(v.srcId, MAGIC);
    RoundTrip64(v.dstId, MAGIC);
    RoundTrip32(v.contentSize, Encode32(v.contentSize));
    TypeRoundTrip(Get(h4, MSG_TYPE, MSG_TYPE_SIZE), v.typeName);
  }

  /** Where the values stand in the header, byte for byte. */
  lemma HeaderLayout(header: seq<byte>, v: Values, i: nat)
    requires |header| == HEADER_SIZE && Fit(v) && i < 8
    ensures var h := SetAll(header, v);
      && h[8 + i] as nat == v.sequence / PlaceValue(7 - i) % 256
      && h[16 + i] as nat == v.timestampNs / PlaceValue(7 - i) % 256
      && h[24 + i] as nat == v.srcId / PlaceValue(7 - i) % 256
      && h[32 + i] as nat == v.dstId / PlaceValue(7 - i) % 256
      && (i < 4 ==> h[188 + i] as nat == v.contentSize / PlaceValue(3 - i) % 256)
  {
    hide Encode64, Encode32, Decode64, Decode32, SetAll, CString, PlaceValue;
    var h := SetAll(header, v);
    HeaderKeepsValues(header, v);
    ByteOfField(h, SEQ, v.sequence, i);
    ByteOfField(h, TIMESTAMP_NS, v.timestampNs, i);
    ByteOfField(h, SRC_ID, v.srcId, i);
    ByteOfField(h, DST_ID, v.dstId, i);
    if i < 4 {
      RoundTrip32(v.contentSize, Get(h, CONTENT_SIZE, 4));
      BytesOf32(v.contentSize, i);
    }
  }

  lemma ByteOfField(h: seq<byte>, at: nat, n: nat, i: nat)
    requires at + 8 <= |h| && n < TWO_64 && i < 8 && Decode64(Get(h, at, 8)) == n
    ensures h[at + i] as nat == n / PlaceValue(7 - i) % 256
  {
    hide Encode64, Decode64, PlaceValue;
    RoundTrip64(n, Get(h, at, 8));
    BytesOf64(n, i);
  }

  // ---------------------------------------------------------------- frames

  /** The header that `SerializeToHC` writes. */
  function FrameHeader(typeName: seq<byte>, size: nat): (r: seq<byte>)
    requires size < TWO_32
    ensures |r| == HEADER_SIZE
  {
    var h := Put(FreshHeader(), MSG_TYPE, TypeField(Get(FreshHeader(), MSG_TYPE, MSG_TYPE_SIZE), typeName));
    Put(h, CONTENT_SIZE, Encode32(size))
  }

  function Frame(typeName: seq<byte>, content: seq<byte>): seq<byte>
    requires |content| < TWO_32
  {
    FrameHeader(typeName, |content|) + content
  }

  /** What `ParseFromHC` makes of a buffer: nothing for a short buffer, a cut frame or no content. */
  function Parse(data: seq<byte>): Option<seq<byte>> {
    if |data| < HEADER_SIZE then None
    else
      var n := Decode32(Get(data, CONTENT_SIZE, 4));
      if |data| - HEADER_SIZE < n || n == 0 then None else Some(Get(data, HEADER_SIZE, n))
  }

  lemma FrameSize(typeName: seq<byte>, content: seq<byte>, tail: seq<byte>)
    requires |content| < TWO_32
    ensures Decode32(Get(Frame(typeName, content) + tail, CONTENT_SIZE, 4)) == |content|
    ensures Get(Frame(typeName, content) + tail, HEADER_SIZE, |content|) == content
  {
    var h := Put(FreshHeader(), MSG_TYPE, TypeField(Get(FreshHeader(), MSG_TYPE, MSG_TYPE_SIZE), typeName));
    PutGet(h, CONTENT_SIZE, Encode32(|content|), 0, 0);
    RoundTrip32(|content|, Encode32(|content|));
    assert Get(Frame(typeName, content) + tail, CONTENT_SIZE, 4) == Get(FrameHeader(typeName, |content|), CONTENT_SIZE, 4);
  }

  /**
    A frame gives back its content, whatever bytes follow it, exactly if the content is not empty;
    a frame that is cut anywhere gives nothing.
  */
  lemma FrameRoundTrip(typeName: seq<byte>, content: seq<byte>, tail: seq<byte>, cut: nat)
    requires |content| < TWO_32
    ensures Parse(Frame(typeName, content) + tail) == if content == [] then None else Some(content)
    ensures cut < |Frame(typeName, content)| ==> Parse(Frame(typeName, content)[..cut]) == None
  {
    FrameSize(typeName, content, tail);
    var frame := Frame(typeName, content);
    if HEADER_SIZE <= cut < |frame| {
      FrameSize(typeName, content, []);
      assert Get(frame[..cut], CONTENT_SIZE, 4) == Get(frame + [], CONTENT_SIZE, 4);
    }
  }

  /** A size as the original passes it, a 32-bit signed integer. */
  predicate IsInt(size: int) {
    -TWO_31 <= size < TWO_31
  }

  /**
    `SerializeToHC` of a raw message into the first `size` bytes of a buffer that can hold at least
    the header.  A content whose size is negative as an int writes nothing; otherwise the header is
    written in any case, and the content if it fits.
  */
  method SerializeToHC(typeName: seq<byte>, content: seq<byte>, data: array<byte>, size: int) returns (ok: bool)
    requires |content| < TWO_32 && HEADER_SIZE <= data.Length && IsInt(size) && size <= data.Length
    modifies data
    ensures ok <==> HEADER_SIZE + |content| <= size
    ensures ok ==> data[..] == Put(old(data[..]), 0, Frame(typeName, content))
    ensures !ok && |content| < TWO_31 ==> data[..] == Put(old(data[..]), 0, FrameHeader(typeName, |content|))
    ensures |content| >= TWO_31 ==> data[..] == old(data[..])
  {
    hide FrameHeader, FreshHeader, TypeField, Encode32;
    var msgSize := ToInt32(|content|);
    NegativeInt(|content|);
    if msgSize < 0 {
      return false;
    }
    var header := NewHeader();
    SetMsgType(header, typeName);
    Convert32ToArray(|content|, header, CONTENT_SIZE);
    FrameHeaderIs(typeName, |content|);
    forall i | 0 <= i < HEADER_SIZE {
      data[i] := header[i];
    }
    if size < HEADER_SIZE || size - HEADER_SIZE < |content| {
      return false;
    }
    forall i | 0 <= i < |content| {
      data[HEADER_SIZE + i] := content[i];
    }
    return true;
  }

  lemma FrameHeaderIs(typeName: seq<byte>, size: nat)
    requires size < TWO_32
    ensures FrameHeader(typeName, size) ==
      Put(Put(FreshHeader(), MSG_TYPE, TypeField(Get(FreshHeader(), MSG_TYPE, MSG_TYPE_SIZE), typeName)),
          CONTENT_SIZE, Encode32(size))
  {
  }

  lemma NegativeInt(n: nat)
    requires n < TWO_32
    ensures ToInt32(n) < 0 <==> n >= TWO_31
  {
    Modular.DivModUnique(n, TWO_32, 0, n);
  }

  function AtLeastZero(size: int): nat {
    if size < 0 then 0 else size
  }

  /** `ParseFromHC` into a raw message. */
  method ParseFromHC(data: array<byte>, size: int) returns (ok: bool, message: seq<byte>)
    requires IsInt(size) && size <= data.Length
    ensures var received := data[..AtLeastZero(size)];
      if ok then Parse(received) == Some(message) else Parse(received) == None
  {
    ok, message := false, [];
    if size < HEADER_SIZE {
      return;
    }
    GetOfArray(data, size, CONTENT_SIZE, 4);
    var contentSize := Decode32(data[CONTENT_SIZE..CONTENT_SIZE + 4]);
    if size - HEADER_SIZE < contentSize {
      return;
    }
    if contentSize == 0 {
      return;
    }
    message := data[HEADER_SIZE..HEADER_SIZE + contentSize];
    GetOfArray(data, size, HEADER_SIZE, contentSize);
    ok := true;
  }

  lemma GetOfArray(data: array<byte>, size: nat, at: nat, n: nat)
    requires at + n <= size <= data.Length
    ensures Get(data[..size], at, n) == data[at..at + n]
  {
  }

  /** The two together: sent in `size` bytes, received in `received` bytes of the same buffer. */
  method SendAndReceive(typeName: seq<byte>, content: seq<byte>, data: array<byte>, size: int, received: int)
    returns (sent: bool, ok: bool, message: seq<byte>)
    requires |content| < TWO_32 && HEADER_SIZE <= data.Length
    requires IsInt(size) && size <= data.Length && IsInt(received) && received <= data.Length
    modifies data
    ensures sent <==> HEADER_SIZE + |content| <= size
    ensures sent && HEADER_SIZE + |content| <= received ==> (ok <==> content != []) && (ok ==> message == content)
    ensures sent && received < HEADER_SIZE + |content| ==> !ok
  {
    hide Parse, FrameHeader;
    ghost var before := data[..];
    sent := SerializeToHC(typeName, content, data, size);
    ok, message := ParseFromHC(data, received);
    if sent {
      ghost var frame := Frame(typeName, content);
      ghost var rest := before[|frame|..];
      ghost var n := AtLeastZero(received);
      TakeOfPut(before, frame, n);
      assert data[..n] == data[..][..n];
      FrameRoundTrip(typeName, content, rest[..if n < |frame| then 0 else n - |frame|], n);
    }
  }

  lemma TakeOfPut(before: seq<byte>, frame: seq<byte>, n: nat)
    requires |frame| <= |before| && n <= |before|
    ensures Put(before, 0, frame)[..n] ==
      if n < |frame| then frame[..n] else frame + before[|frame|..][..n - |frame|]
  {
  }
}
