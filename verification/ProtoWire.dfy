/** The Protocol Buffers encoding ("Base 128 Varints", "Length-Delimited Records"): the routines that the
    generated message code calls. */
module ProtoWire {
  import opened Bytes

  const MAX_VARINT_BYTES: nat := 10
  const MAX_TAG_BYTES: nat := 5
  const MAX_SIZE: nat := 0x7FFF_FFFF - 16

  datatype Varint = Varint(value: nat, rest: bytes) | NoVarint

  /** Seven bits a byte, least significant group first; the top bit says that more follows. */
  function WriteVarint(v: nat): (s: bytes)
    ensures s != []
  {
    if v < 128 then [v] else [128 + v % 128] + WriteVarint(v / 128)
  }

  /** At most `limit` bytes are read. */
  function ReadVarint(s: bytes, limit: nat): (r: Varint)
    ensures r.Varint? ==> |r.rest| < |s|
  {
    if s == [] || limit == 0 then NoVarint
    else if s[0] < 128 then Varint(s[0], s[1..])
    else
      match ReadVarint(s[1..], limit - 1)
      case NoVarint => NoVarint
      case Varint(high, rest) => Varint(s[0] - 128 + 128 * high, rest)
  }

  /** The bytes a varint of 64 bits takes. */
  function VarintSize(v: nat): nat {
    if v < 0x80 then 1
    else if v < 0x4000 then 2
    else if v < 0x20_0000 then 3
    else if v < 0x1000_0000 then 4
    else if v < 0x8_0000_0000 then 5
    else if v < 0x400_0000_0000 then 6
    else if v < 0x2_0000_0000_0000 then 7
    else if v < 0x100_0000_0000_0000 then 8
    else if v < 0x8000_0000_0000_0000 then 9
    else 10
  }

  lemma {:induction false} VarintSizeIs(v: nat)
    requires v < 0x1_0000_0000_0000_0000
    ensures |WriteVarint(v)| == VarintSize(v)
  {
    if v >= 128 {
      VarintSizeIs(v / 128);
    }
  }

  lemma {:induction false} VarintRoundTrip(v: nat, rest: bytes, limit: nat)
    requires |WriteVarint(v)| <= limit
    ensures ReadVarint(WriteVarint(v) + rest, limit) == Varint(v, rest)
  {
    var s := WriteVarint(v) + rest;
    if v < 128 {
      assert s[1..] == rest;
    } else {
      assert s[1..] == WriteVarint(v / 128) + rest;
      VarintRoundTrip(v / 128, rest, limit - 1);
    }
  }

  // ---- int32: negative values are sign-extended to 64 bits ----

  predicate IsInt32(x: int) {
    -0x8000_0000 <= x < 0x8000_0000
  }

  function SignExtended(x: int): (u: nat)
    requires IsInt32(x)
    ensures u < 0x1_0000_0000_0000_0000
  {
    if x < 0 then x + 0x1_0000_0000_0000_0000 else x
  }

  function WriteInt32(x: int): bytes
    requires IsInt32(x)
  {
    WriteVarint(SignExtended(x))
  }

  function Int32Size(x: int): nat
    requires IsInt32(x)
  {
    if x < 0 then 10 else VarintSize(x)
  }

  lemma Int32RoundTrip(x: int, rest: bytes)
    requires IsInt32(x)
    ensures |WriteInt32(x)| == Int32Size(x)
    ensures var r := ReadVarint(WriteInt32(x) + rest, MAX_VARINT_BYTES);
            r == Varint(SignExtended(x), rest) && ToInt32(r.value) == x
  {
    hide WriteVarint, ReadVarint;
    VarintSizeIs(SignExtended(x));
    VarintRoundTrip(SignExtended(x), rest, MAX_VARINT_BYTES);
    TruncateExtended(x);
  }

  lemma TruncateExtended(x: int)
    requires IsInt32(x)
    ensures ToInt32(SignExtended(x)) == x
  {
  }

  // ---- Length-delimited strings ----

  datatype Chunk = Chunk(text: bytes, rest: bytes) | NoChunk

  function WriteString(s: bytes): bytes {
    WriteVarint(|s|) + s
  }

  function StringSize(s: bytes): nat {
    VarintSize(|s|) + |s|
  }

  function ReadString(s: bytes): (r: Chunk)
    ensures r.Chunk? ==> |r.rest| < |s|
  {
    match ReadVarint(s, MAX_TAG_BYTES)
    case NoVarint => NoChunk
    case Varint(size, rest) =>
      if size > MAX_SIZE || size > |rest| then NoChunk else Chunk(rest[..size], rest[size..])
  }

  lemma StringRoundTrip(s: bytes, rest: bytes)
    requires |s| <= MAX_SIZE
    ensures ReadString(WriteString(s) + rest) == Chunk(s, rest)
    ensures |WriteString(s)| == StringSize(s)
  {
    hide WriteVarint, ReadVarint;
    VarintSizeIs(|s|);
    assert WriteString(s) + rest == WriteVarint(|s|) + (s + rest);
    VarintRoundTrip(|s|, s + rest, MAX_TAG_BYTES);
    assert (s + rest)[..|s|] == s && (s + rest)[|s|..] == rest;
  }

  // ---- Tags ----

  /** A tag is a varint of at most five bytes, kept in 32 bits. */
  function ReadTag(s: bytes): (r: Varint)
    ensures r.Varint? ==> |r.rest| < |s| && r.value < 0x1_0000_0000
  {
    match ReadVarint(s, MAX_TAG_BYTES)
    case NoVarint => NoVarint
    case Varint(tag, rest) => Varint(tag % 0x1_0000_0000, rest)
  }

  lemma OneByteTag(tag: byte, rest: bytes)
    requires tag < 128
    ensures ReadTag([tag] + rest) == Varint(tag, rest)
  {
  }
}
