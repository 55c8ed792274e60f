/** The 24-byte message header, and a header with a login body behind it. */
module Frame {
  import opened Bytes
  import opened ProtoLogin

  type u16 = x: int | 0 <= x < 0x1_0000
  type u32 = x: int | 0 <= x < 0x1_0000_0000
  type u64 = x: int | 0 <= x < 0x1_0000_0000_0000_0000

  const HEAD_TAG_POS: nat := 0
  const HEAD_VERSION_POS: nat := 2
  const HEAD_TYPER_POS: nat := 3
  const HEAD_LEN_POS: nat := 4
  const HEAD_MSG_ID_POS: nat := 6
  const HEAD_MSG_SN_POS: nat := 8
  const HEAD_MSG_PRIORITY: nat := 16
  const HEAD_MSG_RSV1: nat := 20
  const BODY_MSG_POS: nat := 24

  const BUFFER_SIZE: nat := 1024
  const PB_PROTOCAL_TYPE: byte := 1
  const REQ_NODE_LOGIN: u16 := 101

  datatype Head = Head(tag: u16, version: byte, kind: byte, len: u16, msgId: u16, msgSn: u64, priority: u32,
                       reserved: u32)

  // ---- What stands in the buffer, and what is read back ----

  /** Two bytes in network order. */
  function ShortBytes(v: u16): (s: bytes)
    ensures |s| == 2
  {
    [v / 256, v % 256]
  }

  /** A 16-bit word as x86 loads it. */
  function Word(low: byte, high: byte): u16 {
    var h: int := high;
    h * 256 + low
  }

  function Short(s: bytes): u16
    requires |s| == 2
  {
    Word(s[1], s[0])
  }

  function LittleEndian(v: nat, n: nat): (s: bytes)
    ensures |s| == n
  {
    if n == 0 then [] else [v % 256] + LittleEndian(v / 256, n - 1)
  }

  /** A 32-bit field keeps the low 16 bits of its value only, in its first two bytes. */
  function IntBytes(v: u32): (s: bytes)
    ensures |s| == 4
  {
    ShortBytes(v % 0x1_0000) + [0, 0]
  }

  /** The 64-bit field ends up holding the upper half of its value, lowest byte first. */
  function LongBytes(v: u64): (s: bytes)
    ensures |s| == 8
  {
    LittleEndian(v / 0x1_0000_0000, 8)
  }

  function HeadBytes(h: Head): (s: bytes)
    ensures |s| == BODY_MSG_POS
  {
    ShortBytes(h.tag) + [h.version, h.kind] + ShortBytes(h.len) + ShortBytes(h.msgId)
    + LongBytes(h.msgSn) + IntBytes(h.priority) + IntBytes(h.reserved)
  }

  function ReadShort(b: bytes, offset: nat): u16
    requires offset + 2 <= |b|
  {
    Short(b[offset..offset + 2])
  }

  /** `ntohs` on 32 bits looks at the first two bytes only. */
  function ReadLong(b: bytes, offset: nat): u64
    requires offset + 8 <= |b|
  {
    ReadShort(b, offset) * 0x1_0000_0000 + ReadShort(b, offset + 4)
  }

  function DecodedHead(b: bytes): Head
    requires |b| >= BODY_MSG_POS
  {
    Head(ReadShort(b, HEAD_TAG_POS), b[HEAD_VERSION_POS], b[HEAD_TYPER_POS], ReadShort(b, HEAD_LEN_POS),
         ReadShort(b, HEAD_MSG_ID_POS), ReadLong(b, HEAD_MSG_SN_POS), ReadShort(b, HEAD_MSG_PRIORITY),
         ReadShort(b, HEAD_MSG_RSV1))
  }

  /** Swapping the two bytes of a 16-bit number. */
  function Swapped(v: u16): u16 {
    v % 256 * 256 + v / 256
  }

  /** What the receiver sees of a header. */
  function Received(h: Head): Head {
    h.(msgSn := Swapped(h.msgSn / 0x1_0000_0000 % 0x1_0000) * 0x1_0000_0000,
       priority := h.priority % 0x1_0000,
       reserved := h.reserved % 0x1_0000)
  }

  // ---- Laws ----

  lemma ShortRoundTrip(v: u16)
    ensures Short(ShortBytes(v)) == v
  {
  }

  lemma Quotient(n: nat, d: nat, q: nat, r: nat)
    requires d in {256, 0x1_0000, 0x100_0000} && n == d * q + r && r < d
    ensures n / d == q && n % d == r
  {
  }

  lemma LowBytes(h: nat)
    ensures var v: u16 := h % 0x1_0000; Swapped(v) == h % 256 * 256 + h / 256 % 256
  {
    var g, b := h / 256, h % 256;
    var q, a := g / 256, g % 256;
    var v := 256 * a + b;
    assert h == 256 * g + b && g == 256 * q + a;
    Quotient(h, 0x1_0000, q, v);
    Quotient(v, 256, a, b);
  }

  lemma LongRoundTrip(v: u64)
    ensures ReadLong(LongBytes(v), 0) == Swapped(v / 0x1_0000_0000 % 0x1_0000) * 0x1_0000_0000
  {
    hide Swapped, LittleEndian;
    var h := v / 0x1_0000_0000;
    var s := LongBytes(v);
    LittleEndianAt(h);
    assert s[0..2] == [s[0], s[1]] && s[4..6] == [s[4], s[5]];
    LowBytes(h);
  }

  lemma LittleEndianAt(h: nat)
    requires h < 0x1_0000_0000
    ensures var s := LittleEndian(h, 8); s[0] == h % 256 && s[1] == h / 256 % 256 && s[4] == s[5] == 0
  {
    var s := LittleEndian(h, 8);
    var h1 := h / 256;
    var h2 := h1 / 256;
    var h3 := h2 / 256;
    var h4 := h3 / 256;
    assert h4 == 0;
    assert s == [h % 256] + LittleEndian(h1, 7);
    assert LittleEndian(h1, 7) == [h1 % 256] + LittleEndian(h2, 6);
    assert LittleEndian(h2, 6) == [h2 % 256] + LittleEndian(h3, 5);
    assert LittleEndian(h3, 5) == [h3 % 256] + LittleEndian(h4, 4);
    assert LittleEndian(h4, 4) == [0] + LittleEndian(0, 3);
    assert LittleEndian(0, 3) == [0] + LittleEndian(0, 2);
  }

  lemma FieldAt(b: bytes, offset: nat, s: bytes)
    requires At(b, offset, s) && |s| >= 2
    ensures ReadShort(b, offset) == Short(s[..2])
  {
    assert b[offset..offset + 2] == b[offset..offset + |s|][..2];
  }

  lemma LongAt(b: bytes, offset: nat, s: bytes)
    requires At(b, offset, s) && |s| == 8
    ensures ReadLong(b, offset) == ReadLong(s, 0)
  {
    assert b[offset..offset + 2] == b[offset..offset + 8][0..2];
    assert b[offset + 4..offset + 6] == b[offset..offset + 8][4..6];
  }

  /** Where each field of the header stands. */
  lemma HeadFields(b: bytes, h: Head)
    requires |b| >= BODY_MSG_POS && b[..BODY_MSG_POS] == HeadBytes(h)
    ensures At(b, HEAD_TAG_POS, ShortBytes(h.tag)) && b[HEAD_VERSION_POS] == h.version && b[HEAD_TYPER_POS] == h.kind
    ensures At(b, HEAD_LEN_POS, ShortBytes(h.len)) && At(b, HEAD_MSG_ID_POS, ShortBytes(h.msgId))
    ensures At(b, HEAD_MSG_SN_POS, LongBytes(h.msgSn))
    ensures At(b, HEAD_MSG_PRIORITY, IntBytes(h.priority)) && At(b, HEAD_MSG_RSV1, IntBytes(h.reserved))
  {
    hide LittleEndian;
    var s := b[..BODY_MSG_POS];
    assert forall i, j :: 0 <= i <= j <= BODY_MSG_POS ==> b[i..j] == s[i..j];
    assert s[2] == b[2] && s[3] == b[3];
    assert s[0..2] == ShortBytes(h.tag);
    assert s[4..6] == ShortBytes(h.len) && s[6..8] == ShortBytes(h.msgId);
    assert s[8..16] == LongBytes(h.msgSn);
    assert s[16..20] == IntBytes(h.priority) && s[20..24] == IntBytes(h.reserved);
  }

  lemma IntReads(b: bytes, offset: nat, v: u32)
    requires At(b, offset, IntBytes(v))
    ensures ReadShort(b, offset) == v % 0x1_0000
  {
    FieldAt(b, offset, IntBytes(v));
    assert IntBytes(v)[..2] == ShortBytes(v % 0x1_0000);
    ShortRoundTrip(v % 0x1_0000);
  }

  lemma ShortReads(b: bytes, offset: nat, v: u16)
    requires At(b, offset, ShortBytes(v))
    ensures ReadShort(b, offset) == v
  {
    FieldAt(b, offset, ShortBytes(v));
    assert ShortBytes(v)[..2] == ShortBytes(v);
    ShortRoundTrip(v);
  }

  /** The receiver decodes tag, version, type, length and message id exactly; of priority and reserve it
      sees 16 bits, and the sequence number comes out scrambled. */
  lemma HeadRoundTrip(b: bytes, h: Head)
    requires |b| >= BODY_MSG_POS && b[..BODY_MSG_POS] == HeadBytes(h)
    ensures DecodedHead(b) == Received(h)
  {
    hide HeadBytes, LongBytes, IntBytes, ShortBytes, ReadLong, ReadShort, Swapped, At;
    HeadFields(b, h);
    ShortReads(b, HEAD_TAG_POS, h.tag);
    ShortReads(b, HEAD_LEN_POS, h.len);
    ShortReads(b, HEAD_MSG_ID_POS, h.msgId);
    LongAt(b, HEAD_MSG_SN_POS, LongBytes(h.msgSn));
    LongRoundTrip(h.msgSn);
    IntReads(b, HEAD_MSG_PRIORITY, h.priority);
    IntReads(b, HEAD_MSG_RSV1, h.reserved);
  }

  lemma SwapFixed(v: u16)
    ensures Swapped(v) == v <==> v / 256 == v % 256
  {
  }

  lemma HighWord(n: nat, w: u16)
    requires n == w * 0x1_0000_0000
    ensures n / 0x1_0000_0000 == w && n / 0x1_0000_0000 % 0x1_0000 == w
  {
  }

  /** The number whose bits 32 to 47 are two bytes `c`, and whose other bits are 0. */
  function Twice(c: byte): nat {
    (c * 256 + c) * 0x1_0000_0000
  }

  lemma NumberArrives(n: u64)
    ensures Swapped(n / 0x1_0000_0000 % 0x1_0000) * 0x1_0000_0000 == n <==> exists c: byte :: n == Twice(c)
  {
    hide Swapped;
    var w: u16 := n / 0x1_0000_0000 % 0x1_0000;
    if Swapped(w) * 0x1_0000_0000 == n {
      HighWord(n, Swapped(w));
      SwapFixed(w);
      assert n == Twice(w % 256);
    }
    if c: byte :| n == Twice(c) {
      HighWord(n, c * 256 + c);
      Quotient(w, 256, c, c);
      SwapFixed(w);
    }
  }

  lemma LongLayout(w: u32)
    ensures LittleEndian(w, 8)
            == [w % 256, w / 256 % 256, w / 0x1_0000 % 256, w / 0x100_0000 % 256, 0, 0, 0, 0]
  {
    var g, a := w / 256, w % 256;
    var h, b := g / 256, g % 256;
    var i, c := h / 256, h % 256;
    assert w == 256 * g + a && g == 256 * h + b && h == 256 * i + c;
    Quotient(w, 0x1_0000, h, 256 * b + a);
    Quotient(w, 0x100_0000, i, 0x1_0000 * c + 256 * b + a);
    NoBytes();
    assert i / 256 == 0 && i % 256 == i;
    LittleEndianStep(w, 8);
    LittleEndianStep(g, 7);
    LittleEndianStep(h, 6);
    LittleEndianStep(i, 5);
  }

  lemma LittleEndianStep(v: nat, n: nat)
    requires n > 0
    ensures LittleEndian(v, n) == [v % 256] + LittleEndian(v / 256, n - 1)
  {
  }

  lemma NoBytes()
    ensures LittleEndian(0, 4) == [0, 0, 0, 0]
  {
    LittleEndianStep(0, 4);
    LittleEndianStep(0, 3);
    LittleEndianStep(0, 2);
    LittleEndianStep(0, 1);
  }

  /** Where every byte of a header comes from. */
  lemma HeadLayout(h: Head)
    ensures var s := HeadBytes(h);
            && |s| == 24
            && s[0] == h.tag / 256 && s[1] == h.tag % 256 && s[2] == h.version && s[3] == h.kind
            && s[4] == h.len / 256 && s[5] == h.len % 256 && s[6] == h.msgId / 256 && s[7] == h.msgId % 256
            && s[16] == h.priority / 256 % 256 && s[17] == h.priority % 256 && s[18] == s[19] == 0
            && s[20] == h.reserved / 256 % 256 && s[21] == h.reserved % 256 && s[22] == s[23] == 0
    ensures var w := h.msgSn / 0x1_0000_0000;
            HeadBytes(h)[8..16] == [w % 256, w / 256 % 256, w / 0x1_0000 % 256, w / 0x100_0000 % 256, 0, 0, 0, 0]
  {
    hide LittleEndian;
    IntIs(h.priority);
    IntIs(h.reserved);
    LongLayout(h.msgSn / 0x1_0000_0000);
  }

  lemma IntIs(v: u32)
    ensures IntBytes(v) == [v / 256 % 256, v % 256, 0, 0]
  {
    var g, b := v / 256, v % 256;
    var q, a := g / 256, g % 256;
    assert v == 256 * g + b && g == 256 * q + a;
    Quotient(v, 0x1_0000, q, 256 * a + b);
    Quotient(256 * a + b, 256, a, b);
  }

  /** What every field of a decoded header is made of. */
  lemma DecodedLayout(b: bytes)
    requires |b| >= 24
    ensures var h := DecodedHead(b);
            && h.tag == Word(b[1], b[0]) && h.version == b[2] && h.kind == b[3]
            && h.len == Word(b[5], b[4]) && h.msgId == Word(b[7], b[6])
            && h.msgSn == Word(b[9], b[8]) * 0x1_0000_0000 + Word(b[13], b[12])
            && h.priority == Word(b[17], b[16]) && h.reserved == Word(b[21], b[20])
  {
    hide Word;
  }

  lemma WordIs(low: byte, high: byte)
    ensures Word(low, high) == low + 0x100 * (high as int)
  {
  }

  /** A header arrives as it was sent exactly when priority and reserve fit 16 bits and the sequence
      number has only its bits 32 to 47 set, in two equal bytes. */
  lemma HeadArrives(h: Head)
    ensures Received(h) == h
            <==> h.priority < 0x1_0000 && h.reserved < 0x1_0000 && exists c: byte :: h.msgSn == Twice(c)
  {
    hide Swapped, Twice;
    NumberArrives(h.msgSn);
  }

  /** The sequence number that the client sends, 100, arrives as 0. */
  lemma SmallNumbersAreLost(h: Head)
    requires h.msgSn < 0x1_0000_0000
    ensures Received(h).msgSn == 0
  {
  }

  // ---- Whole frames ----

  /** A frame with a login body: header, body, and whatever stands behind it. Whatever the other fields
      of the header hold, the receiver sees the type, message id and length that were sent, and the
      bytes that the length covers parse to the login message. */
  lemma FrameRoundTrip(b: bytes, h: Head, m: Login)
    requires ValidLogin(m) && |Serialized(m)| <= BUFFER_SIZE - BODY_MSG_POS && h.len == |Serialized(m)|
    requires |b| >= BODY_MSG_POS && b[..BODY_MSG_POS] == HeadBytes(h) && At(b, BODY_MSG_POS, Serialized(m))
    ensures var r := DecodedHead(b);
            && r.kind == h.kind && r.msgId == h.msgId && r.len == h.len && r.tag == h.tag && r.version == h.version
            && BODY_MSG_POS + r.len <= |b|
            && ParseFrom(EMPTY_LOGIN, b[BODY_MSG_POS..BODY_MSG_POS + r.len]) == Complete(m)
  {
    hide HeadBytes, DecodedHead, Serialized, ParseFrom, ValidLogin;
    HeadRoundTrip(b, h);
    RoundTrip(m);
  }

  // ---- DataHeadCodec ----

  /** `StructProtocolHead`. */
  class ProtocolHead {
    var usTag: u16
    var ucVersion: byte
    var ucType: byte
    var usLen: u16
    var usMsgId: u16
    var ullMsgSn: u64
    var uiPriority: u32
    var uiReserver1: u32

    function Value(): Head
      reads this
    {
      Head(usTag, ucVersion, ucType, usLen, usMsgId, ullMsgSn, uiPriority, uiReserver1)
    }

    constructor (h: Head)
      ensures Value() == h
    {
      usTag, ucVersion, ucType, usLen := h.tag, h.version, h.kind, h.len;
      usMsgId, ullMsgSn, uiPriority, uiReserver1 := h.msgId, h.msgSn, h.priority, h.reserved;
    }
  }

  /** `a` holds `s` at `offset` and is otherwise as it was. */
  twostate predicate OnlyWrote(a: array<byte>, offset: nat, s: bytes)
    reads a
  {
    && offset + |s| <= a.Length
    && (forall k :: 0 <= k < |s| ==> a[offset + k] == s[k])
    && (forall k :: 0 <= k < offset || offset + |s| <= k < a.Length ==> a[k] == old(a[k]))
  }

  method SetByte(buffer: array<byte>, offset: nat, val: byte)
    requires offset + 1 <= buffer.Length
    modifies buffer
    ensures buffer[offset] == val && OnlyWrote(buffer, offset, [val])
  {
    buffer[offset] := val;
  }

  method SetUnsignedShort(buffer: array<byte>, offset: nat, val: u16)
    requires offset + 2 <= buffer.Length
    modifies buffer
    ensures OnlyWrote(buffer, offset, ShortBytes(val))
  {
    buffer[offset] := val / 256;
    buffer[offset + 1] := val % 256;
  }

  /** `htons` truncates its argument to 16 bits; the result is copied as a little-endian word. */
  method SetUnsignedInt(buffer: array<byte>, offset: nat, val: u32)
    requires offset + 4 <= buffer.Length
    modifies buffer
    ensures OnlyWrote(buffer, offset, IntBytes(val))
  {
    var temp := Swapped(val % 0x1_0000);
    CopyWord(buffer, offset, LittleEndian(temp, 4));
    SwappedBytes(val % 0x1_0000);
  }

  lemma SwappedBytes(v: u16)
    ensures LittleEndian(Swapped(v), 4) == ShortBytes(v) + [0, 0]
  {
    var t: nat := Swapped(v);
    Quotient(t, 256, v % 256, v / 256);
    assert LittleEndian(t, 4) == [t % 256] + LittleEndian(t / 256, 3);
    assert LittleEndian(t / 256, 3) == [v % 256] + LittleEndian(0, 2);
    assert LittleEndian(0, 2) == [0] + LittleEndian(0, 1);
  }

  /** `memcpy` from a value to the buffer. */
  method CopyWord(buffer: array<byte>, offset: nat, word: bytes)
    requires offset + |word| <= buffer.Length
    modifies buffer
    ensures OnlyWrote(buffer, offset, word)
  {
    forall k | 0 <= k < |word| {
      buffer[offset + k] := word[k];
    }
  }

  /** The low half is written behind the high half, and then covered by the eight bytes of the shifted
      value. */
  method SetUnsignedLonglong(buffer: array<byte>, offset: nat, val: u64)
    requires offset + 8 <= buffer.Length
    modifies buffer
    ensures OnlyWrote(buffer, offset, LongBytes(val))
  {
    var low: u32 := val % 0x1_0000_0000;
    var temp := BigEndian(low);
    CopyWord(buffer, offset + 4, temp);
    var shifted := val / 0x1_0000_0000;
    temp := BigEndian(shifted);
    CopyWord(buffer, offset, LittleEndian(shifted, 8));
  }

  /** `htonl`, as the bytes it leaves in memory. */
  function BigEndian(v: u32): (s: bytes)
    ensures |s| == 4
  {
    ShortBytes(v / 0x1_0000) + ShortBytes(v % 0x1_0000)
  }

  method GetUnsignedShort(buffer: array<byte>, offset: nat) returns (val: u16)
    requires offset + 2 <= buffer.Length
    ensures val == ReadShort(buffer[..], offset)
  {
    var word := Word(buffer[offset], buffer[offset + 1]);
    assert buffer[..][offset..offset + 2] == [buffer[offset], buffer[offset + 1]];
    SwappedWord(buffer[offset], buffer[offset + 1]);
    val := Swapped(word);
  }

  /** `ntohs` truncates the 32-bit word it is given. */
  method GetUnsignedInt(buffer: array<byte>, offset: nat) returns (val: u32)
    requires offset + 4 <= buffer.Length
    ensures val == ReadShort(buffer[..], offset)
  {
    hide Word, Swapped;
    var low := Word(buffer[offset], buffer[offset + 1]);
    var high := Word(buffer[offset + 2], buffer[offset + 3]);
    var word := LongWord(low, high);
    assert buffer[..][offset..offset + 2] == [buffer[offset], buffer[offset + 1]];
    SwappedWord(buffer[offset], buffer[offset + 1]);
    val := Swapped(word % 0x1_0000);
  }

  function LongWord(low: u16, high: u16): (word: u32)
    ensures word % 0x1_0000 == low
  {
    var h: int := high;
    h * 0x1_0000 + low
  }

  lemma SwappedWord(low: byte, high: byte)
    ensures Swapped(Word(low, high)) == Word(high, low)
  {
    Quotient(Word(low, high), 256, high, low);
  }

  method GetUnsignedLonglong(buffer: array<byte>, offset: nat) returns (val: u64)
    requires offset + 8 <= buffer.Length
    ensures val == ReadLong(buffer[..], offset)
  {
    hide ReadShort;
    var high := GetUnsignedInt(buffer, offset);
    var low := GetUnsignedInt(buffer, offset + 4);
    var shifted: int := high;
    val := shifted * 0x1_0000_0000 + low;
  }

  /** Header writes touch the first 24 bytes only. */
  method Encode(head: ProtocolHead, buffer: array<byte>)
    requires BODY_MSG_POS <= buffer.Length
    modifies buffer
    ensures OnlyWrote(buffer, 0, HeadBytes(head.Value()))
  {
    hide LongBytes, IntBytes, ShortBytes;
    ghost var h := head.Value();
    SetUnsignedShort(buffer, HEAD_TAG_POS, head.usTag);
    ghost var done := ShortBytes(h.tag);
    assert buffer[..2] == done;
    SetByte(buffer, HEAD_VERSION_POS, head.ucVersion);
    done := done + [h.version];
    assert buffer[..3] == done;
    SetByte(buffer, HEAD_TYPER_POS, head.ucType);
    done := done + [h.kind];
    assert buffer[..4] == done == ShortBytes(h.tag) + [h.version, h.kind];
    SetUnsignedShort(buffer, HEAD_LEN_POS, head.usLen);
    done := done + ShortBytes(h.len);
    assert buffer[..6] == done;
    SetUnsignedShort(buffer, HEAD_MSG_ID_POS, head.usMsgId);
    done := done + ShortBytes(h.msgId);
    assert buffer[..8] == done;
    SetUnsignedLonglong(buffer, HEAD_MSG_SN_POS, head.ullMsgSn);
    done := done + LongBytes(h.msgSn);
    assert buffer[..16] == done;
    SetUnsignedInt(buffer, HEAD_MSG_PRIORITY, head.uiPriority);
    done := done + IntBytes(h.priority);
    assert buffer[..20] == done;
    SetUnsignedInt(buffer, HEAD_MSG_RSV1, head.uiReserver1);
    done := done + IntBytes(h.reserved);
    assert buffer[..24] == done == HeadBytes(h);
    assert forall k :: 0 <= k < 24 ==> buffer[k] == buffer[..24][k];
  }

  method Decode(buffer: array<byte>, head: ProtocolHead)
    requires BODY_MSG_POS <= buffer.Length
    modifies head
    ensures head.Value() == DecodedHead(buffer[..])
  {
    hide ReadLong, ReadShort;
    head.usTag := GetUnsignedShort(buffer, HEAD_TAG_POS);
    head.ucVersion := buffer[HEAD_VERSION_POS];
    head.ucType := buffer[HEAD_TYPER_POS];
    head.usLen := GetUnsignedShort(buffer, HEAD_LEN_POS);
    head.usMsgId := GetUnsignedShort(buffer, HEAD_MSG_ID_POS);
    head.ullMsgSn := GetUnsignedLonglong(buffer, HEAD_MSG_SN_POS);
    head.uiPriority := GetUnsignedInt(buffer, HEAD_MSG_PRIORITY);
    head.uiReserver1 := GetUnsignedInt(buffer, HEAD_MSG_RSV1);
  }

  // ---- Sending and receiving a login ----

  /** The client's request: the header, and the body behind it. */
  method SendLogin(head: ProtocolHead, request: ReqNodeLogin, buffer: array<byte>)
    requires buffer.Length == BUFFER_SIZE && ValidLogin(request.Message())
    requires |Serialized(request.Message())| <= BUFFER_SIZE - BODY_MSG_POS
    modifies buffer, head`usLen
    ensures head.Value() == old(head.Value()).(len := |Serialized(request.Message())|)
    ensures buffer[..24] == HeadBytes(head.Value())
    ensures At(buffer[..], 24, Serialized(request.Message()))
    ensures forall k :: 24 + head.usLen <= k < 1024 ==> buffer[k] == old(buffer[k])
  {
    hide Serialized, HeadBytes;
    var bodyLen := request.ByteSizeLong();
    head.usLen := bodyLen;
    Encode(head, buffer);
    var body := request.InternalSerialize();
    CopyWord(buffer, BODY_MSG_POS, body);
    assert buffer[..BODY_MSG_POS] == HeadBytes(head.Value());
    assert buffer[..][BODY_MSG_POS..BODY_MSG_POS + |body|] == body;
  }

  /** What becomes of a received buffer: no protobuf login request; one whose length reaches past the
      buffer; or one that was parsed, completely or not. */
  datatype Reception = NotALogin | PastTheBuffer | Parsed(complete: bool)

  /** The server's side of it. The body is parsed only if it is a protobuf login request, and its bytes
      all lie in the buffer exactly when the length is at most 1000. The source makes no such test; where
      the model ends with `PastTheBuffer`, what the source parses is not in the buffer. */
  method ReceiveLogin(buffer: array<byte>, head: ProtocolHead, request: ReqNodeLogin) returns (r: Reception)
    requires buffer.Length == BUFFER_SIZE && request.Message() == EMPTY_LOGIN
    modifies head, request
    ensures head.Value() == DecodedHead(buffer[..])
    ensures r.NotALogin? <==> !(head.ucType == 1 && head.usMsgId == 101)
    ensures r.PastTheBuffer? <==> !r.NotALogin? && head.usLen > 1000
    ensures r.Parsed? ==>
              var outcome := ParseFrom(EMPTY_LOGIN, buffer[24..24 + head.usLen]);
              && (r.complete <==> outcome.Complete?)
              && (r.complete ==> outcome == Complete(request.Message()))
    ensures !r.Parsed? ==> request.Message() == EMPTY_LOGIN
  {
    hide ParseFrom, DecodedHead;
    Decode(buffer, head);
    if head.ucType != PB_PROTOCAL_TYPE || head.usMsgId != REQ_NODE_LOGIN {
      return NotALogin;
    }
    if BODY_MSG_POS + head.usLen > buffer.Length {
      return PastTheBuffer;
    }
    var outcome := request.InternalParse(buffer[BODY_MSG_POS..BODY_MSG_POS + head.usLen]);
    return Parsed(outcome.Complete?);
  }

  /** What the client sends as a login request is what the server receives, whatever was in the buffer
      and in the other fields of the header. */
  method LoginArrives(sent: ProtocolHead, request: ReqNodeLogin, buffer: array<byte>, head: ProtocolHead,
                      received: ReqNodeLogin)
    returns (r: Reception)
    requires buffer.Length == BUFFER_SIZE && ValidLogin(request.Message()) && received.Message() == EMPTY_LOGIN
    requires |Serialized(request.Message())| <= BUFFER_SIZE - BODY_MSG_POS && sent != head && request != received
    requires sent.ucType == PB_PROTOCAL_TYPE && sent.usMsgId == REQ_NODE_LOGIN
    modifies buffer, sent`usLen, head, received
    ensures r == Parsed(true) && received.Message() == request.Message()
    ensures head.Value() == Received(sent.Value())
  {
    hide Serialized, ValidLogin, HeadBytes, DecodedHead, ParseFrom, Received;
    SendLogin(sent, request, buffer);
    ghost var b := buffer[..];
    assert b[..BODY_MSG_POS] == buffer[..BODY_MSG_POS];
    FrameRoundTrip(b, sent.Value(), request.Message());
    HeadRoundTrip(b, sent.Value());
    r := ReceiveLogin(buffer, head, received);
    assert b[BODY_MSG_POS..BODY_MSG_POS + sent.usLen] == buffer[BODY_MSG_POS..BODY_MSG_POS + sent.usLen];
  }
}
