/** UTF-8 as the JSON library encodes and decodes it, and as RFC 3629 defines it. */
module Utf8 {
  import opened Bytes

  const REPLACEMENT_CHARACTER: nat := 0xFFFD

  /** The source's encoder; a value above U+10FFFF gives the empty string. */
  function CodePointToUtf8(cp: nat): bytes {
    if cp <= 0x7F then [cp]
    else if cp <= 0x7FF then
      [0xC0 + cp / 64 % 32, 0x80 + cp % 64]
    else if cp <= 0xFFFF then
      [0xE0 + cp / 4096 % 16, 0x80 + cp / 64 % 64, 0x80 + cp % 64]
    else if cp <= 0x10FFFF then
      [0xF0 + cp / 262144 % 8, 0x80 + cp / 4096 % 64, 0x80 + cp / 64 % 64, 0x80 + cp % 64]
    else []
  }

  /** A decoded code point and how far the read pointer was moved past the first byte. */
  datatype Decoded = Decoded(cp: nat, extra: nat)

  function Low6(b: byte): nat {
    b % 64
  }

  /** The source's decoder. It neither checks that the later bytes are continuation bytes nor
      rejects 0x80-0xC1 and 0xF5-0xF7 as first bytes, so it is total. */
  function Utf8ToCodepoint(s: bytes): (d: Decoded)
    requires s != []
    ensures d.extra < |s|
  {
    var first: int := s[0];
    if first < 0x80 then Decoded(first, 0)
    else if first < 0xE0 then
      if |s| < 2 then Decoded(REPLACEMENT_CHARACTER, 0)
      else
        var calculated := first % 32 * 64 + Low6(s[1]);
        Decoded(if calculated < 0x80 then REPLACEMENT_CHARACTER else calculated, 1)
    else if first < 0xF0 then
      if |s| < 3 then Decoded(REPLACEMENT_CHARACTER, 0)
      else
        var calculated := first % 16 * 4096 + Low6(s[1]) * 64 + Low6(s[2]);
        Decoded(if 0xD800 <= calculated <= 0xDFFF then REPLACEMENT_CHARACTER
                else if calculated < 0x800 then REPLACEMENT_CHARACTER else calculated, 2)
    else if first < 0xF8 then
      if |s| < 4 then Decoded(REPLACEMENT_CHARACTER, 0)
      else
        var calculated := first % 8 * 262144 + Low6(s[1]) * 4096 + Low6(s[2]) * 64 + Low6(s[3]);
        Decoded(if calculated < 0x10000 then REPLACEMENT_CHARACTER else calculated, 3)
    else Decoded(REPLACEMENT_CHARACTER, 0)
  }

  // ---- RFC 3629, section 4 ----

  predicate Tail(b: byte) {
    0x80 <= b <= 0xBF
  }

  /** The length of the UTF8-char of RFC 3629 that `s` begins with, or 0 if there is none. */
  function Utf8Width(s: bytes): (k: nat)
    ensures k <= |s| && k <= 4
  {
    if |s| >= 1 && s[0] <= 0x7F then 1
    else if |s| >= 2 && 0xC2 <= s[0] <= 0xDF && Tail(s[1]) then 2
    else if |s| >= 3 && Tail(s[2])
            && ((s[0] == 0xE0 && 0xA0 <= s[1] <= 0xBF)
                || (0xE1 <= s[0] <= 0xEC && Tail(s[1]))
                || (s[0] == 0xED && 0x80 <= s[1] <= 0x9F)
                || (0xEE <= s[0] <= 0xEF && Tail(s[1]))) then 3
    else if |s| >= 4 && Tail(s[2]) && Tail(s[3])
            && ((s[0] == 0xF0 && 0x90 <= s[1] <= 0xBF)
                || (0xF1 <= s[0] <= 0xF3 && Tail(s[1]))
                || (s[0] == 0xF4 && 0x80 <= s[1] <= 0x8F)) then 4
    else 0
  }

  predicate ValidUtf8(s: bytes) {
    s == [] || (Utf8Width(s) > 0 && ValidUtf8(s[Utf8Width(s)..]))
  }

  /** A Unicode scalar value: any code point that is not a surrogate. */
  predicate Scalar(cp: nat) {
    cp < 0xD800 || 0xE000 <= cp <= 0x10FFFF
  }

  // The bytes of each multi-byte form, from the base-64 digits of the code point.

  lemma Encode2(h: nat, l: nat)
    requires 2 <= h < 32 && l < 64
    ensures CodePointToUtf8(h * 64 + l) == [0xC0 + h, 0x80 + l]
  {
    var cp := h * 64 + l;
    assert cp / 64 == h && cp % 64 == l;
  }

  lemma Encode3(h: nat, m: nat, l: nat)
    requires h < 16 && m < 64 && l < 64 && h * 4096 + m * 64 >= 0x800
    ensures CodePointToUtf8(h * 4096 + m * 64 + l) == [0xE0 + h, 0x80 + m, 0x80 + l]
  {
    var cp := h * 4096 + m * 64 + l;
    assert cp % 64 == l && cp / 64 == h * 64 + m;
    assert cp / 4096 == h && cp / 64 % 64 == m;
  }

  lemma Encode4(h: nat, m: nat, l: nat, z: nat)
    requires h < 8 && m < 64 && l < 64 && z < 64
    requires 0x10000 <= h * 262144 + m * 4096 <= 0x10F000
    ensures CodePointToUtf8(h * 262144 + m * 4096 + l * 64 + z) == [0xF0 + h, 0x80 + m, 0x80 + l, 0x80 + z]
  {
    var cp := h * 262144 + m * 4096 + l * 64 + z;
    assert cp % 64 == z && cp / 64 == h * 4096 + m * 64 + l;
    assert cp / 64 % 64 == l && cp / 4096 == h * 64 + m;
    assert cp / 4096 % 64 == m && cp / 262144 == h;
  }

  lemma WellFormed2(s: bytes)
    requires Utf8Width(s) == 2
    ensures Utf8ToCodepoint(s).extra == 1 && Scalar(Utf8ToCodepoint(s).cp)
    ensures CodePointToUtf8(Utf8ToCodepoint(s).cp) == s[..2]
  {
    hide CodePointToUtf8;
    var h, l := s[0] - 0xC0, s[1] - 0x80;
    assert s[0] % 32 == h && Low6(s[1]) == l;
    Encode2(h, l);
  }

  lemma WellFormed3(s: bytes)
    requires Utf8Width(s) == 3
    ensures Utf8ToCodepoint(s).extra == 2 && Scalar(Utf8ToCodepoint(s).cp)
    ensures CodePointToUtf8(Utf8ToCodepoint(s).cp) == s[..3]
  {
    hide CodePointToUtf8;
    var h, m, l := s[0] - 0xE0, s[1] - 0x80, s[2] - 0x80;
    assert s[0] % 16 == h && Low6(s[1]) == m && Low6(s[2]) == l;
    Encode3(h, m, l);
  }

  lemma WellFormed4(s: bytes)
    requires Utf8Width(s) == 4
    ensures Utf8ToCodepoint(s).extra == 3 && Scalar(Utf8ToCodepoint(s).cp)
    ensures CodePointToUtf8(Utf8ToCodepoint(s).cp) == s[..4]
  {
    hide CodePointToUtf8;
    var h, m, l, z := s[0] - 0xF0, s[1] - 0x80, s[2] - 0x80, s[3] - 0x80;
    assert s[0] % 8 == h && Low6(s[1]) == m && Low6(s[2]) == l && Low6(s[3]) == z;
    Encode4(h, m, l, z);
  }

  /** On a well-formed character the source's decoder and encoder are inverse, and they agree with
      RFC 3629 on where the character ends. */
  lemma DecodeWellFormed(s: bytes)
    requires Utf8Width(s) > 0
    ensures Utf8ToCodepoint(s).extra == Utf8Width(s) - 1
    ensures Scalar(Utf8ToCodepoint(s).cp)
    ensures CodePointToUtf8(Utf8ToCodepoint(s).cp) == s[..Utf8Width(s)]
  {
    match Utf8Width(s)
    case 1 =>
    case 2 => WellFormed2(s);
    case 3 => WellFormed3(s);
    case 4 => WellFormed4(s);
  }

  lemma Decode2(h: nat, l: nat, rest: bytes)
    requires 2 <= h < 32 && l < 64
    ensures Utf8Width([0xC0 + h, 0x80 + l] + rest) == 2
    ensures Utf8ToCodepoint([0xC0 + h, 0x80 + l] + rest) == Decoded(h * 64 + l, 1)
  {
    var first: byte, second: byte := 0xC0 + h, 0x80 + l;
    assert first % 32 == h && Low6(second) == l;
  }

  lemma Decode3(h: nat, m: nat, l: nat, rest: bytes)
    requires h < 16 && m < 64 && l < 64 && h * 4096 + m * 64 >= 0x800
    requires Scalar(h * 4096 + m * 64)
    ensures Utf8Width([0xE0 + h, 0x80 + m, 0x80 + l] + rest) == 3
    ensures Utf8ToCodepoint([0xE0 + h, 0x80 + m, 0x80 + l] + rest) == Decoded(h * 4096 + m * 64 + l, 2)
  {
    var first: byte, second: byte, third: byte := 0xE0 + h, 0x80 + m, 0x80 + l;
    assert first % 16 == h && Low6(second) == m && Low6(third) == l;
  }

  lemma Decode4(h: nat, m: nat, l: nat, z: nat, rest: bytes)
    requires h < 8 && m < 64 && l < 64 && z < 64
    requires 0x10000 <= h * 262144 + m * 4096 < 0x110000
    ensures Utf8Width([0xF0 + h, 0x80 + m, 0x80 + l, 0x80 + z] + rest) == 4
    ensures Utf8ToCodepoint([0xF0 + h, 0x80 + m, 0x80 + l, 0x80 + z] + rest)
            == Decoded(h * 262144 + m * 4096 + l * 64 + z, 3)
  {
    var first: byte, second: byte, third: byte, fourth: byte := 0xF0 + h, 0x80 + m, 0x80 + l, 0x80 + z;
    assert first % 8 == h && Low6(second) == m && Low6(third) == l && Low6(fourth) == z;
  }

  /** The base-64 digits of a code point. */
  lemma Base64(cp: nat) returns (a: nat, b: nat, c: nat, d: nat)
    requires cp <= 0x10FFFF
    ensures cp == a * 262144 + b * 4096 + c * 64 + d
    ensures a < 8 && b < 64 && c < 64 && d < 64
  {
    d := cp % 64;
    var high := cp / 64;
    c := high % 64;
    high := high / 64;
    b, a := high % 64, high / 64;
  }

  lemma EncodeAscii(cp: nat, rest: bytes)
    requires cp <= 0x7F
    ensures |CodePointToUtf8(cp)| == 1 && Utf8Width(CodePointToUtf8(cp) + rest) == 1
    ensures Utf8ToCodepoint(CodePointToUtf8(cp) + rest) == Decoded(cp, 0)
  {
    var s := CodePointToUtf8(cp) + rest;
    assert s[0] == cp;
  }

  /** Every scalar value is encoded as one well-formed character, which decodes back to it whatever
      follows. */
  lemma EncodeScalar(cp: nat, rest: bytes)
    requires Scalar(cp)
    ensures Utf8Width(CodePointToUtf8(cp) + rest) == |CodePointToUtf8(cp)|
    ensures Utf8ToCodepoint(CodePointToUtf8(cp) + rest) == Decoded(cp, |CodePointToUtf8(cp)| - 1)
  {
    hide CodePointToUtf8, Utf8ToCodepoint, Utf8Width;
    var a, b, c, d := Base64(cp);
    if cp <= 0x7F {
      EncodeAscii(cp, rest);
    } else if cp <= 0x7FF {
      Encode2(c, d);
      Decode2(c, d, rest);
    } else if cp <= 0xFFFF {
      Encode3(b, c, d);
      Decode3(b, c, d, rest);
    } else {
      Encode4(a, b, c, d);
      Decode4(a, b, c, d, rest);
    }
  }

  // ---- What is decoded ----

  function LowBits(b: byte, n: nat): nat
    requires n > 0
  {
    b % n
  }

  /** The number whose bits the bytes of a character carry (section 3 of RFC 3629). */
  function Payload(s: bytes, n: nat): nat
    requires 1 <= n <= 4 && n <= |s|
  {
    match n
    case 1 => s[0]
    case 2 => LowBits(s[0], 0x20) * 0x40 + LowBits(s[1], 0x40)
    case 3 => LowBits(s[0], 0x10) * 0x1000 + LowBits(s[1], 0x40) * 0x40 + LowBits(s[2], 0x40)
    case _ =>
      LowBits(s[0], 0x08) * 0x40000 + LowBits(s[1], 0x40) * 0x1000 + LowBits(s[2], 0x40) * 0x40 + LowBits(s[3], 0x40)
  }

  /** The length that a first byte announces; 5 for a byte that begins no character. */
  function Announced(first: byte): nat {
    if first < 0x80 then 1 else if first < 0xE0 then 2 else if first < 0xF0 then 3 else if first < 0xF8 then 4 else 5
  }

  /** Too small for its length, or a surrogate in three bytes. */
  predicate Forbidden(cp: nat, n: nat) {
    || (n == 2 && cp < 0x80) || (n == 3 && cp < 0x800) || (n == 4 && cp < 0x10000)
    || (n == 3 && 0xD800 <= cp <= 0xDFFF)
  }

  /** What becomes of any bytes: U+FFFD for one byte if the string ends too early, U+FFFD for all the
      announced bytes if they carry a forbidden number, and that number otherwise. */
  lemma DecodesAny(s: bytes)
    requires s != []
    ensures var n := Announced(s[0]);
            Utf8ToCodepoint(s) == if n > 4 || n > |s| then Decoded(0xFFFD, 0)
                                  else if Forbidden(Payload(s, n), n) then Decoded(0xFFFD, n - 1)
                                  else Decoded(Payload(s, n), n - 1)
  {
  }

  lemma WidthIsAnnounced(s: bytes)
    requires Utf8Width(s) > 0
    ensures Announced(s[0]) == Utf8Width(s)
  {
  }

  lemma NotForbidden(s: bytes)
    requires Utf8Width(s) > 0
    ensures !Forbidden(Payload(s, Utf8Width(s)), Utf8Width(s))
  {
  }

  /** A well-formed character decodes to the number it carries. */
  lemma DecodesPayload(s: bytes)
    requires Utf8Width(s) > 0
    ensures Utf8ToCodepoint(s).cp == Payload(s, Utf8Width(s))
  {
    hide Utf8ToCodepoint, Payload;
    WidthIsAnnounced(s);
    NotForbidden(s);
    DecodesAny(s);
  }
}
