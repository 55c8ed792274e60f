/** What the writer prints, byte by byte. */
module JsonPrinted {
  import opened Bytes
  import opened Utf8
  import opened JsonValue
  import opened JsonArray
  import opened JsonNumber
  import opened JsonString
  import opened JsonWriter
  import opened JsonText
  import opened JsonSpelling

  // ---- Characters ----

  function LowerHexDigit(v: nat): byte
    requires v < 16
  {
    LowerHexAt(v);
    LOWER_HEX[v] as int
  }

  /** A reverse solidus, a `u` and the four hexadecimal digits of `x`, small letters. */
  function Escape(x: nat): bytes
    requires x < 0x10000
  {
    [0x5C, 0x75, LowerHexDigit(x / 4096), LowerHexDigit(x / 256 % 16), LowerHexDigit(x / 16 % 16),
     LowerHexDigit(x % 16)]
  }

  lemma HexDigitIs(v: nat)
    requires v < 16
    ensures HexDigit(v) == LowerHexDigit(v)
  {
    LowerHexAt(v);
  }

  lemma Nibble(x: nat)
    requires x < 0x10000
    ensures var hi, lo := x / 256 % 256, x % 256;
            hi / 16 == x / 4096 && hi % 16 == x / 256 % 16 && lo / 16 == x / 16 % 16 && lo % 16 == x % 16
  {
    var q, d := x / 16, x % 16;
    var p, c := q / 16, q % 16;
    var a, b := p / 16, p % 16;
    assert x == 16 * q + d && q == 16 * p + c && p == 16 * a + b;
    assert x == 256 * p + (16 * c + d) && x == 4096 * a + (256 * b + 16 * c + d);
  }

  lemma EscapeIs(x: nat)
    requires x < 0x10000
    ensures UnicodeEscape(x) == Escape(x)
  {
    hide HexDigit, LowerHexDigit;
    Nibble(x);
    HexDigitIs(x / 4096);
    HexDigitIs(x / 256 % 16);
    HexDigitIs(x / 16 % 16);
    HexDigitIs(x % 16);
  }

  /** Each ASCII character takes one byte of the string. Quotation mark, reverse solidus and five control
      characters are printed as two characters, other control characters as four digits, and everything
      else as it is. */
  lemma PrintedAscii(s: bytes)
    requires s != [] && s[0] < 0x80
    ensures CharLength(s) == 1
    ensures var c := s[0];
            EscapedChar(s) == if c == 0x22 || c == 0x5C then [0x5C, c]
                              else if c == 0x08 then [0x5C, 0x62]
                              else if c == 0x0C then [0x5C, 0x66]
                              else if c == 0x0A then [0x5C, 0x6E]
                              else if c == 0x0D then [0x5C, 0x72]
                              else if c == 0x09 then [0x5C, 0x74]
                              else if c < 0x20 then Escape(c)
                              else [c]
  {
    hide UnicodeEscape, Escape;
    EscapeIs(s[0]);
  }

  /** A character beyond ASCII is printed as the escape of its code point, or as the escapes of its two
      surrogates. */
  lemma PrintedUnicode(s: bytes)
    requires Utf8Width(s) > 1
    ensures CharLength(s) == Utf8Width(s)
    ensures var cp := Payload(s, Utf8Width(s));
            && 0x80 <= cp <= 0x10FFFF
            && EscapedChar(s) == if cp < 0x10000 then Escape(cp)
                                 else Escape(0xD800 + (cp - 0x10000) / 1024) + Escape(0xDC00 + (cp - 0x10000) % 1024)
  {
    hide UnicodeEscape, Escape, Utf8ToCodepoint, CodePointToUtf8;
    DecodesPayload(s);
    DecodeWellFormed(s);
    var cp := Payload(s, Utf8Width(s));
    if cp < 0x10000 {
      EscapeIs(cp);
    } else {
      EscapeIs(0xD800 + (cp - 0x10000) / 1024);
      EscapeIs(0xDC00 + (cp - 0x10000) % 1024);
    }
  }

  /** What ends too early or carries a forbidden number is printed as the escape of U+FFFD. */
  lemma PrintedMalformed(s: bytes)
    requires s != []
    requires var n := Announced(s[0]); n > 4 || n > |s| || Forbidden(Payload(s, n), n)
    ensures EscapedChar(s) == [0x5C, 0x75, 0x66, 0x66, 0x66, 0x64]
    ensures CharLength(s) == if Announced(s[0]) > 4 || Announced(s[0]) > |s| then 1 else Announced(s[0])
  {
    hide Utf8ToCodepoint;
    DecodesAny(s);
    EscapeOfReplacement();
    hide UnicodeEscape;
  }

  lemma EscapeOfReplacement()
    ensures UnicodeEscape(0xFFFD) == [0x5C, 0x75, 0x66, 0x66, 0x66, 0x64]
  {
  }

  /** Printable ASCII without quotation marks and reverse solidi is printed as it is. */
  lemma {:induction false} PrintedPlain(s: bytes)
    requires forall k :: 0 <= k < |s| ==> 0x20 <= s[k] < 0x80 && s[k] != 0x22 && s[k] != 0x5C
    ensures EscapedBody(s) == s
    decreases |s|
  {
    hide EscapedChar, CharLength;
    if s != [] {
      PrintedAscii(s);
      PrintedPlain(s[1..]);
      assert s == [s[0]] + s[1..];
    }
  }

  // ---- Values ----

  /** The parts with commas between them, and nothing else. */
  function Join(parts: seq<bytes>): bytes {
    if parts == [] then [] else if |parts| == 1 then parts[0] else parts[0] + [0x2C] + Join(parts[1..])
  }

  /** Decimal digits, the most significant first and not 0 unless it is the only one. */
  lemma {:induction false} PrintedDecimal(n: nat)
    ensures var t := Decimal(n);
            && SomeDigits(t) && DecimalMeaning(t) == n && (t[0] == 0x30 ==> n == 0 && |t| == 1)
  {
    hide DecimalMeaning;
    DecimalDenotes(n);
    DecimalIs(Decimal(n));
    FirstDigitOf(n);
  }

  lemma {:induction false} FirstDigitOf(n: nat)
    ensures Decimal(n)[0] == 0x30 ==> n == 0 && |Decimal(n)| == 1
  {
    if n >= 10 {
      FirstDigitOf(n / 10);
    }
  }

  /** A minus for negative numbers, then the digits. */
  lemma PrintedScalar(pr: RealPrinter, i: int, u: nat)
    ensures Written(pr, Null) == [0x6E, 0x75, 0x6C, 0x6C]
    ensures Written(pr, Bool(true)) == [0x74, 0x72, 0x75, 0x65]
    ensures Written(pr, Bool(false)) == [0x66, 0x61, 0x6C, 0x73, 0x65]
    ensures Written(pr, UInt(u)) == Decimal(u)
    ensures Written(pr, Int(i)) == if i < 0 then [0x2D] + Decimal(-i) else Decimal(i)
  {
    hide Decimal;
  }

  lemma PrintedString(pr: RealPrinter, s: bytes)
    ensures Written(pr, String(s)) == [0x22] + EscapedBody(s) + [0x22]
  {
    hide EscapedBody;
  }

  // Commas in front of all but the first part are commas between the parts.

  function FromPart(parts: seq<bytes>, i: nat): bytes
    decreases |parts| - i
  {
    if i >= |parts| then [] else (if i > 0 then [0x2C] else []) + parts[i] + FromPart(parts, i + 1)
  }

  lemma {:induction false} FromPartIsJoin(parts: seq<bytes>, i: nat)
    requires i < |parts|
    ensures FromPart(parts, i) == (if i > 0 then [0x2C] else []) + Join(parts[i..])
    decreases |parts| - i
  {
    if i + 1 < |parts| {
      FromPartIsJoin(parts, i + 1);
      assert parts[i..][1..] == parts[i + 1..];
    } else {
      assert FromPart(parts, i + 1) == [];
      assert parts[i..] == [parts[i]];
    }
  }

  lemma AllIsJoin(parts: seq<bytes>)
    ensures FromPart(parts, 0) == Join(parts)
  {
    if parts != [] {
      FromPartIsJoin(parts, 0);
      assert parts[0..] == parts;
      assert [] + Join(parts) == Join(parts);
    }
  }

  function ElementParts(pr: RealPrinter, m: ObjectValues): seq<bytes> {
    seq(Size(m), i requires 0 <= i < Size(m) => Written(pr, Element(m, i)))
  }

  function MemberParts(pr: RealPrinter, m: ObjectValues): seq<bytes> {
    seq(|m|, i requires 0 <= i < |m| => [0x22] + EscapedBody(KeyName(m[i].key)) + [0x22] + [0x3A]
      + Written(pr, m[i].value))
  }

  lemma {:induction false} ElementsFromPart(pr: RealPrinter, m: ObjectValues, i: nat)
    requires i <= Size(m)
    ensures ElementsText(pr, m, i) == FromPart(ElementParts(pr, m), i)
    decreases Size(m) - i
  {
    hide Written, Size, Element;
    if i < Size(m) {
      ElementsFromPart(pr, m, i + 1);
    }
  }

  lemma {:induction false} MembersFromPart(pr: RealPrinter, m: ObjectValues, i: nat)
    requires i <= |m|
    ensures MembersText(pr, m, i) == FromPart(MemberParts(pr, m), i)
    decreases |m| - i
  {
    hide Written, KeyName, EscapedBody;
    if i < |m| {
      MembersFromPart(pr, m, i + 1);
    }
  }

  /** An array is its elements up to the highest index, missing ones as null, between brackets, with commas
      and nothing else between them. */
  lemma PrintedArray(pr: RealPrinter, m: ObjectValues)
    ensures Written(pr, Array(m)) == [0x5B] + Join(ElementParts(pr, m)) + [0x5D]
  {
    JsonWriter.ArrayText(pr, m);
    hide Written, FromPart, Join, ElementsText, ElementParts;
    ElementsFromPart(pr, m, 0);
    AllIsJoin(ElementParts(pr, m));
  }

  /** An object is its members in order between braces, with commas between them and a colon between name
      and value. */
  lemma PrintedObject(pr: RealPrinter, m: ObjectValues)
    ensures Written(pr, Object(m)) == [0x7B] + Join(MemberParts(pr, m)) + [0x7D]
  {
    JsonWriter.ObjectText(pr, m);
    hide Written, FromPart, Join, MembersText, MemberParts;
    MembersFromPart(pr, m, 0);
    AllIsJoin(MemberParts(pr, m));
  }
}
