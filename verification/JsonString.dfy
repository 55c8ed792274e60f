/** String tokens of the JSON library: the writer's escaping, the reader's lexing and unescaping, and
    what one does to the output of the other. */
module JsonString {
  import opened Bytes
  import opened Utf8

  const QUOTE: byte := 0x22
  const BACKSLASH: byte := 0x5C
  const LETTER_U: byte := 0x75

  // ---- Escaping (valueToQuotedStringN) ----

  function HexDigit(n: nat): byte
    requires n < 16
  {
    if n < 10 then 0x30 + n else 0x61 + (n - 10)
  }

  /** Four lower-case hexadecimal digits of the low 16 bits. Entry `b` of the source's digit-pair
      table holds the digits of `b / 16` and `b % 16`. */
  function ToHex16Bit(x: nat): bytes {
    var hi, lo := x / 256 % 256, x % 256;
    [HexDigit(hi / 16), HexDigit(hi % 16), HexDigit(lo / 16), HexDigit(lo % 16)]
  }

  function UnicodeEscape(x: nat): bytes {
    [BACKSLASH, LETTER_U] + ToHex16Bit(x)
  }

  /** The two halves the writer makes of a code point outside the Basic Multilingual Plane. */
  function HighHalf(cp: nat): nat
    requires cp >= 0x10000
  {
    (cp - 0x10000) / 1024 + 0xD800
  }

  function LowHalf(cp: nat): nat
    requires cp >= 0x10000
  {
    (cp - 0x10000) % 1024 + 0xDC00
  }

  function EscapedCodePoint(cp: nat): bytes {
    if 0x20 <= cp < 0x80 then [cp]
    else if cp < 0x10000 then UnicodeEscape(cp)
    else UnicodeEscape(HighHalf(cp)) + UnicodeEscape(LowHalf(cp))
  }

  /** The letter of the two-character escape for `c`, or 0. */
  function ShortEscape(c: byte): byte {
    match c
    case 0x22 => QUOTE
    case 0x5C => BACKSLASH
    case 0x08 => 0x62
    case 0x0C => 0x66
    case 0x0A => 0x6E
    case 0x0D => 0x72
    case 0x09 => 0x74
    case _ => 0
  }

  /** What one turn of the escape loop appends for the text that remains. */
  function EscapedChar(s: bytes): bytes
    requires s != []
  {
    if ShortEscape(s[0]) != 0 then [BACKSLASH, ShortEscape(s[0])]
    else EscapedCodePoint(Utf8ToCodepoint(s).cp)
  }

  /** How many bytes that turn consumes. */
  function CharLength(s: bytes): (n: nat)
    requires s != []
    ensures 1 <= n <= |s|
  {
    if ShortEscape(s[0]) != 0 then 1 else Utf8ToCodepoint(s).extra + 1
  }

  function EscapedBody(s: bytes): bytes {
    if s == [] then [] else EscapedChar(s) + EscapedBody(s[CharLength(s)..])
  }

  function Quoted(s: bytes): bytes {
    [QUOTE] + EscapedBody(s) + [QUOTE]
  }

  /** The test on one byte that decides whether the escape loop runs. `char` is signed. */
  predicate NeedsQuoting(c: byte) {
    c == BACKSLASH || c == QUOTE || SignedChar(c) < 0x20 || c < 0x80
  }

  method IsAnyCharRequiredQuoting(s: bytes) returns (required: bool)
    ensures required <==> exists k :: 0 <= k < |s| && NeedsQuoting(s[k])
  {
    required := false;
    var cur := 0;
    while cur < |s| && !required
      invariant cur <= |s|
      invariant required <==> exists k :: 0 <= k < cur && NeedsQuoting(s[k])
      decreases |s| - cur
    {
      required := NeedsQuoting(s[cur]);
      cur := cur + 1;
    }
  }

  /** The last comparison is `< 0x80` where `>= 0x80` would be expected, so the fast path is taken
      for the empty string only. */
  lemma FastPathOnlyWhenEmpty(s: bytes)
    ensures (exists k :: 0 <= k < |s| && NeedsQuoting(s[k])) <==> s != []
  {
    if s != [] {
      assert NeedsQuoting(s[0]);
    }
  }

  method AppendCodePoint(text: bytes, codePoint: nat) returns (result: bytes)
    ensures result == text + EscapedCodePoint(codePoint)
  {
    var cp := codePoint;
    result := text;
    if cp < 0x80 && cp >= 0x20 {
      result := result + [cp];
    } else if cp < 0x10000 {
      result := result + [BACKSLASH, LETTER_U];
      result := result + ToHex16Bit(cp);
    } else {
      cp := cp - 0x10000;
      result := result + [BACKSLASH, LETTER_U];
      result := result + ToHex16Bit(cp / 1024 + 0xD800);
      result := result + [BACKSLASH, LETTER_U];
      result := result + ToHex16Bit(cp % 1024 + 0xDC00);
    }
  }

  /** One turn of the escape loop, at the byte `value[i]`. */
  method EscapeNext(value: bytes, i: nat, text: bytes) returns (c: nat, result: bytes)
    requires i < |value|
    ensures c == i + CharLength(value[i..])
    ensures result == text + EscapedChar(value[i..])
  {
    c := i;
    var short := ShortEscape(value[c]);
    if short != 0 {
      result := text + [BACKSLASH, short];
    } else {
      var decoded := Utf8ToCodepoint(value[c..]);
      c := c + decoded.extra;
      result := AppendCodePoint(text, decoded.cp);
    }
    c := c + 1;
  }

  lemma EscapedBodyStep(value: bytes, i: nat, text: bytes)
    requires i < |value|
    ensures var c := i + CharLength(value[i..]);
            text + EscapedChar(value[i..]) + EscapedBody(value[c..]) == text + EscapedBody(value[i..])
  {
    var rest := value[i..];
    assert value[i + CharLength(rest)..] == rest[CharLength(rest)..];
  }

  lemma EmptyBody()
    ensures EscapedBody([]) == []
  {
  }

  /** `value` is the string's own bytes; in memory a NUL byte follows them. */
  method ValueToQuotedStringN(value: bytes) returns (result: bytes)
    ensures result == Quoted(value)
  {
    hide EscapedBody;
    EmptyBody();
    var required := IsAnyCharRequiredQuoting(value);
    FastPathOnlyWhenEmpty(value);
    if !required {
      return [QUOTE] + value + [QUOTE];
    }
    result := [QUOTE];
    var c := 0;
    while c != |value|
      invariant c <= |value|
      invariant result + EscapedBody(value[c..]) == [QUOTE] + EscapedBody(value)
      decreases |value| - c
    {
      EscapedBodyStep(value, c, result);
      c, result := EscapeNext(value, c, result);
    }
    assert value[c..] == [];
    result := result + [QUOTE];
  }

  // ---- Lexing (readString) ----

  datatype StringScan = StringScan(ok: bool, end: nat)

  /** Where the lexer stops when it starts at `p`, just after an opening quote, and whether it
      stopped at a closing quote. */
  function ScanString(doc: bytes, p: nat): (r: StringScan)
    requires p <= |doc|
    ensures p <= r.end <= |doc|
    ensures r.ok ==> p < r.end && doc[r.end - 1] == QUOTE
    decreases |doc| - p
  {
    if p == |doc| then StringScan(false, p)
    else if doc[p] == BACKSLASH then
      if p + 1 == |doc| then StringScan(false, p + 1) else ScanString(doc, p + 2)
    else if doc[p] == QUOTE then StringScan(true, p + 1)
    else ScanString(doc, p + 1)
  }

  // ---- Unescaping (decodeString) ----

  datatype StringError =
    | EmptyEscape
    | BadEscape
    | FourDigitsExpected
    | HexDigitExpected
    | SixCharactersExpected
    | SecondHalfExpected

  datatype CodePoint =
    | CodePoint(cp: nat, next: nat)
    | BadCodePoint(error: StringError, at: nat)

  function HexValue(c: byte): int {
    if 0x30 <= c <= 0x39 then c - 0x30
    else if 0x61 <= c <= 0x66 then c - 0x61 + 10
    else if 0x41 <= c <= 0x46 then c - 0x41 + 10
    else -1
  }

  /** The value of the hexadecimal digits from `i` to `stop`, after the digits of `acc`. */
  function HexDigits(doc: bytes, i: nat, stop: nat, acc: nat): (r: CodePoint)
    requires i <= stop <= |doc|
    ensures r.CodePoint? ==> r.next == stop && forall k :: i <= k < stop ==> HexValue(doc[k]) >= 0
    ensures r.BadCodePoint? ==> r.error == HexDigitExpected && i < r.at <= stop
    decreases stop - i
  {
    if i == stop then CodePoint(acc, i)
    else if HexValue(doc[i]) < 0 then BadCodePoint(HexDigitExpected, i + 1)
    else HexDigits(doc, i + 1, stop, acc * 16 + HexValue(doc[i]))
  }

  function DecodeUnicodeEscapeSequence(doc: bytes, i: nat, end: nat): CodePoint
    requires i <= end <= |doc|
  {
    if end - i < 4 then BadCodePoint(FourDigitsExpected, i)
    else HexDigits(doc, i, i + 4, 0)
  }

  function DecodeUnicodeCodePoint(doc: bytes, i: nat, end: nat): (r: CodePoint)
    requires i <= end <= |doc|
    ensures r.CodePoint? ==> i < r.next <= end
    ensures r.BadCodePoint? ==> r.error != EmptyEscape && i <= r.at <= end
  {
    var first := DecodeUnicodeEscapeSequence(doc, i, end);
    if first.CodePoint? && 0xD800 <= first.cp <= 0xDBFF then
      var j := first.next;
      if end - j < 6 then BadCodePoint(SixCharactersExpected, j)
      else if doc[j] == BACKSLASH && doc[j + 1] == LETTER_U then
        var second := DecodeUnicodeEscapeSequence(doc, j + 2, end);
        if second.CodePoint? then
          CodePoint(0x10000 + first.cp % 1024 * 1024 + second.cp % 1024, second.next)
        else second
      else BadCodePoint(SecondHalfExpected, if doc[j] == BACKSLASH then j + 2 else j + 1)
    else first
  }

  /** How the decoding loop can end: at `end`, at an unescaped quote, or with an error. The first two
      return true to the caller. */
  datatype StringResult =
    | Text(text: bytes)
    | CutAtQuote(text: bytes, at: nat)
    | BadString(error: StringError, at: nat)

  /** The byte a two-character escape stands for, or -1. */
  function Unescape(c: byte): (r: int)
    ensures -1 <= r < 256
  {
    match c
    case 0x22 => 0x22
    case 0x2F => 0x2F
    case 0x5C => 0x5C
    case 0x62 => 0x08
    case 0x66 => 0x0C
    case 0x6E => 0x0A
    case 0x72 => 0x0D
    case 0x74 => 0x09
    case _ => -1
  }

  function DecodeFrom(doc: bytes, i: nat, end: nat, acc: bytes): (r: StringResult)
    requires i <= end <= |doc|
    ensures !r.Text? ==> i <= r.at <= end
    decreases end - i
  {
    if i == end then Text(acc)
    else if doc[i] == QUOTE then CutAtQuote(acc, i)
    else if doc[i] != BACKSLASH then DecodeFrom(doc, i + 1, end, acc + [doc[i]])
    else if i + 1 == end then BadString(EmptyEscape, i + 1)
    else if doc[i + 1] == LETTER_U then
      var r := DecodeUnicodeCodePoint(doc, i + 2, end);
      if r.CodePoint? then DecodeFrom(doc, r.next, end, acc + CodePointToUtf8(r.cp))
      else BadString(r.error, r.at)
    else if Unescape(doc[i + 1]) >= 0 then DecodeFrom(doc, i + 2, end, acc + [Unescape(doc[i + 1])])
    else BadString(BadEscape, i + 2)
  }

  /** The text of the string token that occupies `start..end` of the document, quotes included. */
  function DecodeString(doc: bytes, start: nat, end: nat): StringResult
    requires start + 2 <= end <= |doc|
  {
    DecodeFrom(doc, start + 1, end - 1, [])
  }

  method DecodeUnicodeEscapeSequenceLoop(doc: bytes, start: nat, end: nat) returns (r: CodePoint)
    requires start <= end <= |doc|
    ensures r == DecodeUnicodeEscapeSequence(doc, start, end)
  {
    if end - start < 4 {
      return BadCodePoint(FourDigitsExpected, start);
    }
    var current, unicode: nat := start, 0;
    for index := 0 to 4
      invariant current == start + index
      invariant HexDigits(doc, current, start + 4, unicode) == HexDigits(doc, start, start + 4, 0)
    {
      var c := doc[current];
      current := current + 1;
      unicode := unicode * 16;
      if 0x30 <= c <= 0x39 {
        unicode := unicode + (c - 0x30);
      } else if 0x61 <= c <= 0x66 {
        unicode := unicode + (c - 0x61 + 10);
      } else if 0x41 <= c <= 0x46 {
        unicode := unicode + (c - 0x41 + 10);
      } else {
        return BadCodePoint(HexDigitExpected, current);
      }
    }
    return CodePoint(unicode, current);
  }

  method ReadUnicodeCodePoint(doc: bytes, start: nat, end: nat) returns (r: CodePoint)
    requires start <= end <= |doc|
    ensures r == DecodeUnicodeCodePoint(doc, start, end)
  {
    hide HexDigits;
    r := DecodeUnicodeEscapeSequenceLoop(doc, start, end);
    if r.BadCodePoint? {
      return;
    }
    var unicode, current := r.cp, r.next;
    if 0xD800 <= unicode <= 0xDBFF {
      if end - current < 6 {
        return BadCodePoint(SixCharactersExpected, current);
      }
      current := current + 1;
      if doc[current - 1] == BACKSLASH {
        current := current + 1;
        if doc[current - 1] == LETTER_U {
          var surrogatePair := DecodeUnicodeEscapeSequenceLoop(doc, current, end);
          if surrogatePair.BadCodePoint? {
            return surrogatePair;
          }
          unicode := 0x10000 + unicode % 1024 * 1024 + surrogatePair.cp % 1024;
          return CodePoint(unicode, surrogatePair.next);
        }
      }
      return BadCodePoint(SecondHalfExpected, current);
    }
  }

  method DecodeStringLoop(doc: bytes, start: nat, tokenEnd: nat) returns (r: StringResult)
    requires start + 2 <= tokenEnd <= |doc|
    ensures r == DecodeString(doc, start, tokenEnd)
  {
    hide DecodeUnicodeCodePoint, CodePointToUtf8, Unescape;
    var decoded: bytes := [];
    var current, end := start + 1, tokenEnd - 1;
    while current != end
      invariant start + 1 <= current <= end
      invariant DecodeFrom(doc, current, end, decoded) == DecodeFrom(doc, start + 1, end, [])
      decreases end - current
    {
      var c := doc[current];
      current := current + 1;
      if c == QUOTE {
        return CutAtQuote(decoded, current - 1);
      } else if c == BACKSLASH {
        if current == end {
          return BadString(EmptyEscape, current);
        }
        var escape := doc[current];
        current := current + 1;
        if escape == LETTER_U {
          var unicode := ReadUnicodeCodePoint(doc, current, end);
          if unicode.BadCodePoint? {
            return BadString(unicode.error, unicode.at);
          }
          current := unicode.next;
          decoded := decoded + CodePointToUtf8(unicode.cp);
        } else if Unescape(escape) >= 0 {
          decoded := decoded + [Unescape(escape)];
        } else {
          return BadString(BadEscape, current);
        }
      } else {
        decoded := decoded + [c];
      }
    }
    return Text(decoded);
  }
}
