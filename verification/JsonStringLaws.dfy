/** What lexing and unescaping do to any document, and to what the writer prints. */
module JsonStringLaws {
  import opened Bytes
  import opened Utf8
  import opened JsonString

  // ---- Lexer and decoder agree ----

  /** `i..e` is a run of ordinary bytes and two-byte escapes: no bare quote, no cut escape. */
  ghost predicate Aligned(doc: bytes, i: nat, e: nat)
    requires i <= e <= |doc|
    decreases e - i
  {
    i == e
    || (doc[i] == BACKSLASH && i + 2 <= e && Aligned(doc, i + 2, e))
    || (doc[i] != BACKSLASH && doc[i] != QUOTE && Aligned(doc, i + 1, e))
  }

  lemma {:induction false} ScannedIsAligned(doc: bytes, p: nat)
    requires p <= |doc| && ScanString(doc, p).ok
    ensures Aligned(doc, p, ScanString(doc, p).end - 1)
    decreases |doc| - p
  {
    if doc[p] == BACKSLASH {
      ScannedIsAligned(doc, p + 2);
    } else if doc[p] != QUOTE {
      ScannedIsAligned(doc, p + 1);
    }
  }

  lemma {:induction false} AlignedIsScanned(doc: bytes, p: nat, e: nat)
    requires p <= e < |doc| && Aligned(doc, p, e) && doc[e] == QUOTE
    ensures ScanString(doc, p) == StringScan(true, e + 1)
    decreases e - p
  {
    if p < e {
      AlignedIsScanned(doc, if doc[p] == BACKSLASH then p + 2 else p + 1, e);
    }
  }

  lemma {:induction false} SkipOrdinary(doc: bytes, i: nat, j: nat, e: nat)
    requires i <= j <= e <= |doc| && Aligned(doc, i, e)
    requires forall k :: i <= k < j ==> doc[k] != BACKSLASH && doc[k] != QUOTE
    ensures Aligned(doc, j, e)
    decreases j - i
  {
    if i < j {
      SkipOrdinary(doc, i + 1, j, e);
    }
  }

  lemma AlignedAfterCodePoint(doc: bytes, i: nat, e: nat)
    requires i <= e <= |doc| && Aligned(doc, i, e)
    ensures var r := DecodeUnicodeCodePoint(doc, i, e); r.CodePoint? ==> Aligned(doc, r.next, e)
  {
    var r := DecodeUnicodeCodePoint(doc, i, e);
    if r.CodePoint? {
      SkipOrdinary(doc, i, i + 4, e);
      if r.next != i + 4 {
        assert Aligned(doc, i + 6, e);
        SkipOrdinary(doc, i + 6, i + 10, e);
      }
    }
  }

  lemma {:induction false} DecodeAligned(doc: bytes, i: nat, e: nat, acc: bytes)
    requires i <= e <= |doc| && Aligned(doc, i, e)
    ensures !DecodeFrom(doc, i, e, acc).CutAtQuote?
    ensures var r := DecodeFrom(doc, i, e, acc); r.BadString? ==> r.error != EmptyEscape
    decreases e - i
  {
    if i < e {
      if doc[i] != BACKSLASH {
        DecodeAligned(doc, i + 1, e, acc + [doc[i]]);
      } else if doc[i + 1] == LETTER_U {
        var r := DecodeUnicodeCodePoint(doc, i + 2, e);
        AlignedAfterCodePoint(doc, i + 2, e);
        if r.CodePoint? {
          DecodeAligned(doc, r.next, e, acc + CodePointToUtf8(r.cp));
        }
      } else if Unescape(doc[i + 1]) >= 0 {
        DecodeAligned(doc, i + 2, e, acc + [Unescape(doc[i + 1])]);
      }
    }
  }

  /** Whatever token the lexer accepts, in whatever document, the decoder never meets a bare quote
      or a cut escape inside it and never leaves it: it either consumes the token up to its closing
      quote or reports one of the other errors at a place inside the token. */
  lemma LexerAndDecoderAgree(doc: bytes, start: nat)
    requires start < |doc| && doc[start] == QUOTE && ScanString(doc, start + 1).ok
    ensures var end := ScanString(doc, start + 1).end;
            && start + 2 <= end
            && doc[end - 1] == QUOTE
            && match DecodeString(doc, start, end)
               case Text(_) => true
               case CutAtQuote(_, _) => false
               case BadString(error, at) => error != EmptyEscape && start + 1 <= at <= end - 1
  {
    var end := ScanString(doc, start + 1).end;
    ScannedIsAligned(doc, start + 1);
    DecodeAligned(doc, start + 1, end - 1, []);
  }

  // ---- The writer's output ----

  /** The text the reader gets back for one turn of the escape loop. */
  function RepairedCodePoint(cp: nat): bytes {
    if cp <= 0x10FFFF then CodePointToUtf8(cp)
    else CodePointToUtf8(HighHalf(cp)) + CodePointToUtf8(LowHalf(cp))
  }

  /** The string that survives writing and reading: malformed UTF-8 is replaced. */
  function Repaired(s: bytes): bytes {
    if s == [] then []
    else RepairedCodePoint(Utf8ToCodepoint(s).cp) + Repaired(s[CharLength(s)..])
  }

  lemma HexDigitValue(n: nat)
    requires n < 16
    ensures HexValue(HexDigit(n)) == n
    ensures 0x20 <= HexDigit(n) <= 0x7F && HexDigit(n) != QUOTE && HexDigit(n) != BACKSLASH
  {
  }

  lemma HexDigitsStep(doc: bytes, i: nat, stop: nat, acc: nat, n: nat)
    requires i < stop <= |doc| && n < 16 && doc[i] == HexDigit(n)
    ensures HexDigits(doc, i, stop, acc) == HexDigits(doc, i + 1, stop, acc * 16 + n)
  {
    HexDigitValue(n);
  }

  lemma Nibbles(x: nat)
    requires x < 0x10000
    ensures var hi, lo := x / 256 % 256, x % 256;
            ((hi / 16 * 16 + hi % 16) * 16 + lo / 16) * 16 + lo % 16 == x
  {
  }

  lemma HexRoundTrip(doc: bytes, i: nat, end: nat, x: nat)
    requires x < 0x10000 && At(doc, i, ToHex16Bit(x)) && i + 4 <= end <= |doc|
    ensures DecodeUnicodeEscapeSequence(doc, i, end) == CodePoint(x, i + 4)
  {
    var hi, lo := x / 256 % 256, x % 256;
    var t := ToHex16Bit(x);
    assert forall k :: 0 <= k < 4 ==> doc[i + k] == doc[i..i + 4][k] == t[k];
    assert doc[i] == t[0] && doc[i + 1] == t[1] && doc[i + 2] == t[2] && doc[i + 3] == t[3];
    HexDigitsStep(doc, i, i + 4, 0, hi / 16);
    HexDigitsStep(doc, i + 1, i + 4, hi / 16, hi % 16);
    HexDigitsStep(doc, i + 2, i + 4, hi / 16 * 16 + hi % 16, lo / 16);
    HexDigitsStep(doc, i + 3, i + 4, (hi / 16 * 16 + hi % 16) * 16 + lo / 16, lo % 16);
    Nibbles(x);
  }

  lemma EscapeStands(doc: bytes, i: nat, x: nat)
    requires At(doc, i, UnicodeEscape(x))
    ensures doc[i] == BACKSLASH && doc[i + 1] == LETTER_U && At(doc, i + 2, ToHex16Bit(x))
  {
    AtSplit(doc, i, [BACKSLASH, LETTER_U], ToHex16Bit(x));
    assert doc[i..i + 2][0] == doc[i] && doc[i..i + 2][1] == doc[i + 1];
  }

  /** A `\uXXXX` escape that is not a high surrogate gives one code point. */
  lemma DecodeOneEscape(doc: bytes, i: nat, e: nat, acc: bytes, x: nat)
    requires x < 0x10000 && !(0xD800 <= x <= 0xDBFF)
    requires At(doc, i, UnicodeEscape(x)) && i + 6 <= e <= |doc|
    ensures DecodeFrom(doc, i, e, acc) == DecodeFrom(doc, i + 6, e, acc + CodePointToUtf8(x))
  {
    EscapeStands(doc, i, x);
    HexRoundTrip(doc, i + 2, e, x);
  }

  lemma SurrogateArithmetic(cp: nat)
    requires 0x10000 <= cp <= 0x10FFFF
    ensures 0xD800 <= HighHalf(cp) <= 0xDBFF && 0xDC00 <= LowHalf(cp) <= 0xDFFF
    ensures 0x10000 + HighHalf(cp) % 1024 * 1024 + LowHalf(cp) % 1024 == cp
  {
    var h, l := (cp - 0x10000) / 1024, (cp - 0x10000) % 1024;
    assert h < 1024;
    assert (h + 0xD800) % 1024 == h && (l + 0xDC00) % 1024 == l;
  }

  lemma DecodePair(doc: bytes, i: nat, e: nat, cp: nat)
    requires 0x10000 <= cp <= 0x10FFFF && i + 12 <= e <= |doc|
    requires At(doc, i, UnicodeEscape(HighHalf(cp))) && At(doc, i + 6, UnicodeEscape(LowHalf(cp)))
    ensures DecodeUnicodeCodePoint(doc, i + 2, e) == CodePoint(cp, i + 12)
  {
    SurrogateArithmetic(cp);
    EscapeStands(doc, i, HighHalf(cp));
    EscapeStands(doc, i + 6, LowHalf(cp));
    HexRoundTrip(doc, i + 2, e, HighHalf(cp));
    HexRoundTrip(doc, i + 8, e, LowHalf(cp));
  }

  /** The code points the decoder of arbitrary bytes can produce. */
  lemma CodepointRange(s: bytes)
    requires s != []
    ensures var cp := Utf8ToCodepoint(s).cp; cp < 0x200000 && !(0xD800 <= cp <= 0xDFFF)
  {
    if s[0] < 0xE0 {
    } else if s[0] < 0xF0 {
    } else {
    }
  }

  /** Reading back what is printed for one code point. */
  lemma DecodeCodePoint(doc: bytes, i: nat, e: nat, acc: bytes, cp: nat)
    requires cp < 0x200000 && !(0xD800 <= cp <= 0xDFFF) && cp != QUOTE && cp != BACKSLASH
    requires At(doc, i, EscapedCodePoint(cp)) && i + |EscapedCodePoint(cp)| <= e <= |doc|
    ensures DecodeFrom(doc, i, e, acc)
            == DecodeFrom(doc, i + |EscapedCodePoint(cp)|, e, acc + RepairedCodePoint(cp))
  {
    if 0x20 <= cp < 0x80 {
      assert doc[i..i + 1][0] == doc[i];
    } else if cp < 0x10000 {
      DecodeOneEscape(doc, i, e, acc, cp);
    } else {
      var high, low := HighHalf(cp), LowHalf(cp);
      AtSplit(doc, i, UnicodeEscape(high), UnicodeEscape(low));
      if cp <= 0x10FFFF {
        DecodePair(doc, i, e, cp);
        EscapeStands(doc, i, high);
      } else {
        DecodeOneEscape(doc, i, e, acc, high);
        DecodeOneEscape(doc, i + 6, e, acc + CodePointToUtf8(high), low);
        assert acc + CodePointToUtf8(high) + CodePointToUtf8(low)
            == acc + (CodePointToUtf8(high) + CodePointToUtf8(low));
      }
    }
  }

  lemma ShortEscapeRoundTrip(c: byte)
    requires ShortEscape(c) != 0
    ensures c < 0x80 && ShortEscape(c) != LETTER_U && Unescape(ShortEscape(c)) == c
    ensures 0x20 <= ShortEscape(c) < 0x80
  {
  }

  lemma DecodeEscapedChar(doc: bytes, i: nat, e: nat, acc: bytes, s: bytes)
    requires s != [] && At(doc, i, EscapedChar(s)) && i + |EscapedChar(s)| <= e <= |doc|
    ensures DecodeFrom(doc, i, e, acc)
            == DecodeFrom(doc, i + |EscapedChar(s)|, e, acc + RepairedCodePoint(Utf8ToCodepoint(s).cp))
  {
    var short := ShortEscape(s[0]);
    if short != 0 {
      ShortEscapeRoundTrip(s[0]);
      assert doc[i..i + 2][0] == doc[i] && doc[i..i + 2][1] == doc[i + 1];
    } else {
      CodepointRange(s);
      DecodeCodePoint(doc, i, e, acc, Utf8ToCodepoint(s).cp);
    }
  }

  lemma EscapedBodySplit(doc: bytes, i: nat, s: bytes)
    requires s != [] && At(doc, i, EscapedBody(s))
    ensures var n := |EscapedChar(s)|;
            && At(doc, i, EscapedChar(s))
            && At(doc, i + n, EscapedBody(s[CharLength(s)..]))
            && n + |EscapedBody(s[CharLength(s)..])| == |EscapedBody(s)|
  {
    hide EscapedChar, CharLength, At;
    AtSplit(doc, i, EscapedChar(s), EscapedBody(s[CharLength(s)..]));
  }

  lemma DecodeAtEnd(doc: bytes, i: nat, acc: bytes)
    requires i <= |doc|
    ensures DecodeFrom(doc, i, i, acc) == Text(acc) == Text(acc + [])
  {
    assert acc + [] == acc;
  }

  lemma {:induction false} DecodeEscapedBody(doc: bytes, i: nat, e: nat, acc: bytes, s: bytes)
    requires At(doc, i, EscapedBody(s)) && e == i + |EscapedBody(s)| <= |doc|
    ensures DecodeFrom(doc, i, e, acc) == Text(acc + Repaired(s))
    decreases |s|
  {
    hide DecodeFrom, RepairedCodePoint, EscapedChar, Utf8ToCodepoint, CharLength;
    if s == [] {
      DecodeAtEnd(doc, i, acc);
    } else {
      var rest := s[CharLength(s)..];
      var repaired := RepairedCodePoint(Utf8ToCodepoint(s).cp);
      EscapedBodySplit(doc, i, s);
      DecodeEscapedChar(doc, i, e, acc, s);
      DecodeEscapedBody(doc, i + |EscapedChar(s)|, e, acc + repaired, rest);
      assert acc + repaired + Repaired(rest) == acc + (repaired + Repaired(rest));
    }
  }

  // ---- Its shape ----

  ghost predicate Printable(t: bytes) {
    forall k :: 0 <= k < |t| ==> 0x20 <= t[k] <= 0x7F
  }

  lemma HexShape(x: nat)
    ensures var t := ToHex16Bit(x);
            forall k :: 0 <= k < 4 ==> 0x20 <= t[k] <= 0x7F && t[k] != QUOTE && t[k] != BACKSLASH
  {
    HexDigitValue(x / 256 % 256 / 16);
    HexDigitValue(x / 256 % 256 % 16);
    HexDigitValue(x % 256 / 16);
    HexDigitValue(x % 256 % 16);
  }

  lemma AlignedEscape(doc: bytes, i: nat, e: nat, x: nat)
    requires At(doc, i, UnicodeEscape(x)) && i + 6 <= e <= |doc| && Aligned(doc, i + 6, e)
    ensures Aligned(doc, i, e) && Printable(UnicodeEscape(x))
  {
    EscapeStands(doc, i, x);
    HexShape(x);
    var t := ToHex16Bit(x);
    assert forall k :: 0 <= k < 4 ==> doc[i + 2 + k] == doc[i + 2..i + 6][k] == t[k];
    assert doc[i + 2] == t[0] && doc[i + 3] == t[1] && doc[i + 4] == t[2] && doc[i + 5] == t[3];
    assert Aligned(doc, i + 5, e) && Aligned(doc, i + 4, e) && Aligned(doc, i + 3, e);
  }

  lemma AlignedEscapedChar(doc: bytes, i: nat, e: nat, s: bytes)
    requires s != [] && At(doc, i, EscapedChar(s)) && i + |EscapedChar(s)| <= e <= |doc|
    requires Aligned(doc, i + |EscapedChar(s)|, e)
    ensures Aligned(doc, i, e) && Printable(EscapedChar(s))
  {
    if ShortEscape(s[0]) != 0 {
      ShortEscapeRoundTrip(s[0]);
      assert doc[i..i + 2][0] == doc[i];
    } else {
      var cp := Utf8ToCodepoint(s).cp;
      CodepointRange(s);
      if 0x20 <= cp < 0x80 {
        assert doc[i..i + 1][0] == doc[i];
      } else if cp < 0x10000 {
        AlignedEscape(doc, i, e, cp);
      } else {
        AtSplit(doc, i, UnicodeEscape(HighHalf(cp)), UnicodeEscape(LowHalf(cp)));
        AlignedEscape(doc, i + 6, e, LowHalf(cp));
        AlignedEscape(doc, i, e, HighHalf(cp));
      }
    }
  }

  lemma {:induction false} AlignedEscapedBody(doc: bytes, i: nat, e: nat, s: bytes)
    requires At(doc, i, EscapedBody(s)) && e == i + |EscapedBody(s)| <= |doc|
    ensures Aligned(doc, i, e) && Printable(EscapedBody(s))
    decreases |s|
  {
    hide EscapedChar, Utf8ToCodepoint, CharLength;
    if s != [] {
      var rest := s[CharLength(s)..];
      EscapedBodySplit(doc, i, s);
      AlignedEscapedBody(doc, i + |EscapedChar(s)|, e, rest);
      AlignedEscapedChar(doc, i, e, s);
    }
  }

  lemma QuotedSplit(doc: bytes, p: nat, s: bytes)
    requires At(doc, p, Quoted(s))
    ensures var e := p + 1 + |EscapedBody(s)|;
            && |Quoted(s)| == |EscapedBody(s)| + 2
            && doc[p] == QUOTE && At(doc, p + 1, EscapedBody(s)) && doc[e] == QUOTE
  {
    var body := EscapedBody(s);
    assert Quoted(s) == [QUOTE] + (body + [QUOTE]);
    AtSplit(doc, p, [QUOTE], body + [QUOTE]);
    AtSplit(doc, p + 1, body, [QUOTE]);
    var e := p + 1 + |body|;
    assert doc[p] == doc[p..p + 1][0] && doc[e] == doc[e..e + 1][0];
  }

  lemma ScanQuoted(doc: bytes, p: nat, s: bytes)
    requires At(doc, p, Quoted(s))
    ensures doc[p] == QUOTE
    ensures ScanString(doc, p + 1) == StringScan(true, p + |Quoted(s)|)
  {
    hide EscapedBody;
    var e := p + 1 + |EscapedBody(s)|;
    QuotedSplit(doc, p, s);
    AlignedEscapedBody(doc, p + 1, e, s);
    AlignedIsScanned(doc, p + 1, e);
  }

  lemma DecodeQuoted(doc: bytes, p: nat, s: bytes)
    requires At(doc, p, Quoted(s))
    ensures DecodeString(doc, p, p + |Quoted(s)|) == Text(Repaired(s))
  {
    hide EscapedBody, Repaired, DecodeFrom;
    var e := p + 1 + |EscapedBody(s)|;
    QuotedSplit(doc, p, s);
    DecodeEscapedBody(doc, p + 1, e, [], s);
    assert [] + Repaired(s) == Repaired(s);
  }

  lemma QuotedIsPrintable(s: bytes)
    ensures Printable(Quoted(s))
  {
    hide EscapedBody;
    var body := EscapedBody(s);
    assert At(body, 0, body);
    AlignedEscapedBody(body, 0, |body|, s);
  }

  /** Quoting is safe on any bytes, valid UTF-8 or not: only printable ASCII comes out, the lexer
      takes it for one token that ends at its last byte, and the decoder accepts it. */
  lemma QuotingIsSafe(s: bytes, before: bytes, after: bytes)
    ensures Printable(Quoted(s))
    ensures var doc, p := before + Quoted(s) + after, |before|;
            && doc[p] == QUOTE
            && ScanString(doc, p + 1) == StringScan(true, p + |Quoted(s)|)
            && DecodeString(doc, p, p + |Quoted(s)|) == Text(Repaired(s))
  {
    hide EscapedBody, Repaired, DecodeFrom, ScanString;
    var doc, p := before + Quoted(s) + after, |before|;
    assert At(doc, p, Quoted(s));
    ScanQuoted(doc, p, s);
    DecodeQuoted(doc, p, s);
    QuotedIsPrintable(s);
  }
}
