/** The reader's tokens for every spelling of strings and numbers that the grammar of RFC 8259 has. */
module JsonSpelling {
  import opened Bytes
  import opened Utf8
  import opened JsonValue
  import opened JsonString
  import opened JsonStringLaws
  import opened JsonNumber
  import opened JsonLexer
  import opened JsonGrammar
  import opened JsonTokens
  import opened JsonText

  // ---- Strings ----

  lemma {:induction false} PositionIs(s: string, c: byte, k: nat)
    requires k < |s| && s[k] as int == c && forall j :: 0 <= j < k ==> s[j] as int != c
    ensures Position(s, c) == k
  {
    if k > 0 {
      PositionIs(s[1..], c, k - 1);
    }
  }

  lemma {:induction false} NoPosition(s: string, c: byte)
    requires forall j :: 0 <= j < |s| ==> s[j] as int != c
    ensures Position(s, c) == |s|
  {
    if s != [] {
      NoPosition(s[1..], c);
    }
  }

  lemma LowerHexAt(k: nat)
    requires k < 16
    ensures LOWER_HEX[k] as int == if k < 10 then 0x30 + k else 0x57 + k
  {
  }

  lemma UpperHexAt(k: nat)
    requires k < 16
    ensures UPPER_HEX[k] as int == if k < 10 then 0x30 + k else 0x37 + k
  {
  }

  lemma LowerHex(c: byte)
    ensures Position(LOWER_HEX, c)
            == if 0x30 <= c <= 0x39 then c - 0x30 else if 0x61 <= c <= 0x66 then c - 0x57 else 16
  {
    hide Position;
    forall k: nat | k < 16
      ensures LOWER_HEX[k] as int == if k < 10 then 0x30 + k else 0x57 + k
    {
      LowerHexAt(k);
    }
    if 0x30 <= c <= 0x39 {
      PositionIs(LOWER_HEX, c, c - 0x30);
    } else if 0x61 <= c <= 0x66 {
      PositionIs(LOWER_HEX, c, c - 0x57);
    } else {
      NoPosition(LOWER_HEX, c);
    }
  }

  lemma UpperHex(c: byte)
    ensures Position(UPPER_HEX, c)
            == if 0x30 <= c <= 0x39 then c - 0x30 else if 0x41 <= c <= 0x46 then c - 0x37 else 16
  {
    hide Position;
    forall k: nat | k < 16
      ensures UPPER_HEX[k] as int == if k < 10 then 0x30 + k else 0x37 + k
    {
      UpperHexAt(k);
    }
    if 0x30 <= c <= 0x39 {
      PositionIs(UPPER_HEX, c, c - 0x30);
    } else if 0x41 <= c <= 0x46 {
      PositionIs(UPPER_HEX, c, c - 0x37);
    } else {
      NoPosition(UPPER_HEX, c);
    }
  }

  /** The reader gives every byte the value it has as a hexadecimal digit. */
  lemma HexValueIs(c: byte)
    ensures HexValue(c) == if HexMeaning(c) < 16 then HexMeaning(c) else -1
  {
    hide Position;
    LowerHex(c);
    UpperHex(c);
  }

  /** The reader knows the eight two-character escapes and what they stand for. */
  lemma UnescapeIs(letter: byte)
    ensures Unescape(letter) == if ValidShort(letter) then ShortMeaning(letter) else -1
  {
    hide Position;
    var k := match letter
      case 0x22 => 0 case 0x5C => 1 case 0x2F => 2 case 0x62 => 3 case 0x66 => 4 case 0x6E => 5 case 0x72 => 6
      case 0x74 => 7 case _ => 8;
    if k < 8 {
      PositionIs(SHORT_LETTERS, letter, k);
    } else {
      NoPosition(SHORT_LETTERS, letter);
    }
  }

  lemma HexDigitsNext(doc: bytes, i: nat, stop: nat, acc: nat)
    requires i < stop <= |doc| && HexMeaning(doc[i]) < 16
    ensures HexDigits(doc, i, stop, acc) == HexDigits(doc, i + 1, stop, acc * 16 + HexMeaning(doc[i]))
  {
    hide HexMeaning;
    HexValueIs(doc[i]);
  }

  lemma FourDigits(doc: bytes, i: nat, end: nat, d: bytes)
    requires ValidHex(d) && At(doc, i, d) && i + 4 <= end <= |doc|
    ensures DecodeUnicodeEscapeSequence(doc, i, end) == CodePoint(HexNumber(d), i + 4)
  {
    hide HexMeaning, HexValue;
    AtByte(doc, i, d, 0);
    AtByte(doc, i, d, 1);
    AtByte(doc, i, d, 2);
    AtByte(doc, i, d, 3);
    var h0, h1, h2, h3 := HexMeaning(d[0]), HexMeaning(d[1]), HexMeaning(d[2]), HexMeaning(d[3]);
    HexDigitsNext(doc, i, i + 4, 0);
    HexDigitsNext(doc, i + 1, i + 4, h0);
    HexDigitsNext(doc, i + 2, i + 4, h0 * 16 + h1);
    HexDigitsNext(doc, i + 3, i + 4, (h0 * 16 + h1) * 16 + h2);
  }

  lemma HexEscapeStands(doc: bytes, i: nat, d: bytes)
    requires At(doc, i, [BACKSLASH, LETTER_U] + d)
    ensures doc[i] == BACKSLASH && doc[i + 1] == LETTER_U && At(doc, i + 2, d)
  {
    AtByte(doc, i, [BACKSLASH, LETTER_U] + d, 0);
    AtByte(doc, i, [BACKSLASH, LETTER_U] + d, 1);
    AtSplit(doc, i, [BACKSLASH, LETTER_U], d);
  }

  lemma PairArithmetic(h: nat, l: nat)
    requires 0xD800 <= h <= 0xDBFF && 0xDC00 <= l <= 0xDFFF
    ensures 0x10000 + h % 1024 * 1024 + l % 1024 == 0x10000 + (h - 0xD800) * 1024 + (l - 0xDC00)
  {
  }

  lemma DecodePairText(doc: bytes, i: nat, e: nat, high: bytes, low: bytes)
    requires ValidChar(Pair(high, low)) && At(doc, i, CharBytes(Pair(high, low))) && i + 12 <= e <= |doc|
    ensures doc[i] == BACKSLASH && doc[i + 1] == LETTER_U
    ensures DecodeUnicodeCodePoint(doc, i + 2, e)
            == CodePoint(0x10000 + (HexNumber(high) - 0xD800) * 1024 + (HexNumber(low) - 0xDC00), i + 12)
  {
    hide HexNumber, DecodeUnicodeEscapeSequence, At;
    AtSplit(doc, i, [BACKSLASH, LETTER_U] + high, [BACKSLASH, LETTER_U] + low);
    HexEscapeStands(doc, i, high);
    HexEscapeStands(doc, i + 6, low);
    FourDigits(doc, i + 2, e, high);
    FourDigits(doc, i + 8, e, low);
    PairArithmetic(HexNumber(high), HexNumber(low));
  }

  lemma DecodeHexText(doc: bytes, i: nat, e: nat, digits: bytes)
    requires ValidChar(Hex(digits)) && At(doc, i, CharBytes(Hex(digits))) && i + 6 <= e <= |doc|
    ensures doc[i] == BACKSLASH && doc[i + 1] == LETTER_U
    ensures DecodeUnicodeCodePoint(doc, i + 2, e) == CodePoint(HexNumber(digits), i + 6)
  {
    hide HexNumber, DecodeUnicodeEscapeSequence;
    HexEscapeStands(doc, i, digits);
    FourDigits(doc, i + 2, e, digits);
  }

  /** Each spelling of a character decodes to what it denotes. */
  lemma DecodeChar(doc: bytes, i: nat, e: nat, acc: bytes, c: CharText)
    requires ValidChar(c) && At(doc, i, CharBytes(c)) && i + |CharBytes(c)| <= e <= |doc|
    ensures DecodeFrom(doc, i, e, acc) == DecodeFrom(doc, i + |CharBytes(c)|, e, acc + CharDenoted(c))
  {
    hide DecodeUnicodeCodePoint, HexNumber, CodePointToUtf8, Unescape, ShortMeaning, ValidShort, HexMeaning, Position;
    match c {
      case Raw(b) => AtByte(doc, i, [b], 0);
      case Short(letter) =>
        AtByte(doc, i, [BACKSLASH, letter], 0);
        AtByte(doc, i, [BACKSLASH, letter], 1);
        ShortIsNoUnicode(letter);
      case Hex(digits) => DecodeHexText(doc, i, e, digits);
      case Pair(high, low) => DecodePairText(doc, i, e, high, low);
    }
  }

  lemma ShortIsNoUnicode(letter: byte)
    requires ValidShort(letter)
    ensures letter != LETTER_U && Unescape(letter) == ShortMeaning(letter)
  {
    hide ShortMeaning, ValidShort;
    UnescapeIs(letter);
  }

  lemma {:induction false} DecodeChars(doc: bytes, i: nat, e: nat, acc: bytes, cs: seq<CharText>)
    requires ValidChars(cs) && At(doc, i, CharsBytes(cs)) && e == i + |CharsBytes(cs)| <= |doc|
    ensures DecodeFrom(doc, i, e, acc) == Text(acc + CharsDenoted(cs))
    decreases |cs|
  {
    hide DecodeFrom, CharBytes, CharDenoted, ValidChar;
    if cs == [] {
      DecodeAtEnd(doc, i, acc);
    } else {
      AtSplit(doc, i, CharBytes(cs[0]), CharsBytes(cs[1..]));
      DecodeChar(doc, i, e, acc, cs[0]);
      DecodeChars(doc, i + |CharBytes(cs[0])|, e, acc + CharDenoted(cs[0]), cs[1..]);
      assert acc + CharDenoted(cs[0]) + CharsDenoted(cs[1..]) == acc + (CharDenoted(cs[0]) + CharsDenoted(cs[1..]));
    }
  }

  lemma HexIsNoMark(c: byte)
    requires HexMeaning(c) < 16
    ensures c != QUOTE && c != BACKSLASH
  {
    hide HexMeaning;
    HexValueIs(c);
  }

  lemma HexIsOrdinary(doc: bytes, i: nat, e: nat, d: bytes)
    requires ValidHex(d) && At(doc, i, [BACKSLASH, LETTER_U] + d) && i + 6 <= e <= |doc| && Aligned(doc, i + 6, e)
    ensures Aligned(doc, i, e)
  {
    hide HexMeaning;
    HexEscapeStands(doc, i, d);
    AtByte(doc, i + 2, d, 0);
    AtByte(doc, i + 2, d, 1);
    AtByte(doc, i + 2, d, 2);
    AtByte(doc, i + 2, d, 3);
    HexIsNoMark(d[0]);
    HexIsNoMark(d[1]);
    HexIsNoMark(d[2]);
    HexIsNoMark(d[3]);
    assert Aligned(doc, i + 5, e) && Aligned(doc, i + 4, e) && Aligned(doc, i + 3, e) && Aligned(doc, i + 2, e);
  }

  lemma AlignedChar(doc: bytes, i: nat, e: nat, c: CharText)
    requires ValidChar(c) && At(doc, i, CharBytes(c)) && i + |CharBytes(c)| <= e <= |doc|
    requires Aligned(doc, i + |CharBytes(c)|, e)
    ensures Aligned(doc, i, e)
  {
    hide HexMeaning, HexNumber, ValidShort, ShortMeaning, Position, At;
    match c {
      case Raw(b) => AtByte(doc, i, [b], 0);
      case Short(letter) => AtByte(doc, i, [BACKSLASH, letter], 0);
      case Hex(digits) => HexIsOrdinary(doc, i, e, digits);
      case Pair(high, low) =>
        AtSplit(doc, i, [BACKSLASH, LETTER_U] + high, [BACKSLASH, LETTER_U] + low);
        HexIsOrdinary(doc, i + 6, e, low);
        HexIsOrdinary(doc, i, e, high);
    }
  }

  lemma {:induction false} AlignedChars(doc: bytes, i: nat, e: nat, cs: seq<CharText>)
    requires ValidChars(cs) && At(doc, i, CharsBytes(cs)) && e == i + |CharsBytes(cs)| <= |doc|
    ensures Aligned(doc, i, e)
    decreases |cs|
  {
    hide CharBytes, ValidChar;
    if cs != [] {
      AtSplit(doc, i, CharBytes(cs[0]), CharsBytes(cs[1..]));
      AlignedChars(doc, i + |CharBytes(cs[0])|, e, cs[1..]);
      AlignedChar(doc, i, e, cs[0]);
    }
  }

  lemma StringTextParts(doc: bytes, p: nat, cs: seq<CharText>)
    requires At(doc, p, StringBytes(cs))
    ensures var e := p + 1 + |CharsBytes(cs)|;
            && |StringBytes(cs)| == |CharsBytes(cs)| + 2 && e < |doc|
            && doc[p] == QUOTE && At(doc, p + 1, CharsBytes(cs)) && doc[e] == QUOTE
  {
    hide CharsBytes, At;
    AtHead(doc, p, StringBytes(cs));
    assert StringBytes(cs)[1..] == CharsBytes(cs) + [QUOTE];
    AtSplit(doc, p + 1, CharsBytes(cs), [QUOTE]);
    AtByte(doc, p + 1 + |CharsBytes(cs)|, [QUOTE], 0);
  }

  /** A string in any spelling is one token, which decodes to what it denotes. */
  lemma ReadStringText(doc: bytes, p: nat, cs: seq<CharText>)
    requires ValidChars(cs) && At(doc, p, StringBytes(cs))
    ensures var t := Token(StringToken, p, p + |StringBytes(cs)|);
            ReadToken(doc, p) == NextToken(doc, p) == t && t.start + 2 <= t.end
            && DecodeStringToken(doc, t) == Plain(CharsDenoted(cs))
  {
    hide CharsBytes, CharsDenoted, ValidChars, ScanString, ReadToken, NextToken, DecodeFrom, At, StringBytes, Aligned;
    var e := p + 1 + |CharsBytes(cs)|;
    StringTextParts(doc, p, cs);
    AlignedChars(doc, p + 1, e, cs);
    AlignedIsScanned(doc, p + 1, e);
    ReadStringToken(doc, p, e + 1);
    DecodeChars(doc, p + 1, e, [], cs);
    assert [] + CharsDenoted(cs) == CharsDenoted(cs);
  }

  // ---- Numbers ----

  /** No digit stands at `q`. */
  predicate NoDigit(doc: bytes, q: nat) {
    q >= |doc| || !Digit(doc[q])
  }

  lemma {:induction false} SkipDigitRun(doc: bytes, p: nat, d: bytes)
    requires AllDigits(d) && At(doc, p, d) && NoDigit(doc, p + |d|)
    ensures SkipDigits(doc, p) == p + |d|
    decreases |d|
  {
    if d != [] {
      AtHead(doc, p, d);
      SkipDigitRun(doc, p + 1, d[1..]);
    }
  }

  lemma DigitsAreDigits(d: bytes)
    requires SomeDigits(d)
    ensures d != [] && AllDigits(d)
  {
  }

  lemma FirstDigit(doc: bytes, p: nat, d: bytes)
    requires SomeDigits(d) && At(doc, p, d)
    ensures p < |doc| && Digit(doc[p])
  {
    AtByte(doc, p, d, 0);
  }

  /** A run of digits with or without a sign. */
  lemma SkipSigned(doc: bytes, p: nat, sign: bytes, d: bytes)
    requires IsSign(sign) && SomeDigits(d)
    requires At(doc, p, sign + d) && NoDigit(doc, p + |sign| + |d|)
    ensures p < |doc|
    ensures (sign != [] <==> doc[p] == 0x2B || doc[p] == 0x2D)
    ensures SkipDigits(doc, p + |sign|) == p + |sign| + |d|
  {
    hide SkipDigits, At, SomeDigits;
    AtSplit(doc, p, sign, d);
    FirstDigit(doc, p + |sign|, d);
    DigitsAreDigits(d);
    SkipDigitRun(doc, p + |sign|, d);
    if sign != [] {
      AtByte(doc, p, sign, 0);
    }
  }

  ghost predicate ValidExponent(x: Exponent) {
    (x.mark == 0x65 || x.mark == 0x45) && IsSign(x.sign) && SomeDigits(x.digits)
  }

  lemma StopIsNoDigit(doc: bytes, q: nat)
    requires Stops(doc, q)
    ensures NoDigit(doc, q)
  {
  }

  lemma SkipSomeExponent(doc: bytes, p: nat, x: Exponent)
    requires ValidExponent(x)
    requires At(doc, p, [x.mark] + (x.sign + x.digits)) && NoDigit(doc, p + 1 + |x.sign| + |x.digits|)
    ensures SkipExponent(doc, p) == p + 1 + |x.sign| + |x.digits|
    ensures p < |doc| && (doc[p] == 0x65 || doc[p] == 0x45)
  {
    hide SkipDigits, NoDigit, SomeDigits, At;
    AtHead(doc, p, [x.mark] + (x.sign + x.digits));
    assert ([x.mark] + (x.sign + x.digits))[1..] == x.sign + x.digits;
    SkipSigned(doc, p + 1, x.sign, x.digits);
  }

  /** Where an exponent, or its absence, ends. */
  lemma SkipExponentText(doc: bytes, p: nat, e: Option<Exponent>)
    requires e.Some? ==> ValidExponent(e.value)
    requires At(doc, p, ExponentBytes(e)) && Stops(doc, p + |ExponentBytes(e)|)
    ensures SkipExponent(doc, p) == p + |ExponentBytes(e)|
    ensures NoDigit(doc, p) && (p < |doc| ==> doc[p] != 0x2E)
  {
    hide SkipDigits, ValidExponent, At;
    StopIsNoDigit(doc, p + |ExponentBytes(e)|);
    if e.Some? {
      hide SkipExponent;
      SkipSomeExponent(doc, p, e.value);
    }
  }

  lemma SkipFractionText(doc: bytes, p: nat, f: Option<bytes>)
    requires f.Some? ==> SomeDigits(f.value)
    requires At(doc, p, FractionBytes(f)) && NoDigit(doc, p + |FractionBytes(f)|)
    requires p + |FractionBytes(f)| < |doc| ==> doc[p + |FractionBytes(f)|] != 0x2E
    ensures SkipFraction(doc, p) == p + |FractionBytes(f)| && NoDigit(doc, p)
  {
    hide SkipDigits, At;
    if f.Some? {
      AtHead(doc, p, [0x2E] + f.value);
      assert ([0x2E] + f.value)[1..] == f.value;
      SkipDigitRun(doc, p + 1, f.value);
    }
  }

  /** The digits of a number, its fraction and its exponent. */
  lemma ScanNumberText(doc: bytes, p: nat, d: bytes, f: Option<bytes>, e: Option<Exponent>)
    requires AllDigits(d) && (f.Some? ==> SomeDigits(f.value))
    requires e.Some? ==> ValidExponent(e.value)
    requires var t := d + (FractionBytes(f) + ExponentBytes(e)); At(doc, p, t) && Stops(doc, p + |t|)
    ensures ScanNumber(doc, p) == p + |d| + |FractionBytes(f)| + |ExponentBytes(e)|
  {
    hide SkipDigits, SkipFraction, SkipExponent, FractionBytes, ExponentBytes, Stops;
    var q := p + |d|;
    AtSplit(doc, p, d, FractionBytes(f) + ExponentBytes(e));
    AtSplit(doc, q, FractionBytes(f), ExponentBytes(e));
    SkipExponentText(doc, q + |FractionBytes(f)|, e);
    SkipFractionText(doc, q, f);
    SkipDigitRun(doc, p, d);
  }

  /** A number in any spelling is one token. */
  lemma ReadNumberText(doc: bytes, p: nat, n: NumberText)
    requires ValidNumber(n) && At(doc, p, NumberBytes(n)) && Stops(doc, p + |NumberBytes(n)|)
    ensures ReadToken(doc, p) == Token(NumberToken, p, p + |NumberBytes(n)|) && NumberBytes(n) != []
  {
    hide FractionBytes, ExponentBytes, Stops, ScanNumber, ScanString, ScanComment, Word;
    var rest := FractionBytes(n.fraction) + ExponentBytes(n.exponent);
    var digits := if n.minus then n.digits else n.digits[1..];
    assert NumberBytes(n)[1..] == digits + rest;
    AtHead(doc, p, NumberBytes(n));
    ScanNumberText(doc, p + 1, digits, n.fraction, n.exponent);
    ReadHere(doc, p);
  }

  lemma NotAllDigits(t: bytes, k: nat)
    requires k < |t| && !Digit(t[k])
    ensures !AllDigits(t)
  {
  }

  /** A token with a fraction or an exponent is no integer. */
  lemma FractionIsNoInteger(n: NumberText)
    requires ValidNumber(n) && (n.fraction.Some? || n.exponent.Some?)
    ensures DecodeInteger(NumberBytes(n)) == NotAnInteger
  {
    var t := NumberBytes(n);
    var m := Magnitude(t);
    assert Digit(n.digits[0]);
    assert m == n.digits + (FractionBytes(n.fraction) + ExponentBytes(n.exponent));
    assert !Digit(m[|n.digits|]);
    NotAllDigits(m, |n.digits|);
  }

  lemma IntegerText(n: NumberText)
    requires ValidNumber(n) && n.fraction.None? && n.exponent.None?
    ensures var t := NumberBytes(n); Negative(t) == n.minus && Magnitude(t) == n.digits
  {
    assert Digit(n.digits[0]);
  }

  lemma {:induction false} LastDigitCounts(d: bytes)
    requires d != [] && AllDigits(d)
    ensures DecimalMeaning(d) == DecimalMeaning(d[..|d| - 1]) * 10 + (d[|d| - 1] - 0x30)
  {
    var n := |d| - 1;
    var front, rest := d[..n], d[1..];
    FirstDigitCounts(d);
    if n == 0 {
      OneDigit(d[0]);
      assert d == [d[0]] && front == [];
    } else {
      hide DecimalMeaning, TenTo;
      LastDigitCounts(rest);
      assert rest[..n - 1] == front[1..] && rest[n - 1] == d[n];
      FirstDigitCounts(front);
      TenTimes(d[0] - 0x30, n);
    }
  }

  lemma FirstDigitCounts(d: bytes)
    requires d != [] && AllDigits(d)
    ensures DecimalMeaning(d) == (d[0] - 0x30) * TenTo(|d| - 1) + DecimalMeaning(d[1..])
  {
    hide TenTo;
  }

  lemma OneDigit(c: byte)
    requires Digit(c)
    ensures DecimalMeaning([c]) == c - 0x30 && DecimalMeaning([]) == 0
  {
    assert TenTo(0) == 1;
  }

  lemma TenTimes(a: nat, n: nat)
    requires n > 0
    ensures a * TenTo(n) == 10 * (a * TenTo(n - 1))
  {
    Associate(a, TenTo(n - 1));
  }

  lemma Associate(a: nat, t: nat)
    ensures a * (10 * t) == 10 * (a * t)
  {
  }

  /** The library's reading of a digit string, one digit after the other, gives the number it denotes. */
  lemma {:induction false} DecimalIs(d: bytes)
    requires AllDigits(d)
    ensures DecValue(d) == DecimalMeaning(d)
    decreases |d|
  {
    if d != [] {
      DecimalIs(d[..|d| - 1]);
      LastDigitCounts(d);
    }
  }

  function Unsigned(t: bytes): bytes {
    if t != [] && t[0] == 0x2D then t[1..] else t
  }

  predicate OnlyDigits(t: bytes) {
    forall k :: 0 <= k < |t| ==> 0x30 <= t[k] <= 0x39
  }

  /** What any token decodes to: an integer exactly if it is an optional minus and digits, be they none, and
      the magnitude is at most 2^64 - 1, or 2^63 behind a minus; unsigned above 2^31 - 1. */
  lemma DecodesExactly(t: bytes)
    ensures var d := Unsigned(t);
            var negative := t != [] && t[0] == 0x2D;
            DecodeInteger(t)
            == if !OnlyDigits(d) then NotAnInteger
               else if DecimalMeaning(d) > (if negative then 0x8000_0000_0000_0000 else 0xFFFF_FFFF_FFFF_FFFF)
                 then NotAnInteger
               else if negative then IntNumber(-(DecimalMeaning(d) as int))
               else if DecimalMeaning(d) <= 0x7FFF_FFFF then IntNumber(DecimalMeaning(d))
               else UIntNumber(DecimalMeaning(d))
  {
    hide DecValue, DecimalMeaning;
    if OnlyDigits(Unsigned(t)) {
      DecimalIs(Unsigned(t));
    }
  }

  /** Its token decodes to what it denotes. */
  lemma DecodeNumberText(scan: RealScanner, doc: bytes, p: nat, n: NumberText, old_: Value)
    requires ValidNumber(n) && (IsInteger(n) || scan(NumberBytes(n)).Some?)
    requires At(doc, p, NumberBytes(n)) && NumberBytes(n) != []
    ensures var q := p + |NumberBytes(n)|;
            DecodeNumberToken(scan, doc, Token(NumberToken, p, q), old_) == Done(q, NumberDenoted(scan, n))
  {
    hide NumberBytes, DecValue, DecimalMeaning;
    if n.fraction.Some? || n.exponent.Some? {
      FractionIsNoInteger(n);
    } else {
      IntegerText(n);
      DecimalIs(n.digits);
    }
  }
}
