/** Exactly which string tokens the reader decodes, and to what. */
module JsonEscapes {
  import opened Bytes
  import opened Utf8
  import opened JsonString
  import opened JsonStringLaws
  import opened JsonText
  import opened JsonSpelling

  /** The characters the reader takes: those of RFC 8259, and a high surrogate escape followed by any other
      escape of four hexadecimal digits, of which it uses the low ten bits. */
  predicate Admitted(c: CharText) {
    match c
    case Pair(high, low) => ValidHex(high) && 0xD800 <= HexNumber(high) <= 0xDBFF && ValidHex(low)
    case _ => ValidChar(c)
  }

  function Meaning(c: CharText): bytes
    requires Admitted(c)
  {
    match c
    case Pair(high, low) => CodePointToUtf8(0x10000 + (HexNumber(high) - 0xD800) * 1024 + HexNumber(low) % 1024)
    case _ => CharDenoted(c)
  }

  predicate AllAdmitted(cs: seq<CharText>) {
    forall k :: 0 <= k < |cs| ==> Admitted(cs[k])
  }

  function AllMeaning(cs: seq<CharText>): bytes
    requires AllAdmitted(cs)
  {
    if cs == [] then [] else Meaning(cs[0]) + AllMeaning(cs[1..])
  }

  lemma LowTenBits(low: nat)
    requires 0xDC00 <= low <= 0xDFFF
    ensures low % 1024 == low - 0xDC00
  {
  }

  /** A character of RFC 8259 means what it denotes there. */
  lemma ValidIsAdmitted(c: CharText)
    requires ValidChar(c)
    ensures Admitted(c) && Meaning(c) == CharDenoted(c)
  {
    hide HexNumber, ValidHex, CodePointToUtf8;
    if c.Pair? {
      LowTenBits(HexNumber(c.low));
    }
  }

  // ---- What is admitted is decoded ----

  lemma TenBits(high: nat, low: nat)
    requires 0xD800 <= high <= 0xDBFF
    ensures 0x10000 + high % 1024 * 1024 + low % 1024 == 0x10000 + (high - 0xD800) * 1024 + low % 1024
  {
  }

  lemma DecodeAdmittedPair(doc: bytes, i: nat, e: nat, high: bytes, low: bytes)
    requires Admitted(Pair(high, low)) && At(doc, i, CharBytes(Pair(high, low))) && i + 12 <= e <= |doc|
    ensures doc[i] == BACKSLASH && doc[i + 1] == LETTER_U
    ensures DecodeUnicodeCodePoint(doc, i + 2, e)
            == CodePoint(0x10000 + (HexNumber(high) - 0xD800) * 1024 + HexNumber(low) % 1024, i + 12)
  {
    hide HexNumber, DecodeUnicodeEscapeSequence, At;
    AtSplit(doc, i, [BACKSLASH, LETTER_U] + high, [BACKSLASH, LETTER_U] + low);
    HexEscapeStands(doc, i, high);
    HexEscapeStands(doc, i + 6, low);
    FourDigits(doc, i + 2, e, high);
    FourDigits(doc, i + 8, e, low);
    TenBits(HexNumber(high), HexNumber(low));
  }

  lemma DecodeAdmitted(doc: bytes, i: nat, e: nat, acc: bytes, c: CharText)
    requires Admitted(c) && At(doc, i, CharBytes(c)) && i + |CharBytes(c)| <= e <= |doc|
    ensures DecodeFrom(doc, i, e, acc) == DecodeFrom(doc, i + |CharBytes(c)|, e, acc + Meaning(c))
  {
    hide DecodeUnicodeCodePoint, HexNumber, CodePointToUtf8, Unescape, ShortMeaning, ValidShort, HexMeaning;
    if c.Pair? {
      DecodeAdmittedPair(doc, i, e, c.high, c.low);
    } else {
      DecodeChar(doc, i, e, acc, c);
    }
  }

  lemma {:induction false} DecodeAllAdmitted(doc: bytes, i: nat, e: nat, acc: bytes, cs: seq<CharText>)
    requires AllAdmitted(cs) && At(doc, i, CharsBytes(cs)) && e == i + |CharsBytes(cs)| <= |doc|
    ensures DecodeFrom(doc, i, e, acc) == Text(acc + AllMeaning(cs))
    decreases |cs|
  {
    hide DecodeFrom, CharBytes, Meaning, Admitted;
    if cs == [] {
      DecodeAtEnd(doc, i, acc);
    } else {
      AtSplit(doc, i, CharBytes(cs[0]), CharsBytes(cs[1..]));
      DecodeAdmitted(doc, i, e, acc, cs[0]);
      DecodeAllAdmitted(doc, i + |CharBytes(cs[0])|, e, acc + Meaning(cs[0]), cs[1..]);
      assert acc + Meaning(cs[0]) + AllMeaning(cs[1..]) == acc + (Meaning(cs[0]) + AllMeaning(cs[1..]));
    }
  }

  // ---- What is decoded is admitted ----

  lemma DecodedHex(doc: bytes, i: nat, end: nat)
    requires i <= end <= |doc| && DecodeUnicodeEscapeSequence(doc, i, end).CodePoint?
    ensures i + 4 <= end && ValidHex(doc[i..i + 4])
    ensures DecodeUnicodeEscapeSequence(doc, i, end) == CodePoint(HexNumber(doc[i..i + 4]), i + 4)
  {
    hide HexMeaning, HexNumber, HexValue;
    var d := doc[i..i + 4];
    forall k | 0 <= k < 4
      ensures HexMeaning(d[k]) < 16
    {
      assert d[k] == doc[i + k] && HexValue(doc[i + k]) >= 0;
      HexValueIs(d[k]);
    }
    FourDigits(doc, i, end, d);
  }

  /** The character an escape of four digits stands for, with the second half if there is one. */
  function UnicodeChar(doc: bytes, i: nat, end: nat): CharText
    requires i + 6 <= end <= |doc| && ValidHex(doc[i + 2..i + 6])
  {
    var high := doc[i + 2..i + 6];
    if 0xD800 <= HexNumber(high) <= 0xDBFF && i + 12 <= end then Pair(high, doc[i + 8..i + 12]) else Hex(high)
  }

  lemma DecodedUnicode(doc: bytes, i: nat, end: nat)
    requires i + 2 <= end <= |doc| && doc[i] == BACKSLASH && doc[i + 1] == LETTER_U
    requires DecodeUnicodeCodePoint(doc, i + 2, end).CodePoint?
    ensures i + 6 <= end && ValidHex(doc[i + 2..i + 6])
    ensures var c := UnicodeChar(doc, i, end); Admitted(c) && At(doc, i, CharBytes(c)) && i + |CharBytes(c)| <= end
  {
    hide HexNumber, DecodeUnicodeEscapeSequence, ValidHex;
    DecodedHex(doc, i + 2, end);
    assert doc[i..i + 6] == [BACKSLASH, LETTER_U] + doc[i + 2..i + 6];
    var high := doc[i + 2..i + 6];
    if 0xD800 <= HexNumber(high) <= 0xDBFF {
      DecodedHex(doc, i + 8, end);
      assert doc[i..i + 12] == doc[i..i + 6] + ([BACKSLASH, LETTER_U] + doc[i + 8..i + 12]);
    }
  }

  /** The character the decoder takes at `i`. */
  lemma CharOf(doc: bytes, i: nat, end: nat, acc: bytes) returns (c: CharText)
    requires i < end <= |doc| && DecodeFrom(doc, i, end, acc).Text?
    ensures Admitted(c) && At(doc, i, CharBytes(c)) && i + |CharBytes(c)| <= end && CharBytes(c) != []
  {
    hide DecodeUnicodeCodePoint, HexNumber, CodePointToUtf8, Unescape, ShortMeaning, ValidShort, ValidHex;
    if doc[i] != BACKSLASH {
      c := Raw(doc[i]);
      assert doc[i..i + 1] == [doc[i]];
    } else if doc[i + 1] == LETTER_U {
      DecodedUnicode(doc, i, end);
      c := UnicodeChar(doc, i, end);
    } else {
      UnescapeIs(doc[i + 1]);
      c := Short(doc[i + 1]);
      assert doc[i..i + 2] == [BACKSLASH, doc[i + 1]];
    }
  }

  lemma {:induction false} CharsOf(doc: bytes, i: nat, end: nat, acc: bytes) returns (cs: seq<CharText>)
    requires i <= end <= |doc| && DecodeFrom(doc, i, end, acc).Text?
    ensures AllAdmitted(cs) && CharsBytes(cs) == doc[i..end]
    decreases end - i
  {
    hide DecodeFrom, CharBytes, Meaning, Admitted;
    if i == end {
      cs := [];
    } else {
      var c := CharOf(doc, i, end, acc);
      var j := i + |CharBytes(c)|;
      DecodeAdmitted(doc, i, end, acc, c);
      var rest := CharsOf(doc, j, end, acc + Meaning(c));
      cs := [c] + rest;
      assert cs[1..] == rest;
      assert doc[i..end] == doc[i..j] + doc[j..end];
    }
  }

  /** The body of a string token is decoded exactly if it is a run of admitted characters, and then to
      their meanings one after the other. */
  lemma DecodedExactly(doc: bytes, i: nat, end: nat, text: bytes)
    requires i <= end <= |doc|
    ensures DecodeFrom(doc, i, end, []) == Text(text)
            <==> exists cs :: AllAdmitted(cs) && CharsBytes(cs) == doc[i..end] && AllMeaning(cs) == text
  {
    hide DecodeFrom, CharsBytes, AllMeaning, AllAdmitted;
    if DecodeFrom(doc, i, end, []) == Text(text) {
      var cs := CharsOf(doc, i, end, []);
      DecodeAllAdmitted(doc, i, end, [], cs);
      assert [] + AllMeaning(cs) == AllMeaning(cs);
    }
    forall cs | AllAdmitted(cs) && CharsBytes(cs) == doc[i..end] && AllMeaning(cs) == text
      ensures DecodeFrom(doc, i, end, []) == Text(text)
    {
      DecodeAllAdmitted(doc, i, end, [], cs);
      assert [] + text == text;
    }
  }
}
