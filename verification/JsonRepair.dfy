/** Which strings survive being written and read back: exactly the well-formed UTF-8 ones. */
module JsonRepair {
  import opened Bytes
  import opened Utf8
  import opened JsonString
  import opened JsonStringLaws

  lemma ValidHead(s: bytes)
    requires Utf8Width(s) > 0
    ensures CharLength(s) == Utf8Width(s)
    ensures RepairedCodePoint(Utf8ToCodepoint(s).cp) == s[..Utf8Width(s)]
  {
    DecodeWellFormed(s);
    hide Utf8ToCodepoint, CodePointToUtf8;
    if ShortEscape(s[0]) != 0 {
      ShortEscapeRoundTrip(s[0]);
    }
  }

  // ---- Malformed characters do not come back ----

  lemma MalformedTwo(s: bytes)
    requires s != [] && Utf8Width(s) == 0 && 0x80 <= s[0] < 0xE0
    ensures !(RepairedCodePoint(Utf8ToCodepoint(s).cp) <= s)
  {
    if |s| >= 2 {
      var r := CodePointToUtf8(Utf8ToCodepoint(s).cp);
      assert r[0] == s[0] ==> r[1] != s[1];
    }
  }

  lemma MalformedThree(s: bytes)
    requires s != [] && Utf8Width(s) == 0 && 0xE0 <= s[0] < 0xF0
    ensures !(RepairedCodePoint(Utf8ToCodepoint(s).cp) <= s)
  {
    var cp := Utf8ToCodepoint(s).cp;
    var r := CodePointToUtf8(cp);
    if |s| >= 3 && r <= s {
      assert r[0] == s[0] && r[1] == s[1] && r[2] == s[2];
      if cp != REPLACEMENT_CHARACTER {
        var h: nat, m, l := s[0] - 0xE0, Low6(s[1]), Low6(s[2]);
        assert cp == h * 4096 + m * 64 + l by {
          hide CodePointToUtf8;
          assert s[0] % 16 == h;
        }
        hide CodePointToUtf8, Utf8ToCodepoint;
        Encode3(h, m, l);
      }
    }
  }

  lemma MalformedFour(s: bytes)
    requires |s| >= 4 && Utf8Width(s) == 0 && 0xF0 <= s[0] < 0xF8
    requires 0x10000 <= Utf8ToCodepoint(s).cp <= 0x10FFFF
    ensures !(CodePointToUtf8(Utf8ToCodepoint(s).cp) <= s)
  {
    var cp := Utf8ToCodepoint(s).cp;
    var r := CodePointToUtf8(cp);
    if r <= s {
      assert |r| == 4 && r[0] == s[0] && r[1] == s[1] && r[2] == s[2] && r[3] == s[3];
      var h: nat, m, l, z := s[0] - 0xF0, Low6(s[1]), Low6(s[2]), Low6(s[3]);
      assert cp == h * 262144 + m * 4096 + l * 64 + z by {
        hide CodePointToUtf8;
        assert s[0] % 8 == h;
      }
      hide CodePointToUtf8, Utf8ToCodepoint;
      Encode4(h, m, l, z);
    }
  }

  /** A surrogate code point, as the encoder writes it, starts with 0xED. */
  lemma EncodeSurrogate(cp: nat)
    requires 0xD800 <= cp <= 0xDFFF
    ensures var s := CodePointToUtf8(cp); |s| == 3 && s[0] == 0xED && 0xA0 <= s[1] <= 0xBF && Tail(s[2])
  {
    var m, l := cp / 64 - 0x340, cp % 64;
    assert 0x20 <= m < 0x40 && cp == 0xD * 4096 + m * 64 + l;
    hide CodePointToUtf8;
    Encode3(0xD, m, l);
  }

  lemma HalvesOutOfRange(cp: nat)
    requires 0x110000 <= cp < 0x200000
    ensures 0xDC00 <= HighHalf(cp) <= 0xDFFF && 0xDC00 <= LowHalf(cp) <= 0xDFFF
  {
  }

  /** The repaired form of a malformed character is not what the string begins with. */
  lemma MalformedHead(s: bytes)
    requires s != [] && Utf8Width(s) == 0
    ensures !(RepairedCodePoint(Utf8ToCodepoint(s).cp) <= s)
  {
    var cp := Utf8ToCodepoint(s).cp;
    if s[0] < 0xE0 {
      MalformedTwo(s);
    } else if s[0] < 0xF0 {
      MalformedThree(s);
    } else if cp == REPLACEMENT_CHARACTER {
      assert CodePointToUtf8(cp)[0] == 0xEF;
    } else if cp <= 0x10FFFF {
      MalformedFour(s);
    } else {
      CodepointRange(s);
      HalvesOutOfRange(cp);
      EncodeSurrogate(HighHalf(cp));
    }
  }

  lemma {:induction false} ValidIsKept(s: bytes)
    requires ValidUtf8(s)
    ensures Repaired(s) == s
  {
    hide Utf8ToCodepoint, RepairedCodePoint, Utf8Width;
    if s != [] {
      ValidHead(s);
      ValidIsKept(s[Utf8Width(s)..]);
      assert s == s[..Utf8Width(s)] + s[Utf8Width(s)..];
    }
  }

  lemma {:induction false} KeptIsValid(s: bytes)
    requires Repaired(s) == s
    ensures ValidUtf8(s)
  {
    if s != [] {
      var r := RepairedCodePoint(Utf8ToCodepoint(s).cp);
      hide Utf8ToCodepoint, RepairedCodePoint, Utf8Width;
      assert r <= s;
      if Utf8Width(s) == 0 {
        MalformedHead(s);
      }
      ValidHead(s);
      assert s[Utf8Width(s)..] == Repaired(s[Utf8Width(s)..]);
      KeptIsValid(s[Utf8Width(s)..]);
    }
  }

  /** String round trip: reading back the token printed for `s` gives `s` itself exactly when `s` is
      well-formed UTF-8 (embedded NULs and code points above U+FFFF included). */
  lemma StringRoundTrip(s: bytes)
    ensures DecodeString(Quoted(s), 0, |Quoted(s)|) == Text(s) <==> ValidUtf8(s)
  {
    hide EscapedBody, Repaired, DecodeFrom, ValidUtf8;
    assert At(Quoted(s), 0, Quoted(s));
    DecodeQuoted(Quoted(s), 0, s);
    if ValidUtf8(s) {
      ValidIsKept(s);
    }
    if Repaired(s) == s {
      KeptIsValid(s);
    }
  }

  // ---- Twice repaired is valid ----

  /** Like `Utf8Width`, but a surrogate in three-byte form is a character too. */
  function LooseWidth(s: bytes): (k: nat)
    ensures k <= |s|
  {
    if |s| >= 3 && s[0] == 0xED && 0xA0 <= s[1] <= 0xBF && Tail(s[2]) then 3 else Utf8Width(s)
  }

  ghost predicate LooseUtf8(s: bytes) {
    s == [] || (LooseWidth(s) > 0 && LooseUtf8(s[LooseWidth(s)..]))
  }

  lemma LooseConsSurrogate(cp: nat, t: bytes)
    requires 0xD800 <= cp <= 0xDFFF && LooseUtf8(t)
    ensures LooseUtf8(CodePointToUtf8(cp) + t)
  {
    EncodeSurrogate(cp);
    hide CodePointToUtf8, Utf8Width;
    assert (CodePointToUtf8(cp) + t)[3..] == t;
  }

  lemma LooseConsScalar(cp: nat, t: bytes)
    requires Scalar(cp) && LooseUtf8(t)
    ensures LooseUtf8(CodePointToUtf8(cp) + t)
  {
    EncodeScalar(cp, t);
    var c := CodePointToUtf8(cp);
    assert |c| > 0;
    assert (c + t)[|c|..] == t;
  }

  lemma {:induction false} RepairedIsLoose(s: bytes)
    ensures LooseUtf8(Repaired(s))
  {
    if s != [] {
      var cp := Utf8ToCodepoint(s).cp;
      var rest := Repaired(s[CharLength(s)..]);
      RepairedIsLoose(s[CharLength(s)..]);
      CodepointRange(s);
      hide Utf8ToCodepoint, LooseUtf8, CodePointToUtf8, CharLength;
      if cp <= 0x10FFFF {
        LooseConsScalar(cp, rest);
      } else {
        HalvesOutOfRange(cp);
        LooseConsSurrogate(LowHalf(cp), rest);
        LooseConsSurrogate(HighHalf(cp), CodePointToUtf8(LowHalf(cp)) + rest);
        assert CodePointToUtf8(HighHalf(cp)) + (CodePointToUtf8(LowHalf(cp)) + rest)
            == CodePointToUtf8(HighHalf(cp)) + CodePointToUtf8(LowHalf(cp)) + rest;
      }
    }
  }

  lemma ValidConsScalar(cp: nat, t: bytes)
    requires Scalar(cp) && ValidUtf8(t)
    ensures ValidUtf8(CodePointToUtf8(cp) + t)
  {
    EncodeScalar(cp, t);
    var c := CodePointToUtf8(cp);
    assert |c| > 0;
    assert (c + t)[|c|..] == t;
  }

  lemma {:induction false} LooseIsRepairedToValid(s: bytes)
    requires LooseUtf8(s)
    ensures ValidUtf8(Repaired(s))
  {
    if s != [] {
      var k := LooseWidth(s);
      if Utf8Width(s) > 0 {
        ValidHead(s);
        DecodeWellFormed(s);
      } else {
        assert Utf8ToCodepoint(s) == Decoded(REPLACEMENT_CHARACTER, 2);
      }
      var cp := Utf8ToCodepoint(s).cp;
      assert Scalar(cp) && CharLength(s) == k;
      hide Utf8ToCodepoint, Utf8Width, ValidUtf8, CodePointToUtf8;
      LooseIsRepairedToValid(s[k..]);
      ValidConsScalar(cp, Repaired(s[k..]));
    }
  }

  /** Whatever goes in, writing and reading twice gives well-formed UTF-8. */
  lemma TwiceRepairedIsValid(s: bytes)
    ensures ValidUtf8(Repaired(Repaired(s)))
  {
    RepairedIsLoose(s);
    LooseIsRepairedToValid(Repaired(s));
  }

  // ---- Once repaired is valid ----

  /** No character of the string decodes to a number above U+10FFFF, where the writer splits what is no
      code point into two surrogates. */
  ghost predicate WithinUnicode(s: bytes) {
    s == [] || (Utf8ToCodepoint(s).cp <= 0x10FFFF && WithinUnicode(s[CharLength(s)..]))
  }

  lemma BeyondUnicodeIsInvalid(cp: nat, t: bytes)
    requires 0x110000 <= cp < 0x200000
    ensures !ValidUtf8(RepairedCodePoint(cp) + t)
  {
    hide CodePointToUtf8, HighHalf, LowHalf;
    HalvesOutOfRange(cp);
    EncodeSurrogate(HighHalf(cp));
    var r := RepairedCodePoint(cp) + t;
    assert r[0] == 0xED && r[1] == CodePointToUtf8(HighHalf(cp))[1];
  }

  lemma ValidAfterScalar(cp: nat, t: bytes)
    requires Scalar(cp)
    ensures ValidUtf8(CodePointToUtf8(cp) + t) <==> ValidUtf8(t)
  {
    hide CodePointToUtf8, Utf8ToCodepoint, Utf8Width;
    EncodeScalar(cp, t);
    var c := CodePointToUtf8(cp);
    assert (c + t)[|c|..] == t;
    ScalarIsNotEmpty(cp);
  }

  lemma ScalarIsNotEmpty(cp: nat)
    requires Scalar(cp)
    ensures |CodePointToUtf8(cp)| > 0
  {
  }

  /** One trip is enough for exactly these strings. */
  lemma {:induction false} OnceRepairedIsValid(s: bytes)
    ensures ValidUtf8(Repaired(s)) <==> WithinUnicode(s)
  {
    if s != [] {
      hide Utf8ToCodepoint, CharLength, ValidUtf8, CodePointToUtf8, HighHalf, LowHalf;
      var cp := Utf8ToCodepoint(s).cp;
      var rest := Repaired(s[CharLength(s)..]);
      CodepointRange(s);
      OnceRepairedIsValid(s[CharLength(s)..]);
      if cp > 0x10FFFF {
        BeyondUnicodeIsInvalid(cp, rest);
      } else {
        ValidAfterScalar(cp, rest);
      }
    }
  }
}
