/** The lexer recognises everything the writer prints, wherever it stands in a document. */
module JsonTokens {
  import opened Bytes
  import opened JsonString
  import opened JsonStringLaws
  import opened JsonNumber
  import opened JsonWriter
  import opened JsonLexer
  import opened JsonGrammar

  /** A number token that ends at `q` does not run on: nothing follows, or a byte of no number. */
  predicate Stops(doc: bytes, q: nat) {
    q == |doc| || (q < |doc| && !Digit(doc[q]) && doc[q] !in [0x2E, 0x45, 0x65])
  }

  lemma AtHead(doc: bytes, p: nat, s: bytes)
    requires s != [] && At(doc, p, s)
    ensures p < |doc| && doc[p] == s[0] && At(doc, p + 1, s[1..])
  {
    assert doc[p..p + |s|][0] == doc[p];
    assert doc[p..p + |s|][1..] == doc[p + 1..p + |s|];
  }

  lemma AtByte(doc: bytes, p: nat, s: bytes, k: nat)
    requires At(doc, p, s) && k < |s|
    ensures p + k < |doc| && doc[p + k] == s[k]
  {
    assert doc[p..p + |s|][k] == doc[p + k];
  }

  lemma ReadHere(doc: bytes, p: nat)
    requires p < |doc| && !Space(doc[p])
    ensures ReadToken(doc, p) == TokenAt(doc, p)
  {
    hide TokenAt;
  }

  predicate Mark(c: byte, kind: TokenKind) {
    match kind
    case ArraySeparator => c == COMMA
    case MemberSeparator => c == COLON
    case ArrayBegin => c == LBRACKET
    case ArrayEnd => c == RBRACKET
    case ObjectBegin => c == LBRACE
    case ObjectEnd => c == RBRACE
    case _ => false
  }

  lemma Marks()
    ensures Mark(COMMA, ArraySeparator) && Mark(COLON, MemberSeparator) && Mark(LBRACKET, ArrayBegin)
    ensures Mark(RBRACKET, ArrayEnd) && Mark(LBRACE, ObjectBegin) && Mark(RBRACE, ObjectEnd)
  {
  }

  /** Punctuation is one token, and no comment. */
  lemma ReadMark(doc: bytes, p: nat, c: byte, rest: bytes, kind: TokenKind)
    requires At(doc, p, [c] + rest)
    requires Mark(c, kind)
    ensures ReadToken(doc, p) == NextToken(doc, p) == Token(kind, p, p + 1)
    ensures At(doc, p + 1, rest)
  {
    hide ScanString, ScanComment, ScanNumber, Word;
    AtHead(doc, p, [c] + rest);
    ReadHere(doc, p);
  }

  lemma ReadStringToken(doc: bytes, p: nat, q: nat)
    requires p < |doc| && doc[p] == QUOTE && ScanString(doc, p + 1) == StringScan(true, q)
    ensures ReadToken(doc, p) == NextToken(doc, p) == Token(StringToken, p, q)
  {
    hide ScanString, ScanComment, ScanNumber, Word;
    ReadHere(doc, p);
  }

  lemma ReadQuoted(doc: bytes, p: nat, s: bytes)
    requires At(doc, p, Quoted(s))
    ensures var t := Token(StringToken, p, p + |Quoted(s)|);
            ReadToken(doc, p) == NextToken(doc, p) == t && t.start + 2 <= t.end
            && DecodeStringToken(doc, t) == Plain(Repaired(s))
  {
    hide EscapedBody, ScanString, ReadToken, NextToken, DecodeString, Repaired;
    ScanQuoted(doc, p, s);
    ReadStringToken(doc, p, p + |Quoted(s)|);
    DecodeQuoted(doc, p, s);
  }

  lemma ReadWord(doc: bytes, p: nat, word: bytes, kind: TokenKind)
    requires At(doc, p, word)
    requires (word, kind) in [(NULL_TEXT, NullToken), (TRUE_TEXT, TrueToken), (FALSE_TEXT, FalseToken)]
    ensures ReadToken(doc, p) == Token(kind, p, p + |word|)
  {
    hide ScanString, ScanComment, ScanNumber;
    AtHead(doc, p, word);
    ReadHere(doc, p);
  }

  lemma {:induction false} SkipAllDigits(doc: bytes, p: nat, q: nat)
    requires p <= q <= |doc| && AllDigits(doc[p..q]) && Stops(doc, q)
    ensures SkipDigits(doc, p) == q
    decreases q - p
  {
    if p < q {
      assert doc[p] == doc[p..q][0];
      assert doc[p + 1..q] == doc[p..q][1..];
      SkipAllDigits(doc, p + 1, q);
    }
  }

  lemma ScanDigits(doc: bytes, p: nat, q: nat)
    requires p <= q <= |doc| && AllDigits(doc[p..q]) && Stops(doc, q)
    ensures ScanNumber(doc, p) == q
  {
    SkipAllDigits(doc, p, q);
  }

  lemma SignedDecimalShape(v: int)
    ensures var t := SignedDecimal(v);
            t != [] && AllDigits(t[1..]) && (Digit(t[0]) || t[0] == MINUS)
  {
    DecimalDenotes(if v < 0 then -v else v);
  }

  lemma ReadDecimal(doc: bytes, p: nat, v: int)
    requires At(doc, p, SignedDecimal(v)) && Stops(doc, p + |SignedDecimal(v)|)
    ensures ReadToken(doc, p) == Token(NumberToken, p, p + |SignedDecimal(v)|)
  {
    var t := SignedDecimal(v);
    SignedDecimalShape(v);
    hide SignedDecimal, ScanString, ScanComment, Word, SkipDigits;
    AtHead(doc, p, t);
    assert doc[p + 1..p + |t|] == t[1..];
    ScanDigits(doc, p + 1, p + |t|);
    hide ScanNumber;
    ReadHere(doc, p);
  }
}
