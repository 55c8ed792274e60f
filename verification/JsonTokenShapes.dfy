/** What the reader's tokens are, in the bytes of the document. */
module JsonTokenShapes {
  import opened Bytes
  import opened JsonString
  import opened JsonStringLaws
  import opened JsonLexer
  import opened JsonText

  // ---- White space ----

  /** The cursor stops at the first byte that is no white space. */
  lemma {:induction false} SkipsBlank(doc: bytes, p: nat)
    requires p <= |doc|
    ensures var q := SkipSpaces(doc, p);
            (forall k :: p <= k < q ==> BlankByte(doc[k])) && (q < |doc| ==> !BlankByte(doc[q]))
    decreases |doc| - p
  {
    if p < |doc| && Space(doc[p]) {
      SkipsBlank(doc, p + 1);
    }
  }

  lemma BlankThenToken(doc: bytes, p: nat, q: nat)
    requires p <= q <= |doc| && (forall k :: p <= k < q ==> BlankByte(doc[k])) && (q < |doc| ==> !BlankByte(doc[q]))
    ensures SkipSpaces(doc, p) == q
  {
    hide BlankByte;
    SkipsBlank(doc, p);
  }

  // ---- Numbers ----

  predicate IsDigit(doc: bytes, k: nat) {
    k < |doc| && 0x30 <= doc[k] <= 0x39
  }

  /** `p..q` is the longest run of digits from `p` on. */
  predicate DigitRun(doc: bytes, p: nat, q: nat) {
    p <= q <= |doc| && (forall k :: p <= k < q ==> IsDigit(doc, k)) && !IsDigit(doc, q)
  }

  predicate HasByte(doc: bytes, k: nat, c: byte) {
    k < |doc| && doc[k] == c
  }

  /** From `p` on stand digits up to `a`, then up to `b` a period and digits, or nothing, and then up to `q`
      an `e`, a sign or none, and digits, or nothing. Each run of digits may be empty. */
  predicate NumberParts(doc: bytes, p: nat, a: nat, b: nat, q: nat) {
    && DigitRun(doc, p, a)
    && (if HasByte(doc, a, 0x2E) then DigitRun(doc, a + 1, b) else b == a)
    && (if !HasByte(doc, b, 0x65) && !HasByte(doc, b, 0x45) then q == b
        else if HasByte(doc, b + 1, 0x2B) || HasByte(doc, b + 1, 0x2D) then DigitRun(doc, b + 2, q)
        else DigitRun(doc, b + 1, q))
  }

  ghost predicate NumberStands(doc: bytes, p: nat, q: nat) {
    exists a, b :: NumberParts(doc, p, a, b, q)
  }

  lemma {:induction false} DigitRunIs(doc: bytes, p: nat, q: nat)
    requires p <= |doc|
    ensures DigitRun(doc, p, q) <==> q == SkipDigits(doc, p)
    decreases |doc| - p
  {
    if IsDigit(doc, p) {
      DigitRunIs(doc, p + 1, q);
      assert DigitRun(doc, p, q) ==> q != p;
    }
  }

  lemma NumberEnds(doc: bytes, p: nat)
    requires p <= |doc|
    ensures var a := SkipDigits(doc, p);
            var b := SkipFraction(doc, a);
            NumberParts(doc, p, a, b, ScanNumber(doc, p))
  {
    hide SkipDigits, DigitRun;
    var a := SkipDigits(doc, p);
    var b := SkipFraction(doc, a);
    DigitRunIs(doc, p, a);
    if HasByte(doc, a, 0x2E) {
      DigitRunIs(doc, a + 1, b);
    }
    if b < |doc| {
      DigitRunIs(doc, b + 1, ScanNumber(doc, p));
      if b + 1 < |doc| {
        DigitRunIs(doc, b + 2, ScanNumber(doc, p));
      }
    }
  }

  lemma NumberEndsOnce(doc: bytes, p: nat, a: nat, b: nat, q: nat)
    requires p <= |doc| && NumberParts(doc, p, a, b, q)
    ensures q == ScanNumber(doc, p)
  {
    hide SkipDigits, DigitRun;
    DigitRunIs(doc, p, a);
    if HasByte(doc, a, 0x2E) {
      DigitRunIs(doc, a + 1, b);
    }
    if b < |doc| {
      DigitRunIs(doc, b + 1, q);
      if b + 1 < |doc| {
        DigitRunIs(doc, b + 2, q);
      }
    }
  }

  // ---- Comments ----

  /** An asterisk and a solidus. */
  predicate Closes(doc: bytes, k: nat) {
    HasByte(doc, k, 0x2A) && HasByte(doc, k + 1, 0x2F)
  }

  /** A C comment from `p` on ends behind the first asterisk and solidus; without one it takes the rest of
      the document, which must end in a solidus. */
  predicate CCommentEnds(doc: bytes, p: nat, q: nat) {
    || (p + 2 <= q <= |doc| && Closes(doc, q - 2) && forall k :: p <= k < q - 2 ==> !Closes(doc, k))
    || (p < q == |doc| && doc[q - 1] == 0x2F && forall k :: p <= k < |doc| ==> !Closes(doc, k))
  }

  lemma {:induction false} CCommentIs(doc: bytes, p: nat, q: nat)
    requires p <= |doc|
    ensures CCommentEnds(doc, p, q) <==> ScanCComment(doc, p) == StringScan(true, q)
    ensures !ScanCComment(doc, p).ok ==> ScanCComment(doc, p).end == |doc|
    decreases |doc| - p
  {
    hide HasByte;
    ClosesHere(doc, p);
    if p + 1 < |doc| && !Closes(doc, p) {
      CCommentIs(doc, p + 1, q);
      CCommentStep(doc, p, q);
    }
  }

  lemma ClosesHere(doc: bytes, p: nat)
    ensures Closes(doc, p) <==> p + 1 < |doc| && doc[p] == STAR && doc[p + 1] == SLASH
  {
  }

  lemma CCommentStep(doc: bytes, p: nat, q: nat)
    requires p + 1 < |doc| && !Closes(doc, p)
    ensures CCommentEnds(doc, p, q) <==> CCommentEnds(doc, p + 1, q)
  {
    hide Closes;
  }

  predicate LineEnd(doc: bytes, k: nat) {
    HasByte(doc, k, 0x0A) || HasByte(doc, k, 0x0D)
  }

  /** A line comment ends behind the first line end `k`, CR LF counting as one, or at the end of the document. */
  predicate LineCommentEnds(doc: bytes, p: nat, k: nat, q: nat) {
    && p <= k <= |doc| && (forall j :: p <= j < k ==> !LineEnd(doc, j))
    && (k == |doc| ==> q == k)
    && (k < |doc| ==>
          LineEnd(doc, k) && q == k + (if doc[k] == 0x0D && HasByte(doc, k + 1, 0x0A) then 2 else 1))
  }

  ghost predicate LineStands(doc: bytes, p: nat, q: nat) {
    exists k :: LineCommentEnds(doc, p, k, q)
  }

  lemma {:induction false} LineCommentIs(doc: bytes, p: nat) returns (k: nat)
    requires p <= |doc|
    ensures LineCommentEnds(doc, p, k, ScanLineComment(doc, p))
    decreases |doc| - p
  {
    if p < |doc| && !LineEnd(doc, p) {
      k := LineCommentIs(doc, p + 1);
    } else {
      k := p;
    }
  }

  lemma LineCommentOnce(doc: bytes, p: nat, k: nat, q: nat)
    requires p <= |doc| && LineCommentEnds(doc, p, k, q)
    ensures ScanLineComment(doc, p) == q
  {
    hide LineEnd, HasByte;
    var j := LineCommentIs(doc, p);
  }

  lemma LineIs(doc: bytes, p: nat, q: nat)
    requires p <= |doc|
    ensures LineStands(doc, p, q) <==> ScanLineComment(doc, p) == q
  {
    hide LineCommentEnds, ScanLineComment;
    var k := LineCommentIs(doc, p);
    forall j | LineCommentEnds(doc, p, j, q)
      ensures ScanLineComment(doc, p) == q
    {
      LineCommentOnce(doc, p, j, q);
    }
  }

  // ---- Tokens ----

  predicate OneByte(doc: bytes, t: Token, c: byte) {
    HasByte(doc, t.start, c) && t.end == t.start + 1
  }

  predicate WordStands(doc: bytes, t: Token, word: bytes) {
    t.start <= t.end <= |doc| && doc[t.start..t.end] == word
  }

  ghost predicate StringStands(doc: bytes, t: Token) {
    && HasByte(doc, t.start, 0x22) && t.start + 2 <= t.end && HasByte(doc, t.end - 1, 0x22)
    && Aligned(doc, t.start + 1, t.end - 1)
  }

  ghost predicate CommentStands(doc: bytes, t: Token) {
    && HasByte(doc, t.start, 0x2F)
    && ((HasByte(doc, t.start + 1, 0x2A) && CCommentEnds(doc, t.start + 2, t.end))
        || (HasByte(doc, t.start + 1, 0x2F) && LineStands(doc, t.start + 2, t.end)))
  }

  /** What stands in the document where a token is; an error token is what is nothing else. */
  ghost predicate TokenStands(doc: bytes, t: Token) {
    match t.kind
    case EndOfStream => (t.start == t.end == |doc|) || OneByte(doc, t, 0)
    case ObjectBegin => OneByte(doc, t, 0x7B)
    case ObjectEnd => OneByte(doc, t, 0x7D)
    case ArrayBegin => OneByte(doc, t, 0x5B)
    case ArrayEnd => OneByte(doc, t, 0x5D)
    case ArraySeparator => OneByte(doc, t, 0x2C)
    case MemberSeparator => OneByte(doc, t, 0x3A)
    case TrueToken => WordStands(doc, t, [0x74, 0x72, 0x75, 0x65])
    case FalseToken => WordStands(doc, t, [0x66, 0x61, 0x6C, 0x73, 0x65])
    case NullToken => WordStands(doc, t, [0x6E, 0x75, 0x6C, 0x6C])
    case StringToken => StringStands(doc, t)
    case NumberToken =>
      (IsDigit(doc, t.start) || HasByte(doc, t.start, 0x2D)) && NumberStands(doc, t.start + 1, t.end)
    case CommentToken => CommentStands(doc, t)
    case ErrorToken => false
  }

  lemma StringIs(doc: bytes, s: nat, e: nat)
    requires s < |doc| && doc[s] == 0x22
    ensures StringStands(doc, Token(StringToken, s, e)) <==> ScanString(doc, s + 1) == StringScan(true, e)
  {
    hide ScanString, Aligned;
    if ScanString(doc, s + 1).ok {
      ScannedIsAligned(doc, s + 1);
    }
    if StringStands(doc, Token(StringToken, s, e)) {
      AlignedIsScanned(doc, s + 1, e - 1);
    }
  }

  lemma NumberIs(doc: bytes, p: nat, q: nat)
    requires p <= |doc|
    ensures NumberStands(doc, p, q) <==> ScanNumber(doc, p) == q
  {
    hide ScanNumber, NumberParts;
    NumberEnds(doc, p);
    forall a, b | NumberParts(doc, p, a, b, q)
      ensures ScanNumber(doc, p) == q
    {
      NumberEndsOnce(doc, p, a, b, q);
    }
  }

  lemma CommentIs(doc: bytes, s: nat, e: nat)
    requires s < |doc| && doc[s] == 0x2F
    ensures CommentStands(doc, Token(CommentToken, s, e)) <==> ScanComment(doc, s + 1) == StringScan(true, e)
  {
    hide ScanCComment, ScanLineComment, CCommentEnds, LineStands;
    if s + 1 < |doc| && doc[s + 1] == 0x2A {
      CCommentIs(doc, s + 2, e);
    } else if s + 1 < |doc| && doc[s + 1] == 0x2F {
      LineIs(doc, s + 2, e);
    }
  }

  lemma WordIs(doc: bytes, s: nat, e: nat, first: byte, rest: bytes, kind: TokenKind)
    requires s < |doc| && doc[s] == first
    ensures WordStands(doc, Token(kind, s, e), [first] + rest)
            <==> Matches(doc, s + 1, rest) && e == s + 1 + |rest|
  {
    if s < e <= |doc| {
      assert doc[s..e] == [doc[s]] + doc[s + 1..e];
      assert ([first] + rest)[1..] == rest;
    }
  }

  /** The bytes a token of each kind begins with. */
  predicate Begins(kind: TokenKind, c: byte) {
    match kind
    case EndOfStream => c == 0
    case ObjectBegin => c == 0x7B
    case ObjectEnd => c == 0x7D
    case ArrayBegin => c == 0x5B
    case ArrayEnd => c == 0x5D
    case ArraySeparator => c == 0x2C
    case MemberSeparator => c == 0x3A
    case TrueToken => c == 0x74
    case FalseToken => c == 0x66
    case NullToken => c == 0x6E
    case StringToken => c == 0x22
    case NumberToken => 0x30 <= c <= 0x39 || c == 0x2D
    case CommentToken => c == 0x2F
    case ErrorToken => true
  }

  lemma StandsBegins(doc: bytes, t: Token)
    requires TokenStands(doc, t) && t.start < |doc|
    ensures Begins(t.kind, doc[t.start])
  {
    hide Aligned, CCommentEnds, LineStands, NumberStands;
    if t.kind.TrueToken? || t.kind.FalseToken? || t.kind.NullToken? {
      assert doc[t.start..t.end][0] == doc[t.start];
    }
  }

  lemma TokenBegins(doc: bytes, s: nat)
    requires s < |doc|
    ensures Begins(TokenAt(doc, s).kind, doc[s])
  {
    hide ScanString, ScanComment, ScanNumber, Matches;
  }

  lemma WordExactly(doc: bytes, s: nat, t: Token)
    requires s < |doc| && t.start == s && (t.kind.TrueToken? || t.kind.FalseToken? || t.kind.NullToken?)
    requires Begins(t.kind, doc[s])
    ensures TokenAt(doc, s) == t <==> TokenStands(doc, t)
  {
    hide ScanString, ScanComment, ScanNumber, StringStands, NumberStands, CommentStands, Matches, WordStands;
    match t.kind {
      case TrueToken =>
        assert [0x74] + [0x72, 0x75, 0x65] == [0x74, 0x72, 0x75, 0x65];
        WordIs(doc, s, t.end, 0x74, [0x72, 0x75, 0x65], t.kind);
      case FalseToken =>
        assert [0x66] + [0x61, 0x6C, 0x73, 0x65] == [0x66, 0x61, 0x6C, 0x73, 0x65];
        WordIs(doc, s, t.end, 0x66, [0x61, 0x6C, 0x73, 0x65], t.kind);
      case NullToken =>
        assert [0x6E] + [0x75, 0x6C, 0x6C] == [0x6E, 0x75, 0x6C, 0x6C];
        WordIs(doc, s, t.end, 0x6E, [0x75, 0x6C, 0x6C], t.kind);
    }
  }

  lemma ScannedExactly(doc: bytes, s: nat, t: Token)
    requires s < |doc| && t.start == s && (t.kind.StringToken? || t.kind.NumberToken? || t.kind.CommentToken?)
    requires Begins(t.kind, doc[s])
    ensures TokenAt(doc, s) == t <==> TokenStands(doc, t)
  {
    hide ScanString, ScanComment, ScanNumber, StringStands, NumberStands, CommentStands, Matches;
    match t.kind {
      case StringToken => StringIs(doc, s, t.end);
      case NumberToken => NumberIs(doc, s + 1, t.end);
      case CommentToken => CommentIs(doc, s, t.end);
    }
  }

  lemma MarkExactly(doc: bytes, s: nat, t: Token)
    requires s < |doc| && t.start == s && Begins(t.kind, doc[s])
    requires t.kind.EndOfStream? || t.kind.ObjectBegin? || t.kind.ObjectEnd? || t.kind.ArrayBegin? || t.kind.ArrayEnd?
             || t.kind.ArraySeparator? || t.kind.MemberSeparator?
    ensures TokenAt(doc, s) == t <==> TokenStands(doc, t)
  {
    hide ScanString, ScanComment, ScanNumber, StringStands, NumberStands, CommentStands, Matches, WordStands;
  }

  /** A token that is no error is what stands in the document there, and nothing else. */
  lemma TokenExactly(doc: bytes, s: nat, t: Token)
    requires s <= |doc| && t.start == s && t.kind != ErrorToken
    ensures TokenAt(doc, s) == t <==> TokenStands(doc, t)
  {
    if s == |doc| {
      EndExactly(doc, t);
    } else {
      hide TokenAt, TokenStands, Begins;
      TokenBegins(doc, s);
      if TokenStands(doc, t) {
        StandsBegins(doc, t);
      }
      if Begins(t.kind, doc[s]) {
        if t.kind.TrueToken? || t.kind.FalseToken? || t.kind.NullToken? {
          WordExactly(doc, s, t);
        } else if t.kind.StringToken? || t.kind.NumberToken? || t.kind.CommentToken? {
          ScannedExactly(doc, s, t);
        } else {
          MarkExactly(doc, s, t);
        }
      }
    }
  }

  lemma EndExactly(doc: bytes, t: Token)
    requires t.start == |doc| && t.kind != ErrorToken
    ensures TokenAt(doc, |doc|) == t <==> TokenStands(doc, t)
  {
    hide Aligned, CCommentEnds, LineStands, NumberStands;
    if t.kind.TrueToken? || t.kind.FalseToken? || t.kind.NullToken? {
      assert t.start <= t.end <= |doc| ==> doc[t.start..t.end] == [];
    }
  }

  /** What the lexer takes for an error: an unfinished string or C comment up to the end of the document, a
      solidus and the byte behind it, and otherwise one byte. */
  lemma ErrorEnds(doc: bytes, s: nat)
    requires s < |doc| && TokenAt(doc, s).kind == ErrorToken
    ensures TokenAt(doc, s).end
            == if doc[s] == 0x22 || (doc[s] == 0x2F && HasByte(doc, s + 1, 0x2A)) then |doc|
               else if doc[s] == 0x2F && s + 1 < |doc| then s + 2
               else s + 1
  {
    hide ScanString, ScanCComment, ScanNumber, Matches;
    if doc[s] == 0x22 {
      UnfinishedString(doc, s + 1);
    } else if doc[s] == 0x2F && s + 1 < |doc| && doc[s + 1] == 0x2A {
      CCommentIs(doc, s + 2, |doc|);
    }
  }

  lemma {:induction false} UnfinishedString(doc: bytes, p: nat)
    requires p <= |doc| && !ScanString(doc, p).ok
    ensures ScanString(doc, p).end == |doc|
    decreases |doc| - p
  {
    if p < |doc| {
      if doc[p] == BACKSLASH {
        if p + 1 < |doc| {
          UnfinishedString(doc, p + 2);
        }
      } else if doc[p] != QUOTE {
        UnfinishedString(doc, p + 1);
      }
    }
  }

  /** From any cursor the reader takes the token that stands behind the white space there. */
  lemma ReadsExactly(doc: bytes, p: nat, t: Token)
    requires p <= |doc| && t.kind != ErrorToken
    ensures ReadToken(doc, p) == t
            <==> && p <= t.start <= |doc| && (forall k :: p <= k < t.start ==> BlankByte(doc[k]))
                 && (t.start < |doc| ==> !BlankByte(doc[t.start])) && TokenStands(doc, t)
  {
    hide TokenAt, TokenStands, SkipSpaces, BlankByte;
    SkipsBlank(doc, p);
    if p <= t.start <= |doc| {
      TokenExactly(doc, t.start, t);
      if (forall k :: p <= k < t.start ==> BlankByte(doc[k])) && (t.start < |doc| ==> !BlankByte(doc[t.start])) {
        BlankThenToken(doc, p, t.start);
      }
    }
  }

  // ---- Recovery ----

  /** The cursor after `n` more tokens. */
  function After(doc: bytes, p: nat, n: nat): (q: nat)
    requires p <= |doc|
    ensures p <= q <= |doc|
  {
    if n == 0 then p else ReadToken(doc, After(doc, p, n - 1)).end
  }

  lemma {:induction false} AfterOne(doc: bytes, p: nat, n: nat)
    requires p <= |doc|
    ensures After(doc, ReadToken(doc, p).end, n) == After(doc, p, n + 1)
  {
    hide ReadToken;
    if n > 0 {
      AfterOne(doc, p, n - 1);
    } else {
      assert After(doc, p, 0) == p;
    }
  }

  predicate Halts(kind: TokenKind, until: TokenKind) {
    kind == until || kind == EndOfStream
  }

  /** Recovery goes on token by token, up to and including the first one that is sought or ends the document. */
  lemma {:induction false} RecoversBehind(doc: bytes, p: nat, until: TokenKind) returns (n: nat)
    requires p <= |doc|
    ensures Recover(doc, p, until) == After(doc, p, n + 1)
    ensures Halts(ReadToken(doc, After(doc, p, n)).kind, until)
    ensures forall k :: 0 <= k < n ==> !Halts(ReadToken(doc, After(doc, p, k)).kind, until)
    decreases |doc| - p
  {
    hide ReadToken;
    var t := ReadToken(doc, p);
    AfterOne(doc, p, 0);
    if Halts(t.kind, until) {
      n := 0;
    } else {
      var m := RecoversBehind(doc, t.end, until);
      n := m + 1;
      forall k: nat | k <= m + 1
        ensures After(doc, p, k + 1) == After(doc, t.end, k)
      {
        AfterOne(doc, p, k);
      }
      forall k | 0 <= k < n
        ensures !Halts(ReadToken(doc, After(doc, p, k)).kind, until)
      {
        if k > 0 {
          assert After(doc, p, (k - 1) + 1) == After(doc, t.end, k - 1);
        }
      }
    }
  }
}
