/** Where strict mode departs from the JSON grammar: the steps that do it, and whole documents. */
module JsonQuirks {
  import opened Bytes
  import opened JsonValue
  import opened JsonMap
  import opened JsonString
  import opened JsonStringLaws
  import opened JsonNumber
  import opened JsonTree
  import opened JsonWriter
  import opened JsonLexer
  import opened JsonGrammar
  import opened JsonNormal
  import opened JsonTokens
  import opened JsonRoundTrip

  // ---- Steps of the member loop ----

  /** Where a name is expected, a closing brace ends the object exactly when the last name is empty. */
  lemma BraceForName(scan: RealScanner, doc: bytes, depth: nat, p: nat, name: bytes, acc: ObjectValues)
    requires p <= |doc| && NextToken(doc, p).kind == ObjectEnd
    ensures var r := ReadMembers(scan, doc, depth, p, name, acc);
            && (r.Done? <==> name == [])
            && (r.Done? ==> r == Done(NextToken(doc, p).end, Object(acc)))
            && (!r.Done? ==> r.Failed? && r.value == Object(acc) && r.error.problem == MissingBraceOrName)
  {
    hide NextToken, ReadMember, Recover;
  }

  /** What keeps the member loop going after a value: a comma, or a comment followed by any token at all
      but a closing brace. That token is consumed in the comma's place. */
  predicate GoesOn(doc: bytes, q: nat)
    requires q <= |doc|
  {
    var t := ReadToken(doc, q);
    t.kind == ArraySeparator || (t.kind == CommentToken && NextToken(doc, q).kind != ObjectEnd)
  }

  /** The loop goes on in exactly these cases; otherwise a closing brace ends the object, and anything else
      is refused. */
  lemma AfterMemberValue(scan: RealScanner, doc: bytes, depth: nat, p: nat, key: bytes, acc: ObjectValues, q: nat,
                         v: Value)
    requires p <= q <= |doc| && ReadValue(scan, doc, depth + 1, p, Lookup(acc, Name(key))) == Done(q, v)
    ensures var r := ReadMember(scan, doc, depth, p, key, acc);
            var acc' := Assign(acc, Name(key), v);
            var last := NextToken(doc, q);
            if GoesOn(doc, q) then r == ReadMembers(scan, doc, depth, last.end, key, acc')
            else if last.kind == ObjectEnd then r == Done(last.end, Object(acc'))
            else r.Failed? && r.value == Object(acc') && r.error.problem == MissingCommaOrBrace
  {
    hide ReadValue, Assign, Lookup, ReadMembers, Recover, ReadToken;
    NextIsFirst(doc, q);
  }

  lemma NextIsFirst(doc: bytes, q: nat)
    requires q <= |doc|
    ensures ReadToken(doc, q).kind != CommentToken ==> NextToken(doc, q) == ReadToken(doc, q)
  {
    hide ReadToken;
  }

  /** A comment in front of a value is refused, everywhere. */
  lemma CommentIsNoValue(scan: RealScanner, doc: bytes, depth: nat, p: nat, old_: Value)
    requires p <= |doc| && depth <= STACK_LIMIT && ReadToken(doc, p).kind == CommentToken
    ensures var r := ReadValue(scan, doc, depth, p, old_);
            r.Failed? && r.value == old_ && r.error.problem == ValueExpected
  {
    hide ReadToken, ReadMembers, ReadArray, ScanString;
  }

  // ---- Tokens ----

  /** A C comment that is never closed is a comment token exactly when the document ends in a slash. */
  lemma {:induction false} UnclosedComment(doc: bytes, p: nat)
    requires p < |doc| && forall k :: p <= k < |doc| - 1 ==> !(doc[k] == STAR && doc[k + 1] == SLASH)
    ensures ScanCComment(doc, p) == StringScan(doc[|doc| - 1] == SLASH, |doc|)
    decreases |doc| - p
  {
    if p + 1 < |doc| {
      UnclosedComment(doc, p + 1);
    }
  }

  lemma {:induction false} ZerosAddNothing(zeros: bytes, d: bytes)
    requires (forall k :: 0 <= k < |zeros| ==> zeros[k] == ZERO) && AllDigits(d)
    ensures AllDigits(zeros + d) && DecValue(zeros + d) == DecValue(d)
    decreases |zeros| + |d|
  {
    var t := zeros + d;
    if d != [] {
      ZerosAddNothing(zeros, d[..|d| - 1]);
      assert t[..|t| - 1] == zeros + d[..|d| - 1];
    } else if zeros != [] {
      assert t == zeros;
      ZerosAddNothing(zeros[..|zeros| - 1], []);
      assert t[..|t| - 1] == zeros[..|zeros| - 1] + [];
    }
  }

  /** Zeros in front of the digits are read as part of the number, and make no difference to its value. */
  lemma LeadingZeros(doc: bytes, p: nat, sign: bytes, zeros: bytes, d: bytes)
    requires sign == [] || sign == [MINUS]
    requires (forall k :: 0 <= k < |zeros| ==> zeros[k] == ZERO) && AllDigits(d) && sign + zeros + d != []
    requires At(doc, p, sign + zeros + d) && Stops(doc, p + |sign + zeros + d|)
    ensures var q := p + |sign + zeros + d|;
            && ReadToken(doc, p) == Token(NumberToken, p, q)
            && DecodeInteger(doc[p..q]) == DecodeInteger(sign + d)
  {
    hide ScanNumber, ScanString, DecodeInteger, DecValue;
    ZerosAddNothing(zeros, d);
    var t := sign + zeros + d;
    assert t[1..] == if sign == [] then (zeros + d)[1..] else zeros + d;
    ReadDigits(doc, p, t);
    SignedZeros(sign, zeros, d);
  }

  lemma ReadDigits(doc: bytes, p: nat, t: bytes)
    requires t != [] && (Digit(t[0]) || t[0] == MINUS) && AllDigits(t[1..])
    requires At(doc, p, t) && Stops(doc, p + |t|)
    ensures ReadToken(doc, p) == Token(NumberToken, p, p + |t|)
  {
    hide ScanString, ScanComment, Word, ScanNumber;
    AtHead(doc, p, t);
    assert doc[p + 1..p + |t|] == t[1..];
    ScanDigits(doc, p + 1, p + |t|);
    ReadHere(doc, p);
  }

  lemma SignedZeros(sign: bytes, zeros: bytes, d: bytes)
    requires sign == [] || sign == [MINUS]
    requires (forall k :: 0 <= k < |zeros| ==> zeros[k] == ZERO) && AllDigits(d)
    ensures DecodeInteger(sign + zeros + d) == DecodeInteger(sign + d)
  {
    hide DecValue;
    ZerosAddNothing(zeros, d);
    assert sign + zeros + d == sign + (zeros + d);
    SignAndDigits(sign, zeros + d);
    SignAndDigits(sign, d);
  }

  lemma SignAndDigits(sign: bytes, t: bytes)
    requires (sign == [] || sign == [MINUS]) && AllDigits(t)
    ensures Magnitude(sign + t) == t && (Negative(sign + t) <==> sign != [])
  {
    assert sign == [] ==> sign + t == t;
    assert sign != [] ==> (sign + t)[1..] == t;
  }

  /** A minus without digits is one number token, and decodes as 0. */
  lemma LoneMinus(doc: bytes, p: nat)
    requires At(doc, p, [MINUS]) && Stops(doc, p + 1)
    ensures ReadToken(doc, p) == Token(NumberToken, p, p + 1) && DecodeInteger(doc[p..p + 1]) == IntNumber(0)
  {
    AtByte(doc, p, [MINUS], 0);
    assert doc[p + 1..p + 1] == [];
    ScanDigits(doc, p + 1, p + 1);
    hide ScanNumber, ScanString, ScanComment, Word;
    ReadHere(doc, p);
  }

  /** Behind a comment that runs to the end of the document no loop comes to a value. */
  lemma CommentAtEnd(scan: RealScanner, doc: bytes, depth: nat, p: nat, q: nat, key: bytes, i: nat, acc: ObjectValues)
    requires p <= q <= |doc| && ReadToken(doc, q).kind == CommentToken && ReadToken(doc, q).end == |doc|
    ensures ReadMembers(scan, doc, depth, q, key, acc).Failed?
    ensures var child := ReadValue(scan, doc, depth + 1, p, Lookup(acc, Name(key)));
            child.Done? && child.pos == q ==> ReadMember(scan, doc, depth, p, key, acc).Failed?
    ensures var child := ReadValue(scan, doc, depth + 1, p, Lookup(acc, Index(i)));
            child.Done? && child.pos == q ==> ReadElements(scan, doc, depth, p, i, acc).Failed?
  {
    hide ReadValue, ReadMembers, ReadMember, ReadElements, ReadToken, NextToken, Lookup, GoesOn;
    NothingNext(doc, q);
    EndOfMembers(scan, doc, depth, q, key, acc);
    var member := ReadValue(scan, doc, depth + 1, p, Lookup(acc, Name(key)));
    if member.Done? && member.pos == q {
      AfterMemberValue(scan, doc, depth, p, key, acc, q, member.value);
      EndOfMembers(scan, doc, depth, |doc|, key, Assign(acc, Name(key), member.value));
    }
    EndOfElements(scan, doc, depth, p, q, i, acc);
  }

  lemma NothingNext(doc: bytes, q: nat)
    requires q <= |doc| && ReadToken(doc, q).kind == CommentToken && ReadToken(doc, q).end == |doc|
    ensures NextToken(doc, q) == NextToken(doc, |doc|) == Token(EndOfStream, |doc|, |doc|)
  {
    hide ScanString, ScanComment, ScanNumber, Word;
    assert ReadToken(doc, |doc|) == Token(EndOfStream, |doc|, |doc|);
    hide ReadToken;
  }

  lemma EndOfMembers(scan: RealScanner, doc: bytes, depth: nat, p: nat, name: bytes, acc: ObjectValues)
    requires p <= |doc| && NextToken(doc, p).kind == EndOfStream
    ensures ReadMembers(scan, doc, depth, p, name, acc).Failed?
  {
    hide NextToken, ReadMember, Recover;
  }

  lemma EndOfElements(scan: RealScanner, doc: bytes, depth: nat, p: nat, q: nat, i: nat, acc: ObjectValues)
    requires p <= q <= |doc| && NextToken(doc, q).kind == EndOfStream
    ensures var child := ReadValue(scan, doc, depth + 1, p, Lookup(acc, Index(i)));
            child.Done? && child.pos == q ==> ReadElements(scan, doc, depth, p, i, acc).Failed?
  {
    hide NextToken, ReadValue, Lookup, Assign, Recover;
  }

  // ---- Whole documents ----

  /** An object with one member, up to the end of its value, and some text behind it. */
  function FirstMember(pr: RealPrinter, k: bytes, v: Value, tail: bytes): (s: bytes)
    ensures |s| >= |tail| + 4
  {
    QuotedLength(k);
    [LBRACE] + (Quoted(k) + ([COLON] + (Written(pr, v) + tail)))
  }

  lemma QuotedLength(k: bytes)
    ensures |Quoted(k)| >= 2
  {
    hide EscapedBody;
  }

  lemma FirstMemberParts(pr: RealPrinter, k: bytes, v: Value, tail: bytes)
    ensures var doc := FirstMember(pr, k, v, tail);
            var a := 1 + |Quoted(k)|;
            var c := a + 1 + |Written(pr, v)|;
            && |doc| == c + |tail|
            && ReadToken(doc, 0) == Token(ObjectBegin, 0, 1)
            && NextToken(doc, 1) == Token(StringToken, 1, a) && a >= 3
            && DecodeStringToken(doc, Token(StringToken, 1, a)) == Plain(Repaired(k))
            && ReadToken(doc, a) == Token(MemberSeparator, a, a + 1)
            && At(doc, a + 1, Written(pr, v)) && At(doc, c, tail)
  {
    hide At, Quoted, Written, ReadToken, NextToken, DecodeStringToken, Repaired, ScanString, Mark;
    var doc := FirstMember(pr, k, v, tail);
    var a := 1 + |Quoted(k)|;
    Marks();
    AtStart(doc);
    ReadMark(doc, 0, LBRACE, Quoted(k) + ([COLON] + (Written(pr, v) + tail)), ObjectBegin);
    hide FirstMember;
    AtSplit(doc, 1, Quoted(k), [COLON] + (Written(pr, v) + tail));
    ReadQuoted(doc, 1, k);
    ReadMark(doc, a, COLON, Written(pr, v) + tail, MemberSeparator);
    AtSplit(doc, a + 1, Written(pr, v), tail);
  }

  lemma AtStart(doc: bytes)
    ensures At(doc, 0, doc)
  {
  }

  lemma StopsAt(doc: bytes, q: nat, rest: bytes)
    requires At(doc, q, rest) && rest != [] && rest[0] in [COMMA, RBRACE, SLASH]
    ensures Stops(doc, q)
  {
    AtHead(doc, q, rest);
  }

  /** The object is read up to what follows its first value. */
  lemma ReadFirstMember(scan: RealScanner, pr: RealPrinter, k: bytes, v: Value, tail: bytes, old_: Value)
    requires WellFormed(v) && RealFree(v) && Depth(v) < STACK_LIMIT
    requires tail != [] && tail[0] in [COMMA, RBRACE, SLASH]
    ensures var doc := FirstMember(pr, k, v, tail);
            var c := |doc| - |tail|;
            var acc := [Entry(Name(Repaired(k)), Normalized(v))];
            var last := NextToken(doc, c);
            var r := ReadValue(scan, doc, 1, 0, old_);
            && At(doc, c, tail)
            && (if GoesOn(doc, c) then r == ReadMembers(scan, doc, 1, last.end, Repaired(k), acc)
                else last.kind == ObjectEnd ==> r == Done(last.end, Object(acc)))
  {
    hide Quoted, Written, ReadToken, NextToken, DecodeStringToken, Repaired, ScanString, ReadValue, ReadMembers,
      ReadMember, Normalized, WellFormed, RealFree, Depth, Stops, At, Assign, FirstMember, GoesOn;
    var doc := FirstMember(pr, k, v, tail);
    var a := 1 + |Quoted(k)|;
    var c := a + 1 + |Written(pr, v)|;
    var key := Repaired(k);
    FirstMemberParts(pr, k, v, tail);
    StopsAt(doc, c, tail);
    ObjectBranch(scan, doc, 1, 0, old_);
    MemberKey(scan, doc, 1, 1, a, [], [], key);
    ReadWritten(scan, pr, doc, 2, a + 1, v, Lookup([], Name(key)));
    AfterMemberValue(scan, doc, 1, a + 1, key, [], c, Normalized(v));
    OnlyMember(key, Normalized(v));
  }

  lemma OnlyMember(key: bytes, v: Value)
    ensures Assign([], Name(key), v) == [Entry(Name(key), v)]
  {
    AssignLast([], Name(key), v);
  }

  // A comma in front of the closing brace.

  lemma RepairedEmpty(k: bytes)
    ensures Repaired(k) == [] <==> k == []
  {
    hide CharLength;
    if k != [] {
      CodepointRange(k);
    }
  }

  lemma CommaBrace(doc: bytes, q: nat)
    requires At(doc, q, [COMMA] + [RBRACE])
    ensures GoesOn(doc, q) && NextToken(doc, q).end == q + 1 && NextToken(doc, q + 1).kind == ObjectEnd
  {
    hide At, ReadToken, NextToken, ScanString;
    ReadMark(doc, q, COMMA, [RBRACE], ArraySeparator);
    assert [RBRACE] + [] == [RBRACE];
    ReadMark(doc, q + 1, RBRACE, [], ObjectEnd);
  }

  /** A comma before the closing brace is accepted exactly after the empty name. */
  lemma TrailingCommaAccepted(scan: RealScanner, pr: RealPrinter, k: bytes, v: Value, old_: Value)
    requires WellFormed(v) && RealFree(v) && Depth(v) < STACK_LIMIT
    ensures var d := ReadDocument(scan, FirstMember(pr, k, v, [COMMA] + [RBRACE]), old_);
            && d.Parsed? && d.root == Object([Entry(Name(Repaired(k)), Normalized(v))])
            && (d.ok <==> k == []) && |d.errors| == if k == [] then 0 else 1
  {
    hide Repaired, ReadValue, ReadMembers, NextToken, Normalized, WellFormed, RealFree, Depth, At, FirstMember, GoesOn;
    var doc := FirstMember(pr, k, v, [COMMA] + [RBRACE]);
    var q := |doc| - 2;
    ReadFirstMember(scan, pr, k, v, [COMMA] + [RBRACE], old_);
    CommaBrace(doc, q);
    BraceForName(scan, doc, 1, q + 1, Repaired(k), [Entry(Name(Repaired(k)), Normalized(v))]);
    RepairedEmpty(k);
  }

  // A comment and one token in the comma's place.

  const COMMENT: bytes := [SLASH, STAR, STAR, SLASH]

  lemma ReadCommentToken(doc: bytes, q: nat, rest: bytes)
    requires At(doc, q, COMMENT + rest)
    ensures ReadToken(doc, q) == Token(CommentToken, q, q + 4) && At(doc, q + 4, rest)
    ensures NextToken(doc, q) == NextToken(doc, q + 4)
  {
    AtSplit(doc, q, COMMENT, rest);
    AtByte(doc, q, COMMENT, 0);
    AtByte(doc, q, COMMENT, 1);
    AtByte(doc, q, COMMENT, 2);
    AtByte(doc, q, COMMENT, 3);
    ReadHere(doc, q);
    CommentHere(doc, q);
  }

  lemma CommentHere(doc: bytes, q: nat)
    requires q + 4 <= |doc| && doc[q] == SLASH && doc[q + 1] == STAR && doc[q + 2] == STAR && doc[q + 3] == SLASH
    ensures TokenAt(doc, q) == Token(CommentToken, q, q + 4)
  {
    hide ScanLineComment, ScanString, ScanNumber, Word;
  }

  /** Behind a comment the member loop goes on unless the next token is a closing brace. */
  lemma AfterComment(scan: RealScanner, pr: RealPrinter, k: bytes, v: Value, tail: bytes, old_: Value)
    requires WellFormed(v) && RealFree(v) && Depth(v) < STACK_LIMIT
    ensures var doc := FirstMember(pr, k, v, COMMENT + tail);
            var q := |doc| - |tail|;
            var acc := [Entry(Name(Repaired(k)), Normalized(v))];
            var t := NextToken(doc, q);
            && At(doc, q, tail)
            && ReadValue(scan, doc, 1, 0, old_)
               == if t.kind == ObjectEnd then Done(t.end, Object(acc))
                  else ReadMembers(scan, doc, 1, t.end, Repaired(k), acc)
  {
    hide Repaired, ReadValue, ReadMembers, NextToken, ReadToken, Normalized, WellFormed, RealFree, Depth, At,
      FirstMember,
      ScanString;
    var doc := FirstMember(pr, k, v, COMMENT + tail);
    ReadFirstMember(scan, pr, k, v, COMMENT + tail, old_);
    ReadCommentToken(doc, |doc| - |tail| - 4, tail);
  }

  function SecondMember(pr: RealPrinter, k: bytes, v: Value): bytes {
    Quoted(k) + ([COLON] + (Written(pr, v) + [RBRACE]))
  }

  lemma SecondMemberParts(pr: RealPrinter, doc: bytes, p: nat, k: bytes, v: Value)
    requires At(doc, p, SecondMember(pr, k, v))
    ensures var a := p + |Quoted(k)|;
            var c := a + 1 + |Written(pr, v)|;
            && c < |doc| && p + 2 <= a
            && NextToken(doc, p) == Token(StringToken, p, a)
            && DecodeStringToken(doc, Token(StringToken, p, a)) == Plain(Repaired(k))
            && ReadToken(doc, a) == NextToken(doc, a) == Token(MemberSeparator, a, a + 1)
            && At(doc, a + 1, Written(pr, v)) && Stops(doc, c)
            && ReadToken(doc, c) == NextToken(doc, c) == Token(ObjectEnd, c, c + 1)
  {
    hide At, Stops, Quoted, Written, ReadToken, NextToken, DecodeStringToken, Repaired, ScanString;
    var a := p + |Quoted(k)|;
    var c := a + 1 + |Written(pr, v)|;
    AtSplit(doc, p, Quoted(k), [COLON] + (Written(pr, v) + [RBRACE]));
    ReadQuoted(doc, p, k);
    ReadMark(doc, a, COLON, Written(pr, v) + [RBRACE], MemberSeparator);
    AtSplit(doc, a + 1, Written(pr, v), [RBRACE]);
    assert [RBRACE] + [] == [RBRACE];
    ReadMark(doc, c, RBRACE, [], ObjectEnd);
    StopsAt(doc, c, [RBRACE]);
  }

  lemma ReadSecondMember(scan: RealScanner, pr: RealPrinter, doc: bytes, p: nat, name: bytes, acc: ObjectValues,
                         k: bytes, v: Value)
    requires WellFormed(v) && RealFree(v) && Depth(v) < STACK_LIMIT && At(doc, p, SecondMember(pr, k, v))
    ensures var r := ReadMembers(scan, doc, 1, p, name, acc);
            r.Done? && r.value == Object(Assign(acc, Name(Repaired(k)), Normalized(v)))
  {
    hide Quoted, Written, ReadToken, NextToken, DecodeStringToken, Repaired, ScanString, ReadValue, ReadMembers,
      ReadMember, Normalized, WellFormed, RealFree, Depth, Stops, At, Assign, SecondMember;
    var a := p + |Quoted(k)|;
    SecondMemberParts(pr, doc, p, k, v);
    MemberKey(scan, doc, 1, p, a, name, acc, Repaired(k));
    ReadWritten(scan, pr, doc, 2, a + 1, v, Lookup(acc, Name(Repaired(k))));
    AfterMemberValue(scan, doc, 1, a + 1, Repaired(k), acc, a + 1 + |Written(pr, v)|, Normalized(v));
  }

  /** After a member's value and a comment any punctuation but a closing brace serves as the comma. */
  lemma AnyMarkServes(scan: RealScanner, pr: RealPrinter, k: bytes, v: Value, c: byte, l: bytes, w: Value, old_: Value)
    requires WellFormed(v) && RealFree(v) && Depth(v) < STACK_LIMIT
    requires WellFormed(w) && RealFree(w) && Depth(w) < STACK_LIMIT
    requires c in [COMMA, COLON, LBRACKET, RBRACKET, LBRACE]
    ensures ReadDocument(scan, FirstMember(pr, k, v, COMMENT + ([c] + SecondMember(pr, l, w))), old_)
            == Parsed(true, Object(Assign([Entry(Name(Repaired(k)), Normalized(v))],
                                    Name(Repaired(l)), Normalized(w))), [])
  {
    hide Repaired, ReadValue, ReadMembers, NextToken, Normalized, WellFormed, RealFree, Depth, At, Assign, SecondMember,
      FirstMember;
    var tail := [c] + SecondMember(pr, l, w);
    var doc := FirstMember(pr, k, v, COMMENT + tail);
    var q := |doc| - |tail|;
    AfterComment(scan, pr, k, v, tail, old_);
    MarkIsToken(doc, q, c, SecondMember(pr, l, w));
    ReadSecondMember(scan, pr, doc, q + 1, Repaired(k), [Entry(Name(Repaired(k)), Normalized(v))], l, w);
  }

  lemma MarkIsToken(doc: bytes, q: nat, c: byte, rest: bytes)
    requires c in [COMMA, COLON, LBRACKET, RBRACKET, LBRACE] && At(doc, q, [c] + rest)
    ensures NextToken(doc, q).kind != ObjectEnd && NextToken(doc, q).end == q + 1 && At(doc, q + 1, rest)
  {
    hide At, NextToken, ReadToken, ScanString;
    ReadMark(doc, q, c, rest,
             if c == COMMA then ArraySeparator else if c == COLON then MemberSeparator
             else if c == LBRACKET then ArrayBegin else if c == RBRACKET then ArrayEnd else ObjectBegin);
  }

  /** Without anything in that place the next name is taken for the comma, and the object is refused. */
  lemma MissingCommaIsRefused(scan: RealScanner, pr: RealPrinter, k: bytes, v: Value, l: bytes, w: Value, old_: Value)
    requires WellFormed(v) && RealFree(v) && Depth(v) < STACK_LIMIT
    ensures var d := ReadDocument(scan, FirstMember(pr, k, v, COMMENT + SecondMember(pr, l, w)), old_);
            && d.Parsed? && !d.ok && |d.errors| == 1 && d.errors[0].problem == MissingBraceOrName
            && d.root == Object([Entry(Name(Repaired(k)), Normalized(v))])
  {
    hide Repaired, ReadValue, ReadMembers, NextToken, Normalized, WellFormed, RealFree, Depth, At, SecondMember,
      FirstMember,
      Quoted, ReadToken, ScanString, DecodeStringToken;
    var tail := SecondMember(pr, l, w);
    var doc := FirstMember(pr, k, v, COMMENT + tail);
    var q := |doc| - |tail|;
    AfterComment(scan, pr, k, v, tail, old_);
    SecondMemberParts(pr, doc, q, l, w);
    NoName(scan, doc, q + |Quoted(l)|, Repaired(k), [Entry(Name(Repaired(k)), Normalized(v))]);
  }

  lemma NoName(scan: RealScanner, doc: bytes, p: nat, name: bytes, acc: ObjectValues)
    requires p <= |doc| && NextToken(doc, p).kind == MemberSeparator
    ensures var r := ReadMembers(scan, doc, 1, p, name, acc);
            r.Failed? && r.value == Object(acc) && r.error.problem == MissingBraceOrName
  {
    hide NextToken, ReadMember, Recover;
  }
}
