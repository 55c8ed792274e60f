/** The strict reader accepts every JSON text, however it is written, and yields the value it denotes. */
module JsonComplete {
  import opened Bytes
  import opened JsonValue
  import opened JsonMap
  import opened JsonString
  import opened JsonNumber
  import opened JsonWriter
  import opened JsonLexer
  import opened JsonGrammar
  import opened JsonNormal
  import opened JsonTokens
  import opened JsonRoundTrip
  import opened JsonText
  import opened JsonSpelling

  // ---- White space in front of a token ----

  lemma {:induction false} SkipBlank(doc: bytes, p: nat, ws: bytes)
    requires Blank(ws) && At(doc, p, ws)
    ensures SkipSpaces(doc, p) == SkipSpaces(doc, p + |ws|)
    decreases |ws|
  {
    if ws != [] {
      AtHead(doc, p, ws);
      SkipBlank(doc, p + 1, ws[1..]);
    }
  }

  lemma BlankToken(doc: bytes, p: nat, ws: bytes)
    requires Blank(ws) && At(doc, p, ws)
    ensures ReadToken(doc, p) == ReadToken(doc, p + |ws|) && NextToken(doc, p) == NextToken(doc, p + |ws|)
  {
    hide TokenAt, SkipSpaces, At, Blank, ScanString;
    SkipBlank(doc, p, ws);
  }

  lemma BlankValue(scan: RealScanner, doc: bytes, depth: nat, p: nat, ws: bytes, old_: Value)
    requires Blank(ws) && At(doc, p, ws)
    ensures ReadValue(scan, doc, depth, p, old_) == ReadValue(scan, doc, depth, p + |ws|, old_)
  {
    hide ReadToken, At, Blank, ReadMembers, ReadArray, Scalar, ScanString;
    BlankToken(doc, p, ws);
  }

  lemma BlankElements(scan: RealScanner, doc: bytes, depth: nat, p: nat, ws: bytes, i: nat, acc: ObjectValues)
    requires Blank(ws) && At(doc, p, ws)
    ensures ReadElements(scan, doc, depth, p, i, acc) == ReadElements(scan, doc, depth, p + |ws|, i, acc)
  {
    hide At, Blank, ReadValue, Assign, Lookup, NextToken, Recover;
    BlankValue(scan, doc, depth + 1, p, ws, Lookup(acc, Index(i)));
  }

  /** Punctuation behind white space. */
  lemma BlankMark(doc: bytes, p: nat, ws: bytes, c: byte, rest: bytes, kind: TokenKind)
    requires Blank(ws) && At(doc, p, ws + ([c] + rest))
    requires Mark(c, kind)
    ensures var q := p + |ws|;
            && ReadToken(doc, p) == NextToken(doc, p) == Token(kind, q, q + 1)
            && At(doc, q + 1, rest)
  {
    hide At, Blank, ReadToken, NextToken, ScanString;
    AtSplit(doc, p, ws, [c] + rest);
    BlankToken(doc, p, ws);
    ReadMark(doc, p + |ws|, c, rest, kind);
  }

  /** Neither white space nor a mark continues a number. */
  lemma StopsBefore(doc: bytes, p: nat, ws: bytes, c: byte, rest: bytes)
    requires Blank(ws) && At(doc, p, ws + ([c] + rest)) && (c == COMMA || c == RBRACKET || c == RBRACE)
    ensures Stops(doc, p)
  {
    AtByte(doc, p, ws + ([c] + rest), 0);
  }

  // ---- Scalars ----

  lemma ReadScalarText(scan: RealScanner, doc: bytes, depth: nat, p: nat, t: Text, old_: Value)
    requires ValidText(scan, t) && !t.ArrayText? && !t.ObjectText? && depth <= STACK_LIMIT
    requires At(doc, p, TextBytes(t)) && Stops(doc, p + |TextBytes(t)|)
    ensures ReadValue(scan, doc, depth, p, old_) == Done(p + |TextBytes(t)|, Denoted(scan, t))
  {
    hide ReadToken, ReadArray, ReadMembers, DecodeStringToken, DecodeNumberToken, Stops, ValidNumber, NumberBytes,
      StringBytes, CharsDenoted, NumberDenoted, ScanString, At;
    match t {
      case Number(n) =>
        ReadNumberText(doc, p, n);
        DecodeNumberText(scan, doc, p, n, old_);
      case StringText(cs) => ReadStringText(doc, p, cs);
      case NullText => ReadWord(doc, p, NULL_TEXT, NullToken);
      case TrueText => ReadWord(doc, p, TRUE_TEXT, TrueToken);
      case FalseText => ReadWord(doc, p, FALSE_TEXT, FalseToken);
    }
  }

  lemma DigitsAreNoMarks(d: bytes)
    requires SomeDigits(d)
    ensures d[0] != RBRACKET && !Space(d[0])
  {
    assert Digit(d[0]);
  }

  /** No text begins with white space or a closing bracket. */
  lemma TextHead(scan: RealScanner, t: Text)
    requires ValidText(scan, t)
    ensures var s := TextBytes(t); s != [] && s[0] != RBRACKET && !Space(s[0])
  {
    hide ElementsBytes, MembersBytes, CharsBytes, FractionBytes, ExponentBytes;
    if t.Number? {
      DigitsAreNoMarks(t.n.digits);
    }
  }

  // ---- Arrays ----

  lemma ElementIsValid(scan: RealScanner, t: Text, i: nat)
    requires ValidText(scan, t) && t.ArrayText? && i < |t.elements|
    ensures var e := t.elements[i]; Blank(e.before) && Blank(e.after) && ValidText(scan, e.text)
  {
    hide Blank;
    assert ValidSpaced(scan, t.elements[i]);
  }

  /** A value between white space, and the mark behind it. */
  lemma SpacedParts(doc: bytes, p: nat, before: bytes, text: bytes, after: bytes, c: byte, rest: bytes, kind: TokenKind)
    requires Blank(before) && Blank(after) && At(doc, p, before + (text + (after + ([c] + rest))))
    requires Mark(c, kind) && (c == COMMA || c == RBRACKET || c == RBRACE)
    ensures var a := p + |before|;
            var b := a + |text|;
            var q := b + |after|;
            && At(doc, p, before) && At(doc, a, text) && Stops(doc, b) && q < |doc|
            && ReadToken(doc, b) == NextToken(doc, b) == Token(kind, q, q + 1) && At(doc, q + 1, rest)
  {
    hide At, Blank, Stops, NextToken, ReadToken, ScanString, Mark;
    AtSplit(doc, p, before, text + (after + ([c] + rest)));
    AtSplit(doc, p + |before|, text, after + ([c] + rest));
    BlankMark(doc, p + |before| + |text|, after, c, rest, kind);
    StopsBefore(doc, p + |before| + |text|, after, c, rest);
  }

  /** The parts of element `i`, and what follows it. */
  lemma ElementTextParts(scan: RealScanner, doc: bytes, p: nat, t: Text, i: nat)
    requires ValidText(scan, t) && t.ArrayText? && i < |t.elements| && At(doc, p, ElementsBytes(t, i))
    ensures var e := t.elements[i];
            var a := p + |e.before|;
            var b := a + |TextBytes(e.text)|;
            var c := b + |e.after|;
            && ValidText(scan, e.text) && Blank(e.before) && At(doc, p, e.before)
            && At(doc, a, TextBytes(e.text)) && Stops(doc, b) && b <= c < |doc|
            && (if i + 1 < |t.elements| then
                  && NextToken(doc, b) == Token(ArraySeparator, c, c + 1) && At(doc, c + 1, ElementsBytes(t, i + 1))
                  && |ElementsBytes(t, i)| == c + 1 - p + |ElementsBytes(t, i + 1)|
                else
                  && NextToken(doc, b) == Token(ArrayEnd, c, c + 1) && |ElementsBytes(t, i)| == c + 1 - p)
  {
    hide At, Blank, Stops, TextBytes, NextToken, ReadToken, ValidText, ScanString;
    ElementIsValid(scan, t, i);
    var e := t.elements[i];
    if i + 1 < |t.elements| {
      SpacedParts(doc, p, e.before, TextBytes(e.text), e.after, COMMA, ElementsBytes(t, i + 1), ArraySeparator);
    } else {
      assert [RBRACKET] + [] == [RBRACKET];
      SpacedParts(doc, p, e.before, TextBytes(e.text), e.after, RBRACKET, [], ArrayEnd);
    }
  }

  lemma NextElement(scan: RealScanner, t: Text, i: nat)
    requires ValidText(scan, t) && t.ArrayText? && i < |t.elements| && ValidText(scan, t.elements[i].text)
    ensures Assign(ElementsDenoted(scan, t, i), Index(i), Denoted(scan, t.elements[i].text))
            == ElementsDenoted(scan, t, i + 1)
    ensures ElementsHeight(t, i) == Max(Height(t.elements[i].text), ElementsHeight(t, i + 1))
  {
    hide Denoted, Assign, Height;
    AssignLast(ElementsDenoted(scan, t, i), Index(i), Denoted(scan, t.elements[i].text));
  }

  lemma LastElement(scan: RealScanner, t: Text)
    requires ValidText(scan, t) && t.ArrayText?
    ensures ElementsHeight(t, |t.elements|) == 0
    ensures Denoted(scan, t) == Array(ElementsDenoted(scan, t, |t.elements|))
  {
    hide ElementsDenoted;
  }

  /** The element loop from element `i` on, given what reading the element and the rest comes to. */
  lemma ElementTextTurn(scan: RealScanner, doc: bytes, depth: nat, p: nat, t: Text, i: nat)
    requires ValidText(scan, t) && t.ArrayText? && i < |t.elements| && depth <= STACK_LIMIT
    requires At(doc, p, ElementsBytes(t, i)) && ValidText(scan, t.elements[i].text)
    requires var e := t.elements[i];
             var a := p + |e.before|;
             var b := a + |TextBytes(e.text)|;
             var c := b + |e.after| + 1;
             && a <= |doc|
             && ReadValue(scan, doc, depth + 1, a, Lookup(ElementsDenoted(scan, t, i), Index(i)))
                == Expected(depth + Height(e.text), a, |TextBytes(e.text)|, Denoted(scan, e.text))
             && (depth + Height(e.text) <= STACK_LIMIT && i + 1 < |t.elements| ==>
                   && c <= |doc|
                   && ReadElements(scan, doc, depth, c, i + 1, ElementsDenoted(scan, t, i + 1))
                      == Expected(depth + ElementsHeight(t, i + 1), c, |ElementsBytes(t, i + 1)|, Denoted(scan, t)))
    ensures ReadElements(scan, doc, depth, p, i, ElementsDenoted(scan, t, i))
            == Expected(depth + ElementsHeight(t, i), p, |ElementsBytes(t, i)|, Denoted(scan, t))
  {
    hide ScanString, Assign, Lookup, ValidText, TextBytes, Denoted, Height, Stops, ReadValue, At, ReadElements,
      NextToken,
      ElementsHeight, ElementsDenoted, ElementsBytes, Blank;
    var e := t.elements[i];
    var acc := ElementsDenoted(scan, t, i);
    var a := p + |e.before|;
    ElementTextParts(scan, doc, p, t, i);
    NextElement(scan, t, i);
    BlankElements(scan, doc, depth, p, e.before, i, acc);
    if depth + Height(e.text) > STACK_LIMIT {
      ElementThrows(scan, doc, depth, a, i, acc);
    } else {
      ElementThenMark(scan, doc, depth, a, i, acc, a + |TextBytes(e.text)|, Denoted(scan, e.text));
      if i + 1 == |t.elements| {
        LastElement(scan, t);
      }
    }
  }

  lemma {:induction false} ReadElementsText(scan: RealScanner, doc: bytes, depth: nat, p: nat, t: Text, i: nat)
    requires ValidText(scan, t) && t.ArrayText? && i < |t.elements| && depth <= STACK_LIMIT
    requires At(doc, p, ElementsBytes(t, i))
    ensures ReadElements(scan, doc, depth, p, i, ElementsDenoted(scan, t, i))
            == Expected(depth + ElementsHeight(t, i), p, |ElementsBytes(t, i)|, Denoted(scan, t))
    decreases t, 0, |t.elements| - i
  {
    hide ScanString, Assign, Lookup, ValidText, TextBytes, Denoted, Height, Stops, ReadValue, At, ReadElements,
      NextToken,
      ElementsHeight, ElementsDenoted, ElementsBytes, Blank, Expected;
    var e := t.elements[i];
    var a := p + |e.before|;
    ElementTextParts(scan, doc, p, t, i);
    ReadText(scan, doc, depth + 1, a, e.text, Lookup(ElementsDenoted(scan, t, i), Index(i)));
    if i + 1 < |t.elements| {
      ReadElementsText(scan, doc, depth, a + |TextBytes(e.text)| + |e.after| + 1, t, i + 1);
    }
    ElementTextTurn(scan, doc, depth, p, t, i);
  }

  // ---- Objects ----

  lemma MemberIsValid(scan: RealScanner, t: Text, i: nat)
    requires ValidText(scan, t) && t.ObjectText? && i < |t.members|
    ensures var m := t.members[i];
            ValidMember(scan, m) && Blank(m.before) && ValidChars(m.name) && Blank(m.after)
  {
    hide Blank, ValidChars, ValidSpaced;
    assert ValidMember(scan, t.members[i]);
  }

  /** What stands before the value of member `i`. */
  lemma NameTextParts(scan: RealScanner, doc: bytes, p: nat, t: Text, i: nat)
    requires ValidText(scan, t) && t.ObjectText? && i < |t.members| && At(doc, p, MembersBytes(t, i))
    ensures var m := t.members[i];
            var a := p + |m.before|;
            var b := a + |StringBytes(m.name)|;
            var c := b + |m.after| + 1;
            && ValidMember(scan, m) && ValidChars(m.name)
            && b <= |doc| && NextToken(doc, p) == Token(StringToken, a, b) && a + 2 <= b
            && DecodeStringToken(doc, Token(StringToken, a, b)) == Plain(CharsDenoted(m.name))
            && ReadToken(doc, b).kind == MemberSeparator && ReadToken(doc, b).end == c
            && At(doc, c, MemberValueBytes(t, i))
            && |MembersBytes(t, i)| == c - p + |MemberValueBytes(t, i)|
  {
    hide At, Blank, NextToken, ReadToken, ValidText, ScanString, StringBytes, MemberValueBytes, CharsDenoted,
      ValidChars,
      DecodeStringToken, ValidMember, Mark;
    Marks();
    MemberIsValid(scan, t, i);
    var m := t.members[i];
    var rest := m.after + ([COLON] + MemberValueBytes(t, i));
    var a := p + |m.before|;
    AtSplit(doc, p, m.before, StringBytes(m.name) + rest);
    AtSplit(doc, a, StringBytes(m.name), rest);
    BlankToken(doc, p, m.before);
    ReadStringText(doc, a, m.name);
    BlankMark(doc, a + |StringBytes(m.name)|, m.after, COLON, MemberValueBytes(t, i), MemberSeparator);
  }

  /** The value of member `i`, and what follows it. */
  lemma MemberTextParts(scan: RealScanner, doc: bytes, p: nat, t: Text, i: nat)
    requires t.ObjectText? && i < |t.members| && ValidMember(scan, t.members[i])
    requires At(doc, p, MemberValueBytes(t, i))
    ensures var v := t.members[i].value;
            var a := p + |v.before|;
            var b := a + |TextBytes(v.text)|;
            var c := b + |v.after|;
            && ValidText(scan, v.text) && Blank(v.before) && At(doc, p, v.before)
            && At(doc, a, TextBytes(v.text)) && Stops(doc, b) && b <= c < |doc|
            && ReadToken(doc, b) == NextToken(doc, b)
            && (if i + 1 < |t.members| then
                  && NextToken(doc, b) == Token(ArraySeparator, c, c + 1) && At(doc, c + 1, MembersBytes(t, i + 1))
                  && |MemberValueBytes(t, i)| == c + 1 - p + |MembersBytes(t, i + 1)|
                else
                  && NextToken(doc, b) == Token(ObjectEnd, c, c + 1) && |MemberValueBytes(t, i)| == c + 1 - p)
  {
    hide At, Blank, Stops, TextBytes, NextToken, ReadToken, ValidText, ScanString;
    var v := t.members[i].value;
    if i + 1 < |t.members| {
      SpacedParts(doc, p, v.before, TextBytes(v.text), v.after, COMMA, MembersBytes(t, i + 1), ArraySeparator);
    } else {
      assert [RBRACE] + [] == [RBRACE];
      SpacedParts(doc, p, v.before, TextBytes(v.text), v.after, RBRACE, [], ObjectEnd);
    }
  }

  lemma NextMemberText(scan: RealScanner, t: Text, i: nat)
    requires ValidText(scan, t) && t.ObjectText? && i < |t.members|
    requires ValidText(scan, t.members[i].value.text) && ValidChars(t.members[i].name)
    ensures Assign(MembersDenoted(scan, t, i), Name(CharsDenoted(t.members[i].name)),
                   Denoted(scan, t.members[i].value.text))
            == MembersDenoted(scan, t, i + 1)
    ensures MembersHeight(t, i) == Max(Height(t.members[i].value.text), MembersHeight(t, i + 1))
  {
    hide Denoted, Assign, Height, CharsDenoted, ValidChars;
  }

  lemma LastMember(scan: RealScanner, t: Text)
    requires ValidText(scan, t) && t.ObjectText?
    ensures MembersHeight(t, |t.members|) == 0
    ensures Denoted(scan, t) == Object(MembersDenoted(scan, t, |t.members|))
  {
    hide MembersDenoted;
  }

  lemma BlankMember(scan: RealScanner, doc: bytes, depth: nat, p: nat, ws: bytes, key: bytes, acc: ObjectValues)
    requires Blank(ws) && At(doc, p, ws)
    ensures ReadMember(scan, doc, depth, p, key, acc) == ReadMember(scan, doc, depth, p + |ws|, key, acc)
  {
    hide At, Blank, ReadValue, Assign, Lookup, NextToken, Recover, ReadMembers, ReadToken;
    BlankValue(scan, doc, depth + 1, p, ws, Lookup(acc, Name(key)));
  }

  /** The value of member `i` and the rest of the object, given what reading each comes to. */
  lemma MemberTextTurn(scan: RealScanner, doc: bytes, depth: nat, p: nat, t: Text, i: nat, key: bytes)
    requires ValidText(scan, t) && t.ObjectText? && i < |t.members| && depth <= STACK_LIMIT
    requires ValidMember(scan, t.members[i]) && ValidChars(t.members[i].name)
    requires key == CharsDenoted(t.members[i].name) && ValidText(scan, t.members[i].value.text)
    requires At(doc, p, MemberValueBytes(t, i))
    requires var v := t.members[i].value;
             var a := p + |v.before|;
             var b := a + |TextBytes(v.text)|;
             var c := b + |v.after| + 1;
             && a <= |doc|
             && ReadValue(scan, doc, depth + 1, a, Lookup(MembersDenoted(scan, t, i), Name(key)))
                == Expected(depth + Height(v.text), a, |TextBytes(v.text)|, Denoted(scan, v.text))
             && (depth + Height(v.text) <= STACK_LIMIT && i + 1 < |t.members| ==>
                   && c <= |doc|
                   && ReadMembers(scan, doc, depth, c, key, MembersDenoted(scan, t, i + 1))
                      == Expected(depth + MembersHeight(t, i + 1), c, |MembersBytes(t, i + 1)|, Denoted(scan, t)))
    ensures ReadMember(scan, doc, depth, p, key, MembersDenoted(scan, t, i))
            == Expected(depth + MembersHeight(t, i), p, |MemberValueBytes(t, i)|, Denoted(scan, t))
  {
    hide ScanString, Assign, Lookup, ValidText, TextBytes, Denoted, Height, Stops, ReadValue, At, ReadMembers,
      ReadMember,
      NextToken, ReadToken, MembersHeight, MembersDenoted, MembersBytes, MemberValueBytes, Blank, ValidMember,
      ValidChars,
      CharsDenoted;
    var v := t.members[i].value;
    var acc := MembersDenoted(scan, t, i);
    var a := p + |v.before|;
    MemberTextParts(scan, doc, p, t, i);
    NextMemberText(scan, t, i);
    BlankMember(scan, doc, depth, p, v.before, key, acc);
    if depth + Height(v.text) > STACK_LIMIT {
      MemberThrows(scan, doc, depth, a, key, acc);
    } else {
      MemberThenMark(scan, doc, depth, a, key, acc, a + |TextBytes(v.text)|, Denoted(scan, v.text));
      if i + 1 == |t.members| {
        LastMember(scan, t);
      }
    }
  }

  lemma {:induction false} ReadMembersText(scan: RealScanner, doc: bytes, depth: nat, p: nat, t: Text, i: nat,
                                           name: bytes)
    requires ValidText(scan, t) && t.ObjectText? && i < |t.members| && depth <= STACK_LIMIT
    requires At(doc, p, MembersBytes(t, i))
    ensures ReadMembers(scan, doc, depth, p, name, MembersDenoted(scan, t, i))
            == Expected(depth + MembersHeight(t, i), p, |MembersBytes(t, i)|, Denoted(scan, t))
    decreases t, 0, |t.members| - i, 0
  {
    hide ScanString, Assign, Lookup, ValidText, TextBytes, Denoted, Height, Stops, ReadValue, At, ReadMembers,
      ReadMember,
      NextToken, ReadToken, MembersHeight, MembersDenoted, MembersBytes, MemberValueBytes, Blank, ValidMember,
      ValidChars,
      CharsDenoted, StringBytes, DecodeStringToken;
    var m := t.members[i];
    NameTextParts(scan, doc, p, t, i);
    var key := CharsDenoted(m.name);
    var b := p + |m.before| + |StringBytes(m.name)|;
    var q := b + |m.after| + 1;
    MemberKey(scan, doc, depth, p, b, name, MembersDenoted(scan, t, i), key);
    ReadMemberText(scan, doc, depth, q, t, i, key);
    ExpectedShift(depth + MembersHeight(t, i), p, q, |MembersBytes(t, i)|, |MemberValueBytes(t, i)|, Denoted(scan, t));
  }

  lemma ExpectedShift(height: nat, p: nat, q: nat, m: nat, n: nat, v: Value)
    requires p + m == q + n
    ensures Expected(height, p, m, v) == Expected(height, q, n, v)
  {
  }

  lemma {:induction false} ReadMemberText(scan: RealScanner, doc: bytes, depth: nat, p: nat, t: Text, i: nat,
                                          key: bytes)
    requires ValidText(scan, t) && t.ObjectText? && i < |t.members| && depth <= STACK_LIMIT
    requires ValidMember(scan, t.members[i]) && ValidChars(t.members[i].name)
    requires key == CharsDenoted(t.members[i].name) && At(doc, p, MemberValueBytes(t, i))
    ensures ReadMember(scan, doc, depth, p, key, MembersDenoted(scan, t, i))
            == Expected(depth + MembersHeight(t, i), p, |MemberValueBytes(t, i)|, Denoted(scan, t))
    decreases t, 0, |t.members| - i - 1, 1
  {
    hide ScanString, Assign, Lookup, ValidText, TextBytes, Denoted, Height, Stops, ReadValue, At, ReadMembers,
      ReadMember,
      NextToken, ReadToken, MembersHeight, MembersDenoted, MembersBytes, MemberValueBytes, Blank, ValidMember,
      ValidChars,
      CharsDenoted, Expected;
    var v := t.members[i].value;
    var a := p + |v.before|;
    MemberTextParts(scan, doc, p, t, i);
    ReadText(scan, doc, depth + 1, a, v.text, Lookup(MembersDenoted(scan, t, i), Name(key)));
    if i + 1 < |t.members| {
      ReadMembersText(scan, doc, depth, a + |TextBytes(v.text)| + |v.after| + 1, t, i + 1, key);
    }
    MemberTextTurn(scan, doc, depth, p, t, i, key);
  }

  // ---- Containers ----

  lemma ArrayBranchText(scan: RealScanner, doc: bytes, depth: nat, p: nat, old_: Value)
    requires p < |doc| && ReadToken(doc, p) == Token(ArrayBegin, p, p + 1) && 1 <= depth <= STACK_LIMIT
    ensures var q := SkipSpaces(doc, p + 1);
            ReadValue(scan, doc, depth, p, old_)
            == if q < |doc| && doc[q] == RBRACKET then Done(q + 1, Array([]))
               else ReadElements(scan, doc, depth, q, 0, [])
  {
    hide ReadElements, ReadToken, ScanString, SkipSpaces;
  }

  lemma SkipToHead(doc: bytes, p: nat, ws: bytes, c: byte, rest: bytes)
    requires Blank(ws) && At(doc, p, ws + ([c] + rest)) && !Space(c)
    ensures SkipSpaces(doc, p) == p + |ws| < |doc| && doc[p + |ws|] == c && At(doc, p, ws)
  {
    hide Blank;
    AtSplit(doc, p, ws, [c] + rest);
    AtHead(doc, p + |ws|, [c] + rest);
    SkipBlank(doc, p, ws);
  }

  /** What stands after an opening bracket. */
  lemma ArrayTextParts(scan: RealScanner, doc: bytes, p: nat, t: Text)
    requires ValidText(scan, t) && t.ArrayText? && At(doc, p, TextBytes(t))
    ensures ReadToken(doc, p) == Token(ArrayBegin, p, p + 1) && p + 1 <= |doc|
    ensures t.elements == [] ==>
              var q := p + 1 + |t.blank|;
              SkipSpaces(doc, p + 1) == q < |doc| && doc[q] == RBRACKET && |TextBytes(t)| == q + 1 - p
    ensures t.elements != [] ==>
              var e := t.elements[0];
              var q := p + 1 + |e.before|;
              && SkipSpaces(doc, p + 1) == q < |doc| && doc[q] != RBRACKET
              && Blank(e.before) && At(doc, p + 1, e.before)
              && At(doc, p + 1, ElementsBytes(t, 0)) && |TextBytes(t)| == 1 + |ElementsBytes(t, 0)|
  {
    hide At, Blank, ReadToken, NextToken, ScanString, SkipSpaces, Space, ElementsBytes, ValidText;
    var rest := if t.elements == [] then t.blank + [RBRACKET] else ElementsBytes(t, 0);
    ReadMark(doc, p, LBRACKET, rest, ArrayBegin);
    if t.elements == [] {
      EmptyArrayParts(scan, doc, p + 1, t);
    } else {
      FirstElementParts(scan, doc, p + 1, t);
    }
  }

  lemma EmptyArrayParts(scan: RealScanner, doc: bytes, p: nat, t: Text)
    requires ValidText(scan, t) && t.ArrayText? && At(doc, p, t.blank + [RBRACKET])
    ensures var q := p + |t.blank|; SkipSpaces(doc, p) == q < |doc| && doc[q] == RBRACKET
  {
    hide At, Blank, SkipSpaces, Space;
    assert t.blank + [RBRACKET] == t.blank + ([RBRACKET] + []);
    MarkIsNoSpace();
    SkipToHead(doc, p, t.blank, RBRACKET, []);
  }

  lemma FirstElementParts(scan: RealScanner, doc: bytes, p: nat, t: Text)
    requires ValidText(scan, t) && t.ArrayText? && t.elements != [] && At(doc, p, ElementsBytes(t, 0))
    ensures var e := t.elements[0];
            var q := p + |e.before|;
            && SkipSpaces(doc, p) == q < |doc| && doc[q] != RBRACKET && Blank(e.before) && At(doc, p, e.before)
  {
    hide At, Blank, SkipSpaces, Space, TextBytes, ElementsTail, ValidText;
    ElementHead(scan, t);
    var e := t.elements[0];
    var s := TextBytes(e.text);
    var tail := s[1..] + (e.after + ElementsTail(t, 0));
    assert s + (e.after + ElementsTail(t, 0)) == [s[0]] + tail;
    SkipToHead(doc, p, e.before, s[0], tail);
  }

  lemma MarkIsNoSpace()
    ensures !Space(RBRACKET)
  {
  }

  lemma ElementHead(scan: RealScanner, t: Text)
    requires ValidText(scan, t) && t.ArrayText? && t.elements != []
    ensures Blank(t.elements[0].before)
    ensures var s := TextBytes(t.elements[0].text); s != [] && s[0] != RBRACKET && !Space(s[0])
  {
    hide Blank, TextBytes, Space, ValidText;
    ElementIsValid(scan, t, 0);
    TextHead(scan, t.elements[0].text);
  }

  lemma {:induction false} ReadArrayText(scan: RealScanner, doc: bytes, depth: nat, p: nat, t: Text, old_: Value)
    requires ValidText(scan, t) && t.ArrayText? && 1 <= depth <= STACK_LIMIT && At(doc, p, TextBytes(t))
    ensures ReadValue(scan, doc, depth, p, old_) == Expected(depth + Height(t) - 1, p, |TextBytes(t)|, Denoted(scan, t))
    decreases t, 1, 0
  {
    hide ReadValue, ReadElements, ReadToken, TextBytes, ElementsBytes, ElementsHeight, Denoted, ElementsDenoted,
      ValidText,
      ScanString, SkipSpaces, At, Blank;
    ArrayTextParts(scan, doc, p, t);
    ArrayBranchText(scan, doc, depth, p, old_);
    LastElement(scan, t);
    NoElementsYet(scan, t);
    if t.elements != [] {
      BlankElements(scan, doc, depth, p + 1, t.elements[0].before, 0, []);
      ReadElementsText(scan, doc, depth, p + 1, t, 0);
    }
  }

  lemma NoElementsYet(scan: RealScanner, t: Text)
    requires ValidText(scan, t) && t.ArrayText?
    ensures ElementsDenoted(scan, t, 0) == []
  {
  }

  lemma NoMembersYet(scan: RealScanner, t: Text)
    requires ValidText(scan, t) && t.ObjectText?
    ensures MembersDenoted(scan, t, 0) == []
  {
  }

  lemma EmptyObject(scan: RealScanner, doc: bytes, depth: nat, p: nat)
    requires p <= |doc| && NextToken(doc, p).kind == ObjectEnd
    ensures ReadMembers(scan, doc, depth, p, [], []) == Done(NextToken(doc, p).end, Object([]))
  {
    hide NextToken;
  }

  /** What stands after an opening brace. */
  lemma ObjectTextParts(scan: RealScanner, doc: bytes, p: nat, t: Text)
    requires ValidText(scan, t) && t.ObjectText? && At(doc, p, TextBytes(t))
    ensures ReadToken(doc, p) == Token(ObjectBegin, p, p + 1) && p + 1 <= |doc|
    ensures if t.members == [] then
              NextToken(doc, p + 1).kind == ObjectEnd && NextToken(doc, p + 1).end == p + |TextBytes(t)|
            else At(doc, p + 1, MembersBytes(t, 0)) && |TextBytes(t)| == 1 + |MembersBytes(t, 0)|
  {
    hide At, Blank, ReadToken, NextToken, ScanString, MembersBytes;
    var rest := if t.members == [] then t.blank + [RBRACE] else MembersBytes(t, 0);
    ReadMark(doc, p, LBRACE, rest, ObjectBegin);
    if t.members == [] {
      assert t.blank + [RBRACE] == t.blank + ([RBRACE] + []);
      BlankMark(doc, p + 1, t.blank, RBRACE, [], ObjectEnd);
    }
  }

  lemma ObjectHeight(t: Text)
    requires t.ObjectText?
    ensures Height(t) == 1 + MembersHeight(t, 0)
  {
    hide MembersHeight;
  }

  lemma {:induction false} ReadObjectText(scan: RealScanner, doc: bytes, depth: nat, p: nat, t: Text, old_: Value)
    requires ValidText(scan, t) && t.ObjectText? && 1 <= depth <= STACK_LIMIT && At(doc, p, TextBytes(t))
    ensures ReadValue(scan, doc, depth, p, old_) == Expected(depth + Height(t) - 1, p, |TextBytes(t)|, Denoted(scan, t))
    decreases t, 1, 0
  {
    hide ReadValue, ReadMembers, ReadToken, NextToken, TextBytes, MembersBytes, Height, MembersHeight, Denoted,
      MembersDenoted, ValidText, ScanString, At;
    ObjectTextParts(scan, doc, p, t);
    ObjectBranch(scan, doc, depth, p, old_);
    ObjectHeight(t);
    LastMember(scan, t);
    NoMembersYet(scan, t);
    if t.members == [] {
      EmptyObject(scan, doc, depth, p + 1);
    } else {
      ReadMembersText(scan, doc, depth, p + 1, t, 0, []);
    }
  }

  lemma ScalarHeight(t: Text)
    requires !t.ArrayText? && !t.ObjectText?
    ensures Height(t) == 1
  {
  }

  /** Wherever a JSON text stands in a document, the reader yields the value it denotes and stops just
      after it, unless the nesting passes the stack limit, when it throws. */
  lemma {:induction false} ReadText(scan: RealScanner, doc: bytes, depth: nat, p: nat, t: Text, old_: Value)
    requires ValidText(scan, t) && depth >= 1
    requires At(doc, p, TextBytes(t)) && Stops(doc, p + |TextBytes(t)|)
    ensures ReadValue(scan, doc, depth, p, old_) == Expected(depth + Height(t) - 1, p, |TextBytes(t)|, Denoted(scan, t))
    decreases t, 2, 0
  {
    hide TextBytes, Height, Denoted, ReadValue, Stops, ValidText;
    if depth > STACK_LIMIT {
      TooDeep(scan, doc, depth, p, old_);
    } else if t.ArrayText? {
      ReadArrayText(scan, doc, depth, p, t, old_);
    } else if t.ObjectText? {
      ReadObjectText(scan, doc, depth, p, t, old_);
    } else {
      ReadScalarText(scan, doc, depth, p, t, old_);
      ScalarHeight(t);
    }
  }

  lemma DocumentParts(before: bytes, text: bytes, after: bytes)
    ensures var doc := before + text + after; At(doc, 0, before) && At(doc, |before|, text)
  {
    var doc := before + text + after;
    assert doc[0..|before|] == before && doc[|before|..|before| + |text|] == text;
  }

  lemma ContainerDenoted(scan: RealScanner, t: Text)
    requires ValidText(scan, t) && (t.ArrayText? || t.ObjectText?)
    ensures Denoted(scan, t).Array? || Denoted(scan, t).Object?
  {
    hide ElementsDenoted, MembersDenoted;
  }

  /** Every JSON text that is an array or an object, in any spelling and with any white space in front of it,
      is parsed with success to the value it denotes if it has at most 1000 levels, and makes the reader
      throw if it has more. What stands behind it makes no difference, be it another text or no text at all. */
  lemma EveryTextParses(scan: RealScanner, before: bytes, t: Text, after: bytes, old_: Value)
    requires ValidText(scan, t) && (t.ArrayText? || t.ObjectText?) && Blank(before)
    ensures ReadDocument(scan, before + TextBytes(t) + after, old_)
            == if Height(t) > 1000 then ParseThrew else Parsed(true, Denoted(scan, t), [])
  {
    hide ReadValue, TextBytes, Height, ValidText, Denoted, At, Blank;
    var doc := before + TextBytes(t) + after;
    var p := |before|;
    DocumentParts(before, TextBytes(t), after);
    BlankValue(scan, doc, 1, 0, before, old_);
    if t.ArrayText? {
      ReadArrayText(scan, doc, 1, p, t, old_);
    } else {
      ReadObjectText(scan, doc, 1, p, t, old_);
    }
    ContainerDenoted(scan, t);
  }
}
