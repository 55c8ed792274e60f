/** The strict reader undoes the writer, at every depth of nesting. */
module JsonRoundTrip {
  import opened Bytes
  import opened JsonValue
  import opened JsonMap
  import opened JsonArray
  import opened JsonTree
  import opened JsonString
  import opened JsonStringLaws
  import opened JsonNumber
  import opened JsonWriter
  import opened JsonLexer
  import opened JsonGrammar
  import opened JsonNormal
  import opened JsonTokens

  /** Reading ends just after the text of length `n` at `p` and yields `value`, or throws when `height`
      nodes would be more than the stack may hold. */
  function Expected(height: nat, p: nat, n: nat, value: Value): Parse {
    if height > 1000 then Threw else Done(p + n, value)
  }

  // ---- Scalars ----

  lemma ReadInteger(scan: RealScanner, doc: bytes, depth: nat, p: nat, v: int, old_: Value)
    requires MIN_LARGEST_INT <= v <= MAX_LARGEST_UINT && depth <= STACK_LIMIT
    requires At(doc, p, SignedDecimal(v)) && Stops(doc, p + |SignedDecimal(v)|)
    ensures ReadValue(scan, doc, depth, p, old_) == Done(p + |SignedDecimal(v)|, ReaderValue(v))
  {
    hide SignedDecimal, DecodeInteger, ReadToken, ReadArray, ReadMembers;
    IntegerRoundTrip(v);
    SignedDecimalShape(v);
    ReadDecimal(doc, p, v);
  }

  lemma ReadScalar(scan: RealScanner, pr: RealPrinter, doc: bytes, depth: nat, p: nat, v: Value, old_: Value)
    requires WellFormed(v) && RealFree(v) && !v.Array? && !v.Object? && depth <= STACK_LIMIT
    requires At(doc, p, Written(pr, v)) && Stops(doc, p + |Written(pr, v)|)
    ensures ReadValue(scan, doc, depth, p, old_) == Done(p + |Written(pr, v)|, Normalized(v))
  {
    hide SignedDecimal, ReadToken, ReadArray, ReadMembers, Quoted, DecodeStringToken, DecodeNumberToken, Stops;
    match v
    case Int(i) => ReadInteger(scan, doc, depth, p, i, old_);
    case UInt(u) => ReadInteger(scan, doc, depth, p, u, old_);
    case String(s) => ReadQuoted(doc, p, s);
    case Null => ReadWord(doc, p, NULL_TEXT, NullToken);
    case Bool(b) =>
      if b {
        ReadWord(doc, p, TRUE_TEXT, TrueToken);
      } else {
        ReadWord(doc, p, FALSE_TEXT, FalseToken);
      }
  }

  // ---- Arrays ----

  /** Everything from position `i` up to and including the closing bracket. */
  function ElementsClosed(pr: RealPrinter, m: ObjectValues, i: nat): bytes {
    ElementsText(pr, m, i) + [RBRACKET]
  }

  function ElementClosed(pr: RealPrinter, m: ObjectValues, i: nat): bytes
    requires i < Size(m)
  {
    Written(pr, Element(m, i)) + ElementsClosed(pr, m, i + 1)
  }

  lemma ElementsUnfold(pr: RealPrinter, m: ObjectValues, i: nat)
    ensures i < Size(m) ==> ElementsClosed(pr, m, i) == Comma(i) + ElementClosed(pr, m, i)
    ensures i >= Size(m) ==> ElementsClosed(pr, m, i) == [RBRACKET]
  {
    hide Written, Element, Size;
  }

  /** Nothing printed begins with a space or a closing bracket. */
  lemma WrittenHead(pr: RealPrinter, v: Value)
    requires RealFree(v)
    ensures var t := Written(pr, v); t != [] && t[0] != RBRACKET && !Space(t[0])
  {
    hide Decimal, EscapedBody, ElementsText, MembersText;
    if v.Int? {
      SignedDecimalShape(v.i);
    } else if v.UInt? {
      SignedDecimalShape(v.u);
    }
  }

  lemma ElementStops(pr: RealPrinter, doc: bytes, p: nat, m: ObjectValues, i: nat)
    requires At(doc, p, ElementsClosed(pr, m, i + 1))
    ensures Stops(doc, p)
  {
    ElementsUnfold(pr, m, i + 1);
    hide ElementsClosed, ElementClosed, Size;
    AtByte(doc, p, ElementsClosed(pr, m, i + 1), 0);
  }

  // One turn of the element loop, by what follows the element.

  lemma ElementThrows(scan: RealScanner, doc: bytes, depth: nat, p: nat, i: nat, acc: ObjectValues)
    requires p <= |doc| && ReadValue(scan, doc, depth + 1, p, Lookup(acc, Index(i))).Threw?
    ensures ReadElements(scan, doc, depth, p, i, acc).Threw?
  {
    hide ReadValue, Lookup;
  }

  lemma ElementThenMark(scan: RealScanner, doc: bytes, depth: nat, p: nat, i: nat, acc: ObjectValues, q: nat, v: Value)
    requires p <= q < |doc| && ReadValue(scan, doc, depth + 1, p, Lookup(acc, Index(i))) == Done(q, v)
    ensures var t := NextToken(doc, q);
            var acc' := Assign(acc, Index(i), v);
            && (t.kind == ArrayEnd ==> ReadElements(scan, doc, depth, p, i, acc) == Done(t.end, Array(acc')))
            && (t.kind == ArraySeparator ==>
                  ReadElements(scan, doc, depth, p, i, acc) == ReadElements(scan, doc, depth, t.end, i + 1, acc'))
  {
    hide ReadValue, Lookup, Assign, NextToken;
  }

  lemma ElementNormalized(m: ObjectValues, i: nat, acc: ObjectValues)
    requires i < Size(m)
    ensures NormalizedElements(m, i, acc)
            == NormalizedElements(m, i + 1, Assign(acc, Index(i), Normalized(Element(m, i))))
    ensures ElementsDepth(m, i) == Max(Depth(Element(m, i)), ElementsDepth(m, i + 1))
  {
    hide Normalized, Element, Depth, Assign;
  }

  lemma NoElements(m: ObjectValues, i: nat, acc: ObjectValues)
    requires i >= Size(m)
    ensures NormalizedElements(m, i, acc) == acc && ElementsDepth(m, i) == 0
  {
  }

  /** The parts of what stands at the cursor, and where the element ends. */
  lemma ElementParts(pr: RealPrinter, doc: bytes, p: nat, m: ObjectValues, i: nat)
    requires i < Size(m) && At(doc, p, ElementClosed(pr, m, i))
    ensures var n := |Written(pr, Element(m, i))|;
            && At(doc, p, Written(pr, Element(m, i))) && Stops(doc, p + n)
            && |ElementClosed(pr, m, i)| == n + |ElementsClosed(pr, m, i + 1)|
            && (if i + 1 < Size(m) then
                  && NextToken(doc, p + n) == Token(ArraySeparator, p + n, p + n + 1)
                  && At(doc, p + n + 1, ElementClosed(pr, m, i + 1))
                  && |ElementsClosed(pr, m, i + 1)| == 1 + |ElementClosed(pr, m, i + 1)|
                else
                  && NextToken(doc, p + n) == Token(ArrayEnd, p + n, p + n + 1)
                  && |ElementsClosed(pr, m, i + 1)| == 1)
  {
    var v := Element(m, i);
    var q := p + |Written(pr, v)|;
    hide Element, Size, ElementsClosed, Stops, NextToken, Written;
    AtSplit(doc, p, Written(pr, v), ElementsClosed(pr, m, i + 1));
    ElementStops(pr, doc, q, m, i);
    ElementsUnfold(pr, m, i + 1);
    hide ElementClosed;
    if i + 1 < Size(m) {
      ReadMark(doc, q, COMMA, ElementClosed(pr, m, i + 1), ArraySeparator);
    } else {
      assert [RBRACKET] + [] == [RBRACKET];
      ReadMark(doc, q, RBRACKET, [], ArrayEnd);
    }
  }

  /** The element loop from position `i` on, given what reading the element and the rest comes to. */
  lemma ElementTurn(scan: RealScanner, pr: RealPrinter, doc: bytes, depth: nat, p: nat, m: ObjectValues, i: nat,
                    acc: ObjectValues)
    requires i < Size(m) && At(doc, p, ElementClosed(pr, m, i)) && depth <= STACK_LIMIT
    requires var v := Element(m, i);
             var n := |Written(pr, v)|;
             var acc' := Assign(acc, Index(i), Normalized(v));
             && ReadValue(scan, doc, depth + 1, p, Lookup(acc, Index(i)))
                == Expected(depth + Depth(v), p, n, Normalized(v))
             && (depth + Depth(v) <= STACK_LIMIT && i + 1 < Size(m) ==>
                   && p + n + 1 <= |doc|
                   && ReadElements(scan, doc, depth, p + n + 1, i + 1, acc')
                      == Expected(depth + ElementsDepth(m, i + 1), p + n + 1, |ElementClosed(pr, m, i + 1)|,
                                  Array(NormalizedElements(m, i + 1, acc'))))
    ensures ReadElements(scan, doc, depth, p, i, acc)
            == Expected(depth + ElementsDepth(m, i), p, |ElementClosed(pr, m, i)|, Array(NormalizedElements(m, i, acc)))
  {
    hide ScanString, Assign, Lookup, Written, Normalized, Depth, Element, Stops, ReadValue, At, Size, ReadElements,
      NextToken, ElementsDepth, NormalizedElements, ElementsClosed, ElementClosed;
    var v := Element(m, i);
    ElementParts(pr, doc, p, m, i);
    ElementNormalized(m, i, acc);
    if depth + Depth(v) > STACK_LIMIT {
      ElementThrows(scan, doc, depth, p, i, acc);
    } else {
      ElementThenMark(scan, doc, depth, p, i, acc, p + |Written(pr, v)|, Normalized(v));
      if i + 1 >= Size(m) {
        NoElements(m, i + 1, Assign(acc, Index(i), Normalized(v)));
      }
    }
  }

  lemma {:induction false} ReadWrittenElement(scan: RealScanner, pr: RealPrinter, doc: bytes, depth: nat, p: nat,
                                              m: ObjectValues, i: nat, old_: Value)
    requires WellFormed(Array(m)) && RealFree(Array(m)) && i < Size(m)
    requires At(doc, p, ElementClosed(pr, m, i))
    ensures var v := Element(m, i);
            ReadValue(scan, doc, depth + 1, p, old_) == Expected(depth + Depth(v), p, |Written(pr, v)|, Normalized(v))
    decreases MapWeight(m), 1
  {
    hide ScanString, WellFormed, RealFree, Written, Normalized, Depth, Element, Stops, ReadValue, At, Size, MapWeight,
      Weight, NextToken, ElementsClosed, ElementClosed, Expected;
    ElementWeight(m, i);
    WellFormedElement(m, i);
    RealFreeElement(m, i);
    ElementParts(pr, doc, p, m, i);
    ReadWritten(scan, pr, doc, depth + 1, p, Element(m, i), old_);
  }

  lemma {:induction false} ReadWrittenElements(scan: RealScanner, pr: RealPrinter, doc: bytes, depth: nat, p: nat,
                                               m: ObjectValues, i: nat, acc: ObjectValues)
    requires WellFormed(Array(m)) && RealFree(Array(m)) && i < Size(m) && depth <= STACK_LIMIT
    requires At(doc, p, ElementClosed(pr, m, i))
    ensures ReadElements(scan, doc, depth, p, i, acc)
            == Expected(depth + ElementsDepth(m, i), p, |ElementClosed(pr, m, i)|, Array(NormalizedElements(m, i, acc)))
    decreases MapWeight(m), 2, Size(m) - i
  {
    hide ScanString, Assign, Lookup, WellFormed, RealFree, Written, Normalized, Depth, Element, Stops, ReadValue, At,
      Size, MapWeight, Weight, ReadElements, NextToken, ElementsDepth, NormalizedElements, ElementsClosed,
      ElementClosed, Expected;
    var v := Element(m, i);
    ElementParts(pr, doc, p, m, i);
    ReadWrittenElement(scan, pr, doc, depth, p, m, i, Lookup(acc, Index(i)));
    if i + 1 < Size(m) {
      ReadWrittenElements(scan, pr, doc, depth, p + |Written(pr, v)| + 1, m, i + 1, Assign(acc, Index(i),
        Normalized(v)));
    }
    ElementTurn(scan, pr, doc, depth, p, m, i, acc);
  }

  lemma ArrayBranch(scan: RealScanner, doc: bytes, depth: nat, p: nat, old_: Value)
    requires p < |doc| && ReadToken(doc, p) == Token(ArrayBegin, p, p + 1)
    requires p + 1 < |doc| && !Space(doc[p + 1]) && 1 <= depth <= STACK_LIMIT
    ensures ReadValue(scan, doc, depth, p, old_)
            == if doc[p + 1] == RBRACKET then Done(p + 2, Array([])) else ReadElements(scan, doc, depth, p + 1, 0, [])
  {
    hide ReadElements, ReadToken, ScanString;
  }

  lemma ArrayClosed(pr: RealPrinter, m: ObjectValues)
    ensures Written(pr, Array(m)) == [LBRACKET] + ElementsClosed(pr, m, 0)
  {
    hide ElementsText;
  }

  /** What stands after an opening bracket. */
  lemma ArrayParts(pr: RealPrinter, doc: bytes, p: nat, m: ObjectValues)
    requires RealFree(Array(m)) && At(doc, p, Written(pr, Array(m)))
    ensures ReadToken(doc, p) == Token(ArrayBegin, p, p + 1) && p + 1 < |doc| && !Space(doc[p + 1])
    ensures Size(m) == 0 ==> |Written(pr, Array(m))| == 2 && doc[p + 1] == RBRACKET
    ensures Size(m) > 0 ==>
              && |Written(pr, Array(m))| == 1 + |ElementClosed(pr, m, 0)|
              && At(doc, p + 1, ElementClosed(pr, m, 0)) && doc[p + 1] != RBRACKET
  {
    hide Size, Element, Written, ElementsClosed, NextToken, ReadToken, RealFree, ElementsText, ScanString;
    ArrayClosed(pr, m);
    ElementsUnfold(pr, m, 0);
    ReadMark(doc, p, LBRACKET, ElementsClosed(pr, m, 0), ArrayBegin);
    if Size(m) > 0 {
      RealFreeElement(m, 0);
      WrittenHead(pr, Element(m, 0));
      assert [] + ElementClosed(pr, m, 0) == ElementClosed(pr, m, 0);
      AtHead(doc, p + 1, ElementClosed(pr, m, 0));
    } else {
      AtHead(doc, p + 1, [RBRACKET]);
    }
  }

  lemma {:induction false} ReadWrittenArray(scan: RealScanner, pr: RealPrinter, doc: bytes, depth: nat, p: nat,
                                            m: ObjectValues, old_: Value)
    requires WellFormed(Array(m)) && RealFree(Array(m)) && 1 <= depth <= STACK_LIMIT
    requires At(doc, p, Written(pr, Array(m)))
    ensures ReadValue(scan, doc, depth, p, old_)
            == Expected(depth + Depth(Array(m)) - 1, p, |Written(pr, Array(m))|, Normalized(Array(m)))
    decreases MapWeight(m) + 1, 0
  {
    hide ReadValue, ReadElements, ReadToken, Written, ElementClosed, ElementsDepth, NormalizedElements, WellFormed,
      RealFree, ScanString, Size;
    ArrayParts(pr, doc, p, m);
    ArrayBranch(scan, doc, depth, p, old_);
    if Size(m) > 0 {
      ReadWrittenElements(scan, pr, doc, depth, p + 1, m, 0, []);
    } else {
      NoElements(m, 0, []);
    }
  }

  // ---- Objects ----

  /** Everything from member `i` up to and including the closing brace. */
  function MembersClosed(pr: RealPrinter, m: ObjectValues, i: nat): bytes {
    MembersText(pr, m, i) + [RBRACE]
  }

  function MemberClosed(pr: RealPrinter, m: ObjectValues, i: nat): bytes
    requires i < |m|
  {
    Quoted(KeyName(m[i].key)) + ([COLON] + ValueClosed(pr, m, i))
  }

  function ValueClosed(pr: RealPrinter, m: ObjectValues, i: nat): bytes
    requires i < |m|
  {
    Written(pr, m[i].value) + MembersClosed(pr, m, i + 1)
  }

  lemma MembersUnfold(pr: RealPrinter, m: ObjectValues, i: nat)
    ensures i < |m| ==> MembersClosed(pr, m, i) == Comma(i) + MemberClosed(pr, m, i)
    ensures i >= |m| ==> MembersClosed(pr, m, i) == [RBRACE]
  {
    hide Written, Quoted, KeyName;
    if i >= |m| {
      assert MembersText(pr, m, i) == [];
    } else {
      assert MembersText(pr, m, i) == Comma(i) + MemberText(pr, m, i) + MembersText(pr, m, i + 1);
      var key, value, rest := Quoted(KeyName(m[i].key)), Written(pr, m[i].value), MembersText(pr, m, i + 1);
      assert Comma(i) + (key + [COLON] + value) + rest + [RBRACE]
          == Comma(i) + (key + ([COLON] + (value + (rest + [RBRACE]))));
    }
  }

  lemma MemberStops(pr: RealPrinter, doc: bytes, p: nat, m: ObjectValues, i: nat)
    requires At(doc, p, MembersClosed(pr, m, i + 1))
    ensures Stops(doc, p)
  {
    hide MembersClosed, MemberClosed;
    MembersUnfold(pr, m, i + 1);
    AtByte(doc, p, MembersClosed(pr, m, i + 1), 0);
  }

  /** What stands before a member's value. */
  lemma KeyParts(pr: RealPrinter, doc: bytes, p: nat, m: ObjectValues, i: nat)
    requires i < |m| && At(doc, p, MemberClosed(pr, m, i))
    ensures var name := KeyName(m[i].key);
            var q := p + |Quoted(name)|;
            var t := Token(StringToken, p, q);
            && NextToken(doc, p) == t && p + 2 <= q <= |doc|
            && DecodeStringToken(doc, t) == Plain(Repaired(name))
            && ReadToken(doc, q) == Token(MemberSeparator, q, q + 1)
            && At(doc, q + 1, ValueClosed(pr, m, i))
            && |MemberClosed(pr, m, i)| == |Quoted(name)| + 1 + |ValueClosed(pr, m, i)|
  {
    hide Quoted, ValueClosed, ReadToken, NextToken, DecodeStringToken, Repaired, ScanString;
    var name := KeyName(m[i].key);
    AtSplit(doc, p, Quoted(name), [COLON] + ValueClosed(pr, m, i));
    ReadQuoted(doc, p, name);
    ReadMark(doc, p + |Quoted(name)|, COLON, ValueClosed(pr, m, i), MemberSeparator);
  }

  /** What stands at a member's value, and where the value ends. */
  lemma ValueParts(pr: RealPrinter, doc: bytes, p: nat, m: ObjectValues, i: nat)
    requires i < |m| && At(doc, p, ValueClosed(pr, m, i))
    ensures var n := |Written(pr, m[i].value)|;
            && At(doc, p, Written(pr, m[i].value)) && Stops(doc, p + n)
            && |ValueClosed(pr, m, i)| == n + |MembersClosed(pr, m, i + 1)|
            && ReadToken(doc, p + n) == NextToken(doc, p + n)
            && (if i + 1 < |m| then
                  && NextToken(doc, p + n) == Token(ArraySeparator, p + n, p + n + 1)
                  && At(doc, p + n + 1, MemberClosed(pr, m, i + 1))
                  && |MembersClosed(pr, m, i + 1)| == 1 + |MemberClosed(pr, m, i + 1)|
                else
                  && NextToken(doc, p + n) == Token(ObjectEnd, p + n, p + n + 1)
                  && |MembersClosed(pr, m, i + 1)| == 1)
  {
    hide MembersClosed, MemberClosed, Stops, ReadToken, NextToken, Written, ScanString;
    var q := p + |Written(pr, m[i].value)|;
    AtSplit(doc, p, Written(pr, m[i].value), MembersClosed(pr, m, i + 1));
    MemberStops(pr, doc, q, m, i);
    MembersUnfold(pr, m, i + 1);
    if i + 1 < |m| {
      ReadMark(doc, q, COMMA, MemberClosed(pr, m, i + 1), ArraySeparator);
    } else {
      assert [RBRACE] + [] == [RBRACE];
      ReadMark(doc, q, RBRACE, [], ObjectEnd);
    }
  }

  // One turn of the member loop, by what follows the value.

  lemma MemberKey(scan: RealScanner, doc: bytes, depth: nat, p: nat, q: nat, name: bytes, acc: ObjectValues, key: bytes)
    requires p <= q <= |doc| && NextToken(doc, p).kind == StringToken && NextToken(doc, p).end == q
    requires DecodeStringToken(doc, NextToken(doc, p)) == Plain(key)
    requires ReadToken(doc, q).kind == MemberSeparator
    ensures ReadMembers(scan, doc, depth, p, name, acc) == ReadMember(scan, doc, depth, ReadToken(doc, q).end, key, acc)
  {
    hide ReadToken, NextToken, DecodeStringToken, ReadMember, ScanString;
  }

  lemma MemberThrows(scan: RealScanner, doc: bytes, depth: nat, p: nat, key: bytes, acc: ObjectValues)
    requires p <= |doc| && ReadValue(scan, doc, depth + 1, p, Lookup(acc, Name(key))).Threw?
    ensures ReadMember(scan, doc, depth, p, key, acc).Threw?
  {
    hide ReadValue, Lookup;
  }

  lemma MemberThenMark(scan: RealScanner, doc: bytes, depth: nat, p: nat, key: bytes, acc: ObjectValues, q: nat,
                       v: Value)
    requires p <= q < |doc| && ReadValue(scan, doc, depth + 1, p, Lookup(acc, Name(key))) == Done(q, v)
    requires ReadToken(doc, q) == NextToken(doc, q)
    ensures var t := NextToken(doc, q);
            var acc' := Assign(acc, Name(key), v);
            && (t.kind == ObjectEnd ==> ReadMember(scan, doc, depth, p, key, acc) == Done(t.end, Object(acc')))
            && (t.kind == ArraySeparator ==>
                  ReadMember(scan, doc, depth, p, key, acc) == ReadMembers(scan, doc, depth, t.end, key, acc'))
  {
    hide ReadValue, Lookup, Assign, NextToken, ReadToken, ReadMembers, ScanString;
  }

  lemma MemberNormalized(m: ObjectValues, i: nat, acc: ObjectValues)
    requires i < |m|
    ensures NormalizedMembers(m, i, acc)
            == NormalizedMembers(m, i + 1, Assign(acc, Name(Repaired(KeyName(m[i].key))), Normalized(m[i].value)))
    ensures MembersDepth(m, i) == Max(Depth(m[i].value), MembersDepth(m, i + 1))
  {
    hide Normalized, Depth, Assign, Repaired;
  }

  lemma NoMembers(m: ObjectValues, i: nat, acc: ObjectValues)
    requires i >= |m|
    ensures NormalizedMembers(m, i, acc) == acc && MembersDepth(m, i) == 0
  {
  }

  lemma MemberFacts(m: ObjectValues, i: nat)
    requires WellFormed(Object(m)) && RealFree(Object(m)) && i < |m|
    ensures WellFormed(m[i].value) && RealFree(m[i].value) && Weight(m[i].value) < MapWeight(m)
  {
    WellFormedMember(m, i);
  }

  lemma {:induction false} ReadWrittenMembers(scan: RealScanner, pr: RealPrinter, doc: bytes, depth: nat, p: nat,
                                              m: ObjectValues, i: nat, name: bytes, acc: ObjectValues)
    requires WellFormed(Object(m)) && RealFree(Object(m)) && i < |m| && depth <= STACK_LIMIT
    requires At(doc, p, MemberClosed(pr, m, i))
    ensures ReadMembers(scan, doc, depth, p, name, acc)
            == Expected(depth + MembersDepth(m, i), p, |MemberClosed(pr, m, i)|, Object(NormalizedMembers(m, i, acc)))
    decreases MapWeight(m), 1, |m| - i
  {
    hide ScanString, Assign, Lookup, WellFormed, RealFree, Written, Normalized, Depth, Stops, ReadToken, ReadValue, At,
      MapWeight, Weight, ReadMembers, ReadMember, NextToken, MembersDepth, NormalizedMembers, MembersClosed,
      MemberClosed, ValueClosed, Quoted, KeyName, Repaired, DecodeStringToken;
    var v := m[i].value;
    var key := Repaired(KeyName(m[i].key));
    var q := p + |Quoted(KeyName(m[i].key))| + 1;
    var n := |Written(pr, v)|;
    var acc' := Assign(acc, Name(key), Normalized(v));
    MemberFacts(m, i);
    KeyParts(pr, doc, p, m, i);
    ValueParts(pr, doc, q, m, i);
    MemberNormalized(m, i, acc);
    MemberKey(scan, doc, depth, p, q - 1, name, acc, key);
    ReadWritten(scan, pr, doc, depth + 1, q, v, Lookup(acc, Name(key)));
    if depth + Depth(v) > STACK_LIMIT {
      MemberThrows(scan, doc, depth, q, key, acc);
    } else {
      MemberThenMark(scan, doc, depth, q, key, acc, q + n, Normalized(v));
      if i + 1 < |m| {
        ReadWrittenMembers(scan, pr, doc, depth, q + n + 1, m, i + 1, key, acc');
      } else {
        NoMembers(m, i + 1, acc');
      }
    }
  }

  lemma ObjectBranch(scan: RealScanner, doc: bytes, depth: nat, p: nat, old_: Value)
    requires p < |doc| && ReadToken(doc, p) == Token(ObjectBegin, p, p + 1) && 1 <= depth <= STACK_LIMIT
    ensures ReadValue(scan, doc, depth, p, old_) == ReadMembers(scan, doc, depth, p + 1, [], [])
    ensures NextToken(doc, p + 1) == Token(ObjectEnd, p + 1, p + 2) ==>
              ReadValue(scan, doc, depth, p, old_) == Done(p + 2, Object([]))
  {
    hide ReadToken, ScanString, ReadMember, NextToken;
  }

  /** What stands after an opening brace. */
  lemma ObjectParts(pr: RealPrinter, doc: bytes, p: nat, m: ObjectValues)
    requires At(doc, p, Written(pr, Object(m)))
    ensures ReadToken(doc, p) == Token(ObjectBegin, p, p + 1) && p + 1 < |doc|
    ensures |m| == 0 ==>
              |Written(pr, Object(m))| == 2 && NextToken(doc, p + 1) == Token(ObjectEnd, p + 1, p + 2)
    ensures |m| > 0 ==>
              |Written(pr, Object(m))| == 1 + |MemberClosed(pr, m, 0)| && At(doc, p + 1, MemberClosed(pr, m, 0))
  {
    hide Written, MembersClosed, NextToken, ReadToken, MembersText, ScanString, MemberClosed;
    ObjectClosed(pr, m);
    MembersUnfold(pr, m, 0);
    ReadMark(doc, p, LBRACE, MembersClosed(pr, m, 0), ObjectBegin);
    if |m| > 0 {
      assert [] + MemberClosed(pr, m, 0) == MemberClosed(pr, m, 0);
    } else {
      assert [RBRACE] + [] == [RBRACE];
      ReadMark(doc, p + 1, RBRACE, [], ObjectEnd);
    }
  }

  lemma ObjectClosed(pr: RealPrinter, m: ObjectValues)
    ensures Written(pr, Object(m)) == [LBRACE] + MembersClosed(pr, m, 0)
    ensures |MembersClosed(pr, m, 0)| >= 1
  {
    hide MembersText;
  }

  lemma {:induction false} ReadWrittenObject(scan: RealScanner, pr: RealPrinter, doc: bytes, depth: nat, p: nat,
                                             m: ObjectValues, old_: Value)
    requires WellFormed(Object(m)) && RealFree(Object(m)) && 1 <= depth <= STACK_LIMIT
    requires At(doc, p, Written(pr, Object(m)))
    ensures ReadValue(scan, doc, depth, p, old_)
            == Expected(depth + Depth(Object(m)) - 1, p, |Written(pr, Object(m))|, Normalized(Object(m)))
    decreases MapWeight(m) + 1, 0
  {
    hide ReadValue, ReadMembers, ReadToken, NextToken, Written, MemberClosed, MembersDepth, NormalizedMembers,
      WellFormed, RealFree, ScanString;
    ObjectParts(pr, doc, p, m);
    ObjectBranch(scan, doc, depth, p, old_);
    if |m| > 0 {
      ReadWrittenMembers(scan, pr, doc, depth, p + 1, m, 0, [], []);
    } else {
      NoMembers(m, 0, []);
    }
  }

  // ---- Values ----

  lemma TooDeep(scan: RealScanner, doc: bytes, depth: nat, p: nat, old_: Value)
    requires p <= |doc| && depth > STACK_LIMIT
    ensures ReadValue(scan, doc, depth, p, old_) == Threw
  {
  }

  lemma ScalarDepth(v: Value)
    requires !v.Array? && !v.Object?
    ensures Depth(v) == 1
  {
  }

  /** Wherever a printed value stands, the reader reads back its normal form and stops just after it,
      unless the nesting passes the stack limit, when it throws. */
  lemma {:induction false} ReadWritten(scan: RealScanner, pr: RealPrinter, doc: bytes, depth: nat, p: nat, v: Value,
                                       old_: Value)
    requires WellFormed(v) && RealFree(v) && depth >= 1
    requires At(doc, p, Written(pr, v)) && Stops(doc, p + |Written(pr, v)|)
    ensures ReadValue(scan, doc, depth, p, old_) == Expected(depth + Depth(v) - 1, p, |Written(pr, v)|, Normalized(v))
    decreases Weight(v), 2
  {
    hide Written, Depth, Normalized, RealFree, WellFormed, ReadValue, Stops;
    if depth > STACK_LIMIT {
      TooDeep(scan, doc, depth, p, old_);
    } else if v.Array? {
      ReadWrittenArray(scan, pr, doc, depth, p, v.map_, old_);
    } else if v.Object? {
      ReadWrittenObject(scan, pr, doc, depth, p, v.map_, old_);
    } else {
      ReadScalar(scan, pr, doc, depth, p, v, old_);
      ScalarDepth(v);
    }
  }
}
