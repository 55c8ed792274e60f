/** `Reader` in strict mode: a cursor, a stack of nodes and an error list, changed step by step. */
module JsonReader {
  import opened Bytes
  import opened JsonValue
  import opened JsonMap
  import opened JsonString
  import opened JsonNumber
  import opened JsonWriter
  import opened JsonLexer
  import opened JsonGrammar

  /** How a call ends: by returning a boolean, or by throwing at the stack limit. */
  datatype Outcome = Thrown | Returned(ok: bool)

  /** The reader's state after reading one value agrees with what the grammar says of it: same
      cursor, same node on top, the nodes below untouched, and one error more or none. */
  ghost predicate Agrees(r: Parse, o: Outcome, current: nat, nodes: seq<Value>, below: seq<Value>,
                         errors: seq<ErrorInfo>, before: seq<ErrorInfo>)
  {
    match r
    case Threw => o == Thrown
    case Done(pos, value) =>
      o == Returned(true) && current == pos && nodes == below + [value] && errors == before
    case Failed(pos, value, error) =>
      o == Returned(false) && current == pos && nodes == below + [value] && errors == before + [error]
  }

  class Reader {
    const scanReal: RealScanner
    var document_: bytes
    var current_: nat
    var nodes_: seq<Value>
    var errors_: seq<ErrorInfo>

    constructor (scanReal: RealScanner)
      ensures this.scanReal == scanReal
    {
      this.scanReal := scanReal;
      document_, current_, nodes_, errors_ := [], 0, [], [];
    }

    // ---- Lexer ----

    /** The next character, or NUL at the end. */
    method GetNextChar() returns (c: byte)
      requires current_ <= |document_|
      modifies this`current_
      ensures old(current_) == |document_| ==> c == 0 && current_ == old(current_)
      ensures old(current_) < |document_| ==> c == document_[old(current_)] && current_ == old(current_) + 1
    {
      if current_ == |document_| {
        return 0;
      }
      c := document_[current_];
      current_ := current_ + 1;
    }

    method SkipSpaces()
      requires current_ <= |document_|
      modifies this`current_
      ensures current_ == JsonLexer.SkipSpaces(document_, old(current_))
    {
      while current_ != |document_| && Space(document_[current_])
        invariant current_ <= |document_|
        invariant JsonLexer.SkipSpaces(document_, current_) == JsonLexer.SkipSpaces(document_, old(current_))
        decreases |document_| - current_
      {
        current_ := current_ + 1;
      }
    }

    method Match(pattern: bytes) returns (ok: bool)
      requires current_ <= |document_|
      modifies this`current_
      ensures ok == Matches(document_, old(current_), pattern)
      ensures current_ == if ok then old(current_) + |pattern| else old(current_)
    {
      if |document_| - current_ < |pattern| {
        return false;
      }
      var index := |pattern|;
      while index > 0
        invariant 0 <= index <= |pattern| <= |document_| - current_ && current_ == old(current_)
        invariant forall k :: index <= k < |pattern| ==> document_[current_ + k] == pattern[k]
      {
        index := index - 1;
        if document_[current_ + index] != pattern[index] {
          return false;
        }
      }
      assert document_[current_..current_ + |pattern|] == pattern;
      current_ := current_ + |pattern|;
      return true;
    }

    method ReadString() returns (ok: bool)
      requires current_ <= |document_|
      modifies this`current_
      ensures StringScan(ok, current_) == ScanString(document_, old(current_))
    {
      var c: byte := 0;
      while current_ != |document_|
        invariant current_ <= |document_|
        invariant c != QUOTE
        invariant ScanString(document_, current_) == ScanString(document_, old(current_))
        decreases |document_| - current_
      {
        c := GetNextChar();
        if c == BACKSLASH {
          var _ := GetNextChar();
        } else if c == QUOTE {
          break;
        }
      }
      return c == QUOTE;
    }

    /** Advances over a run of digits; `c` is the character at the cursor, NUL at the end. */
    method ReadDigits() returns (c: byte)
      requires current_ <= |document_|
      modifies this`current_
      ensures current_ == SkipDigits(document_, old(current_))
      ensures c == if current_ < |document_| then document_[current_] else 0
    {
      c := if current_ < |document_| then document_[current_] else 0;
      while 0x30 <= c <= 0x39
        invariant current_ <= |document_|
        invariant c == if current_ < |document_| then document_[current_] else 0
        invariant SkipDigits(document_, current_) == SkipDigits(document_, old(current_))
        decreases |document_| - current_
      {
        current_ := current_ + 1;
        c := if current_ < |document_| then document_[current_] else 0;
      }
    }

    method ReadNumber()
      requires current_ <= |document_|
      modifies this`current_
      ensures current_ == ScanNumber(document_, old(current_))
    {
      hide SkipDigits;
      var c := ReadDigits();
      if c == 0x2E {
        current_ := current_ + 1;
        c := ReadDigits();
      }
      if c == 0x65 || c == 0x45 {
        current_ := current_ + 1;
        if current_ < |document_| && (document_[current_] == 0x2B || document_[current_] == 0x2D) {
          current_ := current_ + 1;
        }
        c := ReadDigits();
      }
    }

    method ReadCStyleComment() returns (ok: bool)
      requires current_ <= |document_|
      modifies this`current_
      ensures StringScan(ok, current_) == ScanCComment(document_, old(current_))
    {
      while current_ + 1 < |document_|
        invariant current_ <= |document_|
        invariant ScanCComment(document_, current_) == ScanCComment(document_, old(current_))
        decreases |document_| - current_
      {
        var c := GetNextChar();
        if c == STAR && document_[current_] == SLASH {
          var last := GetNextChar();
          return last == SLASH;
        }
      }
      var last := GetNextChar();
      return last == SLASH;
    }

    method ReadCppStyleComment()
      requires current_ <= |document_|
      modifies this`current_
      ensures current_ == ScanLineComment(document_, old(current_))
    {
      while current_ != |document_|
        invariant current_ <= |document_|
        invariant ScanLineComment(document_, current_) == ScanLineComment(document_, old(current_))
        decreases |document_| - current_
      {
        var c := GetNextChar();
        if c == LINE_FEED {
          return;
        }
        if c == CARRIAGE_RETURN {
          if current_ != |document_| && document_[current_] == LINE_FEED {
            var _ := GetNextChar();
          }
          return;
        }
      }
    }

    method ReadComment() returns (ok: bool)
      requires current_ <= |document_|
      modifies this`current_
      ensures StringScan(ok, current_) == ScanComment(document_, old(current_))
    {
      hide ScanCComment, ScanLineComment;
      var c := GetNextChar();
      if c == STAR {
        ok := ReadCStyleComment();
      } else if c == SLASH {
        ReadCppStyleComment();
        ok := true;
      } else {
        ok := false;
      }
    }

    /** The token after its first character `c` has been consumed. */
    method FinishToken(c: byte) returns (kind: TokenKind)
      requires 0 < current_ <= |document_| && c == document_[current_ - 1]
      modifies this`current_
      ensures old(current_) <= current_ <= |document_|
      ensures Token(kind, old(current_) - 1, current_) == TokenAt(document_, old(current_) - 1)
    {
      hide ScanString, ScanComment, ScanNumber;
      var ok := true;
      match c {
        case 0x7B => kind := ObjectBegin;
        case 0x7D => kind := ObjectEnd;
        case 0x5B => kind := ArrayBegin;
        case 0x5D => kind := ArrayEnd;
        case 0x22 =>
          kind := StringToken;
          ok := ReadString();
        case 0x2F =>
          kind := CommentToken;
          ok := ReadComment();
        case 0x74 =>
          kind := TrueToken;
          ok := Match(TRUE_TEXT[1..]);
        case 0x66 =>
          kind := FalseToken;
          ok := Match(FALSE_TEXT[1..]);
        case 0x6E =>
          kind := NullToken;
          ok := Match(NULL_TEXT[1..]);
        case 0x2C => kind := ArraySeparator;
        case 0x3A => kind := MemberSeparator;
        case 0 => kind := EndOfStream;
        case _ =>
          if 0x30 <= c <= 0x39 || c == MINUS {
            kind := NumberToken;
            ReadNumber();
          } else {
            ok := false;
            kind := ErrorToken;
          }
      }
      if !ok {
        kind := ErrorToken;
      }
    }

    method ReadToken() returns (token: Token)
      requires current_ <= |document_|
      modifies this`current_
      ensures token == JsonLexer.ReadToken(document_, old(current_)) && current_ == token.end
    {
      hide JsonLexer.SkipSpaces;
      SkipSpaces();
      var start := current_;
      var c := GetNextChar();
      if current_ == start {
        return Token(EndOfStream, start, start);
      }
      var kind := FinishToken(c);
      return Token(kind, start, current_);
    }

    /** The comment loops of the object and array branches. */
    method ReadTokenAfterComments() returns (token: Token)
      requires current_ <= |document_|
      modifies this`current_
      ensures token == NextToken(document_, old(current_)) && current_ == token.end
    {
      hide JsonLexer.ReadToken;
      token := ReadToken();
      ghost var from := old(current_);
      while token.kind == CommentToken
        invariant from <= token.end <= |document_| && current_ == token.end
        invariant token.kind == CommentToken ==>
                    NextToken(document_, token.end) == NextToken(document_, old(current_))
        invariant token.kind != CommentToken ==> token == NextToken(document_, old(current_))
        decreases |document_| - current_, if token.kind == CommentToken then 1 else 0
      {
        token := ReadToken();
      }
    }

    // ---- Errors ----

    /** Skips to the closing token. The error count is what it was. */
    method RecoverFromError(until: TokenKind)
      requires current_ <= |document_|
      modifies this`current_, this`errors_
      ensures current_ == Recover(document_, old(current_), until) && errors_ == old(errors_)
    {
      hide JsonLexer.ReadToken;
      var errorCount := |errors_|;
      var skip := ReadToken();
      while skip.kind != until && skip.kind != EndOfStream
        invariant current_ == skip.end <= |document_| && errors_ == old(errors_)
        invariant skip.kind == until || skip.kind == EndOfStream ==>
                    current_ == Recover(document_, old(current_), until)
        invariant !(skip.kind == until || skip.kind == EndOfStream) ==>
                    Recover(document_, current_, until) == Recover(document_, old(current_), until)
        decreases |document_| - current_, if skip.kind == until || skip.kind == EndOfStream then 0 else 1
      {
        skip := ReadToken();
      }
      errors_ := errors_[..errorCount];
    }

    method AddError(error: ErrorInfo)
      modifies this`errors_
      ensures errors_ == old(errors_) + [error]
    {
      errors_ := errors_ + [error];
    }

    // ---- Nodes ----

    /** `currentValue().swapPayload(value)`. */
    method SetCurrentValue(value: Value)
      requires nodes_ != []
      modifies this`nodes_
      ensures nodes_ == old(nodes_)[..|old(nodes_)| - 1] + [value]
    {
      nodes_ := nodes_[..|nodes_| - 1] + [value];
    }

    // ---- Scalars ----

    method DecodeNumber(token: Token) returns (o: Outcome)
      requires nodes_ != [] && token.start < token.end == current_ <= |document_|
      modifies this`nodes_, this`errors_
      ensures Agrees(DecodeNumberToken(scanReal, document_, token, old(nodes_)[|old(nodes_)| - 1]), o,
                     current_, nodes_, old(nodes_)[..|old(nodes_)| - 1], errors_, old(errors_))
    {
      hide DecodeInteger;
      var text := document_[token.start..token.end];
      var decoded := DecodeNumberLoop(text);
      match decoded {
        case IntNumber(i) => SetCurrentValue(Int(i));
        case UIntNumber(u) => SetCurrentValue(UInt(u));
        case NotAnInteger =>
          var value := scanReal(text);
          if value.None? {
            AddError(ErrorInfo(token, NotANumber, None));
            assert nodes_ == nodes_[..|nodes_| - 1] + [nodes_[|nodes_| - 1]];
            return Returned(false);
          }
          SetCurrentValue(Real(value.value));
      }
      return Returned(true);
    }

    method DecodeStringText(token: Token) returns (ok: bool, text: bytes)
      requires token.kind == StringToken && token.start + 2 <= token.end <= |document_|
      modifies this`errors_
      ensures ok ==> DecodeStringToken(document_, token) == Plain(text) && errors_ == old(errors_)
      ensures !ok ==> DecodeStringToken(document_, token).Bad?
                      && errors_ == old(errors_) + [DecodeStringToken(document_, token).error]
    {
      hide DecodeString;
      var decoded := DecodeStringLoop(document_, token.start, token.end);
      match decoded
      case Text(t) => return true, t;
      case CutAtQuote(t, _) => return true, t;
      case BadString(e, at) =>
        AddError(ErrorInfo(token, BadStringToken(e), Some(at)));
        return false, [];
    }

    /** The branches of `readValue` that read no further token. */
    method ReadScalar(token: Token) returns (o: Outcome)
      requires nodes_ != [] && token.start <= token.end == current_ <= |document_|
      requires token.kind != EndOfStream ==> token.start < token.end
      requires token.kind == StringToken ==> token.start + 2 <= token.end
      modifies this`nodes_, this`errors_
      ensures Agrees(Scalar(scanReal, document_, token, old(nodes_)[|old(nodes_)| - 1]), o,
                     current_, nodes_, old(nodes_)[..|old(nodes_)| - 1], errors_, old(errors_))
    {
      hide DecodeNumberToken, DecodeStringToken;
      assert nodes_ == nodes_[..|nodes_| - 1] + [nodes_[|nodes_| - 1]];
      o := Returned(true);
      match token.kind
      case NumberToken => o := DecodeNumber(token);
      case StringToken =>
        var ok, text := DecodeStringText(token);
        if ok {
          SetCurrentValue(String(text));
        } else {
          o := Returned(false);
        }
      case TrueToken => SetCurrentValue(Bool(true));
      case FalseToken => SetCurrentValue(Bool(false));
      case NullToken => SetCurrentValue(Null);
      case _ =>
        AddError(ErrorInfo(token, ValueExpected, None));
        o := Returned(false);
    }

    // ---- Values ----

    method ReadValue() returns (o: Outcome)
      requires nodes_ != [] && current_ <= |document_|
      modifies this`current_, this`nodes_, this`errors_
      ensures Agrees(JsonGrammar.ReadValue(scanReal, document_, |old(nodes_)|, old(current_),
        old(nodes_)[|old(nodes_)| - 1]),
                     o, current_, nodes_, old(nodes_)[..|old(nodes_)| - 1], errors_, old(errors_))
      decreases |document_| - current_, 2
    {
      if |nodes_| > STACK_LIMIT {
        return Thrown;
      }
      hide Scalar, ReadMembers, JsonGrammar.ReadArray, JsonLexer.ReadToken, ScanString;
      var token := ReadToken();
      match token.kind
      case ObjectBegin => o := ReadObject();
      case ArrayBegin => o := ReadArray();
      case _ => o := ReadScalar(token);
    }

    /** One element: a node is pushed for it, read and popped back into the array. */
    method ReadChild(key: CZString) returns (o: Outcome, value: Value)
      requires nodes_ != [] && current_ <= |document_|
      requires nodes_[|nodes_| - 1].Array? || nodes_[|nodes_| - 1].Object?
      modifies this`current_, this`nodes_, this`errors_
      ensures nodes_ == old(nodes_) || o == Thrown
      ensures var m := old(nodes_)[|old(nodes_)| - 1].map_;
              var r := JsonGrammar.ReadValue(scanReal, document_, |old(nodes_)| + 1, old(current_), Lookup(m, key));
              && Agrees(r, o, current_, old(nodes_) + [value], old(nodes_), errors_, old(errors_))
              && (o.Returned? ==> value == r.value)
      decreases |document_| - current_, 3
    {
      hide JsonGrammar.ReadValue, Lookup;
      var below := nodes_;
      nodes_ := nodes_ + [Lookup(nodes_[|nodes_| - 1].map_, key)];
      assert nodes_[..|nodes_| - 1] == below;
      o := ReadValue();
      if o == Thrown {
        return o, Null;
      }
      value := nodes_[|nodes_| - 1];
      nodes_ := nodes_[..|nodes_| - 1];
    }

    method ReadArray() returns (o: Outcome)
      requires nodes_ != [] && current_ <= |document_|
      modifies this`current_, this`nodes_, this`errors_
      ensures Agrees(JsonGrammar.ReadArray(scanReal, document_, |old(nodes_)|, old(current_)),
                     o, current_, nodes_, old(nodes_)[..|old(nodes_)| - 1], errors_, old(errors_))
      decreases |document_| - current_, 5
    {
      hide ReadElements, JsonLexer.SkipSpaces;
      SetCurrentValue(Array([]));
      SkipSpaces();
      if current_ != |document_| && document_[current_] == RBRACKET {
        current_ := current_ + 1;
        return Returned(true);
      }
      o := ReadElementLoop();
    }

    method ReadElementLoop() returns (o: Outcome)
      requires nodes_ != [] && current_ <= |document_| && nodes_[|nodes_| - 1] == Array([])
      modifies this`current_, this`nodes_, this`errors_
      ensures Agrees(ReadElements(scanReal, document_, |old(nodes_)|, old(current_), 0, []),
                     o, current_, nodes_, old(nodes_)[..|old(nodes_)| - 1], errors_, old(errors_))
      decreases |document_| - current_, 4
    {
      hide Assign, Lookup, NextToken, Recover, JsonGrammar.ReadValue;
      ghost var below := nodes_[..|nodes_| - 1];
      var index, acc := 0, [];
      while true
        invariant old(current_) <= current_ <= |document_|
        invariant nodes_ == below + [Array(acc)] && errors_ == old(errors_)
        invariant ReadElements(scanReal, document_, |below| + 1, current_, index, acc)
               == ReadElements(scanReal, document_, |below| + 1, old(current_), 0, [])
        decreases |document_| - current_
      {
        var child, value := ReadChild(Index(index));
        if child == Thrown {
          return Thrown;
        }
        acc := Assign(acc, Index(index), value);
        index := index + 1;
        SetCurrentValue(Array(acc));
        assert nodes_ == below + [Array(acc)];
        if !child.ok {
          RecoverFromError(ArrayEnd);
          return Returned(false);
        }
        var token := ReadTokenAfterComments();
        if token.kind != ArraySeparator && token.kind != ArrayEnd {
          AddError(ErrorInfo(token, MissingCommaOrBracket, None));
          RecoverFromError(ArrayEnd);
          return Returned(false);
        }
        if token.kind == ArrayEnd {
          return Returned(true);
        }
      }
    }

    method ReadObject() returns (o: Outcome)
      requires nodes_ != [] && current_ <= |document_|
      modifies this`current_, this`nodes_, this`errors_
      ensures Agrees(ReadMembers(scanReal, document_, |old(nodes_)|, old(current_), [], []),
                     o, current_, nodes_, old(nodes_)[..|old(nodes_)| - 1], errors_, old(errors_))
      decreases |document_| - current_, 4
    {
      hide ReadMembers, ReadMember, NextToken, JsonLexer.ReadToken, Recover, DecodeStringToken, ScanString;
      ghost var below := nodes_[..|nodes_| - 1];
      var name, acc := [], [];
      SetCurrentValue(Object(acc));
      while true
        invariant old(current_) <= current_ <= |document_|
        invariant nodes_ == below + [Object(acc)] && errors_ == old(errors_)
        invariant ReadMembers(scanReal, document_, |below| + 1, current_, name, acc)
               == ReadMembers(scanReal, document_, |below| + 1, old(current_), [], [])
        decreases |document_| - current_
      {
        MembersTurn(scanReal, document_, |below| + 1, current_, name, acc);
        var token := ReadTokenAfterComments();
        if token.kind == ObjectEnd && name == [] {
          return Returned(true);
        }
        if token.kind != StringToken {
          AddError(ErrorInfo(token, MissingBraceOrName, None));
          RecoverFromError(ObjectEnd);
          return Returned(false);
        }
        var ok;
        ok, name := DecodeStringText(token);
        if !ok {
          RecoverFromError(ObjectEnd);
          return Returned(false);
        }
        var colon := ReadToken();
        if colon.kind != MemberSeparator {
          AddError(ErrorInfo(colon, MissingColon, None));
          RecoverFromError(ObjectEnd);
          return Returned(false);
        }
        var again;
        o, again, acc := ReadMemberValue(name, acc);
        if !again {
          return;
        }
      }
    }

    /** The part of the member loop after the colon. */
    method ReadMemberValue(name: bytes, acc: ObjectValues) returns (o: Outcome, again: bool, acc': ObjectValues)
      requires nodes_ != [] && current_ <= |document_| && nodes_[|nodes_| - 1] == Object(acc)
      modifies this`current_, this`nodes_, this`errors_
      ensures var below := old(nodes_)[..|old(nodes_)| - 1];
              var r := ReadMember(scanReal, document_, |old(nodes_)|, old(current_), name, acc);
              if again then
                && old(current_) < current_ <= |document_|
                && nodes_ == below + [Object(acc')] && errors_ == old(errors_)
                && r == ReadMembers(scanReal, document_, |old(nodes_)|, current_, name, acc')
              else Agrees(r, o, current_, nodes_, below, errors_, old(errors_))
      decreases |document_| - current_, 4
    {
      hide Assign, Lookup, NextToken, Recover, JsonGrammar.ReadValue, ReadMembers;
      var child, value := ReadChild(Name(name));
      if child == Thrown {
        return Thrown, false, acc;
      }
      acc' := Assign(acc, Name(name), value);
      SetCurrentValue(Object(acc'));
      if !child.ok {
        RecoverFromError(ObjectEnd);
        return Returned(false), false, acc';
      }
      var from := current_;
      var comma := ReadToken();
      if comma.kind != ObjectEnd && comma.kind != ArraySeparator && comma.kind != CommentToken {
        AddError(ErrorInfo(comma, MissingCommaOrBrace, None));
        RecoverFromError(ObjectEnd);
        return Returned(false), false, acc';
      }
      if comma.kind == CommentToken {
        comma := ReadTokenAfterComments();
      }
      NextTokenFrom(document_, from);
      if comma.kind == ObjectEnd {
        return Returned(true), false, acc';
      }
      return Returned(true), true, acc';
    }

    // ---- Documents ----

    method Parse(document: bytes, root: Value) returns (o: Outcome, root': Value)
      modifies this
      ensures document_ == document
      ensures match ReadDocument(scanReal, document, root)
              case ParseThrew => o == Thrown
              case Parsed(ok, value, errors) => o == Returned(ok) && root' == value && errors_ == errors
      ensures o.Returned? ==> nodes_ == [root'] && current_ <= |document_| && (o.ok <==> errors_ == [])
    {
      hide JsonGrammar.ReadValue;
      document_ := document;
      current_ := 0;
      errors_ := [];
      while nodes_ != []
        invariant document_ == document && current_ == 0 && errors_ == []
        decreases |nodes_|
      {
        nodes_ := nodes_[..|nodes_| - 1];
      }
      nodes_ := nodes_ + [root];
      o := ReadValue();
      if o == Thrown {
        return o, root;
      }
      var _ := ReadToken();
      root' := nodes_[0];
      if !root'.Array? && !root'.Object? {
        AddError(ErrorInfo(Token(ErrorToken, 0, |document_|), RootMustBeContainer, None));
        return Returned(false), root';
      }
    }
  }

  /** One turn of the member loop, up to the colon. */
  lemma MembersTurn(scan: RealScanner, doc: bytes, depth: nat, p: nat, name: bytes, acc: ObjectValues)
    requires p <= |doc|
    ensures var t := NextToken(doc, p);
            ReadMembers(scan, doc, depth, p, name, acc)
            == if t.kind == ObjectEnd && name == [] then Done(t.end, Object(acc))
               else if t.kind != StringToken then
                 Failed(Recover(doc, t.end, ObjectEnd), Object(acc), ErrorInfo(t, MissingBraceOrName, None))
               else
                 match DecodeStringToken(doc, t)
                 case Bad(e) => Failed(Recover(doc, t.end, ObjectEnd), Object(acc), e)
                 case Plain(key) =>
                   var colon := JsonLexer.ReadToken(doc, t.end);
                   if colon.kind != MemberSeparator then
                     Failed(Recover(doc, colon.end, ObjectEnd), Object(acc), ErrorInfo(colon, MissingColon, None))
                   else ReadMember(scan, doc, depth, colon.end, key, acc)
  {
    hide NextToken, JsonLexer.ReadToken, Recover, DecodeStringToken, ReadMember, ScanString;
  }

  lemma NextTokenFrom(doc: bytes, p: nat)
    requires p <= |doc|
    ensures var t := JsonLexer.ReadToken(doc, p);
            NextToken(doc, p) == if t.kind == CommentToken then NextToken(doc, t.end) else t
  {
  }
}
