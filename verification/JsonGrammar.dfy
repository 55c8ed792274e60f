/** What the strict reader makes of a document, as a function of the document. */
module JsonGrammar {
  import opened Bytes
  import opened JsonValue
  import opened JsonMap
  import opened JsonString
  import opened JsonNumber
  import opened JsonLexer

  /** How the C++ library reads a `double`. */
  type RealScanner = bytes -> Option<Double>

  const STACK_LIMIT: nat := 1000

  datatype Problem =
    | ValueExpected
    | NotANumber
    | BadStringToken(error: StringError)
    | MissingColon
    | MissingCommaOrBrace
    | MissingCommaOrBracket
    | MissingBraceOrName
    | RootMustBeContainer

  datatype ErrorInfo = ErrorInfo(token: Token, problem: Problem, extra: Option<nat>)

  /** The outcome of reading one value into a node: the stack limit was exceeded, or the cursor stands
      at `pos`, the node holds `value`, and either nothing was reported or exactly one error was. */
  datatype Parse =
    | Threw
    | Done(pos: nat, value: Value)
    | Failed(pos: nat, value: Value, error: ErrorInfo)

  /** A string token decoded, or the error it causes. */
  datatype Decoding = Plain(text: bytes) | Bad(error: ErrorInfo)

  function DecodeStringToken(doc: bytes, t: Token): Decoding
    requires t.kind == StringToken && t.start + 2 <= t.end <= |doc|
  {
    match DecodeString(doc, t.start, t.end)
    case Text(text) => Plain(text)
    case CutAtQuote(text, _) => Plain(text)
    case BadString(e, at) => Bad(ErrorInfo(t, BadStringToken(e), Some(at)))
  }

  function DecodeNumberToken(scan: RealScanner, doc: bytes, t: Token, old_: Value): (r: Parse)
    requires t.start < t.end <= |doc|
    ensures !r.Threw? && r.pos == t.end
  {
    var text := doc[t.start..t.end];
    match DecodeInteger(text)
    case IntNumber(i) => Done(t.end, Int(i))
    case UIntNumber(u) => Done(t.end, UInt(u))
    case NotAnInteger =>
      match scan(text)
      case Some(d) => Done(t.end, Real(d))
      case None => Failed(t.end, old_, ErrorInfo(t, NotANumber, None))
  }

  function Scalar(scan: RealScanner, doc: bytes, t: Token, old_: Value): (r: Parse)
    requires t.end <= |doc| && t.start <= t.end
    requires t.kind != EndOfStream ==> t.start < t.end
    requires t.kind == StringToken ==> t.start + 2 <= t.end
    ensures !r.Threw? && r.pos == t.end
    ensures t.kind == EndOfStream ==> r.Failed?
  {
    match t.kind
    case NumberToken => DecodeNumberToken(scan, doc, t, old_)
    case StringToken =>
      (match DecodeStringToken(doc, t)
       case Plain(text) => Done(t.end, String(text))
       case Bad(e) => Failed(t.end, old_, e))
    case TrueToken => Done(t.end, Bool(true))
    case FalseToken => Done(t.end, Bool(false))
    case NullToken => Done(t.end, Null)
    case _ => Failed(t.end, old_, ErrorInfo(t, ValueExpected, None))
  }

  /** `readValue` with `depth` nodes on the stack, the top one holding `old_`. */
  function ReadValue(scan: RealScanner, doc: bytes, depth: nat, p: nat, old_: Value): (r: Parse)
    requires p <= |doc|
    ensures !r.Threw? ==> p <= r.pos <= |doc|
    ensures r.Done? ==> p < r.pos
    decreases |doc| - p, 2
  {
    if depth > STACK_LIMIT then Threw
    else
      var t := ReadToken(doc, p);
      match t.kind
      case ObjectBegin => ReadMembers(scan, doc, depth, t.end, [], [])
      case ArrayBegin => ReadArray(scan, doc, depth, t.end)
      case _ => Scalar(scan, doc, t, old_)
  }

  function ReadArray(scan: RealScanner, doc: bytes, depth: nat, p: nat): (r: Parse)
    requires p <= |doc|
    ensures !r.Threw? ==> p <= r.pos <= |doc|
    decreases |doc| - p, 4
  {
    var q := SkipSpaces(doc, p);
    if q < |doc| && doc[q] == 0x5D then Done(q + 1, Array([]))
    else ReadElements(scan, doc, depth, q, 0, [])
  }

  /** The element loop: `index` elements have been read into `acc`. */
  function ReadElements(scan: RealScanner, doc: bytes, depth: nat, p: nat, index: nat, acc: ObjectValues): (r: Parse)
    requires p <= |doc|
    ensures !r.Threw? ==> p <= r.pos <= |doc|
    decreases |doc| - p, 3
  {
    var child := ReadValue(scan, doc, depth + 1, p, Lookup(acc, Index(index)));
    if child.Threw? then Threw
    else
      var acc' := Assign(acc, Index(index), child.value);
      if child.Failed? then Failed(Recover(doc, child.pos, ArrayEnd), Array(acc'), child.error)
      else
        var t := NextToken(doc, child.pos);
        if t.kind == ArrayEnd then Done(t.end, Array(acc'))
        else if t.kind == ArraySeparator then ReadElements(scan, doc, depth, t.end, index + 1, acc')
        else Failed(Recover(doc, t.end, ArrayEnd), Array(acc'), ErrorInfo(t, MissingCommaOrBracket, None))
  }

  /** The member loop: `acc` holds the members so far, and `name` is the last name read. */
  function ReadMembers(scan: RealScanner, doc: bytes, depth: nat, p: nat, name: bytes, acc: ObjectValues): (r: Parse)
    requires p <= |doc|
    ensures !r.Threw? ==> p <= r.pos <= |doc|
    decreases |doc| - p, 1
  {
    var t := NextToken(doc, p);
    if t.kind == ObjectEnd && name == [] then Done(t.end, Object(acc))
    else if t.kind != StringToken then
      Failed(Recover(doc, t.end, ObjectEnd), Object(acc), ErrorInfo(t, MissingBraceOrName, None))
    else
      match DecodeStringToken(doc, t)
      case Bad(e) => Failed(Recover(doc, t.end, ObjectEnd), Object(acc), e)
      case Plain(key) =>
        var colon := ReadToken(doc, t.end);
        if colon.kind != MemberSeparator then
          Failed(Recover(doc, colon.end, ObjectEnd), Object(acc), ErrorInfo(colon, MissingColon, None))
        else ReadMember(scan, doc, depth, colon.end, key, acc)
  }

  /** The value of member `key`, what separates it from the next, and the rest of the object. */
  function ReadMember(scan: RealScanner, doc: bytes, depth: nat, p: nat, key: bytes, acc: ObjectValues): (r: Parse)
    requires p <= |doc|
    ensures !r.Threw? ==> p <= r.pos <= |doc|
    decreases |doc| - p, 3
  {
    var child := ReadValue(scan, doc, depth + 1, p, Lookup(acc, Name(key)));
    if child.Threw? then Threw
    else
      var acc' := Assign(acc, Name(key), child.value);
      if child.Failed? then Failed(Recover(doc, child.pos, ObjectEnd), Object(acc'), child.error)
      else
        var comma := ReadToken(doc, child.pos);
        if comma.kind != ObjectEnd && comma.kind != ArraySeparator && comma.kind != CommentToken then
          Failed(Recover(doc, comma.end, ObjectEnd), Object(acc'), ErrorInfo(comma, MissingCommaOrBrace, None))
        else
          var last := NextToken(doc, child.pos);
          if last.kind == ObjectEnd then Done(last.end, Object(acc'))
          else ReadMembers(scan, doc, depth, last.end, key, acc')
  }

  /** What `parse` returns, leaves in the root and reports. */
  datatype Document =
    | ParseThrew
    | Parsed(ok: bool, root: Value, errors: seq<ErrorInfo>)

  /** `parse` in strict mode into a root that held `old_`. */
  function ReadDocument(scan: RealScanner, doc: bytes, old_: Value): Document {
    var r := ReadValue(scan, doc, 1, 0, old_);
    if r.Threw? then ParseThrew
    else
      var errors := if r.Failed? then [r.error] else [];
      if r.value.Array? || r.value.Object? then Parsed(r.Done?, r.value, errors)
      else Parsed(false, r.value, errors + [ErrorInfo(Token(ErrorToken, 0, |doc|), RootMustBeContainer, None)])
  }

  /** Every level of nesting costs a byte, so only a document of at least 1000 bytes can throw. */
  lemma {:induction false} ThrowNeedsBytes(scan: RealScanner, doc: bytes, depth: nat, p: nat, old_: Value)
    requires p <= |doc| && ReadValue(scan, doc, depth, p, old_).Threw?
    ensures |doc| - p >= 1001 - depth
    decreases |doc| - p, 2
  {
    hide Assign, Lookup, DecodeStringToken, Recover;
    if depth <= STACK_LIMIT {
      var t := ReadToken(doc, p);
      if t.kind == ObjectBegin {
        ThrowNeedsBytesMembers(scan, doc, depth, t.end, [], []);
      } else if t.kind == ArrayBegin {
        ThrowNeedsBytesElements(scan, doc, depth, SkipSpaces(doc, t.end), 0, []);
      }
    }
  }

  lemma {:induction false} ThrowNeedsBytesElements(scan: RealScanner, doc: bytes, depth: nat, p: nat, index: nat,
                                                   acc: ObjectValues)
    requires p <= |doc| && depth <= STACK_LIMIT && ReadElements(scan, doc, depth, p, index, acc).Threw?
    ensures |doc| - p >= STACK_LIMIT - depth
    decreases |doc| - p, 3
  {
    hide Assign, Lookup, Recover;
    var child := ReadValue(scan, doc, depth + 1, p, Lookup(acc, Index(index)));
    if child.Threw? {
      ThrowNeedsBytes(scan, doc, depth + 1, p, Lookup(acc, Index(index)));
    } else {
      var t := NextToken(doc, child.pos);
      ThrowNeedsBytesElements(scan, doc, depth, t.end, index + 1, Assign(acc, Index(index), child.value));
    }
  }

  lemma {:induction false} ThrowNeedsBytesMembers(scan: RealScanner, doc: bytes, depth: nat, p: nat, name: bytes,
                                                  acc: ObjectValues)
    requires p <= |doc| && depth <= STACK_LIMIT && ReadMembers(scan, doc, depth, p, name, acc).Threw?
    ensures |doc| - p >= STACK_LIMIT - depth
    decreases |doc| - p, 1
  {
    hide Assign, Lookup, Recover, DecodeStringToken, ReadMember;
    var t := NextToken(doc, p);
    var colon := ReadToken(doc, t.end);
    ThrowNeedsBytesMember(scan, doc, depth, colon.end, DecodeStringToken(doc, t).text, acc);
  }

  lemma {:induction false} ThrowNeedsBytesMember(scan: RealScanner, doc: bytes, depth: nat, p: nat, key: bytes,
                                                 acc: ObjectValues)
    requires p <= |doc| && depth <= STACK_LIMIT && ReadMember(scan, doc, depth, p, key, acc).Threw?
    ensures |doc| - p >= STACK_LIMIT - depth
    decreases |doc| - p, 3
  {
    hide Assign, Lookup, Recover, DecodeStringToken, ReadMembers;
    var old_ := Lookup(acc, Name(key));
    var child := ReadValue(scan, doc, depth + 1, p, old_);
    if child.Threw? {
      ThrowNeedsBytes(scan, doc, depth + 1, p, old_);
    } else {
      var last := NextToken(doc, child.pos);
      ThrowNeedsBytesMembers(scan, doc, depth, last.end, key, Assign(acc, Name(key), child.value));
    }
  }

  lemma ShortDocumentsDoNotThrow(scan: RealScanner, doc: bytes, old_: Value)
    requires |doc| < 1000
    ensures ReadDocument(scan, doc, old_).Parsed?
  {
    hide ReadValue;
    if ReadValue(scan, doc, 1, 0, old_).Threw? {
      ThrowNeedsBytes(scan, doc, 1, 0, old_);
    }
  }
}
