/** Exactly which documents strict mode refuses, what it leaves in the root, and which error it reports. */
module JsonRefused {
  import opened Bytes
  import opened JsonValue
  import opened JsonMap
  import opened JsonNumber
  import opened JsonString
  import opened JsonLexer
  import opened JsonGrammar
  import opened JsonNormal
  import opened JsonRoundTrip
  import opened JsonQuirks
  import opened JsonTokenTree
  import opened JsonAccepted

  /** A text up to the first place where it is no text of the grammar. */
  datatype Broken =
    | BadScalar(token: Token, error: ErrorInfo)
    | BadArray(open: Token, elements: BadElements)
    | BadObject(open: Token, members: BadMembers)

  datatype BadElements =
    | BadElement(value: Broken)
    | NoComma(tree: Tree, mark: Trail)
    | AfterElement(tree: Tree, comma: Trail, rest: BadElements)

  datatype BadMembers =
    | NameMissing(mark: Trail)
    | BadName(name: Trail, error: ErrorInfo)
    | NoColon(name: Trail, key: bytes, colon: Token)
    | BadMember(name: Trail, key: bytes, colon: Token, value: Broken)
    | NoMemberComma(name: Trail, key: bytes, colon: Token, tree: Tree, token: Token)
    | AfterMember(name: Trail, key: bytes, colon: Token, tree: Tree, comma: Trail, rest: BadMembers)

  // ---- Where they stand ----

  /** What is wrong with a token in a value's place. */
  predicate ScalarFails(scan: RealScanner, doc: bytes, t: Token, error: ErrorInfo)
    requires t.start <= t.end <= |doc|
    requires t.kind == StringToken ==> t.start + 2 <= t.end
  {
    match t.kind
    case ObjectBegin => false
    case ArrayBegin => false
    case TrueToken => false
    case FalseToken => false
    case NullToken => false
    case NumberToken =>
      && DecodeInteger(doc[t.start..t.end]) == NotAnInteger && scan(doc[t.start..t.end]) == None
      && error == ErrorInfo(t, NotANumber, None)
    case StringToken => DecodeStringToken(doc, t) == Bad(error)
    case _ => error == ErrorInfo(t, ValueExpected, None)
  }

  /** A complete value with closed objects only. */
  predicate ValueStands(scan: RealScanner, doc: bytes, p: nat, tree: Tree): (r: bool)
    requires p <= |doc|
    ensures r ==> p < End(tree) <= |doc|
  {
    Stands(scan, doc, p, tree) && Closed(tree)
  }

  predicate BrokenStands(scan: RealScanner, doc: bytes, p: nat, b: Broken)
    requires p <= |doc|
    decreases b
  {
    var t := ReadToken(doc, p);
    match b
    case BadScalar(token, error) => token == t && ScalarFails(scan, doc, t, error)
    case BadArray(open, es) =>
      && open == t && t.kind == ArrayBegin && ReadToken(doc, t.end).kind != ArrayEnd
      && BadElementsStand(scan, doc, t.end, es)
    case BadObject(open, ms) => open == t && t.kind == ObjectBegin && BadMembersStand(scan, doc, t.end, [], ms)
  }

  predicate BadElementsStand(scan: RealScanner, doc: bytes, p: nat, es: BadElements)
    requires p <= |doc|
    decreases es
  {
    match es
    case BadElement(v) => BrokenStands(scan, doc, p, v)
    case NoComma(v, mark) =>
      && ValueStands(scan, doc, p, v) && TrailStands(doc, End(v), mark)
      && mark.mark.kind != ArrayEnd && mark.mark.kind != ArraySeparator
    case AfterElement(v, comma, rest) =>
      && ValueStands(scan, doc, p, v) && TrailStands(doc, End(v), comma) && comma.mark.kind == ArraySeparator
      && BadElementsStand(scan, doc, comma.mark.end, rest)
  }

  /** `last` is the name before, and empty in front of the first member. */
  predicate BadMembersStand(scan: RealScanner, doc: bytes, p: nat, last: bytes, ms: BadMembers)
    requires p <= |doc|
    decreases ms
  {
    match ms
    case NameMissing(mark) =>
      && TrailStands(doc, p, mark) && mark.mark.kind != StringToken
      && (mark.mark.kind == ObjectEnd ==> last != [])
    case BadName(name, error) =>
      && TrailStands(doc, p, name) && name.mark.kind == StringToken && name.mark.start + 2 <= name.mark.end
      && DecodeStringToken(doc, name.mark) == Bad(error)
    case NoColon(name, key, colon) =>
      && TrailStands(doc, p, name) && name.mark.kind == StringToken && name.mark.start + 2 <= name.mark.end
      && DecodeStringToken(doc, name.mark) == Plain(key)
      && colon == ReadToken(doc, name.mark.end) && colon.kind != MemberSeparator
    case BadMember(name, key, colon, v) =>
      NameStands(doc, p, name, key, colon) && BrokenStands(scan, doc, colon.end, v)
    case NoMemberComma(name, key, colon, v, mark) =>
      && NameStands(doc, p, name, key, colon) && ValueStands(scan, doc, colon.end, v)
      && mark == ReadToken(doc, End(v))
      && mark.kind != ObjectEnd && mark.kind != ArraySeparator && mark.kind != CommentToken
    case AfterMember(name, key, colon, v, comma, rest) =>
      && NameStands(doc, p, name, key, colon) && ValueStands(scan, doc, colon.end, v)
      && TrailStands(doc, End(v), comma) && Continues(comma)
      && BadMembersStand(scan, doc, comma.mark.end, key, rest)
  }

  // ---- What is left and reported ----

  function BrokenLevels(b: Broken): (n: nat)
    ensures n >= 1
  {
    match b
    case BadScalar(_, _) => 1
    case BadArray(_, es) => 1 + BadElementsLevels(es)
    case BadObject(_, ms) => 1 + BadMembersLevels(ms)
  }

  function BadElementsLevels(es: BadElements): nat {
    match es
    case BadElement(v) => BrokenLevels(v)
    case NoComma(v, _) => Levels(v)
    case AfterElement(v, _, rest) => Max(Levels(v), BadElementsLevels(rest))
  }

  function BadMembersLevels(ms: BadMembers): nat {
    match ms
    case BadMember(_, _, _, v) => BrokenLevels(v)
    case NoMemberComma(_, _, _, v, _) => Levels(v)
    case AfterMember(_, _, _, v, _, rest) => Max(Levels(v), BadMembersLevels(rest))
    case _ => 0
  }

  /** What is left in a node that held `old_`: everything read so far. */
  function BrokenValue(b: Broken, old_: Value): Value {
    match b
    case BadScalar(_, _) => old_
    case BadArray(_, es) => Array(BadElementsValue(es, 0, []))
    case BadObject(_, ms) => Object(BadMembersValue(ms, []))
  }

  function BadElementsValue(es: BadElements, i: nat, acc: ObjectValues): ObjectValues {
    match es
    case BadElement(v) => Assign(acc, Index(i), BrokenValue(v, Lookup(acc, Index(i))))
    case NoComma(v, _) => Assign(acc, Index(i), TreeValue(v))
    case AfterElement(v, _, rest) => BadElementsValue(rest, i + 1, Assign(acc, Index(i), TreeValue(v)))
  }

  function BadMembersValue(ms: BadMembers, acc: ObjectValues): ObjectValues {
    match ms
    case BadMember(_, key, _, v) => Assign(acc, Name(key), BrokenValue(v, Lookup(acc, Name(key))))
    case NoMemberComma(_, key, _, v, _) => Assign(acc, Name(key), TreeValue(v))
    case AfterMember(_, key, _, v, _, rest) => BadMembersValue(rest, Assign(acc, Name(key), TreeValue(v)))
    case _ => acc
  }

  /** The one error that is reported, at the token where the text breaks off. */
  function BrokenError(b: Broken): ErrorInfo {
    match b
    case BadScalar(_, error) => error
    case BadArray(_, es) => BadElementsError(es)
    case BadObject(_, ms) => BadMembersError(ms)
  }

  function BadElementsError(es: BadElements): ErrorInfo {
    match es
    case BadElement(v) => BrokenError(v)
    case NoComma(_, mark) => ErrorInfo(mark.mark, MissingCommaOrBracket, None)
    case AfterElement(_, _, rest) => BadElementsError(rest)
  }

  function BadMembersError(ms: BadMembers): ErrorInfo {
    match ms
    case NameMissing(mark) => ErrorInfo(mark.mark, MissingBraceOrName, None)
    case BadName(_, error) => error
    case NoColon(_, _, colon) => ErrorInfo(colon, MissingColon, None)
    case BadMember(_, _, _, v) => BrokenError(v)
    case NoMemberComma(_, _, _, _, mark) => ErrorInfo(mark, MissingCommaOrBrace, None)
    case AfterMember(_, _, _, _, _, rest) => BadMembersError(rest)
  }

  // ---- What is broken is refused ----

  /** The reader fails, with this value and this error, unless it throws before. */
  predicate FailsAs(r: Parse, levels: nat, value: Value, error: ErrorInfo) {
    if levels > 1000 then r.Threw? else r.Failed? && r.value == value && r.error == error
  }

  lemma ScalarFailsIs(scan: RealScanner, doc: bytes, t: Token, old_: Value, error: ErrorInfo)
    requires t.start <= t.end <= |doc| && (t.kind != EndOfStream ==> t.start < t.end)
    requires t.kind == StringToken ==> t.start + 2 <= t.end
    requires t.kind != ObjectBegin && t.kind != ArrayBegin
    ensures ScalarFails(scan, doc, t, error)
            <==> Scalar(scan, doc, t, old_).Failed? && Scalar(scan, doc, t, old_).error == error
    ensures Scalar(scan, doc, t, old_).Failed? ==> Scalar(scan, doc, t, old_).value == old_
  {
    hide DecodeStringToken, DecodeInteger;
  }

  lemma {:induction false} BrokenIsRead(scan: RealScanner, doc: bytes, depth: nat, p: nat, b: Broken, old_: Value)
    requires p <= |doc| && depth >= 1 && BrokenStands(scan, doc, p, b)
    ensures FailsAs(ReadValue(scan, doc, depth, p, old_), depth + BrokenLevels(b) - 1, BrokenValue(b, old_),
                    BrokenError(b))
    decreases b
  {
    hide ReadToken, ReadValue, ReadMembers, ReadArray, ReadElements, Scalar, ScanString, BadElementsStand,
      BadMembersStand, BadElementsLevels, BadMembersLevels, BadElementsValue, BadMembersValue, BadElementsError,
      BadMembersError, ScalarFails;
    if depth > STACK_LIMIT {
      TooDeep(scan, doc, depth, p, old_);
    } else {
      ValueOpens(scan, doc, depth, p, old_);
      var t := ReadToken(doc, p);
      match b {
        case BadScalar(_, error) =>
          NoContainer(scan, doc, t, error);
          ScalarFailsIs(scan, doc, t, old_, error);
        case BadArray(_, es) =>
          ArrayOpens(scan, doc, depth, t.end);
          BadElementsAreRead(scan, doc, depth, t.end, es, 0, []);
        case BadObject(_, ms) => BadMembersAreRead(scan, doc, depth, t.end, [], ms, []);
      }
    }
  }

  lemma NoContainer(scan: RealScanner, doc: bytes, t: Token, error: ErrorInfo)
    requires t.start <= t.end <= |doc| && (t.kind == StringToken ==> t.start + 2 <= t.end)
    requires ScalarFails(scan, doc, t, error)
    ensures t.kind != ObjectBegin && t.kind != ArrayBegin
  {
    hide DecodeStringToken, DecodeInteger;
  }

  /** What the element loop does with each outcome of its element. */
  lemma ElementTurns(scan: RealScanner, doc: bytes, depth: nat, p: nat, i: nat, acc: ObjectValues)
    requires p <= |doc|
    ensures var child := ReadValue(scan, doc, depth + 1, p, Lookup(acc, Index(i)));
            var r := ReadElements(scan, doc, depth, p, i, acc);
            && (child.Threw? ==> r.Threw?)
            && (child.Failed? ==>
                  r.Failed? && r.error == child.error && r.value == Array(Assign(acc, Index(i), child.value)))
            && (child.Done? ==>
                  var t := NextToken(doc, child.pos);
                  var acc' := Assign(acc, Index(i), child.value);
                  && (t.kind == ArrayEnd ==> r == Done(t.end, Array(acc')))
                  && (t.kind == ArraySeparator ==> r == ReadElements(scan, doc, depth, t.end, i + 1, acc'))
                  && (t.kind != ArrayEnd && t.kind != ArraySeparator ==>
                        r.Failed? && r.value == Array(acc') && r.error == ErrorInfo(t, MissingCommaOrBracket, None)))
  {
    hide ReadValue, Lookup, Assign, NextToken, Recover;
  }

  lemma ValueIsRead(scan: RealScanner, doc: bytes, depth: nat, p: nat, v: Tree, old_: Value)
    requires p <= |doc| && depth >= 1 && ValueStands(scan, doc, p, v)
    ensures ReadValue(scan, doc, depth, p, old_)
            == if depth + Levels(v) - 1 > 1000 then Threw else Done(End(v), TreeValue(v))
  {
    hide Stands, Closed, End, TreeValue, Levels, ReadValue;
    TreeIsRead(scan, doc, depth, p, v, old_);
  }

  lemma {:induction false} BadElementsAreRead(scan: RealScanner, doc: bytes, depth: nat, p: nat, es: BadElements,
                                              i: nat, acc: ObjectValues)
    requires p <= |doc| && 1 <= depth <= STACK_LIMIT && BadElementsStand(scan, doc, p, es)
    ensures FailsAs(ReadElements(scan, doc, depth, p, i, acc), depth + BadElementsLevels(es),
                    Array(BadElementsValue(es, i, acc)), BadElementsError(es))
    decreases es
  {
    hide ReadToken, NextToken, ReadValue, ReadElements, ScanString, TrailStands, Levels, TreeValue, End, Assign, Lookup,
      BrokenStands, ValueStands, BrokenLevels, BrokenValue, BrokenError;
    var old_ := Lookup(acc, Index(i));
    ElementTurns(scan, doc, depth, p, i, acc);
    match es {
      case BadElement(v) => BrokenIsRead(scan, doc, depth + 1, p, v, old_);
      case NoComma(v, mark) =>
        ValueIsRead(scan, doc, depth + 1, p, v, old_);
        TrailIsNext(doc, End(v), mark);
      case AfterElement(v, comma, rest) =>
        ValueIsRead(scan, doc, depth + 1, p, v, old_);
        TrailIsNext(doc, End(v), comma);
        if depth + Levels(v) <= 1000 {
          BadElementsAreRead(scan, doc, depth, comma.mark.end, rest, i + 1, Assign(acc, Index(i), TreeValue(v)));
        }
    }
  }

  /** What the member loop does up to the colon. */
  lemma NameTurns(scan: RealScanner, doc: bytes, depth: nat, p: nat, last: bytes, acc: ObjectValues)
    requires p <= |doc|
    ensures var t := NextToken(doc, p);
            var r := ReadMembers(scan, doc, depth, p, last, acc);
            && (t.kind != StringToken && !(t.kind == ObjectEnd && last == []) ==>
                  r.Failed? && r.value == Object(acc) && r.error == ErrorInfo(t, MissingBraceOrName, None))
            && (t.kind == StringToken ==>
                  match DecodeStringToken(doc, t)
                  case Bad(error) => r.Failed? && r.value == Object(acc) && r.error == error
                  case Plain(key) =>
                    var colon := ReadToken(doc, t.end);
                    if colon.kind == MemberSeparator then r == ReadMember(scan, doc, depth, colon.end, key, acc)
                    else r.Failed? && r.value == Object(acc) && r.error == ErrorInfo(colon, MissingColon, None))
  {
    hide ReadToken, NextToken, DecodeStringToken, ReadMember, Recover, ScanString;
  }

  /** What it does with each outcome of the member's value. */
  lemma MemberTurns(scan: RealScanner, doc: bytes, depth: nat, p: nat, key: bytes, acc: ObjectValues)
    requires p <= |doc|
    ensures var child := ReadValue(scan, doc, depth + 1, p, Lookup(acc, Name(key)));
            var r := ReadMember(scan, doc, depth, p, key, acc);
            && (child.Threw? ==> r.Threw?)
            && (child.Failed? ==>
                  r.Failed? && r.error == child.error && r.value == Object(Assign(acc, Name(key), child.value)))
            && (child.Done? ==>
                  var acc' := Assign(acc, Name(key), child.value);
                  var t, last := ReadToken(doc, child.pos), NextToken(doc, child.pos);
                  if t.kind != ObjectEnd && t.kind != ArraySeparator && t.kind != CommentToken then
                    r.Failed? && r.value == Object(acc') && r.error == ErrorInfo(t, MissingCommaOrBrace, None)
                  else if last.kind == ObjectEnd then r == Done(last.end, Object(acc'))
                  else r == ReadMembers(scan, doc, depth, last.end, key, acc'))
  {
    hide ReadValue, Lookup, Assign, NextToken, ReadToken, ReadMembers, Recover, ScanString;
  }

  lemma {:induction false} BadMembersAreRead(scan: RealScanner, doc: bytes, depth: nat, p: nat, last: bytes,
                                             ms: BadMembers, acc: ObjectValues)
    requires p <= |doc| && 1 <= depth <= STACK_LIMIT && BadMembersStand(scan, doc, p, last, ms)
    ensures FailsAs(ReadMembers(scan, doc, depth, p, last, acc), depth + BadMembersLevels(ms),
                    Object(BadMembersValue(ms, acc)), BadMembersError(ms))
    decreases ms, 2
  {
    hide ReadToken, NextToken, ReadValue, ReadMembers, ReadMember, ScanString, TrailStands, Levels, TreeValue, End,
      Assign, Lookup, BrokenStands, ValueStands, BrokenLevels, BrokenValue, BrokenError, DecodeStringToken, NameStands;
    match ms {
      case NameMissing(mark) =>
        TrailIsNext(doc, p, mark);
        NameTurns(scan, doc, depth, p, last, acc);
      case BadName(name, _) =>
        TrailIsNext(doc, p, name);
        NameTurns(scan, doc, depth, p, last, acc);
      case NoColon(name, _, _) =>
        TrailIsNext(doc, p, name);
        NameTurns(scan, doc, depth, p, last, acc);
      case _ =>
        NameIsRead(scan, doc, depth, p, ms.name, ms.key, ms.colon, last, acc);
        BadMemberIsRead(scan, doc, depth, p, last, ms, acc);
    }
  }

  lemma {:induction false} BadMemberIsRead(scan: RealScanner, doc: bytes, depth: nat, p: nat, last: bytes,
                                           ms: BadMembers, acc: ObjectValues)
    requires ms.BadMember? || ms.NoMemberComma? || ms.AfterMember?
    requires p <= |doc| && 1 <= depth <= STACK_LIMIT && BadMembersStand(scan, doc, p, last, ms)
    ensures ms.colon.end <= |doc|
    ensures FailsAs(ReadMember(scan, doc, depth, ms.colon.end, ms.key, acc), depth + BadMembersLevels(ms),
                    Object(BadMembersValue(ms, acc)), BadMembersError(ms))
    decreases ms, 1
  {
    hide ReadToken, NextToken, ReadValue, ReadMembers, ReadMember, ScanString, TrailStands, Levels, TreeValue, End,
      Assign, Lookup, BrokenStands, ValueStands, BrokenLevels, BrokenValue, BrokenError, DecodeStringToken, NameStands;
    var q := ms.colon.end;
    var old_ := Lookup(acc, Name(ms.key));
    if ms.AfterMember? {
      BadMemberFollows(scan, doc, depth, p, last, ms, acc);
    } else {
      MemberTurns(scan, doc, depth, q, ms.key, acc);
      if ms.BadMember? {
        BrokenIsRead(scan, doc, depth + 1, q, ms.value, old_);
      } else {
        ValueIsRead(scan, doc, depth + 1, q, ms.tree, old_);
      }
    }
  }

  lemma {:induction false} BadMemberFollows(scan: RealScanner, doc: bytes, depth: nat, p: nat, last: bytes,
                                            ms: BadMembers, acc: ObjectValues)
    requires ms.AfterMember?
    requires p <= |doc| && 1 <= depth <= STACK_LIMIT && BadMembersStand(scan, doc, p, last, ms)
    ensures ms.colon.end <= |doc|
    ensures FailsAs(ReadMember(scan, doc, depth, ms.colon.end, ms.key, acc), depth + BadMembersLevels(ms),
                    Object(BadMembersValue(ms, acc)), BadMembersError(ms))
    decreases ms, 0
  {
    hide ReadToken, NextToken, ReadValue, ReadMembers, ReadMember, ScanString, TrailStands, Levels, TreeValue, End,
      Assign, Lookup, BrokenStands, ValueStands, BrokenLevels, BrokenValue, BrokenError, DecodeStringToken, NameStands;
    var v := ms.tree;
    MemberTurns(scan, doc, depth, ms.colon.end, ms.key, acc);
    ValueIsRead(scan, doc, depth + 1, ms.colon.end, v, Lookup(acc, Name(ms.key)));
    TrailIsNext(doc, End(v), ms.comma);
    if depth + Levels(v) <= 1000 {
      BadMembersAreRead(scan, doc, depth, ms.comma.mark.end, ms.key, ms.rest, Assign(acc, Name(ms.key), TreeValue(v)));
    }
  }

  // ---- What is refused is broken ----

  ghost predicate Breaks(scan: RealScanner, doc: bytes, depth: nat, p: nat, b: Broken, old_: Value, r: Parse)
    requires p <= |doc| && r.Failed?
  {
    && BrokenStands(scan, doc, p, b) && depth + BrokenLevels(b) - 1 <= 1000
    && BrokenValue(b, old_) == r.value && BrokenError(b) == r.error
  }

  ghost predicate ElementsBreak(scan: RealScanner, doc: bytes, depth: nat, p: nat, es: BadElements, i: nat,
                                acc: ObjectValues, r: Parse)
    requires p <= |doc| && r.Failed?
  {
    && BadElementsStand(scan, doc, p, es) && depth + BadElementsLevels(es) <= 1000
    && Array(BadElementsValue(es, i, acc)) == r.value && BadElementsError(es) == r.error
  }

  ghost predicate MembersBreak(scan: RealScanner, doc: bytes, depth: nat, p: nat, last: bytes, ms: BadMembers,
                               acc: ObjectValues, r: Parse)
    requires p <= |doc| && r.Failed?
  {
    && BadMembersStand(scan, doc, p, last, ms) && depth + BadMembersLevels(ms) <= 1000
    && Object(BadMembersValue(ms, acc)) == r.value && BadMembersError(ms) == r.error
  }

  lemma {:induction false} BrokenOf(scan: RealScanner, doc: bytes, depth: nat, p: nat, old_: Value) returns (b: Broken)
    requires p <= |doc| && depth >= 1 && ReadValue(scan, doc, depth, p, old_).Failed?
    ensures Breaks(scan, doc, depth, p, b, old_, ReadValue(scan, doc, depth, p, old_))
    decreases |doc| - p, 2
  {
    hide ReadToken, ReadValue, ReadMembers, ReadArray, ReadElements, Scalar, ScanString, BadElementsStand,
      BadMembersStand, BadElementsLevels, BadMembersLevels, BadElementsValue, BadMembersValue, BadElementsError,
      BadMembersError, ScalarFails;
    if depth > STACK_LIMIT {
      TooDeep(scan, doc, depth, p, old_);
    }
    ValueOpens(scan, doc, depth, p, old_);
    var t := ReadToken(doc, p);
    if t.kind == ObjectBegin {
      var ms := BadMembersOf(scan, doc, depth, t.end, [], []);
      b := BadObject(t, ms);
    } else if t.kind == ArrayBegin {
      ArrayOpens(scan, doc, depth, t.end);
      var es := BadElementsOf(scan, doc, depth, t.end, 0, []);
      b := BadArray(t, es);
    } else {
      var error := Scalar(scan, doc, t, old_).error;
      ScalarFailsIs(scan, doc, t, old_, error);
      b := BadScalar(t, error);
    }
  }

  lemma {:induction false} BadElementsOf(scan: RealScanner, doc: bytes, depth: nat, p: nat, i: nat, acc: ObjectValues)
    returns (es: BadElements)
    requires p <= |doc| && 1 <= depth <= STACK_LIMIT && ReadElements(scan, doc, depth, p, i, acc).Failed?
    ensures ElementsBreak(scan, doc, depth, p, es, i, acc, ReadElements(scan, doc, depth, p, i, acc))
    decreases |doc| - p, 3
  {
    hide ReadToken, NextToken, ReadValue, ReadElements, ScanString, TrailStands, TrailFrom, Levels, TreeValue, End,
      Assign, Lookup, BrokenStands, BrokenLevels, BrokenValue, BrokenError, Stands, Closed;
    var old_ := Lookup(acc, Index(i));
    ElementTurns(scan, doc, depth, p, i, acc);
    var child := ReadValue(scan, doc, depth + 1, p, old_);
    if child.Failed? {
      var v := BrokenOf(scan, doc, depth + 1, p, old_);
      es := BadElement(v);
    } else {
      var v := TreeOf(scan, doc, depth + 1, p, old_);
      var trail := TrailFrom(doc, child.pos);
      TrailFromStands(doc, child.pos);
      if trail.mark.kind == ArraySeparator {
        var rest := BadElementsOf(scan, doc, depth, trail.mark.end, i + 1, Assign(acc, Index(i), child.value));
        es := AfterElement(v, trail, rest);
      } else {
        es := NoComma(v, trail);
      }
    }
  }

  lemma {:induction false} BadMembersOf(scan: RealScanner, doc: bytes, depth: nat, p: nat, last: bytes,
                                        acc: ObjectValues)
    returns (ms: BadMembers)
    requires p <= |doc| && 1 <= depth <= STACK_LIMIT && ReadMembers(scan, doc, depth, p, last, acc).Failed?
    ensures MembersBreak(scan, doc, depth, p, last, ms, acc, ReadMembers(scan, doc, depth, p, last, acc))
    decreases |doc| - p, 1
  {
    hide ReadToken, NextToken, ReadValue, ReadMembers, ReadMember, ScanString, Stands, TrailStands, TrailFrom, Levels,
      TreeValue, Closed, End, Assign, Lookup, DecodeStringToken, Continues, BrokenStands, BrokenLevels, BrokenValue,
      BrokenError;
    NameTurns(scan, doc, depth, p, last, acc);
    TrailFromStands(doc, p);
    var name := TrailFrom(doc, p);
    if name.mark.kind != StringToken {
      EmptyEnds(scan, doc, depth, p, last, acc);
      ms := NameMissing(name);
    } else {
      match DecodeStringToken(doc, name.mark) {
        case Bad(error) => ms := BadName(name, error);
        case Plain(key) =>
          var colon := ReadToken(doc, name.mark.end);
          if colon.kind != MemberSeparator {
            ms := NoColon(name, key, colon);
          } else {
            ms := BadMemberOf(scan, doc, depth, p, name, key, colon, last, acc);
          }
      }
    }
  }

  lemma EmptyEnds(scan: RealScanner, doc: bytes, depth: nat, p: nat, last: bytes, acc: ObjectValues)
    requires p <= |doc| && ReadMembers(scan, doc, depth, p, last, acc).Failed?
    ensures NextToken(doc, p).kind == ObjectEnd ==> last != []
  {
    hide ReadToken, NextToken, DecodeStringToken, ReadMember, Recover;
  }

  lemma {:induction false} BadMemberOf(scan: RealScanner, doc: bytes, depth: nat, p: nat, name: Trail, key: bytes,
                                       colon: Token, last: bytes, acc: ObjectValues)
    returns (ms: BadMembers)
    requires p <= |doc| && 1 <= depth <= STACK_LIMIT && NameStands(doc, p, name, key, colon)
    requires ReadMember(scan, doc, depth, colon.end, key, acc).Failed?
    ensures MembersBreak(scan, doc, depth, p, last, ms, acc, ReadMember(scan, doc, depth, colon.end, key, acc))
    decreases |doc| - p, 0
  {
    hide ReadToken, NextToken, ReadValue, ReadMembers, ReadMember, ScanString, Stands, TrailStands, TrailFrom, Levels,
      TreeValue, Closed, End, Assign, Lookup, NameStands, Continues, BrokenStands, BrokenLevels, BrokenValue,
      BrokenError;
    var old_ := Lookup(acc, Name(key));
    MemberTurns(scan, doc, depth, colon.end, key, acc);
    var child := ReadValue(scan, doc, depth + 1, colon.end, old_);
    if child.Failed? {
      var v := BrokenOf(scan, doc, depth + 1, colon.end, old_);
      ms := BadMember(name, key, colon, v);
    } else {
      var v := TreeOf(scan, doc, depth + 1, colon.end, old_);
      var trail := TrailFrom(doc, child.pos);
      TrailFromStands(doc, child.pos);
      TrailGoesOn(doc, child.pos, trail);
      AfterMemberValue(scan, doc, depth, colon.end, key, acc, child.pos, child.value);
      NextIsFirst(doc, child.pos);
      if GoesOn(doc, child.pos) {
        var rest := BadMembersOf(scan, doc, depth, trail.mark.end, key, Assign(acc, Name(key), child.value));
        ms := AfterMember(name, key, colon, v, trail, rest);
      } else {
        ms := NoMemberComma(name, key, colon, v, ReadToken(doc, child.pos));
      }
    }
  }

  // ---- Whole documents ----

  function RootError(doc: bytes): ErrorInfo {
    ErrorInfo(Token(ErrorToken, 0, |doc|), RootMustBeContainer, None)
  }

  /** What is reported when a value with these errors, or none, is left in the root. */
  function Reported(doc: bytes, root: Value, errors: seq<ErrorInfo>): seq<ErrorInfo> {
    if root.Array? || root.Object? then errors else errors + [RootError(doc)]
  }

  /** The document begins with a text that breaks off: the root holds everything read so far, and the error at
      the place where it breaks off is reported. */
  ghost predicate BreaksOff(scan: RealScanner, doc: bytes, old_: Value, b: Broken, root: Value,
                            errors: seq<ErrorInfo>)
  {
    && BrokenStands(scan, doc, 0, b) && BrokenLevels(b) <= 1000
    && BrokenValue(b, old_) == root && errors == Reported(doc, root, [BrokenError(b)])
  }

  /** The document begins with a scalar, which the root holds. */
  ghost predicate IsScalar(scan: RealScanner, doc: bytes, t: Token, root: Value, errors: seq<ErrorInfo>) {
    Stands(scan, doc, 0, Leaf(t, root)) && errors == [RootError(doc)]
  }

  lemma BreaksOffIsRead(scan: RealScanner, doc: bytes, old_: Value, b: Broken, root: Value, errors: seq<ErrorInfo>)
    requires BreaksOff(scan, doc, old_, b, root, errors)
    ensures ReadDocument(scan, doc, old_) == Parsed(false, root, errors)
  {
    hide ReadValue, BrokenStands, BrokenLevels, BrokenValue, BrokenError;
    BrokenIsRead(scan, doc, 1, 0, b, old_);
    var r := ReadValue(scan, doc, 1, 0, old_);
    assert [r.error] + [RootError(doc)] == [BrokenError(b)] + [RootError(doc)];
  }

  lemma ScalarIsRead(scan: RealScanner, doc: bytes, old_: Value, t: Token, root: Value, errors: seq<ErrorInfo>)
    requires IsScalar(scan, doc, t, root, errors)
    ensures ReadDocument(scan, doc, old_) == Parsed(false, root, errors)
  {
    hide ReadValue, Stands, Levels;
    LeafIs(scan, doc, t, root);
    TreeIsRead(scan, doc, 1, 0, Leaf(t, root), old_);
    assert [] + [RootError(doc)] == [RootError(doc)];
  }

  /** `parse` returns false exactly in these two cases. A root that is no array and no object is reported in
      both. */
  lemma RefusedExactly(scan: RealScanner, doc: bytes, old_: Value, root: Value, errors: seq<ErrorInfo>)
    ensures ReadDocument(scan, doc, old_) == Parsed(false, root, errors)
            <==> || (exists b :: BreaksOff(scan, doc, old_, b, root, errors))
                 || (exists t :: IsScalar(scan, doc, t, root, errors))
  {
    hide BreaksOff, IsScalar, ReadDocument;
    if ReadDocument(scan, doc, old_) == Parsed(false, root, errors) {
      WhyRefused(scan, doc, old_, root, errors);
    }
    forall b | BreaksOff(scan, doc, old_, b, root, errors)
      ensures ReadDocument(scan, doc, old_) == Parsed(false, root, errors)
    {
      BreaksOffIsRead(scan, doc, old_, b, root, errors);
    }
    forall t | IsScalar(scan, doc, t, root, errors)
      ensures ReadDocument(scan, doc, old_) == Parsed(false, root, errors)
    {
      ScalarIsRead(scan, doc, old_, t, root, errors);
    }
  }

  lemma WhyRefused(scan: RealScanner, doc: bytes, old_: Value, root: Value, errors: seq<ErrorInfo>)
    requires ReadDocument(scan, doc, old_) == Parsed(false, root, errors)
    ensures || (exists b :: BreaksOff(scan, doc, old_, b, root, errors))
            || (exists t :: IsScalar(scan, doc, t, root, errors))
  {
    hide ReadValue, Stands, BrokenStands, BrokenLevels, BrokenValue, BrokenError, End, Closed, Levels;
    if ReadValue(scan, doc, 1, 0, old_).Failed? {
      var b := BrokenOf(scan, doc, 1, 0, old_);
      assert BreaksOff(scan, doc, old_, b, root, errors);
    } else {
      var tree := TreeOf(scan, doc, 1, 0, old_);
      ScalarRoot(scan, doc, tree, root);
      assert [] + [RootError(doc)] == [RootError(doc)];
      assert IsScalar(scan, doc, tree.token, root, errors);
    }
  }

  lemma LeafIs(scan: RealScanner, doc: bytes, t: Token, root: Value)
    requires Stands(scan, doc, 0, Leaf(t, root))
    ensures !root.Array? && !root.Object? && Closed(Leaf(t, root)) && Levels(Leaf(t, root)) == 1
  {
    hide Stands;
    LeafIsNoContainer(scan, doc, Leaf(t, root));
  }

  lemma ScalarRoot(scan: RealScanner, doc: bytes, tree: Tree, root: Value)
    requires Stands(scan, doc, 0, tree) && TreeValue(tree) == root && !root.Array? && !root.Object?
    ensures tree.Leaf? && tree == Leaf(tree.token, root)
  {
    hide Stands;
  }
}
