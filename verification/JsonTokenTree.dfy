/** A grammar over the tokens of a document, with what each tree of it denotes. */
module JsonTokenTree {
  import opened Bytes
  import opened JsonValue
  import opened JsonMap
  import opened JsonLexer
  import opened JsonGrammar
  import opened JsonNormal

  /** Comments, and the first token behind them that is none. */
  datatype Trail = Trail(comments: seq<Token>, mark: Token)

  datatype Tree =
    | Leaf(token: Token, value: Value)
    | EmptyArray(open: Token, close: Token)
    | ArrayTree(open: Token, elements: Elements)
    | ObjectTree(open: Token, members: Members)

  datatype Elements =
    | LastElement(value: Tree, close: Trail)
    | MoreElements(value: Tree, comma: Trail, rest: Elements)

  /** The end of an object where a name is expected, or a member and what follows it. */
  datatype Members =
    | NoName(close: Trail)
    | LastMember(name: Trail, key: bytes, colon: Token, value: Tree, close: Trail)
    | MoreMembers(name: Trail, key: bytes, colon: Token, value: Tree, comma: Trail, rest: Members)

  // ---- Where a tree ends, how high it is, and what it denotes ----

  function End(tree: Tree): nat {
    match tree
    case Leaf(t, _) => t.end
    case EmptyArray(_, close) => close.end
    case ArrayTree(_, es) => ElementsEnd(es)
    case ObjectTree(_, ms) => MembersEnd(ms)
  }

  function ElementsEnd(es: Elements): nat {
    match es
    case LastElement(_, close) => close.mark.end
    case MoreElements(_, _, rest) => ElementsEnd(rest)
  }

  function MembersEnd(ms: Members): nat {
    match ms
    case NoName(close) => close.mark.end
    case LastMember(_, _, _, _, close) => close.mark.end
    case MoreMembers(_, _, _, _, _, rest) => MembersEnd(rest)
  }

  function Levels(tree: Tree): (n: nat)
    ensures n >= 1
  {
    match tree
    case Leaf(_, _) => 1
    case EmptyArray(_, _) => 1
    case ArrayTree(_, es) => 1 + ElementsLevels(es)
    case ObjectTree(_, ms) => 1 + MembersLevels(ms)
  }

  function ElementsLevels(es: Elements): nat {
    match es
    case LastElement(v, _) => Levels(v)
    case MoreElements(v, _, rest) => Max(Levels(v), ElementsLevels(rest))
  }

  function MembersLevels(ms: Members): nat {
    match ms
    case NoName(_) => 0
    case LastMember(_, _, _, v, _) => Levels(v)
    case MoreMembers(_, _, _, v, _, rest) => Max(Levels(v), MembersLevels(rest))
  }

  function TreeValue(tree: Tree): Value {
    match tree
    case Leaf(_, v) => v
    case EmptyArray(_, _) => Array([])
    case ArrayTree(_, es) => Array(ElementsValue(es, 0, []))
    case ObjectTree(_, ms) => Object(MembersValue(ms, []))
  }

  /** The elements from position `i` on, behind those in `acc`. */
  function ElementsValue(es: Elements, i: nat, acc: ObjectValues): ObjectValues {
    var acc' := Assign(acc, Index(i), TreeValue(es.value));
    match es
    case LastElement(_, _) => acc'
    case MoreElements(_, _, rest) => ElementsValue(rest, i + 1, acc')
  }

  /** The members, on top of those in `acc`; a later one replaces an earlier one of the same name. */
  function MembersValue(ms: Members, acc: ObjectValues): ObjectValues {
    match ms
    case NoName(_) => acc
    case LastMember(_, key, _, v, _) => Assign(acc, Name(key), TreeValue(v))
    case MoreMembers(_, key, _, v, _, rest) => MembersValue(rest, Assign(acc, Name(key), TreeValue(v)))
  }

  // ---- The grammar ----

  predicate TrailStands(doc: bytes, p: nat, trail: Trail): (r: bool)
    requires p <= |doc|
    ensures r ==> p <= trail.mark.start <= trail.mark.end <= |doc|
    ensures r && trail.mark.kind != EndOfStream ==> trail.mark.start < trail.mark.end
    decreases |trail.comments|
  {
    var t := ReadToken(doc, p);
    if trail.comments == [] then trail.mark == t && t.kind != CommentToken
    else
      && trail.comments[0] == t && t.kind == CommentToken
      && TrailStands(doc, t.end, Trail(trail.comments[1..], trail.mark))
  }

  /** A comma, or behind a comment any token at all but a closing brace. */
  predicate Continues(trail: Trail) {
    if trail.comments == [] then trail.mark.kind == ArraySeparator else trail.mark.kind != ObjectEnd
  }

  /** A name without a bad escape, and the colon directly behind it. */
  predicate NameStands(doc: bytes, p: nat, name: Trail, key: bytes, colon: Token): (r: bool)
    requires p <= |doc|
    ensures r ==> p < colon.end <= |doc|
  {
    && TrailStands(doc, p, name) && name.mark.kind == StringToken && name.mark.start + 2 <= name.mark.end
    && DecodeStringToken(doc, name.mark) == Plain(key)
    && colon == ReadToken(doc, name.mark.end) && colon.kind == MemberSeparator
  }

  /** The tree's tokens stand in the document one after the other, from `p` on. */
  predicate Stands(scan: RealScanner, doc: bytes, p: nat, tree: Tree): (r: bool)
    requires p <= |doc|
    ensures r ==> p < End(tree) <= |doc|
    decreases tree
  {
    var t := ReadToken(doc, p);
    match tree
    case Leaf(leaf, v) => leaf == t && Scalar(scan, doc, t, Null) == Done(t.end, v)
    case EmptyArray(open, close) =>
      open == t && t.kind == ArrayBegin && close == ReadToken(doc, t.end) && close.kind == ArrayEnd
    case ArrayTree(open, es) => open == t && t.kind == ArrayBegin && ElementsStand(scan, doc, t.end, es)
    case ObjectTree(open, ms) => open == t && t.kind == ObjectBegin && MembersStand(scan, doc, t.end, ms)
  }

  predicate ElementsStand(scan: RealScanner, doc: bytes, p: nat, es: Elements): (r: bool)
    requires p <= |doc|
    ensures r ==> p < ElementsEnd(es) <= |doc|
    decreases es
  {
    && Stands(scan, doc, p, es.value)
    && match es
       case LastElement(v, close) => TrailStands(doc, End(v), close) && close.mark.kind == ArrayEnd
       case MoreElements(v, comma, rest) =>
         && TrailStands(doc, End(v), comma) && comma.mark.kind == ArraySeparator
         && ElementsStand(scan, doc, comma.mark.end, rest)
  }

  predicate MembersStand(scan: RealScanner, doc: bytes, p: nat, ms: Members): (r: bool)
    requires p <= |doc|
    ensures r ==> p < MembersEnd(ms) <= |doc|
    decreases ms
  {
    match ms
    case NoName(close) => TrailStands(doc, p, close) && close.mark.kind == ObjectEnd
    case LastMember(name, key, colon, v, close) =>
      && NameStands(doc, p, name, key, colon) && Stands(scan, doc, colon.end, v)
      && TrailStands(doc, End(v), close) && close.mark.kind == ObjectEnd
    case MoreMembers(name, key, colon, v, comma, rest) =>
      && NameStands(doc, p, name, key, colon) && Stands(scan, doc, colon.end, v)
      && TrailStands(doc, End(v), comma) && Continues(comma)
      && MembersStand(scan, doc, comma.mark.end, rest)
  }

  /** Every object ends behind a member, or where a name is expected after the empty name; in front of the
      first member the last name counts as empty. */
  predicate Closed(tree: Tree) {
    match tree
    case ArrayTree(_, es) => ElementsAreClosed(es)
    case ObjectTree(_, ms) => MembersAreClosed(ms, [])
    case _ => true
  }

  predicate ElementsAreClosed(es: Elements) {
    Closed(es.value) && (es.MoreElements? ==> ElementsAreClosed(es.rest))
  }

  predicate MembersAreClosed(ms: Members, last: bytes) {
    match ms
    case NoName(_) => last == []
    case LastMember(_, _, _, v, _) => Closed(v)
    case MoreMembers(_, key, _, v, _, rest) => Closed(v) && MembersAreClosed(rest, key)
  }
}
