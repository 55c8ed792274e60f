/** Exactly which documents strict mode accepts, and as what: those that begin with a tree of the grammar. */
module JsonAccepted {
  import opened Bytes
  import opened JsonValue
  import opened JsonMap
  import opened JsonString
  import opened JsonLexer
  import opened JsonGrammar
  import opened JsonRoundTrip
  import opened JsonQuirks
  import opened JsonTokenTree

  // ---- What stands is read ----

  /** A closed tree is read to its end and denotation, unless that takes too many levels, when the reader
      throws; a tree that is not closed is not read. */
  predicate ReadAs(r: Parse, closed: bool, levels: nat, end: nat, value: Value) {
    if closed then r == if levels > 1000 then Threw else Done(end, value)
    else !r.Done?
  }

  lemma {:induction false} TrailIsNext(doc: bytes, p: nat, trail: Trail)
    requires p <= |doc| && TrailStands(doc, p, trail)
    ensures NextToken(doc, p) == trail.mark
    ensures if trail.comments == [] then ReadToken(doc, p) == trail.mark else ReadToken(doc, p).kind == CommentToken
    decreases |trail.comments|
  {
    hide ReadToken;
    if trail.comments != [] {
      TrailIsNext(doc, ReadToken(doc, p).end, Trail(trail.comments[1..], trail.mark));
    }
  }

  /** A scalar does not depend on what the node held. */
  lemma ScalarForgets(scan: RealScanner, doc: bytes, t: Token, old_: Value, q: nat, v: Value)
    requires t.start <= t.end <= |doc| && (t.kind != EndOfStream ==> t.start < t.end)
    requires t.kind == StringToken ==> t.start + 2 <= t.end
    ensures Scalar(scan, doc, t, old_) == Done(q, v) <==> Scalar(scan, doc, t, Null) == Done(q, v)
  {
    hide DecodeStringToken;
  }

  lemma {:induction false} SkipAgain(doc: bytes, p: nat)
    requires p <= |doc|
    ensures SkipSpaces(doc, SkipSpaces(doc, p)) == SkipSpaces(doc, p)
    decreases |doc| - p
  {
    if p < |doc| && Space(doc[p]) {
      SkipAgain(doc, p + 1);
    }
  }

  lemma BracketToken(doc: bytes, q: nat)
    requires q <= |doc|
    ensures TokenAt(doc, q).kind == ArrayEnd <==> q < |doc| && doc[q] == 0x5D
    ensures TokenAt(doc, q).kind == ArrayEnd ==> TokenAt(doc, q).end == q + 1
  {
    hide ScanString, ScanComment, ScanNumber, Word;
  }

  lemma SpacesValue(scan: RealScanner, doc: bytes, depth: nat, p: nat, old_: Value)
    requires p <= |doc|
    ensures ReadValue(scan, doc, depth, SkipSpaces(doc, p), old_) == ReadValue(scan, doc, depth, p, old_)
  {
    hide SkipSpaces, TokenAt, ReadMembers, ReadArray, Scalar;
    SkipAgain(doc, p);
  }

  lemma SpacesElements(scan: RealScanner, doc: bytes, depth: nat, p: nat)
    requires p <= |doc|
    ensures ReadElements(scan, doc, depth, SkipSpaces(doc, p), 0, []) == ReadElements(scan, doc, depth, p, 0, [])
  {
    hide SkipSpaces, ReadValue, Assign, Lookup, NextToken, Recover;
    SpacesValue(scan, doc, depth + 1, p, Lookup([], Index(0)));
  }

  /** An array is empty exactly when a closing bracket is the next token, and no comment may stand before it. */
  lemma ArrayOpens(scan: RealScanner, doc: bytes, depth: nat, p: nat)
    requires p <= |doc|
    ensures var t := ReadToken(doc, p);
            ReadArray(scan, doc, depth, p)
            == if t.kind == ArrayEnd then Done(t.end, Array([])) else ReadElements(scan, doc, depth, p, 0, [])
  {
    hide SkipSpaces, TokenAt, ReadElements;
    BracketToken(doc, SkipSpaces(doc, p));
    SpacesElements(scan, doc, depth, p);
  }

  lemma ValueOpens(scan: RealScanner, doc: bytes, depth: nat, p: nat, old_: Value)
    requires p <= |doc| && depth <= STACK_LIMIT
    ensures var t := ReadToken(doc, p);
            ReadValue(scan, doc, depth, p, old_)
            == if t.kind == ObjectBegin then ReadMembers(scan, doc, depth, t.end, [], [])
               else if t.kind == ArrayBegin then ReadArray(scan, doc, depth, t.end)
               else Scalar(scan, doc, t, old_)
  {
    hide ReadToken, ReadMembers, ReadArray, Scalar, ScanString;
  }

  lemma ScalarKinds(scan: RealScanner, doc: bytes, t: Token, old_: Value)
    requires t.start <= t.end <= |doc| && (t.kind != EndOfStream ==> t.start < t.end)
    requires t.kind == StringToken ==> t.start + 2 <= t.end
    requires t.kind in [ObjectBegin, ArrayBegin, ArrayEnd]
    ensures Scalar(scan, doc, t, old_).Failed?
  {
  }

  lemma {:induction false} TreeIsRead(scan: RealScanner, doc: bytes, depth: nat, p: nat, tree: Tree, old_: Value)
    requires p <= |doc| && depth >= 1 && Stands(scan, doc, p, tree)
    ensures ReadAs(ReadValue(scan, doc, depth, p, old_), Closed(tree), depth + Levels(tree) - 1, End(tree),
                   TreeValue(tree))
    decreases tree
  {
    hide ReadToken, ReadValue, ReadMembers, ReadArray, ReadElements, Scalar, ScanString, ElementsStand, MembersStand,
      ElementsLevels, MembersLevels, ElementsValue, MembersValue, ElementsAreClosed, MembersAreClosed;
    if depth > STACK_LIMIT {
      TooDeep(scan, doc, depth, p, old_);
    } else {
      ValueOpens(scan, doc, depth, p, old_);
      var t := ReadToken(doc, p);
      match tree {
        case Leaf(_, v) => LeafIsRead(scan, doc, t, old_, v);
        case EmptyArray(_, _) => ArrayOpens(scan, doc, depth, t.end);
        case ArrayTree(_, es) =>
          ArrayOpens(scan, doc, depth, t.end);
          ElementsBegin(scan, doc, t.end, es);
          ElementsAreRead(scan, doc, depth, t.end, es, 0, []);
        case ObjectTree(_, ms) => MembersAreRead(scan, doc, depth, t.end, ms, [], []);
      }
    }
  }

  lemma LeafIsRead(scan: RealScanner, doc: bytes, t: Token, old_: Value, v: Value)
    requires t.start <= t.end <= |doc| && (t.kind != EndOfStream ==> t.start < t.end)
    requires t.kind == StringToken ==> t.start + 2 <= t.end
    requires Scalar(scan, doc, t, Null) == Done(t.end, v)
    ensures Scalar(scan, doc, t, old_) == Done(t.end, v) && t.kind !in [ObjectBegin, ArrayBegin, ArrayEnd]
  {
    hide Scalar;
    ScalarForgets(scan, doc, t, old_, t.end, v);
    if t.kind in [ObjectBegin, ArrayBegin, ArrayEnd] {
      ScalarKinds(scan, doc, t, Null);
    }
  }

  /** No element begins with a closing bracket. */
  lemma ElementsBegin(scan: RealScanner, doc: bytes, p: nat, es: Elements)
    requires p <= |doc| && ElementsStand(scan, doc, p, es)
    ensures ReadToken(doc, p).kind != ArrayEnd
  {
    hide ReadToken, Scalar, MembersStand, TrailStands, ScanString;
    if es.value.Leaf? {
      LeafIsRead(scan, doc, ReadToken(doc, p), Null, es.value.value);
    }
  }

  // One turn of the element loop.

  /** The loop ends with a value only if the element does. */
  lemma ElementFirst(scan: RealScanner, doc: bytes, depth: nat, p: nat, i: nat, acc: ObjectValues)
    requires p <= |doc| && ReadElements(scan, doc, depth, p, i, acc).Done?
    ensures ReadValue(scan, doc, depth + 1, p, Lookup(acc, Index(i))).Done?
  {
    hide ReadValue, Lookup, Assign, NextToken, Recover;
  }

  lemma {:induction false} ElementsAreRead(scan: RealScanner, doc: bytes, depth: nat, p: nat, es: Elements, i: nat,
                                           acc: ObjectValues)
    requires p <= |doc| && 1 <= depth <= STACK_LIMIT && ElementsStand(scan, doc, p, es)
    ensures ReadAs(ReadElements(scan, doc, depth, p, i, acc), ElementsAreClosed(es), depth + ElementsLevels(es),
                   ElementsEnd(es), Array(ElementsValue(es, i, acc)))
    decreases es
  {
    hide ReadToken, NextToken, ReadValue, ReadElements, Scalar, ScanString, Stands, TrailStands, Levels, TreeValue,
      Closed, End, Assign, Lookup;
    var v := es.value;
    var old_ := Lookup(acc, Index(i));
    TreeIsRead(scan, doc, depth + 1, p, v, old_);
    if !Closed(v) {
      if ReadElements(scan, doc, depth, p, i, acc).Done? {
        ElementFirst(scan, doc, depth, p, i, acc);
      }
    } else if depth + Levels(v) > STACK_LIMIT {
      ElementThrows(scan, doc, depth, p, i, acc);
    } else {
      var acc' := Assign(acc, Index(i), TreeValue(v));
      TrailIsNext(doc, End(v), if es.LastElement? then es.close else es.comma);
      ElementThenMark(scan, doc, depth, p, i, acc, End(v), TreeValue(v));
      if es.MoreElements? {
        ElementsAreRead(scan, doc, depth, es.comma.mark.end, es.rest, i + 1, acc');
      }
    }
  }

  // One turn of the member loop.

  lemma NameIsRead(scan: RealScanner, doc: bytes, depth: nat, p: nat, name: Trail, key: bytes, colon: Token,
                   last: bytes, acc: ObjectValues)
    requires p <= |doc| && NameStands(doc, p, name, key, colon)
    ensures ReadMembers(scan, doc, depth, p, last, acc) == ReadMember(scan, doc, depth, colon.end, key, acc)
  {
    hide ReadToken, NextToken, TrailStands, DecodeStringToken, ReadMember, ReadMembers, ScanString;
    TrailIsNext(doc, p, name);
    MemberKey(scan, doc, depth, p, name.mark.end, last, acc, key);
  }

  lemma MemberFirst(scan: RealScanner, doc: bytes, depth: nat, p: nat, key: bytes, acc: ObjectValues)
    requires p <= |doc| && ReadMember(scan, doc, depth, p, key, acc).Done?
    ensures ReadValue(scan, doc, depth + 1, p, Lookup(acc, Name(key))).Done?
  {
    hide ReadValue, Lookup, Assign, NextToken, ReadToken, ReadMembers, Recover, ScanString;
  }

  lemma TrailGoesOn(doc: bytes, q: nat, trail: Trail)
    requires q <= |doc| && TrailStands(doc, q, trail)
    ensures NextToken(doc, q) == trail.mark && (GoesOn(doc, q) <==> Continues(trail))
  {
    hide ReadToken, NextToken, TrailStands;
    TrailIsNext(doc, q, trail);
  }

  lemma {:induction false} MembersAreRead(scan: RealScanner, doc: bytes, depth: nat, p: nat, ms: Members, last: bytes,
                                          acc: ObjectValues)
    requires p <= |doc| && 1 <= depth <= STACK_LIMIT && MembersStand(scan, doc, p, ms)
    ensures ReadAs(ReadMembers(scan, doc, depth, p, last, acc), MembersAreClosed(ms, last), depth + MembersLevels(ms),
                   MembersEnd(ms), Object(MembersValue(ms, acc)))
    decreases ms, 1
  {
    hide ReadToken, NextToken, ReadValue, ReadMembers, ReadMember, Scalar, ScanString, Stands, TrailStands, Levels,
      TreeValue, Closed, End, Assign, Lookup, NameStands;
    if ms.NoName? {
      TrailIsNext(doc, p, ms.close);
      BraceForName(scan, doc, depth, p, last, acc);
    } else {
      NameIsRead(scan, doc, depth, p, ms.name, ms.key, ms.colon, last, acc);
      MemberIsRead(scan, doc, depth, ms, last, acc);
    }
  }

  lemma {:induction false} MemberIsRead(scan: RealScanner, doc: bytes, depth: nat, ms: Members, last: bytes,
                                        acc: ObjectValues)
    requires !ms.NoName? && ms.colon.end <= |doc| && 1 <= depth <= STACK_LIMIT
    requires Stands(scan, doc, ms.colon.end, ms.value)
    requires ms.LastMember? ==> TrailStands(doc, End(ms.value), ms.close) && ms.close.mark.kind == ObjectEnd
    requires ms.MoreMembers? ==>
               && TrailStands(doc, End(ms.value), ms.comma) && Continues(ms.comma)
               && MembersStand(scan, doc, ms.comma.mark.end, ms.rest)
    ensures ReadAs(ReadMember(scan, doc, depth, ms.colon.end, ms.key, acc), MembersAreClosed(ms, last),
                   depth + MembersLevels(ms), MembersEnd(ms), Object(MembersValue(ms, acc)))
    decreases ms, 0
  {
    hide ReadToken, NextToken, ReadValue, ReadMembers, ReadMember, Scalar, ScanString, Stands, TrailStands, Levels,
      TreeValue, Closed, End, Assign, Lookup, NameStands, MembersStand, GoesOn;
    var v := ms.value;
    var p := ms.colon.end;
    TreeIsRead(scan, doc, depth + 1, p, v, Lookup(acc, Name(ms.key)));
    if !Closed(v) {
      if ReadMember(scan, doc, depth, p, ms.key, acc).Done? {
        MemberFirst(scan, doc, depth, p, ms.key, acc);
      }
    } else if depth + Levels(v) > STACK_LIMIT {
      MemberThrows(scan, doc, depth, p, ms.key, acc);
    } else {
      var acc' := Assign(acc, Name(ms.key), TreeValue(v));
      TrailGoesOn(doc, End(v), if ms.LastMember? then ms.close else ms.comma);
      AfterMemberValue(scan, doc, depth, p, ms.key, acc, End(v), TreeValue(v));
      if ms.MoreMembers? {
        MembersAreRead(scan, doc, depth, ms.comma.mark.end, ms.rest, ms.key, acc');
      }
    }
  }

  // ---- What is read stands ----

  function CommentsFrom(doc: bytes, p: nat): seq<Token>
    requires p <= |doc|
    decreases |doc| - p
  {
    var t := ReadToken(doc, p);
    if t.kind == CommentToken then [t] + CommentsFrom(doc, t.end) else []
  }

  function TrailFrom(doc: bytes, p: nat): Trail
    requires p <= |doc|
  {
    Trail(CommentsFrom(doc, p), NextToken(doc, p))
  }

  lemma {:induction false} TrailFromStands(doc: bytes, p: nat)
    requires p <= |doc|
    ensures TrailStands(doc, p, TrailFrom(doc, p)) && TrailFrom(doc, p).mark == NextToken(doc, p)
    decreases |doc| - p
  {
    hide ReadToken;
    var t := ReadToken(doc, p);
    if t.kind == CommentToken {
      TrailFromStands(doc, t.end);
      assert CommentsFrom(doc, p)[1..] == CommentsFrom(doc, t.end);
    }
  }

  /** A closed tree within the stack limit stands from `p` to `q` and denotes `v`. */
  ghost predicate Derives(scan: RealScanner, doc: bytes, depth: nat, p: nat, tree: Tree, q: nat, v: Value)
    requires p <= |doc|
  {
    && Stands(scan, doc, p, tree) && Closed(tree) && depth + Levels(tree) - 1 <= STACK_LIMIT
    && End(tree) == q && TreeValue(tree) == v
  }

  ghost predicate ElementsDerive(scan: RealScanner, doc: bytes, depth: nat, p: nat, es: Elements, i: nat,
                                 acc: ObjectValues, q: nat, v: Value)
    requires p <= |doc|
  {
    && ElementsStand(scan, doc, p, es) && ElementsAreClosed(es) && depth + ElementsLevels(es) <= STACK_LIMIT
    && ElementsEnd(es) == q && Array(ElementsValue(es, i, acc)) == v
  }

  ghost predicate MembersDerive(scan: RealScanner, doc: bytes, depth: nat, p: nat, ms: Members, last: bytes,
                                acc: ObjectValues, q: nat, v: Value)
    requires p <= |doc|
  {
    && MembersStand(scan, doc, p, ms) && MembersAreClosed(ms, last) && depth + MembersLevels(ms) <= STACK_LIMIT
    && MembersEnd(ms) == q && Object(MembersValue(ms, acc)) == v
  }

  lemma {:induction false} TreeOf(scan: RealScanner, doc: bytes, depth: nat, p: nat, old_: Value) returns (tree: Tree)
    requires p <= |doc| && depth >= 1 && ReadValue(scan, doc, depth, p, old_).Done?
    ensures var r := ReadValue(scan, doc, depth, p, old_); Derives(scan, doc, depth, p, tree, r.pos, r.value)
    decreases |doc| - p, 2
  {
    hide ReadToken, ReadValue, ReadMembers, ReadArray, ReadElements, Scalar, ScanString, ElementsStand, MembersStand,
      ElementsLevels, MembersLevels, ElementsValue, MembersValue, ElementsAreClosed, MembersAreClosed;
    if depth > STACK_LIMIT {
      TooDeep(scan, doc, depth, p, old_);
    }
    ValueOpens(scan, doc, depth, p, old_);
    var t := ReadToken(doc, p);
    var r := ReadValue(scan, doc, depth, p, old_);
    if t.kind == ObjectBegin {
      var ms := MembersOf(scan, doc, depth, t.end, [], []);
      tree := ObjectTree(t, ms);
    } else if t.kind == ArrayBegin {
      ArrayOpens(scan, doc, depth, t.end);
      var close := ReadToken(doc, t.end);
      if close.kind == ArrayEnd {
        tree := EmptyArray(t, close);
      } else {
        var es := ElementsOf(scan, doc, depth, t.end, 0, []);
        tree := ArrayTree(t, es);
      }
    } else {
      ScalarForgets(scan, doc, t, old_, t.end, r.value);
      tree := Leaf(t, r.value);
    }
  }

  /** What follows a value of the element loop that ends with a value itself. */
  lemma ElementGoesOn(scan: RealScanner, doc: bytes, depth: nat, p: nat, i: nat, acc: ObjectValues)
    requires p <= |doc| && ReadElements(scan, doc, depth, p, i, acc).Done?
    ensures var child := ReadValue(scan, doc, depth + 1, p, Lookup(acc, Index(i)));
            && child.Done?
            && var t := NextToken(doc, child.pos);
               var acc' := Assign(acc, Index(i), child.value);
               && (t.kind == ArrayEnd || t.kind == ArraySeparator)
               && ReadElements(scan, doc, depth, p, i, acc)
                  == if t.kind == ArrayEnd then Done(t.end, Array(acc'))
                     else ReadElements(scan, doc, depth, t.end, i + 1, acc')
  {
    hide ReadValue, Lookup, Assign, NextToken, Recover;
  }

  lemma {:induction false} ElementsOf(scan: RealScanner, doc: bytes, depth: nat, p: nat, i: nat, acc: ObjectValues)
    returns (es: Elements)
    requires p <= |doc| && 1 <= depth <= STACK_LIMIT && ReadElements(scan, doc, depth, p, i, acc).Done?
    ensures var r := ReadElements(scan, doc, depth, p, i, acc);
            ElementsDerive(scan, doc, depth, p, es, i, acc, r.pos, r.value)
    decreases |doc| - p, 3
  {
    hide ReadToken, NextToken, ReadValue, ReadElements, Scalar, ScanString, Stands, TrailStands, TrailFrom, Levels,
      TreeValue, Closed, End, Assign, Lookup;
    ElementGoesOn(scan, doc, depth, p, i, acc);
    var child := ReadValue(scan, doc, depth + 1, p, Lookup(acc, Index(i)));
    var v := TreeOf(scan, doc, depth + 1, p, Lookup(acc, Index(i)));
    var trail := TrailFrom(doc, child.pos);
    TrailFromStands(doc, child.pos);
    if trail.mark.kind == ArrayEnd {
      es := LastElement(v, trail);
    } else {
      var rest := ElementsOf(scan, doc, depth, trail.mark.end, i + 1, Assign(acc, Index(i), child.value));
      es := MoreElements(v, trail, rest);
    }
  }

  /** A member loop that ends with a value ends here, or reads a name and a colon. */
  lemma NameGoesOn(scan: RealScanner, doc: bytes, depth: nat, p: nat, last: bytes, acc: ObjectValues)
    requires p <= |doc| && ReadMembers(scan, doc, depth, p, last, acc).Done?
    ensures var t := NextToken(doc, p);
            if t.kind == ObjectEnd then
              last == [] && ReadMembers(scan, doc, depth, p, last, acc) == Done(t.end, Object(acc))
            else
              && t.kind == StringToken && t.start + 2 <= t.end && DecodeStringToken(doc, t).Plain?
              && var colon := ReadToken(doc, t.end);
                 && colon.kind == MemberSeparator
                 && ReadMembers(scan, doc, depth, p, last, acc)
                    == ReadMember(scan, doc, depth, colon.end, DecodeStringToken(doc, t).text, acc)
  {
    hide ReadToken, NextToken, DecodeStringToken, ReadMember, Recover;
  }

  lemma {:induction false} MembersOf(scan: RealScanner, doc: bytes, depth: nat, p: nat, last: bytes, acc: ObjectValues)
    returns (ms: Members)
    requires p <= |doc| && 1 <= depth <= STACK_LIMIT && ReadMembers(scan, doc, depth, p, last, acc).Done?
    ensures var r := ReadMembers(scan, doc, depth, p, last, acc);
            MembersDerive(scan, doc, depth, p, ms, last, acc, r.pos, r.value)
    decreases |doc| - p, 1
  {
    hide ReadToken, NextToken, ReadValue, ReadMembers, ReadMember, Scalar, ScanString, Stands, TrailStands, TrailFrom,
      Levels, TreeValue, Closed, End, Assign, Lookup, DecodeStringToken, Continues;
    NameGoesOn(scan, doc, depth, p, last, acc);
    TrailFromStands(doc, p);
    var name := TrailFrom(doc, p);
    if name.mark.kind == ObjectEnd {
      ms := NoName(name);
    } else {
      var colon := ReadToken(doc, name.mark.end);
      ms := MemberOf(scan, doc, depth, p, name, DecodeStringToken(doc, name.mark).text, colon, last, acc);
    }
  }

  lemma {:induction false} MemberOf(scan: RealScanner, doc: bytes, depth: nat, p: nat, name: Trail, key: bytes,
                                    colon: Token, last: bytes, acc: ObjectValues)
    returns (ms: Members)
    requires p <= |doc| && 1 <= depth <= STACK_LIMIT && NameStands(doc, p, name, key, colon)
    requires ReadMember(scan, doc, depth, colon.end, key, acc).Done?
    ensures var r := ReadMember(scan, doc, depth, colon.end, key, acc);
            MembersDerive(scan, doc, depth, p, ms, last, acc, r.pos, r.value)
    decreases |doc| - p, 0
  {
    hide ReadToken, NextToken, ReadValue, ReadMembers, ReadMember, Scalar, ScanString, Stands, TrailStands, TrailFrom,
      Levels, TreeValue, Closed, End, Assign, Lookup, NameStands, Continues, GoesOn;
    MemberFirst(scan, doc, depth, colon.end, key, acc);
    var old_ := Lookup(acc, Name(key));
    var child := ReadValue(scan, doc, depth + 1, colon.end, old_);
    var v := TreeOf(scan, doc, depth + 1, colon.end, old_);
    AfterMemberValue(scan, doc, depth, colon.end, key, acc, child.pos, child.value);
    var trail := TrailFrom(doc, child.pos);
    TrailFromStands(doc, child.pos);
    TrailGoesOn(doc, child.pos, trail);
    if GoesOn(doc, child.pos) {
      var rest := MembersOf(scan, doc, depth, trail.mark.end, key, Assign(acc, Name(key), child.value));
      ms := MoreMembers(name, key, colon, v, trail, rest);
    } else {
      ms := LastMember(name, key, colon, v, trail);
    }
  }

  // ---- Whole documents ----

  lemma LeafIsNoContainer(scan: RealScanner, doc: bytes, tree: Tree)
    requires Stands(scan, doc, 0, tree) && tree.Leaf?
    ensures !TreeValue(tree).Array? && !TreeValue(tree).Object?
  {
    hide ReadToken, DecodeStringToken, ScanString;
  }

  /** What becomes of a document that begins with a tree, whatever stands behind it. */
  lemma TreeDocument(scan: RealScanner, doc: bytes, tree: Tree, old_: Value)
    requires Stands(scan, doc, 0, tree) && !tree.Leaf?
    ensures var d := ReadDocument(scan, doc, old_);
            if Closed(tree) then
              d == if Levels(tree) > 1000 then ParseThrew else Parsed(true, TreeValue(tree), [])
            else d.ParseThrew? || !d.ok
  {
    hide ReadValue, Stands, Closed, Levels, End, ElementsValue, MembersValue;
    TreeIsRead(scan, doc, 1, 0, tree, old_);
  }

  /** `parse` returns true with this root exactly when the document begins with a closed tree of at most 1000
      levels that is an array or object and denotes the root. */
  lemma AcceptedExactly(scan: RealScanner, doc: bytes, old_: Value, root: Value)
    ensures ReadDocument(scan, doc, old_) == Parsed(true, root, [])
            <==> exists tree: Tree :: !tree.Leaf? && Levels(tree) <= 1000 && TreeValue(tree) == root
                                      && Stands(scan, doc, 0, tree) && Closed(tree)
  {
    hide ReadValue, Stands, Closed, Levels, End, TreeValue;
    if ReadDocument(scan, doc, old_) == Parsed(true, root, []) {
      var tree := TreeOf(scan, doc, 1, 0, old_);
      if tree.Leaf? {
        LeafIsNoContainer(scan, doc, tree);
      }
    }
    forall tree: Tree | !tree.Leaf? && Levels(tree) <= 1000 && TreeValue(tree) == root
                        && Stands(scan, doc, 0, tree) && Closed(tree)
      ensures ReadDocument(scan, doc, old_) == Parsed(true, root, [])
    {
      TreeDocument(scan, doc, tree, old_);
    }
  }

  // ---- Commas before a brace ----

  /** The object ends where a name is expected. */
  predicate EndsAtName(ms: Members) {
    ms.NoName? || (ms.MoreMembers? && EndsAtName(ms.rest))
  }

  /** The last name that was read, or `last` if there is none. */
  function LastName(ms: Members, last: bytes): bytes {
    match ms
    case NoName(_) => last
    case LastMember(_, key, _, _, _) => key
    case MoreMembers(_, key, _, _, _, rest) => LastName(rest, key)
  }

  predicate ValuesClosed(ms: Members) {
    match ms
    case NoName(_) => true
    case LastMember(_, _, _, v, _) => Closed(v)
    case MoreMembers(_, _, _, v, _, rest) => Closed(v) && ValuesClosed(rest)
  }

  lemma {:induction false} ClosedAtName(ms: Members, last: bytes)
    ensures MembersAreClosed(ms, last) <==> ValuesClosed(ms) && (EndsAtName(ms) ==> LastName(ms, last) == [])
  {
    hide Closed;
    if ms.MoreMembers? {
      ClosedAtName(ms.rest, ms.key);
    }
  }

  /** A brace behind a comma is accepted exactly after the empty name, whatever members there are. */
  lemma BraceBehindComma(scan: RealScanner, doc: bytes, open: Token, ms: Members, old_: Value)
    requires Stands(scan, doc, 0, ObjectTree(open, ms)) && ValuesClosed(ms) && MembersLevels(ms) < 1000
    requires EndsAtName(ms)
    ensures var d := ReadDocument(scan, doc, old_); d.Parsed? && d.ok <==> LastName(ms, []) == []
  {
    hide ReadDocument, Stands, ValuesClosed, MembersLevels, MembersAreClosed, EndsAtName, LastName;
    TreeDocument(scan, doc, ObjectTree(open, ms), old_);
    ClosedAtName(ms, []);
  }

  // ---- Comments ----

  predicate TrailBefore(trail: Trail, q: nat) {
    forall k :: 0 <= k < |trail.comments| ==> trail.comments[k].end < q
  }

  /** Every comment of the tree ends before `q`. */
  predicate CommentsBefore(tree: Tree, q: nat) {
    match tree
    case ArrayTree(_, es) => ElementCommentsBefore(es, q)
    case ObjectTree(_, ms) => MemberCommentsBefore(ms, q)
    case _ => true
  }

  predicate ElementCommentsBefore(es: Elements, q: nat) {
    && CommentsBefore(es.value, q)
    && match es
       case LastElement(_, close) => TrailBefore(close, q)
       case MoreElements(_, comma, rest) => TrailBefore(comma, q) && ElementCommentsBefore(rest, q)
  }

  predicate MemberCommentsBefore(ms: Members, q: nat) {
    match ms
    case NoName(close) => TrailBefore(close, q)
    case LastMember(name, _, _, v, close) => TrailBefore(name, q) && CommentsBefore(v, q) && TrailBefore(close, q)
    case MoreMembers(name, _, _, v, comma, rest) =>
      TrailBefore(name, q) && CommentsBefore(v, q) && TrailBefore(comma, q) && MemberCommentsBefore(rest, q)
  }

  lemma {:induction false} TrailEnds(doc: bytes, p: nat, trail: Trail, q: nat)
    requires p <= |doc| && TrailStands(doc, p, trail) && trail.mark.start < q
    ensures TrailBefore(trail, q)
    decreases |trail.comments|
  {
    hide ReadToken;
    if trail.comments != [] {
      var rest := Trail(trail.comments[1..], trail.mark);
      TrailEnds(doc, ReadToken(doc, p).end, rest, q);
      forall k | 0 <= k < |trail.comments|
        ensures trail.comments[k].end < q
      {
        assert k > 0 ==> trail.comments[k] == rest.comments[k - 1];
      }
    }
  }

  /** A comment that runs to the end of the document is in no text that is read: every comment of a tree
      ends before the tree does. */
  lemma {:induction false} CommentsAreClosed(scan: RealScanner, doc: bytes, p: nat, tree: Tree, q: nat)
    requires p <= |doc| && Stands(scan, doc, p, tree) && End(tree) <= q
    ensures CommentsBefore(tree, q)
    decreases tree
  {
    hide ReadToken, Scalar, ScanString, ElementsStand, MembersStand;
    match tree {
      case ArrayTree(open, es) => ElementCommentsClosed(scan, doc, open.end, es, q);
      case ObjectTree(open, ms) => MemberCommentsClosed(scan, doc, open.end, ms, q);
      case _ =>
    }
  }

  lemma {:induction false} ElementCommentsClosed(scan: RealScanner, doc: bytes, p: nat, es: Elements, q: nat)
    requires p <= |doc| && ElementsStand(scan, doc, p, es) && ElementsEnd(es) <= q
    ensures ElementCommentsBefore(es, q)
    decreases es
  {
    hide ReadToken, Stands, TrailStands, TrailBefore, CommentsBefore, End;
    CommentsAreClosed(scan, doc, p, es.value, q);
    match es {
      case LastElement(v, close) => TrailEnds(doc, End(v), close, q);
      case MoreElements(v, comma, rest) =>
        TrailEnds(doc, End(v), comma, q);
        ElementCommentsClosed(scan, doc, comma.mark.end, rest, q);
    }
  }

  lemma {:induction false} MemberCommentsClosed(scan: RealScanner, doc: bytes, p: nat, ms: Members, q: nat)
    requires p <= |doc| && MembersStand(scan, doc, p, ms) && MembersEnd(ms) <= q
    ensures MemberCommentsBefore(ms, q)
    decreases ms
  {
    hide ReadToken, Stands, TrailStands, TrailBefore, CommentsBefore, End, DecodeStringToken, Continues;
    match ms {
      case NoName(close) => TrailEnds(doc, p, close, q);
      case LastMember(name, _, colon, v, close) =>
        TrailEnds(doc, p, name, q);
        CommentsAreClosed(scan, doc, colon.end, v, q);
        TrailEnds(doc, End(v), close, q);
      case MoreMembers(name, _, colon, v, comma, rest) =>
        TrailEnds(doc, p, name, q);
        CommentsAreClosed(scan, doc, colon.end, v, q);
        TrailEnds(doc, End(v), comma, q);
        MemberCommentsClosed(scan, doc, comma.mark.end, rest, q);
    }
  }
}
