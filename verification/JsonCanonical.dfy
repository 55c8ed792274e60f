/** Which documents survive being written and read back, and how often one has to go round. */
module JsonCanonical {
  import opened Bytes
  import opened Utf8
  import opened JsonValue
  import opened JsonMap
  import opened JsonArray
  import opened JsonTree
  import opened JsonNumber
  import opened JsonStringLaws
  import opened JsonRepair
  import opened JsonWriter
  import opened JsonLexer
  import opened JsonGrammar
  import opened JsonNormal
  import opened JsonRoundTrip
  import JsonReader

  /** What the writer prints for `v`: its text and a newline. */
  function WrittenDocument(pr: RealPrinter, v: Value): bytes {
    Written(pr, v) + [LINE_FEED]
  }

  /** Reading back a written document gives the value's normal form: with success for an array or an
      object, with one error for anything else, and with an exception above 1000 levels. */
  lemma DocumentRoundTrip(scan: RealScanner, pr: RealPrinter, v: Value, old_: Value)
    requires WellFormed(v) && RealFree(v)
    ensures var doc := WrittenDocument(pr, v);
            ReadDocument(scan, doc, old_)
            == if Depth(v) > 1000 then ParseThrew
               else if v.Array? || v.Object? then Parsed(true, Normalized(v), [])
               else Parsed(false, Normalized(v), [ErrorInfo(Token(ErrorToken, 0, |doc|), RootMustBeContainer, None)])
  {
    hide WellFormed, RealFree, Written, Depth, ReadValue, NormalizedElements, NormalizedMembers, Repaired;
    var doc := WrittenDocument(pr, v);
    assert doc[0..|Written(pr, v)|] == Written(pr, v);
    ReadWritten(scan, pr, doc, 1, 0, v, old_);
  }

  // ---- Normal values ----

  /** The values the round trip leaves alone: arrays without gaps, integers in the reader's form,
      strings and keys in well-formed UTF-8. */
  ghost predicate Canonical(v: Value)
    decreases Weight(v)
  {
    match v
    case Int(i) => i <= 0x7FFF_FFFF
    case UInt(u) => u > 0x7FFF_FFFF
    case String(s) => ValidUtf8(s)
    case Array(m) =>
      && |m| == Size(m)
      && forall i :: 0 <= i < |m| ==> (MapWeightAt(m, i); m[i].key == Index(i) && Canonical(m[i].value))
    case Object(m) =>
      forall i :: 0 <= i < |m| ==> (MapWeightAt(m, i); ValidUtf8(KeyName(m[i].key)) && Canonical(m[i].value))
    case _ => true
  }

  // Arrays: the normal form has entry `i` at position `i`.

  ghost predicate Numbered(m: ObjectValues) {
    forall i :: 0 <= i < |m| ==> m[i].key == Index(i)
  }

  lemma {:induction false} NormalizedElementsShape(m: ObjectValues, i: nat, acc: ObjectValues)
    requires i <= Size(m) && |acc| == i && Numbered(acc)
    ensures var n := NormalizedElements(m, i, acc);
            && |n| == Size(m) && Numbered(n) && acc <= n
            && forall k :: i <= k < Size(m) ==> n[k].value == Normalized(Element(m, k))
    decreases Size(m) - i
  {
    hide Size, Element, Normalized;
    if i < Size(m) {
      var e := Entry(Index(i), Normalized(Element(m, i)));
      AssignLast(acc, e.key, e.value);
      ElementNormalized(m, i, acc);
      NormalizedElementsShape(m, i + 1, acc + [e]);
      assert NormalizedElements(m, i, acc)[i] == e;
    } else {
      NoElements(m, i, acc);
    }
  }

  lemma NumberedIsSorted(m: ObjectValues)
    requires Numbered(m)
    ensures Sorted(m) && Size(m) == |m|
    ensures forall i :: 0 <= i < |m| ==> Element(m, i) == m[i].value
  {
    hide Lookup, LowerBound, Has;
    forall i | 0 <= i < |m|
      ensures Element(m, i) == m[i].value
    {
      LookupEntry(m, i);
    }
  }

  lemma {:induction false} EntriesAreNormal(v: Value, m: ObjectValues)
    requires WellFormed(v) && RealFree(v) && (v == Array(m) || v == Object(m))
    ensures forall i :: 0 <= i < |m| ==> (Normalized(m[i].value) == m[i].value <==> Canonical(m[i].value))
    decreases MapWeight(m), 1
  {
    forall i | 0 <= i < |m|
      ensures Normalized(m[i].value) == m[i].value <==> Canonical(m[i].value)
    {
      hide Normalized, Canonical;
      MapWeightAt(m, i);
      NormalIsCanonical(m[i].value);
    }
  }

  lemma CanonicalArray(m: ObjectValues)
    ensures Canonical(Array(m)) <==>
            |m| == Size(m) && Numbered(m) && forall i :: 0 <= i < |m| ==> Canonical(m[i].value)
  {
    hide Size;
    forall i | 0 <= i < |m|
      ensures Weight(m[i].value) < MapWeight(m)
    {
      MapWeightAt(m, i);
    }
  }

  lemma {:induction false} ArrayIsNormal(m: ObjectValues)
    requires WellFormed(Array(m)) && RealFree(Array(m))
    ensures Normalized(Array(m)) == Array(m) <==> Canonical(Array(m))
    decreases MapWeight(m), 2
  {
    hide WellFormed, RealFree, Canonical, Size, Element, NormalizedElements, MapWeight;
    EntriesAreNormal(Array(m), m);
    CanonicalArray(m);
    NormalizedElementsShape(m, 0, []);
    assert Normalized(Array(m)) == Array(NormalizedElements(m, 0, []));
    if Numbered(m) && |m| == Size(m) {
      NumberedIsSorted(m);
      var n := NormalizedElements(m, 0, []);
      hide Normalized;
      if Canonical(Array(m)) {
        assert forall i :: 0 <= i < |m| ==> n[i] == m[i];
        assert n == m;
      }
    }
  }

  // Objects: with valid keys, the normal form has the same keys in the same places.

  ghost predicate ValidKeys(m: ObjectValues) {
    forall i :: 0 <= i < |m| ==> m[i].key.Name? && ValidUtf8(m[i].key.name)
  }

  lemma KeyStays(k: CZString)
    requires k.Name? && ValidUtf8(k.name)
    ensures RepairedKey(k) == k
  {
    ValidIsKept(k.name);
  }

  lemma NextMember(m: ObjectValues, i: nat, acc: ObjectValues)
    requires i < |m|
    ensures NormalizedMembers(m, i, acc)
            == NormalizedMembers(m, i + 1, Assign(acc, RepairedKey(m[i].key), Normalized(m[i].value)))
  {
    hide Normalized, Assign, RepairedKey;
  }

  lemma {:induction false} NormalizedMembersShape(m: ObjectValues, i: nat, acc: ObjectValues)
    requires Sorted(m) && ValidKeys(m) && i <= |m| && |acc| == i
    requires forall k :: 0 <= k < i ==> acc[k].key == m[k].key
    ensures var n := NormalizedMembers(m, i, acc);
            && |n| == |m| && acc <= n
            && forall k :: i <= k < |m| ==> n[k] == Entry(m[k].key, Normalized(m[k].value))
    decreases |m| - i
  {
    hide Normalized, Repaired, ValidUtf8, KeyLess, NormalizedMembers, RepairedKey, Assign;
    if i < |m| {
      var e := Entry(m[i].key, Normalized(m[i].value));
      KeyStays(m[i].key);
      assert forall k :: 0 <= k < i ==> KeyLess(m[k].key, m[i].key);
      AssignLast(acc, e.key, e.value);
      NextMember(m, i, acc);
      NormalizedMembersShape(m, i + 1, acc + [e]);
      assert NormalizedMembers(m, i, acc)[i] == e;
    } else {
      NoMembers(m, i, acc);
    }
  }

  /** Every member of the normal form comes from one of the original members. */
  ghost predicate ComesFrom(m: ObjectValues, e: Entry) {
    exists j :: 0 <= j < |m| && e == Entry(RepairedKey(m[j].key), Normalized(m[j].value))
  }

  lemma {:induction false} MembersComeFrom(m: ObjectValues, i: nat, acc: ObjectValues)
    requires i <= |m| && Sorted(acc) && forall p :: 0 <= p < |acc| ==> ComesFrom(m, acc[p])
    ensures var n := NormalizedMembers(m, i, acc);
            Sorted(n) && forall p :: 0 <= p < |n| ==> ComesFrom(m, n[p])
    decreases |m| - i
  {
    hide Normalized, RepairedKey, Sorted;
    if i < |m| {
      var k, v := RepairedKey(m[i].key), Normalized(m[i].value);
      var acc' := Assign(acc, k, v);
      AssignSorted(acc, k, v);
      forall p | 0 <= p < |acc'|
        ensures ComesFrom(m, acc'[p])
      {
        AssignAdds(acc, k, v, p);
      }
      NextMember(m, i, acc);
      MembersComeFrom(m, i + 1, acc');
    } else {
      NoMembers(m, i, acc);
    }
  }

  lemma TwiceRepairedKey(k: CZString)
    ensures ValidUtf8(RepairedKey(RepairedKey(k)).name)
  {
    TwiceRepairedIsValid(KeyName(k));
  }

  /** An object that is its own normal form has valid keys: each is a key repaired twice. */
  lemma NormalKeys(m: ObjectValues)
    requires NormalizedMembers(m, 0, []) == m
    ensures ValidKeys(m)
  {
    hide NormalizedMembers, Normalized, ValidUtf8, Repaired;
    MembersComeFrom(m, 0, []);
    forall i | 0 <= i < |m|
      ensures m[i].key.Name? && ValidUtf8(m[i].key.name)
    {
      assert ComesFrom(m, m[i]);
      var j :| 0 <= j < |m| && m[i] == Entry(RepairedKey(m[j].key), Normalized(m[j].value));
      assert ComesFrom(m, m[j]);
      var l :| 0 <= l < |m| && m[j] == Entry(RepairedKey(m[l].key), Normalized(m[l].value));
      TwiceRepairedKey(m[l].key);
    }
  }

  lemma CanonicalObject(m: ObjectValues)
    requires WellFormed(Object(m))
    ensures Canonical(Object(m)) <==> ValidKeys(m) && forall i :: 0 <= i < |m| ==> Canonical(m[i].value)
  {
    hide ValidUtf8;
    forall i | 0 <= i < |m|
      ensures Weight(m[i].value) < MapWeight(m)
    {
      MapWeightAt(m, i);
    }
  }

  lemma {:induction false} ObjectIsNormal(m: ObjectValues)
    requires WellFormed(Object(m)) && RealFree(Object(m))
    ensures Normalized(Object(m)) == Object(m) <==> Canonical(Object(m))
    decreases MapWeight(m), 2
  {
    hide RealFree, Canonical, NormalizedMembers, MapWeight;
    EntriesAreNormal(Object(m), m);
    CanonicalObject(m);
    var n := NormalizedMembers(m, 0, []);
    assert Normalized(Object(m)) == Object(n);
    hide Normalized;
    if n == m {
      NormalKeys(m);
    }
    if ValidKeys(m) {
      NormalizedMembersShape(m, 0, []);
      if Canonical(Object(m)) {
        assert forall i :: 0 <= i < |m| ==> n[i] == m[i];
        assert n == m;
      }
    }
  }

  lemma {:induction false} NormalIsCanonical(v: Value)
    requires WellFormed(v) && RealFree(v)
    ensures Normalized(v) == v <==> Canonical(v)
    decreases Weight(v), 0
  {
    match v
    case String(s) =>
      if ValidUtf8(s) {
        ValidIsKept(s);
      }
      if Repaired(s) == s {
        KeptIsValid(s);
      }
    case Array(m) => ArrayIsNormal(m);
    case Object(m) => ObjectIsNormal(m);
    case _ =>
  }

  /** The document round trip is exact, that is `parse` returns true with the very value that was
      written, for these values and no others. */
  lemma RoundTripIsExact(scan: RealScanner, pr: RealPrinter, v: Value, old_: Value)
    requires WellFormed(v) && RealFree(v)
    ensures ReadDocument(scan, WrittenDocument(pr, v), old_) == Parsed(true, v, [])
            <==> (v.Array? || v.Object?) && Depth(v) <= 1000 && Canonical(v)
  {
    hide WellFormed, RealFree, Written, Depth, ReadDocument, Normalized, Canonical;
    DocumentRoundTrip(scan, pr, v, old_);
    NormalIsCanonical(v);
  }

  /** The same, for the writer and the reader themselves: any writer, any reader, whatever it parsed
      before and whatever the root held. */
  method WriteThenParse(writer: FastWriter, reader: JsonReader.Reader, v: Value, root: Value)
    returns (outcome: JsonReader.Outcome, root': Value)
    requires WellFormed(v) && RealFree(v)
    modifies writer, reader
    ensures outcome == JsonReader.Returned(true) && root' == v
            <==> (v.Array? || v.Object?) && Depth(v) <= 1000 && Canonical(v)
    ensures outcome.Returned? ==> root' == Normalized(v) && (outcome.ok <==> v.Array? || v.Object?)
    ensures outcome.Thrown? <==> Depth(v) > 1000
  {
    hide WellFormed, RealFree, Written, Depth, ReadDocument, Normalized, Canonical;
    var text := writer.Write(v);
    outcome, root' := reader.Parse(text, root);
    DocumentRoundTrip(reader.scanReal, writer.printReal, v, root);
    NormalIsCanonical(v);
  }
}
