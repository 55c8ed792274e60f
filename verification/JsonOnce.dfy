/** Which values need only one trip through the writer and the reader to become canonical. */
module JsonOnce {
  import opened Bytes
  import opened Utf8
  import opened JsonValue
  import opened JsonMap
  import opened JsonArray
  import opened JsonTree
  import opened JsonStringLaws
  import opened JsonRepair
  import opened JsonWriter
  import opened JsonNormal
  import opened JsonRoundTrip
  import opened JsonCanonical
  import opened JsonTwice

  /** A later member has the same key once both keys are repaired, so that this one's value is lost. */
  ghost predicate Overwritten(m: ObjectValues, i: nat, n: nat)
    requires i < |m| && n <= |m|
  {
    exists j :: i < j < n && RepairedKey(m[j].key) == RepairedKey(m[i].key)
  }

  /** Every string and every key decodes within Unicode, but for the values that are lost. */
  ghost predicate OneTrip(v: Value)
    decreases Weight(v)
  {
    match v
    case String(s) => WithinUnicode(s)
    case Array(m) => forall i :: 0 <= i < |m| ==> (MapWeightAt(m, i); OneTrip(m[i].value))
    case Object(m) =>
      forall i :: 0 <= i < |m| ==>
        (MapWeightAt(m, i);
         WithinUnicode(KeyName(m[i].key)) && (Overwritten(m, i, |m|) || OneTrip(m[i].value)))
    case _ => true
  }

  /** No two keys of any object in the tree coincide once they are repaired. */
  ghost predicate KeysApart(v: Value)
    decreases Weight(v)
  {
    (v.Array? || v.Object? ==> forall i :: 0 <= i < |v.map_| ==> (MapWeightAt(v.map_, i); KeysApart(v.map_[i].value)))
    && (v.Object? ==> forall i :: 0 <= i < |v.map_| ==> !Overwritten(v.map_, i, |v.map_|))
  }

  /** Every string and every key decodes within Unicode. */
  ghost predicate TreeWithinUnicode(v: Value)
    decreases Weight(v)
  {
    match v
    case String(s) => WithinUnicode(s)
    case Array(m) => forall i :: 0 <= i < |m| ==> (MapWeightAt(m, i); TreeWithinUnicode(m[i].value))
    case Object(m) =>
      forall i :: 0 <= i < |m| ==>
        (MapWeightAt(m, i); WithinUnicode(KeyName(m[i].key)) && TreeWithinUnicode(m[i].value))
    case _ => true
  }

  // ---- What an object's normal form holds ----

  function NormalEntry(e: Entry): Entry {
    Entry(RepairedKey(e.key), Normalized(e.value))
  }

  /** Of the first `i` members, `acc` holds exactly those that no later one of them overwrites. */
  ghost predicate HoldsLast(m: ObjectValues, i: nat, acc: ObjectValues)
    requires i <= |m|
  {
    && Sorted(acc)
    && (forall j :: 0 <= j < i && !Overwritten(m, j, i) ==>
          Has(acc, RepairedKey(m[j].key)) && Lookup(acc, RepairedKey(m[j].key)) == Normalized(m[j].value))
    && (forall p :: 0 <= p < |acc| ==>
          exists j :: 0 <= j < i && !Overwritten(m, j, i) && acc[p] == NormalEntry(m[j]))
  }

  lemma AssignHoldsLast(m: ObjectValues, i: nat, acc: ObjectValues)
    requires i < |m| && HoldsLast(m, i, acc)
    ensures HoldsLast(m, i + 1, Assign(acc, RepairedKey(m[i].key), Normalized(m[i].value)))
  {
    hide Assign, Lookup, Has, Sorted, RepairedKey, Normalized;
    var k, v := RepairedKey(m[i].key), Normalized(m[i].value);
    var next := Assign(acc, k, v);
    AssignSorted(acc, k, v);
    forall j | 0 <= j < i + 1 && !Overwritten(m, j, i + 1)
      ensures Has(next, RepairedKey(m[j].key)) && Lookup(next, RepairedKey(m[j].key)) == Normalized(m[j].value)
    {
      AssignLookup(acc, k, v, RepairedKey(m[j].key));
    }
    forall p | 0 <= p < |next|
      ensures exists j :: 0 <= j < i + 1 && !Overwritten(m, j, i + 1) && next[p] == NormalEntry(m[j])
    {
      EntryOfAssign(m, i, acc, p);
    }
  }

  lemma HeldIsSorted(m: ObjectValues, i: nat, acc: ObjectValues)
    requires i <= |m| && HoldsLast(m, i, acc)
    ensures Sorted(acc)
  {
  }

  lemma HeldFrom(m: ObjectValues, i: nat, acc: ObjectValues, p: nat)
    requires i <= |m| && HoldsLast(m, i, acc) && p < |acc|
    ensures exists j :: 0 <= j < i && !Overwritten(m, j, i) && acc[p] == NormalEntry(m[j])
  {
    hide Overwritten, Sorted, Has, Lookup, RepairedKey, NormalEntry;
    var e := acc[p];
    assert exists j :: 0 <= j < i && !Overwritten(m, j, i) && e == NormalEntry(m[j]);
  }

  lemma NewestIsLast(m: ObjectValues, i: nat)
    requires i < |m|
    ensures !Overwritten(m, i, i + 1)
  {
  }

  lemma StillLast(m: ObjectValues, j: nat, i: nat)
    requires j < i < |m| && !Overwritten(m, j, i) && RepairedKey(m[i].key) != RepairedKey(m[j].key)
    ensures !Overwritten(m, j, i + 1)
  {
    hide RepairedKey;
  }

  lemma EntryOfAssign(m: ObjectValues, i: nat, acc: ObjectValues, p: nat)
    requires i < |m| && HoldsLast(m, i, acc) && p < |Assign(acc, RepairedKey(m[i].key), Normalized(m[i].value))|
    ensures var next := Assign(acc, RepairedKey(m[i].key), Normalized(m[i].value));
            exists j :: 0 <= j < i + 1 && !Overwritten(m, j, i + 1) && next[p] == NormalEntry(m[j])
  {
    hide Assign, Lookup, Has, Sorted, RepairedKey, Normalized, HoldsLast, Overwritten;
    var k, v := RepairedKey(m[i].key), Normalized(m[i].value);
    var next := Assign(acc, k, v);
    HeldIsSorted(m, i, acc);
    AssignSorted(acc, k, v);
    LookupEntry(next, p);
    AssignLookup(acc, k, v, next[p].key);
    if next[p].key == k {
      assert next[p] == NormalEntry(m[i]);
      NewestIsLast(m, i);
    } else {
      AssignAdds(acc, k, v, p);
      var x :| 0 <= x < |acc| && acc[x] == next[p];
      HeldFrom(m, i, acc, x);
      var j :| 0 <= j < i && !Overwritten(m, j, i) && acc[x] == NormalEntry(m[j]);
      StillLast(m, j, i);
    }
  }

  lemma {:induction false} MembersHoldLast(m: ObjectValues, i: nat, acc: ObjectValues)
    requires i <= |m| && HoldsLast(m, i, acc)
    ensures HoldsLast(m, |m|, NormalizedMembers(m, i, acc))
    decreases |m| - i
  {
    hide HoldsLast, Assign, Normalized, NormalizedMembers, RepairedKey;
    if i < |m| {
      AssignHoldsLast(m, i, acc);
      NextMember(m, i, acc);
      MembersHoldLast(m, i + 1, Assign(acc, RepairedKey(m[i].key), Normalized(m[i].value)));
    } else {
      NoMembers(m, i, acc);
    }
  }

  // ---- The condition is exact ----

  lemma OneTripArray(m: ObjectValues)
    ensures OneTrip(Array(m)) <==> forall i :: 0 <= i < |m| ==> OneTrip(m[i].value)
  {
    forall i | 0 <= i < |m|
      ensures Weight(m[i].value) < MapWeight(m)
    {
      MapWeightAt(m, i);
    }
  }

  lemma OneTripObject(m: ObjectValues)
    ensures OneTrip(Object(m)) <==>
            forall i :: 0 <= i < |m| ==>
              WithinUnicode(KeyName(m[i].key)) && (Overwritten(m, i, |m|) || OneTrip(m[i].value))
  {
    hide WithinUnicode, Overwritten;
    forall i | 0 <= i < |m|
      ensures Weight(m[i].value) < MapWeight(m)
    {
      MapWeightAt(m, i);
    }
  }

  /** The entry at `i` is the element at its own index. */
  lemma EntryIsElement(m: ObjectValues, i: nat)
    requires IndexMap(m) && i < |m|
    ensures m[i].key.index < Size(m) && Element(m, m[i].key.index) == m[i].value
  {
    LookupEntry(m, i);
    hide LowerBound, Sorted;
    SizeBounds(m, m[i].key.index);
  }

  lemma ElementOrNull(m: ObjectValues, k: nat)
    ensures Element(m, k) == Null || exists i :: 0 <= i < |m| && m[i].value == Element(m, k)
  {
    hide LowerBound;
    if Present(m, k) {
      assert m[Find(m, Index(k))].value == Element(m, k);
    }
  }

  lemma {:induction false} ArrayOnce(m: ObjectValues)
    requires WellFormed(Array(m)) && RealFree(Array(m))
    ensures Canonical(Normalized(Array(m))) <==> OneTrip(Array(m))
    decreases MapWeight(m), 2
  {
    hide Normalized, Canonical, OneTrip, Element, Size, NormalizedElements, MapWeight, IndexMap;
    var n := NormalizedElements(m, 0, []);
    NormalArray(m);
    NormalizedElementsShape(m, 0, []);
    NumberedIsSorted(n);
    CanonicalArray(n);
    OneTripArray(m);
    EntriesOnce(Array(m), m);
    forall k | 0 <= k < |n|
      ensures OneTrip(Array(m)) ==> Canonical(n[k].value)
    {
      ElementOrNull(m, k);
      NullIsCanonical();
    }
    forall i | 0 <= i < |m|
      ensures Canonical(Array(n)) ==> OneTrip(m[i].value)
    {
      ArrayHasIndices(m);
      EntryIsElement(m, i);
      assert n[m[i].key.index].value == Normalized(m[i].value);
    }
  }

  lemma NullIsCanonical()
    ensures Canonical(Normalized(Null))
  {
  }

  lemma ArrayHasIndices(m: ObjectValues)
    requires WellFormed(Array(m))
    ensures IndexMap(m)
  {
  }

  lemma NormalArray(m: ObjectValues)
    ensures Normalized(Array(m)) == Array(NormalizedElements(m, 0, []))
  {
    hide NormalizedElements;
  }

  lemma NormalObject(m: ObjectValues)
    ensures Normalized(Object(m)) == Object(NormalizedMembers(m, 0, []))
  {
    hide NormalizedMembers;
  }

  lemma {:induction false} EntriesOnce(v: Value, m: ObjectValues)
    requires WellFormed(v) && RealFree(v) && (v == Array(m) || v == Object(m))
    ensures forall i :: 0 <= i < |m| ==> (Canonical(Normalized(m[i].value)) <==> OneTrip(m[i].value))
    decreases MapWeight(m), 1
  {
    forall i | 0 <= i < |m|
      ensures Canonical(Normalized(m[i].value)) <==> OneTrip(m[i].value)
    {
      hide Normalized, Canonical, OneTrip;
      MapWeightAt(m, i);
      OneTripIsEnough(m[i].value);
    }
  }

  lemma NormalIsWellFormed(v: Value)
    requires WellFormed(v) && RealFree(v)
    ensures WellFormed(Normalized(v))
  {
    hide WellFormed, RealFree, Normalized, Clean;
    EverythingIsClean(v);
    TripCleans(v, 0);
  }

  lemma RepairedKeyIsValid(k: CZString)
    ensures ValidUtf8(RepairedKey(k).name) <==> WithinUnicode(KeyName(k))
  {
    OnceRepairedIsValid(KeyName(k));
  }

  /** The last member with the repaired key of member `i` is not overwritten. */
  lemma LastWithKey(m: ObjectValues, i: nat) returns (j: nat)
    requires i < |m|
    ensures i <= j < |m| && RepairedKey(m[j].key) == RepairedKey(m[i].key) && !Overwritten(m, j, |m|)
    decreases |m| - i
  {
    hide RepairedKey;
    if Overwritten(m, i, |m|) {
      var k :| i < k < |m| && RepairedKey(m[k].key) == RepairedKey(m[i].key);
      j := LastWithKey(m, k);
    } else {
      j := i;
    }
  }

  /** A member that is not overwritten is in the normal form. */
  lemma LastIsThere(m: ObjectValues, n: ObjectValues, j: nat) returns (p: nat)
    requires HoldsLast(m, |m|, n) && j < |m| && !Overwritten(m, j, |m|)
    ensures p < |n| && n[p] == NormalEntry(m[j])
  {
    hide LowerBound, RepairedKey, Normalized, Overwritten, Sorted;
    p := Find(n, RepairedKey(m[j].key));
  }

  lemma HeldEntry(m: ObjectValues, n: ObjectValues, p: nat)
    requires HoldsLast(m, |m|, n) && p < |n|
    ensures exists j :: 0 <= j < |m| && !Overwritten(m, j, |m|) && n[p] == NormalEntry(m[j])
  {
    hide NormalEntry, Overwritten, Sorted, Lookup, Has;
    var e := n[p];
  }

  lemma EntryOnce(m: ObjectValues, n: ObjectValues, p: nat)
    requires HoldsLast(m, |m|, n) && p < |n| && OneTrip(Object(m))
    requires forall i :: 0 <= i < |m| ==> (Canonical(Normalized(m[i].value)) <==> OneTrip(m[i].value))
    ensures n[p].key.Name? && ValidUtf8(n[p].key.name) && Canonical(n[p].value)
  {
    hide Normalized, Canonical, OneTrip, Overwritten, Sorted, Lookup, Has, WithinUnicode, ValidUtf8, Repaired;
    OneTripObject(m);
    HeldEntry(m, n, p);
    var j :| 0 <= j < |m| && !Overwritten(m, j, |m|) && n[p] == NormalEntry(m[j]);
    RepairedKeyIsValid(m[j].key);
  }

  lemma MemberOnce(m: ObjectValues, n: ObjectValues, i: nat)
    requires HoldsLast(m, |m|, n) && i < |m| && ValidKeys(n)
    requires forall p :: 0 <= p < |n| ==> Canonical(n[p].value)
    requires forall i :: 0 <= i < |m| ==> (Canonical(Normalized(m[i].value)) <==> OneTrip(m[i].value))
    ensures WithinUnicode(KeyName(m[i].key)) && (Overwritten(m, i, |m|) || OneTrip(m[i].value))
  {
    hide HoldsLast, Normalized, Canonical, OneTrip, Overwritten, WithinUnicode, ValidUtf8, Repaired;
    var j := LastWithKey(m, i);
    var p := LastIsThere(m, n, j);
    RepairedKeyIsValid(m[i].key);
    if !Overwritten(m, i, |m|) {
      var q := LastIsThere(m, n, i);
    }
  }

  lemma {:induction false} ObjectOnce(m: ObjectValues)
    requires WellFormed(Object(m)) && RealFree(Object(m))
    ensures Canonical(Normalized(Object(m))) <==> OneTrip(Object(m))
    decreases MapWeight(m), 2
  {
    hide WellFormed, RealFree, Normalized, Canonical, OneTrip, NormalizedMembers, MapWeight, HoldsLast, Overwritten,
      WithinUnicode;
    var n := NormalizedMembers(m, 0, []);
    NothingHeld(m);
    MembersHoldLast(m, 0, []);
    NormalObject(m);
    NormalIsWellFormed(Object(m));
    CanonicalObject(n);
    OneTripObject(m);
    EntriesOnce(Object(m), m);
    if OneTrip(Object(m)) {
      forall p | 0 <= p < |n|
        ensures n[p].key.Name? && ValidUtf8(n[p].key.name) && Canonical(n[p].value)
      {
        EntryOnce(m, n, p);
      }
    }
    if Canonical(Object(n)) {
      forall i | 0 <= i < |m|
        ensures WithinUnicode(KeyName(m[i].key)) && (Overwritten(m, i, |m|) || OneTrip(m[i].value))
      {
        MemberOnce(m, n, i);
      }
    }
  }

  lemma NothingHeld(m: ObjectValues)
    ensures HoldsLast(m, 0, [])
  {
  }

  /** One trip through writer and reader is enough for exactly these values: every string and every key
      decodes within Unicode, but for what hangs under a key that a later member takes over. */
  lemma {:induction false} OneTripIsEnough(v: Value)
    requires WellFormed(v) && RealFree(v)
    ensures Canonical(Normalized(v)) <==> OneTrip(v)
    decreases Weight(v), 0
  {
    match v
    case String(s) => OnceRepairedIsValid(s);
    case Array(m) => ArrayOnce(m);
    case Object(m) => ObjectOnce(m);
    case _ =>
  }

  lemma {:induction false} ApartMeansAll(v: Value)
    requires KeysApart(v)
    ensures OneTrip(v) <==> TreeWithinUnicode(v)
    decreases Weight(v)
  {
    hide WithinUnicode, Overwritten, KeyName;
    if v.Array? || v.Object? {
      forall i | 0 <= i < |v.map_|
        ensures Weight(v.map_[i].value) < Weight(v)
        ensures OneTrip(v.map_[i].value) <==> TreeWithinUnicode(v.map_[i].value)
      {
        MapWeightAt(v.map_, i);
        ApartMeansAll(v.map_[i].value);
      }
    }
  }

  /** Where no two keys of an object coincide once repaired, one trip is enough exactly when every string
      and every key decodes within Unicode. */
  lemma OneTripWithoutCollisions(v: Value)
    requires WellFormed(v) && RealFree(v) && KeysApart(v)
    ensures Canonical(Normalized(v)) <==> TreeWithinUnicode(v)
  {
    hide WellFormed, RealFree, Normalized, Canonical, OneTrip, TreeWithinUnicode, KeysApart;
    OneTripIsEnough(v);
    ApartMeansAll(v);
  }

  const BEYOND_UNICODE: bytes := [0xF7, 0xBF, 0xBF, 0xBF]

  /** For instance these four bytes, which decode to 0x1FFFFF. */
  lemma OneTripIsNotEnough()
    ensures !WithinUnicode(BEYOND_UNICODE) && !Canonical(Normalized(String(BEYOND_UNICODE)))
  {
    hide Canonical;
    assert Utf8ToCodepoint(BEYOND_UNICODE) == Decoded(0x1FFFFF, 3);
    OneTripIsEnough(String(BEYOND_UNICODE));
  }
}
