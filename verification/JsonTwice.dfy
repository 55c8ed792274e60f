/** Two trips through the writer and the reader are enough: from then on nothing changes. */
module JsonTwice {
  import opened Bytes
  import opened Utf8
  import opened JsonValue
  import opened JsonMap
  import opened JsonArray
  import opened JsonTree
  import opened JsonNumber
  import opened JsonStringLaws
  import opened JsonRepair
  import opened JsonWriter
  import opened JsonNormal
  import opened JsonCanonical

  /** What is known of a string after so many trips. */
  ghost predicate CleanString(s: bytes, trips: nat) {
    match trips
    case 0 => true
    case 1 => LooseUtf8(s)
    case _ => ValidUtf8(s)
  }

  lemma RepairCleans(s: bytes, trips: nat)
    requires CleanString(s, trips) && trips < 2
    ensures CleanString(Repaired(s), trips + 1)
  {
    hide LooseUtf8, ValidUtf8, Repaired;
    RepairedIsLoose(s);
    if trips == 1 {
      LooseIsRepairedToValid(s);
    }
  }

  /** A value all of whose strings and keys are that clean and which, after a first trip, has no gaps
      and only integers in the reader's form. */
  ghost predicate Clean(v: Value, trips: nat)
    decreases Weight(v)
  {
    match v
    case Int(i) => trips > 0 ==> i <= MAX_INT
    case UInt(u) => trips > 0 ==> u > MAX_INT
    case String(s) => CleanString(s, trips)
    case Array(m) =>
      && (trips > 0 ==> Numbered(m))
      && forall i :: 0 <= i < |m| ==> (MapWeightAt(m, i); Clean(m[i].value, trips))
    case Object(m) =>
      forall i :: 0 <= i < |m| ==> (MapWeightAt(m, i); CleanString(KeyName(m[i].key), trips)
        && Clean(m[i].value, trips))
    case _ => true
  }

  ghost predicate Good(v: Value, trips: nat) {
    WellFormed(v) && RealFree(v) && Clean(v, trips)
  }

  lemma GoodArray(m: ObjectValues, trips: nat)
    ensures Good(Array(m), trips) <==>
            && IndexMap(m) && (trips > 0 ==> Numbered(m))
            && forall i :: 0 <= i < |m| ==> Good(m[i].value, trips)
  {
    hide IndexMap, Numbered;
    forall i | 0 <= i < |m|
      ensures Weight(m[i].value) < MapWeight(m)
    {
      MapWeightAt(m, i);
    }
  }

  lemma GoodObject(m: ObjectValues, trips: nat)
    ensures Good(Object(m), trips) <==>
            && NameMap(m)
            && forall i :: 0 <= i < |m| ==> CleanString(KeyName(m[i].key), trips) && Good(m[i].value, trips)
  {
    hide NameMap, CleanString;
    forall i | 0 <= i < |m|
      ensures Weight(m[i].value) < MapWeight(m)
    {
      MapWeightAt(m, i);
    }
  }

  lemma NullIsGood(trips: nat)
    ensures Good(Null, trips)
  {
  }

  lemma GoodElement(m: ObjectValues, i: nat, trips: nat)
    requires Good(Array(m), trips)
    ensures Good(Element(m, i), trips)
  {
    hide Good, LowerBound, IndexMap, Numbered;
    GoodArray(m, trips);
    if Present(m, i) {
      assert Element(m, i) == m[Find(m, Index(i))].value;
    } else {
      NullIsGood(trips);
    }
  }

  lemma {:induction false} TripCleansArray(m: ObjectValues, trips: nat)
    requires Good(Array(m), trips) && trips < 2
    ensures Good(Normalized(Array(m)), trips + 1)
    decreases MapWeight(m), 1
  {
    hide Good, Size, Element, NormalizedElements, MapWeight, Weight;
    var n := NormalizedElements(m, 0, []);
    assert Normalized(Array(m)) == Array(n);
    NormalizedElementsShape(m, 0, []);
    NumberedIsSorted(n);
    forall i | 0 <= i < |n|
      ensures Good(n[i].value, trips + 1)
    {
      ElementWeight(m, i);
      GoodElement(m, i, trips);
      TripCleans(Element(m, i), trips);
    }
    GoodArray(n, trips + 1);
  }

  lemma {:induction false} TripCleansObject(m: ObjectValues, trips: nat)
    requires Good(Object(m), trips) && trips < 2
    ensures Good(Normalized(Object(m)), trips + 1)
    decreases MapWeight(m), 1
  {
    hide Good, NormalizedMembers, MapWeight, Weight, CleanString;
    var n := NormalizedMembers(m, 0, []);
    assert Normalized(Object(m)) == Object(n);
    hide Normalized;
    GoodObject(m, trips);
    MembersComeFrom(m, 0, []);
    forall p | 0 <= p < |n|
      ensures n[p].key.Name? && CleanString(KeyName(n[p].key), trips + 1) && Good(n[p].value, trips + 1)
    {
      assert ComesFrom(m, n[p]);
      var j :| 0 <= j < |m| && n[p] == Entry(RepairedKey(m[j].key), Normalized(m[j].value));
      MapWeightAt(m, j);
      RepairCleans(KeyName(m[j].key), trips);
      TripCleans(m[j].value, trips);
    }
    GoodObject(n, trips + 1);
  }

  lemma {:induction false} TripCleans(v: Value, trips: nat)
    requires Good(v, trips) && trips < 2
    ensures Good(Normalized(v), trips + 1)
    decreases Weight(v)
  {
    match v
    case Array(m) => TripCleansArray(m, trips);
    case Object(m) => TripCleansObject(m, trips);
    case String(s) => RepairCleans(s, trips);
    case _ =>
  }

  lemma {:induction false} CleanIsCanonical(v: Value)
    requires Clean(v, 2)
    ensures Canonical(v)
    decreases Weight(v)
  {
    if v.Array? || v.Object? {
      forall i | 0 <= i < |v.map_|
        ensures Canonical(v.map_[i].value)
      {
        MapWeightAt(v.map_, i);
        CleanIsCanonical(v.map_[i].value);
      }
    }
  }

  /** After two trips a value of any kind is canonical, so a third one changes nothing. */
  lemma TwoTripsAreEnough(v: Value)
    requires WellFormed(v) && RealFree(v)
    ensures var w := Normalized(Normalized(v)); WellFormed(w) && RealFree(w) && Canonical(w) && Normalized(w) == w
  {
    hide WellFormed, RealFree, Normalized, Canonical;
    EverythingIsClean(v);
    TripCleans(v, 0);
    TripCleans(Normalized(v), 1);
    CleanIsCanonical(Normalized(Normalized(v)));
    NormalIsCanonical(Normalized(Normalized(v)));
  }

  lemma {:induction false} EverythingIsClean(v: Value)
    ensures Clean(v, 0)
    decreases Weight(v)
  {
    if v.Array? || v.Object? {
      forall i | 0 <= i < |v.map_|
        ensures Clean(v.map_[i].value, 0)
      {
        MapWeightAt(v.map_, i);
        EverythingIsClean(v.map_[i].value);
      }
    }
  }
}
