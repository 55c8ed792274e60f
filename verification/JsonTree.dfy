/** Facts about whole trees of values: what the C++ types guarantee, and what makes recursion on a
    tree terminate. */
module JsonTree {
  import opened Bytes
  import opened JsonValue
  import opened JsonMap
  import opened JsonArray

  lemma {:induction false} MapWeightAt(m: ObjectValues, i: nat)
    requires i < |m|
    ensures Weight(m[i].value) < MapWeight(m)
  {
    if i > 0 {
      MapWeightAt(m[1..], i - 1);
    }
  }

  lemma ElementWeight(m: ObjectValues, i: nat)
    requires i < Size(m)
    ensures Weight(Element(m, i)) < MapWeight(m)
  {
    hide Find;
    if Present(m, i) {
      MapWeightAt(m, Find(m, Index(i)));
    } else {
      MapWeightAt(m, 0);
    }
  }

  ghost predicate NameMap(m: ObjectValues) {
    Sorted(m) && forall i :: 0 <= i < |m| ==> m[i].key.Name?
  }

  /** What the C++ types guarantee of every value: 64-bit integers, sorted maps, keys of one kind. */
  ghost predicate WellFormed(v: Value)
    decreases Weight(v)
  {
    match v
    case Int(i) => -0x8000_0000_0000_0000 <= i <= 0x7FFF_FFFF_FFFF_FFFF
    case UInt(u) => u <= 0xFFFF_FFFF_FFFF_FFFF
    case Array(m) => IndexMap(m) && forall i :: 0 <= i < |m| ==> (MapWeightAt(m, i); WellFormed(m[i].value))
    case Object(m) => NameMap(m) && forall i :: 0 <= i < |m| ==> (MapWeightAt(m, i); WellFormed(m[i].value))
    case _ => true
  }

  /** The members of an object, which are printed one after the other, stand in the dictionary order of
      their names. */
  lemma MembersInOrder(m: ObjectValues, i: nat, j: nat)
    requires WellFormed(Object(m)) && i < j < |m|
    ensures m[i].key.Name? && m[j].key.Name?
    ensures exists k :: DiffersAt(m[i].key.name, m[j].key.name, k)
  {
    hide KeyLess, DiffersAt;
    KeysInOrder(m[i].key.name, m[j].key.name, 0, 0);
  }

  lemma WellFormedElement(m: ObjectValues, i: nat)
    requires WellFormed(Array(m))
    ensures WellFormed(Element(m, i))
  {
    hide LowerBound;
    if Present(m, i) {
      assert Element(m, i) == m[Find(m, Index(i))].value;
    }
  }

  lemma WellFormedMember(m: ObjectValues, i: nat)
    requires WellFormed(Object(m)) && i < |m|
    ensures m[i].key.Name? && WellFormed(m[i].value)
    ensures Lookup(m, m[i].key) == m[i].value
    ensures Weight(m[i].value) < MapWeight(m)
  {
    LookupEntry(m, i);
    MapWeightAt(m, i);
  }
}
