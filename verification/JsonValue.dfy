/** JSON values, the ordered maps they hold, and the comparison operators. */
module JsonValue {
  import opened Bytes

  /** A C `double`, without telling the two zeros apart. */
  datatype Double = NaN | NegativeInfinity | Finite(r: real) | PositiveInfinity

  /** A map key: an array index or a member name. One map never mixes the two. */
  datatype CZString = Index(index: nat) | Name(name: bytes)

  datatype Entry = Entry(key: CZString, value: Value)

  /** The contents of a `std::map<CZString, Value>`, in iteration order. */
  type ObjectValues = seq<Entry>

  datatype Value =
    | Null
    | Int(i: int)
    | UInt(u: nat)
    | Real(d: Double)
    | String(s: bytes)
    | Bool(b: bool)
    | Array(map_: ObjectValues)
    | Object(map_: ObjectValues)
  {
    /** The source's `ValueType` code. */
    function Type(): nat {
      match this
      case Null => 0
      case Int(_) => 1
      case UInt(_) => 2
      case Real(_) => 3
      case String(_) => 4
      case Bool(_) => 5
      case Array(_) => 6
      case Object(_) => 7
    }
  }

  // ---- Keys ----

  predicate KeyLess(a: CZString, b: CZString) {
    match (a, b)
    case (Index(i), Index(j)) => i < j
    case (Name(s), Name(t)) => BytesLess(s, t)
    case (Index(_), Name(_)) => true
    case (Name(_), Index(_)) => false
  }

  lemma KeyOrder(a: CZString, b: CZString, c: CZString)
    ensures !KeyLess(a, a)
    ensures !(KeyLess(a, b) && KeyLess(b, a))
    ensures !KeyLess(a, b) && !KeyLess(b, a) <==> a == b
    ensures KeyLess(a, b) && KeyLess(b, c) ==> KeyLess(a, c)
  {
    hide BytesLess;
    var s := if a.Name? then a.name else [];
    var t := if b.Name? then b.name else [];
    BytesOrder(s, t, if c.Name? then c.name else []);
  }

  /** Names stand in dictionary order, indices in numerical order. */
  lemma KeysInOrder(s: bytes, t: bytes, i: nat, j: nat)
    ensures KeyLess(Name(s), Name(t)) <==> exists k :: DiffersAt(s, t, k)
    ensures KeyLess(Index(i), Index(j)) <==> i < j
  {
    hide BytesLess, DiffersAt;
    FirstDifference(s, t);
  }

  // ---- Comparison ----

  /** The number of values in a tree. */
  function Weight(v: Value): nat {
    if v.Array? || v.Object? then 1 + MapWeight(v.map_) else 1
  }

  function EntryWeight(e: Entry): (w: nat)
    ensures w == Weight(e.value)
  {
    Weight(e.value)
  }

  function MapWeight(m: ObjectValues): nat {
    if m == [] then 0 else 1 + EntryWeight(m[0]) + MapWeight(m[1..])
  }

  predicate DoubleLess(x: Double, y: Double) {
    match (x, y)
    case (Finite(r), Finite(q)) => r < q
    case (NegativeInfinity, Finite(_)) => true
    case (NegativeInfinity, PositiveInfinity) => true
    case (Finite(_), PositiveInfinity) => true
    case _ => false
  }

  predicate DoubleEqual(x: Double, y: Double) {
    !x.NaN? && !y.NaN? && x == y
  }

  /** `operator<`. The difference of the two sizes is truncated to a 32-bit `int`. */
  predicate Less(a: Value, b: Value)
    decreases Weight(a) + Weight(b), 0
  {
    var typeDelta := a.Type() - b.Type();
    if typeDelta != 0 then typeDelta < 0
    else
      match a
      case Null => false
      case Int(i) => i < b.i
      case UInt(u) => u < b.u
      case Real(d) => DoubleLess(d, b.d)
      case Bool(x) => !x && b.b
      case String(s) => BytesLess(s, b.s)
      case _ =>
        var delta := ToInt32(|a.map_| - |b.map_|);
        if delta != 0 then delta < 0 else MapLess(a.map_, b.map_)
  }

  /** `std::lexicographical_compare` over key-value pairs. */
  predicate MapLess(x: ObjectValues, y: ObjectValues)
    decreases MapWeight(x) + MapWeight(y), 1
  {
    if y == [] then false
    else if x == [] then true
    else if EntryLess(x[0], y[0]) then true
    else if EntryLess(y[0], x[0]) then false
    else MapLess(x[1..], y[1..])
  }

  predicate EntryLess(p: Entry, q: Entry)
    decreases Weight(p.value) + Weight(q.value), 1
  {
    KeyLess(p.key, q.key) || (!KeyLess(q.key, p.key) && Less(p.value, q.value))
  }

  /** `operator==`. */
  predicate Equals(a: Value, b: Value)
    decreases Weight(a)
  {
    if a.Type() != b.Type() then false
    else
      match a
      case Null => true
      case Int(i) => i == b.i
      case UInt(u) => u == b.u
      case Real(d) => DoubleEqual(d, b.d)
      case Bool(x) => x == b.b
      case String(s) => |s| == |b.s| && MemCmp(s, b.s) == 0
      case _ => |a.map_| == |b.map_| && MapEquals(a.map_, b.map_)
  }

  predicate MapEquals(x: ObjectValues, y: ObjectValues)
    requires |x| == |y|
    decreases MapWeight(x)
  {
    x == []
    || (x[0].key == y[0].key && Equals(x[0].value, y[0].value) && MapEquals(x[1..], y[1..]))
  }

  function Compare(a: Value, b: Value): int {
    if Less(a, b) then -1
    else if Less(b, a) then 1
    else 0
  }
}

/** The order on JSON values. */
module JsonOrder {
  import opened Bytes
  import opened JsonValue

  /** No NaN anywhere, and every container has fewer than 2^31 members. */
  predicate Comparable(v: Value)
    decreases Weight(v)
  {
    match v
    case Real(d) => !d.NaN?
    case Array(m) => |m| < 0x8000_0000 && MapComparable(m)
    case Object(m) => |m| < 0x8000_0000 && MapComparable(m)
    case _ => true
  }

  predicate MapComparable(m: ObjectValues)
    decreases MapWeight(m)
  {
    m == [] || (Comparable(m[0].value) && MapComparable(m[1..]))
  }

  lemma SmallDelta(m: nat, n: nat)
    requires m < 0x8000_0000 && n < 0x8000_0000
    ensures ToInt32(m - n) == m - n
  {
  }

  lemma ContainerParts(a: Value)
    requires Comparable(a) && a.Type() >= 6
    ensures MapComparable(a.map_) && |a.map_| < 0x8000_0000
    ensures Weight(a) == 1 + MapWeight(a.map_)
    ensures a == if a.Array? then Array(a.map_) else Object(a.map_)
  {
  }

  lemma ContainerLess(a: Value, b: Value)
    requires a.Type() == b.Type() >= 6 && |a.map_| < 0x8000_0000 && |b.map_| < 0x8000_0000
    ensures Less(a, b) <==>
            |a.map_| < |b.map_| || (|a.map_| == |b.map_| && MapLess(a.map_, b.map_))
  {
    hide MapLess, BytesLess, ToInt32, DoubleLess;
    SmallDelta(|a.map_|, |b.map_|);
  }

  lemma HeadTail(x: ObjectValues, y: ObjectValues)
    requires x != [] && y != []
    ensures x == y <==> x[0] == y[0] && x[1..] == y[1..]
  {
    if x[0] == y[0] && x[1..] == y[1..] {
      assert x == [x[0]] + x[1..] && y == [y[0]] + y[1..];
    }
  }

  // ---- Exactly one of less, equal, greater ----

  ghost predicate OneOfThree(less: bool, equal: bool, greater: bool) {
    (less && !equal && !greater) || (!less && equal && !greater) || (!less && !equal && greater)
  }

  lemma ScalarTrichotomy(a: Value, b: Value)
    requires Comparable(a) && Comparable(b) && (a.Type() != b.Type() || a.Type() < 6)
    ensures OneOfThree(Less(a, b), a == b, Less(b, a))
  {
    hide ToInt32, BytesLess, MapLess;
    if a.String? && b.String? {
      BytesOrder(a.s, b.s, []);
    }
  }

  lemma {:induction false} Trichotomy(a: Value, b: Value)
    requires Comparable(a) && Comparable(b)
    ensures OneOfThree(Less(a, b), a == b, Less(b, a))
    decreases Weight(a) + Weight(b), 0
  {
    if a.Type() != b.Type() || a.Type() < 6 {
      ScalarTrichotomy(a, b);
    } else {
      ContainerParts(a);
      ContainerParts(b);
      ContainerLess(a, b);
      ContainerLess(b, a);
      hide Less, MapLess, Comparable, Weight;
      MapTrichotomy(a.map_, b.map_);
    }
  }

  lemma {:induction false} EntryTrichotomy(p: Entry, q: Entry)
    requires Comparable(p.value) && Comparable(q.value)
    ensures OneOfThree(EntryLess(p, q), p == q, EntryLess(q, p))
    decreases Weight(p.value) + Weight(q.value), 1
  {
    hide Less, KeyLess;
    KeyOrder(p.key, q.key, q.key);
    Trichotomy(p.value, q.value);
  }

  lemma {:induction false} MapTrichotomy(x: ObjectValues, y: ObjectValues)
    requires MapComparable(x) && MapComparable(y)
    ensures OneOfThree(MapLess(x, y), x == y, MapLess(y, x))
    decreases MapWeight(x) + MapWeight(y), 1
  {
    hide EntryLess, Comparable;
    if x != [] && y != [] {
      EntryTrichotomy(x[0], y[0]);
      MapTrichotomy(x[1..], y[1..]);
      HeadTail(x, y);
    }
  }

  // ---- Transitivity ----

  lemma {:induction false} Transitive(a: Value, b: Value, c: Value)
    requires Comparable(a) && Comparable(b) && Comparable(c)
    requires Less(a, b) && Less(b, c)
    ensures Less(a, c)
    decreases Weight(a), 0
  {
    if a.Type() == b.Type() == c.Type() >= 6 {
      ContainerParts(a);
      ContainerParts(b);
      ContainerParts(c);
      ContainerLess(a, b);
      ContainerLess(b, c);
      ContainerLess(a, c);
      hide Less, MapLess, Comparable, Weight;
      if |a.map_| == |b.map_| == |c.map_| {
        MapTransitive(a.map_, b.map_, c.map_);
      }
    } else {
      hide ToInt32, BytesLess, MapLess, MapComparable;
      if a.String? && b.String? && c.String? {
        BytesOrder(a.s, b.s, c.s);
      }
    }
  }

  lemma {:induction false} EntryTransitive(p: Entry, q: Entry, r: Entry)
    requires Comparable(p.value) && Comparable(q.value) && Comparable(r.value)
    requires EntryLess(p, q) && EntryLess(q, r)
    ensures EntryLess(p, r)
    decreases Weight(p.value), 1
  {
    hide Less, KeyLess;
    KeyOrder(p.key, q.key, r.key);
    KeyOrder(q.key, r.key, p.key);
    KeyOrder(p.key, r.key, q.key);
    if p.key == q.key == r.key {
      Transitive(p.value, q.value, r.value);
    }
  }

  lemma {:induction false} MapTransitive(x: ObjectValues, y: ObjectValues, z: ObjectValues)
    requires MapComparable(x) && MapComparable(y) && MapComparable(z)
    requires MapLess(x, y) && MapLess(y, z)
    ensures MapLess(x, z)
    decreases MapWeight(x), 1
  {
    hide EntryLess, Comparable;
    if x != [] {
      EntryTrichotomy(x[0], y[0]);
      EntryTrichotomy(y[0], z[0]);
      EntryTrichotomy(x[0], z[0]);
      if EntryLess(x[0], y[0]) && EntryLess(y[0], z[0]) {
        EntryTransitive(x[0], y[0], z[0]);
      } else if x[0] == y[0] == z[0] {
        MapTransitive(x[1..], y[1..], z[1..]);
      }
    }
  }

  // ---- What less means ----

  /** Numbers by size, false before true, strings in dictionary order. */
  lemma ScalarLess(i: int, j: int, u: nat, w: nat, x: bool, y: bool, s: bytes, t: bytes)
    ensures Less(Int(i), Int(j)) <==> i < j
    ensures Less(UInt(u), UInt(w)) <==> u < w
    ensures Less(Bool(x), Bool(y)) <==> !x && y
    ensures Less(String(s), String(t)) <==> exists k :: DiffersAt(s, t, k)
    ensures !Less(Null, Null)
  {
    hide BytesLess, DiffersAt;
    FirstDifference(s, t);
  }

  /** Reals by size, between the two infinities; a NaN is neither less nor greater than anything. */
  lemma RealLess(r: real, q: real, d: Double)
    ensures Less(Real(Finite(r)), Real(Finite(q))) <==> r < q
    ensures Less(Real(NegativeInfinity), Real(d)) <==> d.Finite? || d.PositiveInfinity?
    ensures Less(Real(d), Real(PositiveInfinity)) <==> d.Finite? || d.NegativeInfinity?
    ensures !Less(Real(NaN), Real(d)) && !Less(Real(d), Real(NaN))
    ensures !Less(Real(d), Real(NegativeInfinity)) && !Less(Real(PositiveInfinity), Real(d))
  {
  }

  const TYPES: seq<Value> := [Null, Int(0), UInt(0), Real(NaN), String([]), Bool(false), Array([]), Object([])]

  predicate SameType(a: Value, b: Value) {
    && (a.Null? <==> b.Null?) && (a.Int? <==> b.Int?) && (a.UInt? <==> b.UInt?) && (a.Real? <==> b.Real?)
    && (a.String? <==> b.String?) && (a.Bool? <==> b.Bool?) && (a.Array? <==> b.Array?) && (a.Object? <==> b.Object?)
  }

  /** Values of different types stand in the order null, integer, unsigned integer, real, string, boolean,
      array, object. */
  lemma TypesInOrder(a: Value, b: Value, i: nat, j: nat)
    requires i < 8 && j < 8 && SameType(a, TYPES[i]) && SameType(b, TYPES[j]) && i != j
    ensures Less(a, b) <==> i < j
  {
    hide ToInt32, MapLess, BytesLess, DoubleLess;
    TypeIs(a, i);
    TypeIs(b, j);
  }

  lemma TypeIs(a: Value, i: nat)
    requires i < 8 && SameType(a, TYPES[i])
    ensures a.Type() == i
  {
  }

  /** Entries are compared by their keys, and by their values where these are equal. */
  lemma EntryLessIs(p: Entry, q: Entry)
    ensures EntryLess(p, q) <==> KeyLess(p.key, q.key) || (p.key == q.key && Less(p.value, q.value))
  {
    hide Less, KeyLess;
    KeyOrder(p.key, q.key, q.key);
  }

  /** The first difference of two maps: a smaller entry, or the end of the first map. */
  ghost predicate MapsDifferAt(x: ObjectValues, y: ObjectValues, k: nat) {
    && k <= |x| && k < |y| && x[..k] == y[..k]
    && (k < |x| ==> EntryLess(x[k], y[k]))
  }

  lemma {:induction false} MapLessDiffers(x: ObjectValues, y: ObjectValues) returns (k: nat)
    requires MapComparable(x) && MapComparable(y) && MapLess(x, y)
    ensures MapsDifferAt(x, y, k)
    decreases |x|
  {
    hide EntryLess, Comparable;
    if x == [] || EntryLess(x[0], y[0]) {
      k := 0;
    } else {
      EntryTrichotomy(x[0], y[0]);
      var j := MapLessDiffers(x[1..], y[1..]);
      k := j + 1;
      assert x[..k] == [x[0]] + x[1..][..j] && y[..k] == [y[0]] + y[1..][..j];
    }
  }

  lemma {:induction false} DifferMapLess(x: ObjectValues, y: ObjectValues, k: nat)
    requires MapComparable(x) && MapComparable(y) && MapsDifferAt(x, y, k)
    ensures MapLess(x, y)
    decreases k
  {
    hide EntryLess, Comparable;
    if k > 0 {
      assert x[0] == x[..k][0] && y[0] == y[..k][0];
      assert x[1..][..k - 1] == x[..k][1..] && y[1..][..k - 1] == y[..k][1..];
      EntryTrichotomy(x[0], y[0]);
      DifferMapLess(x[1..], y[1..], k - 1);
    }
  }

  /** Of two containers of one type the smaller one is less, and at equal sizes the first difference decides. */
  lemma ContainersInOrder(a: Value, b: Value)
    requires Comparable(a) && Comparable(b) && SameType(a, b) && (a.Array? || a.Object?)
    ensures Less(a, b) <==> |a.map_| < |b.map_| || (|a.map_| == |b.map_| && exists k :: MapsDifferAt(a.map_, b.map_, k))
  {
    hide Less, MapLess, MapsDifferAt, MapComparable;
    ContainerParts(a);
    ContainerParts(b);
    ContainerLess(a, b);
    if MapLess(a.map_, b.map_) {
      var k := MapLessDiffers(a.map_, b.map_);
    }
    forall k | MapsDifferAt(a.map_, b.map_, k)
      ensures MapLess(a.map_, b.map_)
    {
      DifferMapLess(a.map_, b.map_, k);
    }
  }

  // ---- Equality ----

  lemma {:induction false} MemCmpEqual(s: bytes, t: bytes)
    requires |s| == |t|
    ensures MemCmp(s, t) == 0 <==> s == t
  {
    if s != [] {
      MemCmpEqual(s[1..], t[1..]);
      if s[0] == t[0] && s[1..] == t[1..] {
        assert s == [s[0]] + s[1..] && t == [t[0]] + t[1..];
      }
    }
  }

  lemma {:induction false} EqualsIsEquality(a: Value, b: Value)
    requires Comparable(a)
    ensures Equals(a, b) <==> a == b
    decreases Weight(a)
  {
    if a.Type() == b.Type() {
      if a.String? && |a.s| == |b.s| {
        MemCmpEqual(a.s, b.s);
      } else if a.Type() >= 6 && |a.map_| == |b.map_| {
        MapEqualsIsEquality(a.map_, b.map_);
      }
    }
  }

  lemma {:induction false} MapEqualsIsEquality(x: ObjectValues, y: ObjectValues)
    requires |x| == |y| && MapComparable(x)
    ensures MapEquals(x, y) <==> x == y
    decreases MapWeight(x)
  {
    if x != [] {
      EqualsIsEquality(x[0].value, y[0].value);
      MapEqualsIsEquality(x[1..], y[1..]);
      HeadTail(x, y);
      hide Equals;
      assert x[0] == y[0] <==> x[0].key == y[0].key && x[0].value == y[0].value;
    }
  }

  /** `<` is a strict total order through arbitrary nesting, and incomparable means equal. */
  lemma ValueOrder(a: Value, b: Value, c: Value)
    requires Comparable(a) && Comparable(b) && Comparable(c)
    ensures !Less(a, a)
    ensures Less(a, b) && Less(b, c) ==> Less(a, c)
    ensures OneOfThree(Less(a, b), Equals(a, b), Less(b, a))
    ensures Compare(a, b) == if Less(a, b) then -1 else if Equals(a, b) then 0 else 1
  {
    hide Less, Equals;
    Trichotomy(a, a);
    Trichotomy(a, b);
    EqualsIsEquality(a, b);
    if Less(a, b) && Less(b, c) {
      Transitive(a, b, c);
    }
  }

  // ---- Why both conditions are there ----

  /** No NaN anywhere in the tree. */
  predicate NanFree(v: Value)
    decreases Weight(v)
  {
    match v
    case Real(d) => !d.NaN?
    case Array(m) => MapNanFree(m)
    case Object(m) => MapNanFree(m)
    case _ => true
  }

  predicate MapNanFree(m: ObjectValues)
    decreases MapWeight(m)
  {
    m == [] || (NanFree(m[0].value) && MapNanFree(m[1..]))
  }

  lemma MemCmpSelf(s: bytes)
    ensures MemCmp(s, s) == 0
  {
    MemCmpEqual(s, s);
  }

  /** A value equals itself exactly when there is no NaN in it, at any depth. */
  lemma {:induction false} EqualsItself(v: Value)
    ensures Equals(v, v) <==> NanFree(v)
    decreases Weight(v)
  {
    match v {
      case String(s) => MemCmpSelf(s);
      case Array(m) => MapEqualsItself(m);
      case Object(m) => MapEqualsItself(m);
      case _ =>
    }
  }

  lemma {:induction false} MapEqualsItself(m: ObjectValues)
    ensures MapEquals(m, m) <==> MapNanFree(m)
    decreases MapWeight(m)
  {
    if m != [] {
      EqualsItself(m[0].value);
      MapEqualsItself(m[1..]);
    }
  }

  /** Two reals that are neither less nor greater are equal, unless one of them is a NaN. */
  lemma NanIsUnordered(x: Double, y: Double)
    ensures Compare(Real(x), Real(y)) == 0 && !Equals(Real(x), Real(y)) <==> x.NaN? || y.NaN?
  {
  }

  lemma LowWord(d: int)
    ensures ToInt32(d) < 0 <==> d % 0x1_0000_0000 >= 0x8000_0000
    ensures ToInt32(d) == 0 <==> d % 0x1_0000_0000 == 0
  {
  }

  lemma OppositeWords(d: int)
    requires d % 0x1_0000_0000 != 0
    ensures (-d) % 0x1_0000_0000 == 0x1_0000_0000 - d % 0x1_0000_0000
  {
    var q, r := d / 0x1_0000_0000, d % 0x1_0000_0000;
    assert -d == (-q - 1) * 0x1_0000_0000 + (0x1_0000_0000 - r);
  }

  // The difference of two sizes is truncated to 32 bits, so that `<` can hold both ways.

  const HALF: int := 0x8000_0000

  /** Two containers of one type whose sizes differ by 2^31 modulo 2^32, or whose sizes agree modulo 2^32
      and whose entries clash. */
  predicate Clash(a: Value, b: Value)
    decreases Weight(a), 0
  {
    && a.Type() == b.Type() >= 6
    && var delta := (|a.map_| - |b.map_|) % 0x1_0000_0000;
       delta == HALF || (delta == 0 && MapClash(a.map_, b.map_))
  }

  /** The first entries that can be told apart have equal keys and clashing values. */
  predicate MapClash(x: ObjectValues, y: ObjectValues)
    decreases MapWeight(x), 1
  {
    && x != [] && y != []
    && ((x[0].key == y[0].key && Clash(x[0].value, y[0].value))
        || (!EntryLess(x[0], y[0]) && !EntryLess(y[0], x[0]) && MapClash(x[1..], y[1..])))
  }

  lemma ContainersBothLess(a: Value, b: Value)
    requires a.Type() == b.Type() >= 6
    ensures var delta := (|a.map_| - |b.map_|) % 0x1_0000_0000;
            Less(a, b) && Less(b, a)
            <==> delta == HALF || (delta == 0 && MapLess(a.map_, b.map_) && MapLess(b.map_, a.map_))
  {
    hide ToInt32, MapLess, BytesLess, DoubleLess;
    var d: int := |a.map_| - |b.map_|;
    LowWord(d);
    LowWord(-d);
    if d % 0x1_0000_0000 != 0 {
      OppositeWords(d);
    }
    assert |b.map_| - |a.map_| == -d;
  }

  lemma ScalarsNotBothLess(a: Value, b: Value)
    requires a.Type() != b.Type() || a.Type() < 6
    ensures !(Less(a, b) && Less(b, a))
  {
    hide ToInt32, BytesLess, MapLess;
    if a.String? && b.String? {
      BytesOrder(a.s, b.s, []);
    }
  }

  /** `<` holds both ways between exactly the values that clash, through any nesting. */
  lemma {:induction false} BothLess(a: Value, b: Value)
    ensures Less(a, b) && Less(b, a) <==> Clash(a, b)
    decreases Weight(a), 0
  {
    if a.Type() == b.Type() >= 6 {
      hide Less, MapLess, MapClash;
      ContainersBothLess(a, b);
      MapsBothLess(a.map_, b.map_);
    } else {
      ScalarsNotBothLess(a, b);
    }
  }

  lemma {:induction false} EntriesBothLess(p: Entry, q: Entry)
    ensures EntryLess(p, q) && EntryLess(q, p) <==> p.key == q.key && Clash(p.value, q.value)
    decreases Weight(p.value), 1
  {
    hide Less, KeyLess, Clash;
    KeyOrder(p.key, q.key, q.key);
    BothLess(p.value, q.value);
  }

  lemma {:induction false} MapsBothLess(x: ObjectValues, y: ObjectValues)
    ensures MapLess(x, y) && MapLess(y, x) <==> MapClash(x, y)
    decreases MapWeight(x), 1
  {
    hide EntryLess, Clash;
    if x != [] && y != [] {
      EntriesBothLess(x[0], y[0]);
      MapsBothLess(x[1..], y[1..]);
    }
  }

  /** For instance two arrays whose sizes differ by 2^31 modulo 2^32. */
  lemma SizesBothLess(x: ObjectValues, y: ObjectValues)
    requires (|x| - |y|) % 0x1_0000_0000 != 0
    ensures Less(Array(x), Array(y)) && Less(Array(y), Array(x)) <==> (|x| - |y|) % 0x1_0000_0000 == HALF
  {
    hide Less, MapClash;
    BothLess(Array(x), Array(y));
  }
}
