/** What one trip through the writer and the reader turns a value into. */
module JsonNormal {
  import opened JsonValue
  import opened JsonMap
  import opened JsonArray
  import opened JsonTree
  import opened JsonNumber
  import opened JsonStringLaws
  import opened JsonWriter

  /** Reals go through the C library and are not part of the round trip. */
  ghost predicate RealFree(v: Value)
    decreases Weight(v)
  {
    match v
    case Real(_) => false
    case Array(m) => forall i :: 0 <= i < |m| ==> (MapWeightAt(m, i); RealFree(m[i].value))
    case Object(m) => forall i :: 0 <= i < |m| ==> (MapWeightAt(m, i); RealFree(m[i].value))
    case _ => true
  }

  function Max(a: nat, b: nat): nat {
    if a < b then b else a
  }

  /** How many nodes the reader stacks up for `v`. */
  function Depth(v: Value): (d: nat)
    ensures d >= 1
    decreases Weight(v), 0
  {
    match v
    case Array(m) => 1 + ElementsDepth(m, 0)
    case Object(m) => 1 + MembersDepth(m, 0)
    case _ => 1
  }

  function ElementsDepth(m: ObjectValues, i: nat): nat
    decreases MapWeight(m), Size(m) - i
  {
    if i >= Size(m) then 0
    else
      ElementWeight(m, i);
      Max(Depth(Element(m, i)), ElementsDepth(m, i + 1))
  }

  function MembersDepth(m: ObjectValues, i: nat): nat
    decreases MapWeight(m), |m| - i
  {
    if i >= |m| then 0
    else
      MapWeightAt(m, i);
      Max(Depth(m[i].value), MembersDepth(m, i + 1))
  }

  /** The payload the reader gives an integer. */
  function ReaderValue(v: int): Value {
    if v <= 0x7FFF_FFFF then Int(v) else UInt(v)
  }

  /** Integers take the reader's form, strings and keys are repaired, gaps become nulls, and members
      whose repaired keys coincide are merged, the last one winning. */
  function Normalized(v: Value): Value
    decreases Weight(v), 0
  {
    match v
    case Int(i) => ReaderValue(i)
    case UInt(u) => ReaderValue(u)
    case String(s) => String(Repaired(s))
    case Array(m) => Array(NormalizedElements(m, 0, []))
    case Object(m) => Object(NormalizedMembers(m, 0, []))
    case _ => v
  }

  function NormalizedElements(m: ObjectValues, i: nat, acc: ObjectValues): ObjectValues
    decreases MapWeight(m), Size(m) - i
  {
    if i >= Size(m) then acc
    else
      ElementWeight(m, i);
      NormalizedElements(m, i + 1, Assign(acc, Index(i), Normalized(Element(m, i))))
  }

  function RepairedKey(k: CZString): CZString {
    Name(Repaired(KeyName(k)))
  }

  function NormalizedMembers(m: ObjectValues, i: nat, acc: ObjectValues): ObjectValues
    decreases MapWeight(m), |m| - i
  {
    if i >= |m| then acc
    else
      MapWeightAt(m, i);
      NormalizedMembers(m, i + 1, Assign(acc, RepairedKey(m[i].key), Normalized(m[i].value)))
  }

  lemma RealFreeElement(m: ObjectValues, i: nat)
    requires RealFree(Array(m))
    ensures RealFree(Element(m, i))
  {
    hide LowerBound;
    if Present(m, i) {
      assert Element(m, i) == m[Find(m, Index(i))].value;
    }
  }
}
