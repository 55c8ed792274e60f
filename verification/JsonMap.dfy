/** The ordered map behind arrays and objects, with the operations the library uses on it. */
module JsonMap {
  import opened JsonValue

  ghost predicate Sorted(m: ObjectValues) {
    forall i, j :: 0 <= i < j < |m| ==> KeyLess(m[i].key, m[j].key)
  }

  /** The first position whose key is not less than `k`. */
  function LowerBound(m: ObjectValues, k: CZString): (j: nat)
    ensures j <= |m|
    ensures forall i :: 0 <= i < j ==> KeyLess(m[i].key, k)
    ensures j < |m| ==> !KeyLess(m[j].key, k)
  {
    if m == [] || !KeyLess(m[0].key, k) then 0 else 1 + LowerBound(m[1..], k)
  }

  /** The position of `k`, or `|m|`. */
  function Find(m: ObjectValues, k: CZString): (j: nat)
    ensures j <= |m|
    ensures j < |m| ==> m[j].key == k
  {
    var j := LowerBound(m, k);
    if j < |m| && m[j].key == k then j else |m|
  }

  predicate Has(m: ObjectValues, k: CZString) {
    Find(m, k) < |m|
  }

  /** Reading through a const reference: an absent key reads as null. */
  function Lookup(m: ObjectValues, k: CZString): Value {
    if Has(m, k) then m[Find(m, k)].value else Null
  }

  function Assign(m: ObjectValues, k: CZString, v: Value): ObjectValues {
    var j := LowerBound(m, k);
    if j < |m| && m[j].key == k then m[j := Entry(k, v)] else m[..j] + [Entry(k, v)] + m[j..]
  }

  function Erase(m: ObjectValues, k: CZString): ObjectValues {
    var j := Find(m, k);
    if j < |m| then m[..j] + m[j + 1..] else m
  }

  // ---- Laws ----

  /** The entry at `i` is what a lookup of its key finds. */
  lemma FindEntry(m: ObjectValues, i: nat)
    requires Sorted(m) && i < |m|
    ensures Find(m, m[i].key) == i
  {
    hide KeyLess;
    var j := LowerBound(m, m[i].key);
    KeyOrder(m[i].key, m[i].key, m[i].key);
  }

  lemma AssignSorted(m: ObjectValues, k: CZString, v: Value)
    requires Sorted(m)
    ensures Sorted(Assign(m, k, v))
  {
    hide KeyLess;
    var j := LowerBound(m, k);
    var n := Assign(m, k, v);
    if !(j < |m| && m[j].key == k) {
      forall a, b | 0 <= a < b < |n|
        ensures KeyLess(n[a].key, n[b].key)
      {
        if a == j {
          KeyOrder(m[j].key, k, k);
          if b > j + 1 {
            KeyOrder(k, m[j].key, m[b - 1].key);
          }
        }
      }
    }
  }

  lemma EraseSorted(m: ObjectValues, k: CZString)
    requires Sorted(m)
    ensures Sorted(Erase(m, k))
  {
  }

  /** Where an entry of `m` stands after an assignment. */
  lemma AssignKeeps(m: ObjectValues, k: CZString, v: Value, i: nat)
    requires Sorted(m) && i < |m| && m[i].key != k
    ensures var n := Assign(m, k, v); exists p :: 0 <= p < |n| && n[p] == m[i]
  {
    var j := LowerBound(m, k);
    var n := Assign(m, k, v);
    var p := if (j < |m| && m[j].key == k) || i < j then i else i + 1;
    assert n[p] == m[i];
  }

  /** Where an entry comes from. */
  lemma AssignAdds(m: ObjectValues, k: CZString, v: Value, p: nat)
    requires Sorted(m) && p < |Assign(m, k, v)|
    ensures var e := Assign(m, k, v)[p]; e == Entry(k, v) || exists i :: 0 <= i < |m| && m[i] == e
  {
    var j := LowerBound(m, k);
    var n := Assign(m, k, v);
    if p != j {
      var i := if (j < |m| && m[j].key == k) || p < j then p else p - 1;
      assert m[i] == n[p];
    }
  }

  lemma AssignHere(m: ObjectValues, k: CZString, v: Value)
    ensures var j, n := LowerBound(m, k), Assign(m, k, v); j < |n| && n[j] == Entry(k, v)
  {
  }

  lemma LookupEntry(m: ObjectValues, i: nat)
    requires Sorted(m) && i < |m|
    ensures Has(m, m[i].key) && Lookup(m, m[i].key) == m[i].value
  {
    FindEntry(m, i);
  }

  lemma AssignLookup(m: ObjectValues, k: CZString, v: Value, q: CZString)
    requires Sorted(m)
    ensures Has(Assign(m, k, v), q) <==> q == k || Has(m, q)
    ensures Lookup(Assign(m, k, v), q) == if q == k then v else Lookup(m, q)
  {
    var n := Assign(m, k, v);
    AssignSorted(m, k, v);
    AssignHere(m, k, v);
    hide Assign, LowerBound, KeyLess, Sorted;
    if q == k {
      LookupEntry(n, LowerBound(m, k));
    } else if Has(m, q) {
      AssignKeeps(m, k, v, Find(m, q));
      var p :| 0 <= p < |n| && n[p] == m[Find(m, q)];
      LookupEntry(n, p);
    } else if Has(n, q) {
      AssignAdds(m, k, v, Find(n, q));
      var i :| 0 <= i < |m| && m[i] == n[Find(n, q)];
      LookupEntry(m, i);
    }
  }

  lemma EraseKeeps(m: ObjectValues, k: CZString, i: nat)
    requires i < |m| && m[i].key != k
    ensures var n := Erase(m, k); exists p :: 0 <= p < |n| && n[p] == m[i]
  {
    hide LowerBound, KeyLess;
    var j := Find(m, k);
    var n := Erase(m, k);
    var p := if i < j then i else i - 1;
    assert n[p] == m[i];
  }

  lemma EraseLeaves(m: ObjectValues, k: CZString, p: nat)
    requires Sorted(m) && p < |Erase(m, k)|
    ensures var e := Erase(m, k)[p]; e.key != k && exists i :: 0 <= i < |m| && m[i] == e
  {
    hide LowerBound, KeyLess;
    var j := Find(m, k);
    var i := if p < j then p else p + 1;
    assert m[i] == Erase(m, k)[p];
    if m[i].key == k {
      FindEntry(m, i);
    }
  }

  lemma EraseLookup(m: ObjectValues, k: CZString, q: CZString)
    requires Sorted(m)
    ensures Has(Erase(m, k), q) <==> q != k && Has(m, q)
    ensures q != k ==> Lookup(Erase(m, k), q) == Lookup(m, q)
  {
    hide Erase, LowerBound, KeyLess, Sorted;
    var n := Erase(m, k);
    EraseSorted(m, k);
    if Has(m, q) && q != k {
      EraseKeeps(m, k, Find(m, q));
      var p :| 0 <= p < |n| && n[p] == m[Find(m, q)];
      LookupEntry(n, p);
    } else if Has(n, q) {
      EraseLeaves(m, k, Find(n, q));
      var i :| 0 <= i < |m| && m[i] == n[Find(n, q)];
      LookupEntry(m, i);
    }
  }

  /** Assigning past the last key appends. */
  lemma AssignLast(m: ObjectValues, k: CZString, v: Value)
    requires forall i :: 0 <= i < |m| ==> KeyLess(m[i].key, k)
    ensures Assign(m, k, v) == m + [Entry(k, v)]
  {
    var j := LowerBound(m, k);
    assert j == |m|;
    assert m[..j] == m && m[j..] == [];
  }
}
