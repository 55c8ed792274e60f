/** Array operations, which change the index map in place. Positions may be missing from the map. */
module JsonArray {
  import opened JsonValue
  import opened JsonMap

  ghost predicate IndexMap(m: ObjectValues) {
    Sorted(m) && forall i :: 0 <= i < |m| ==> m[i].key.Index?
  }

  /** `size()`: the highest index plus one. */
  function Size(m: ObjectValues): nat {
    if m == [] || !m[|m| - 1].key.Index? then 0 else m[|m| - 1].key.index + 1
  }

  predicate Present(m: ObjectValues, i: nat) {
    Has(m, Index(i))
  }

  function Element(m: ObjectValues, i: nat): Value {
    Lookup(m, Index(i))
  }

  /** The sequence the map stands for: missing positions read as null. */
  ghost function Elements(m: ObjectValues): (s: seq<Value>)
    ensures |s| == Size(m)
    ensures forall i :: 0 <= i < |s| ==> s[i] == Element(m, i)
  {
    seq(Size(m), i => if i >= 0 then Element(m, i) else Null)
  }

  /** The size is fixed by which positions are present. */
  lemma SizeBounds(m: ObjectValues, i: nat)
    requires IndexMap(m)
    ensures Present(m, i) ==> i < Size(m)
    ensures Size(m) > 0 ==> Present(m, Size(m) - 1)
  {
    hide LowerBound;
    if m != [] {
      LookupEntry(m, |m| - 1);
    }
    if Present(m, i) {
      var j := Find(m, Index(i));
      assert j < |m| - 1 ==> KeyLess(m[j].key, m[|m| - 1].key);
    }
  }

  lemma SizeIs(m: ObjectValues, n: nat)
    requires IndexMap(m)
    requires n > 0 ==> Present(m, n - 1)
    requires forall i: nat :: Present(m, i) ==> i < n
    ensures Size(m) == n
  {
    hide Present, Size;
    SizeBounds(m, if n > 0 then n - 1 else 0);
    if Size(m) > 0 {
      assert Present(m, Size(m) - 1);
    }
  }

  lemma AssignElement(m: ObjectValues, k: nat, v: Value)
    requires IndexMap(m)
    ensures var n := Assign(m, Index(k), v);
            && IndexMap(n)
            && (forall i: nat :: Present(n, i) <==> i == k || Present(m, i))
            && (forall i: nat :: Element(n, i) == if i == k then v else Element(m, i))
  {
    var n := Assign(m, Index(k), v);
    AssignSorted(m, Index(k), v);
    forall p | 0 <= p < |n|
      ensures n[p].key.Index?
    {
      AssignAdds(m, Index(k), v, p);
    }
    hide Assign, Has, Lookup, Sorted;
    forall i: nat
      ensures Present(n, i) <==> i == k || Present(m, i)
      ensures Element(n, i) == if i == k then v else Element(m, i)
    {
      AssignLookup(m, Index(k), v, Index(i));
    }
  }

  lemma EraseElement(m: ObjectValues, k: nat)
    requires IndexMap(m)
    ensures var n := Erase(m, Index(k));
            && IndexMap(n)
            && (forall i: nat :: Present(n, i) <==> i != k && Present(m, i))
            && (forall i: nat :: i != k ==> Element(n, i) == Element(m, i))
  {
    var n := Erase(m, Index(k));
    EraseSorted(m, Index(k));
    assert IndexMap(n);
    hide Erase, Has, Lookup, Sorted;
    forall i: nat
      ensures Present(n, i) <==> i != k && Present(m, i)
      ensures i != k ==> Element(n, i) == Element(m, i)
    {
      EraseLookup(m, Index(k), Index(i));
    }
  }

  lemma ElementIsLookup(m: ObjectValues, i: nat)
    ensures Element(m, i) == Lookup(m, Index(i))
  {
  }

  lemma AbsentIsNull(m: ObjectValues, i: nat)
    requires !Present(m, i)
    ensures Element(m, i) == Null
  {
  }

  lemma PresentHere(m: ObjectValues, i: nat)
    requires var it := LowerBound(m, Index(i)); it < |m| && m[it].key == Index(i)
    ensures Present(m, i)
  {
  }

  lemma AbsentHere(m: ObjectValues, i: nat)
    requires var it := LowerBound(m, Index(i)); !(it < |m| && m[it].key == Index(i))
    ensures !Present(m, i) && Element(m, i) == Null
    ensures Assign(m, Index(i), Null)
            == var it := LowerBound(m, Index(i)); m[..it] + [Entry(Index(i), Null)] + m[it..]
  {
  }

  lemma SizeAll(m: ObjectValues)
    requires IndexMap(m)
    ensures forall i: nat :: Present(m, i) ==> i < Size(m)
    ensures Size(m) > 0 ==> Present(m, Size(m) - 1)
  {
    hide Present, Size;
    forall i: nat
      ensures Present(m, i) ==> i < Size(m)
    {
      SizeBounds(m, i);
    }
    SizeBounds(m, 0);
  }

  lemma SizeOfEmpty()
    ensures Size([]) == 0
  {
  }

  lemma BeyondSizeIsNull(m: ObjectValues)
    requires IndexMap(m)
    ensures forall i: nat :: i >= Size(m) ==> Element(m, i) == Null
  {
    hide Size, Present, Element;
    SizeAll(m);
    forall i: nat | i >= Size(m)
      ensures Element(m, i) == Null
    {
      AbsentIsNull(m, i);
    }
  }

  /** `now` is `was` without its last elements, which were all null: as many as were missing from the map. */
  ghost predicate LostNulls(now: seq<Value>, was: seq<Value>) {
    |now| <= |was| && now == was[..|now|] && forall i :: |now| <= i < |was| ==> was[i] == Null
  }

  /** A map that is `was` below `n` and empty from there on, position `n - 1` being missing. */
  lemma ShrunkPastGap(was: ObjectValues, m: ObjectValues, n: nat)
    requires IndexMap(was) && IndexMap(m) && 0 < n <= Size(was) && !Present(was, n - 1)
    requires forall k: nat :: Present(m, k) <==> Present(was, k) && k < n
    requires forall k: nat :: k < n ==> Element(m, k) == Element(was, k)
    ensures |Elements(m)| < n && LostNulls(Elements(m), Elements(was)[..n])
  {
    hide Present, Element, Size;
    SizeAll(m);
    forall i | Size(m) <= i < n
      ensures Element(was, i) == Null
    {
      AbsentIsNull(m, i);
    }
  }

  /** After the shift: exactly one position is gone, unless the removed one was last and the position
      before it was missing. */
  lemma Removed(was: ObjectValues, m: ObjectValues, index: nat)
    requires IndexMap(was) && IndexMap(m) && Present(was, index)
    requires index < Size(was)
    requires forall k: nat :: k < index ==> (Present(m, k) <==> Present(was, k))
    requires forall k: nat :: index <= k ==> (Present(m, k) <==> k < Size(was) - 1)
    requires forall k: nat :: k < Size(was) - 1 ==> Element(m, k) == Element(was, if k < index then k else k + 1)
    ensures Elements(m) == Elements(was)[..index] + Elements(was)[index + 1..]
            <==> index + 1 < Size(was) || index == 0 || Present(was, index - 1)
    ensures !(index + 1 < Size(was) || index == 0 || Present(was, index - 1)) ==>
              |Elements(m)| < index && LostNulls(Elements(m), Elements(was)[..index])
  {
    hide Present, Element, Size, LostNulls;
    var n := Size(was);
    SizeAll(m);
    if index + 1 < n || index == 0 || Present(was, index - 1) {
      SizeIs(m, n - 1);
    } else {
      SizeAll(was);
      ShrunkPastGap(was, m, index);
    }
  }

  /** `m` is `was` with the elements behind `index` moved down by one, up to and including the one now at
      `i - 1`. */
  ghost predicate Moved(was: ObjectValues, m: ObjectValues, index: nat, i: nat) {
    && (forall k: nat :: k < index || k > i ==> (Present(m, k) <==> Present(was, k)))
    && (forall k: nat :: index <= k <= i ==> Present(m, k))
    && (forall k: nat :: k < index || k >= i ==> Element(m, k) == Element(was, k))
    && (forall k: nat :: index <= k < i ==> Element(m, k) == Element(was, k + 1))
  }

  lemma NothingMoved(was: ObjectValues, index: nat)
    requires Present(was, index)
    ensures Moved(was, was, index, index)
  {
    hide Present, Element;
  }

  lemma MovedStep(was: ObjectValues, m: ObjectValues, m': ObjectValues, index: nat, i: nat)
    requires index <= i && Moved(was, m, index, i)
    requires forall k: nat :: Present(m', k) <==> k == i || k == i + 1 || Present(m, k)
    requires forall k: nat :: Element(m', k) == Element(m, if k == i then i + 1 else k)
    ensures Moved(was, m', index, i + 1)
  {
    hide Present, Element;
  }

  /** Erasing the last position completes the shift. */
  lemma MovedAll(was: ObjectValues, m: ObjectValues, m': ObjectValues, index: nat)
    requires IndexMap(was) && index < Size(was) && Moved(was, m, index, Size(was) - 1)
    requires forall k: nat :: Present(m', k) <==> k != Size(was) - 1 && Present(m, k)
    requires forall k: nat :: k != Size(was) - 1 ==> Element(m', k) == Element(m, k)
    ensures forall k: nat :: k < index ==> (Present(m', k) <==> Present(was, k))
    ensures forall k: nat :: index <= k ==> (Present(m', k) <==> k < Size(was) - 1)
    ensures forall k: nat :: k < Size(was) - 1 ==> Element(m', k) == Element(was, if k < index then k else k + 1)
  {
    hide Present, Element, Size;
    SizeAll(was);
  }

  class ArrayValue {
    var map_: ObjectValues

    ghost predicate Valid()
      reads this
    {
      IndexMap(map_)
    }

    /** What a reader of the array sees. */
    ghost function Contents(): seq<Value>
      reads this
    {
      Elements(map_)
    }

    constructor ()
      ensures Valid() && Contents() == []
    {
      map_ := [];
    }

    /** The const `operator[]`. */
    method Get(index: nat) returns (value: Value)
      requires Valid()
      ensures value == if index < |Contents()| then Contents()[index] else Null
    {
      hide Element, Present;
      SizeBounds(map_, index);
      value := Lookup(map_, Index(index));
      assert value == Element(map_, index) by { ElementIsLookup(map_, index); }
      if !Present(map_, index) {
        AbsentIsNull(map_, index);
      }
    }

    /** The non-const `operator[]`: an absent position is created, and reads as null. */
    method Access(index: nat)
      requires Valid()
      modifies this
      ensures Valid()
      ensures forall i: nat :: Present(map_, i) <==> i == index || old(Present(map_, i))
      ensures forall i: nat :: Element(map_, i) == old(Element(map_, i))
    {
      var it := LowerBound(map_, Index(index));
      if it < |map_| && map_[it].key == Index(index) {
        PresentHere(map_, index);
        return;
      }
      AbsentHere(map_, index);
      AssignElement(map_, index, Null);
      map_ := map_[..it] + [Entry(Index(index), Null)] + map_[it..];
    }

    /** `(*this)[index] = value`. */
    method Set(index: nat, value: Value)
      requires Valid()
      modifies this
      ensures Valid()
      ensures forall i: nat :: Present(map_, i) <==> i == index || old(Present(map_, i))
      ensures forall i: nat :: Element(map_, i) == if i == index then value else old(Element(map_, i))
    {
      Access(index);
      AssignElement(map_, index, value);
      map_ := Assign(map_, Index(index), value);
    }

    method Append(value: Value)
      requires Valid()
      modifies this
      ensures Valid() && Contents() == old(Contents()) + [value]
    {
      hide Present, Element, Size;
      ghost var n := Size(map_);
      SizeAll(map_);
      Set(Size(map_), value);
      SizeIs(map_, n + 1);
    }

    /** The result is false when the closing assertion of the source fails. */
    method Resize(newSize: nat) returns (asserted: bool)
      requires Valid()
      modifies this
      ensures Valid()
      ensures asserted <==> newSize == 0 || newSize > old(Size(map_)) || old(Present(map_, newSize - 1))
      ensures newSize <= old(Size(map_)) && asserted ==> Contents() == old(Contents())[..newSize]
      ensures !asserted ==>
                |Contents()| < newSize <= old(Size(map_)) && LostNulls(Contents(), old(Contents())[..newSize])
      ensures newSize > old(Size(map_)) ==>
                Contents() == old(Contents()) + seq(newSize - old(Size(map_)), _ => Null)
    {
      hide Present, Element, Size;
      var oldSize := Size(map_);
      ghost var was := map_;
      SizeAll(was);
      if newSize == 0 {
        map_ := [];
        SizeAll(map_);
        SizeOfEmpty();
        asserted := true;
      } else if newSize > oldSize {
        Access(newSize - 1);
        SizeIs(map_, newSize);
        BeyondSizeIsNull(was);
        asserted := true;
      } else {
        for index := newSize to oldSize
          invariant Valid()
          invariant forall i: nat :: Present(map_, i) <==> Present(was, i) && !(newSize <= i < index)
          invariant forall i: nat :: i < newSize ==> Element(map_, i) == Element(was, i)
        {
          EraseElement(map_, index);
          map_ := Erase(map_, Index(index));
        }
        SizeAll(map_);
        asserted := Size(map_) == newSize;
        if Present(was, newSize - 1) {
          SizeIs(map_, newSize);
        } else {
          ShrunkPastGap(was, map_, newSize);
        }
      }
    }

    /** Removes one position and moves the later ones down. */
    method RemoveIndex(index: nat) returns (found: bool, removed: Value)
      requires Valid()
      modifies this
      ensures Valid()
      ensures found == old(Present(map_, index))
      ensures !found ==> map_ == old(map_)
      ensures found ==> removed == old(Contents())[index]
      ensures found ==>
                (Contents() == old(Contents())[..index] + old(Contents())[index + 1..]
                 <==> index + 1 < old(Size(map_)) || index == 0 || old(Present(map_, index - 1)))
      ensures found && !(index + 1 < old(Size(map_)) || index == 0 || old(Present(map_, index - 1))) ==>
                |Contents()| < index && LostNulls(Contents(), old(Contents())[..index])
    {
      hide Present, Element, Size, Moved, LostNulls;
      ghost var was := map_;
      SizeAll(was);
      found, removed := Present(map_, index), Null;
      if !found {
        return;
      }
      removed := Element(map_, index);
      var oldSize := Size(map_);
      NothingMoved(was, index);
      for i := index to oldSize - 1
        invariant Valid() && Moved(was, map_, index, i)
      {
        ghost var m := map_;
        Access(i + 1);
        var next := Element(map_, i + 1);
        Set(i, next);
        MovedStep(was, m, map_, index, i);
      }
      EraseElement(map_, oldSize - 1);
      MovedAll(was, map_, Erase(map_, Index(oldSize - 1)), index);
      map_ := Erase(map_, Index(oldSize - 1));
      Removed(was, map_, index);
    }
  }
}
