/** Octets and the fixed-width integers of the source. */
module Bytes {
  datatype Option<T> = None | Some(value: T)

  type byte = x: int | 0 <= x < 256
  type bytes = seq<byte>

  newtype uint64 = x: int | 0 <= x < 0x1_0000_0000_0000_0000

  /** The value of a `char` on x86 Linux, where `char` is signed. */
  function SignedChar(b: byte): int {
    if b < 128 then b else b - 256
  }

  /** A value stored in a 32-bit signed `int`: the low 32 bits in two's complement. */
  function ToInt32(x: int): int {
    var low := x % 0x1_0000_0000;
    if low < 0x8000_0000 then low else low - 0x1_0000_0000
  }

  /** The bytes `s` stand in `doc` at position `p`. */
  ghost predicate At(doc: bytes, p: nat, s: bytes) {
    p + |s| <= |doc| && doc[p..p + |s|] == s
  }

  lemma AtSplit(doc: bytes, p: nat, a: bytes, b: bytes)
    requires At(doc, p, a + b)
    ensures At(doc, p, a) && At(doc, p + |a|, b)
  {
    assert doc[p..p + |a|] == doc[p..p + |a + b|][..|a|];
    assert doc[p + |a|..p + |a| + |b|] == doc[p..p + |a + b|][|a|..];
  }

  // ---- memcmp and the length-then order used for strings and member names ----

  /** `memcmp` over two buffers of the same length: the sign of the first differing byte. */
  function MemCmp(a: bytes, b: bytes): int
    requires |a| == |b|
  {
    if a == [] then 0
    else if a[0] != b[0] then a[0] - b[0]
    else MemCmp(a[1..], b[1..])
  }

  function Min(a: nat, b: nat): nat {
    if a < b then a else b
  }

  /** The comparison that strings and object keys share: `memcmp` on the common length, then length. */
  predicate BytesLess(a: bytes, b: bytes) {
    var n := Min(|a|, |b|);
    var comp := MemCmp(a[..n], b[..n]);
    if comp < 0 then true
    else if comp > 0 then false
    else |a| < |b|
  }

  /** Dictionary order, one byte at a time. */
  predicate LexLess(a: bytes, b: bytes) {
    if b == [] then false
    else if a == [] then true
    else if a[0] != b[0] then a[0] < b[0]
    else LexLess(a[1..], b[1..])
  }

  /** The first difference decides: a smaller byte, or the end of the string. */
  ghost predicate DiffersAt(a: bytes, b: bytes, k: nat) {
    && k <= |a| && k < |b| && a[..k] == b[..k]
    && (k < |a| ==> a[k] < b[k])
  }

  lemma {:induction false} LexLessDiffers(a: bytes, b: bytes) returns (k: nat)
    requires LexLess(a, b)
    ensures DiffersAt(a, b, k)
  {
    if a == [] || a[0] != b[0] {
      k := 0;
    } else {
      var j := LexLessDiffers(a[1..], b[1..]);
      k := j + 1;
      assert a[..k] == [a[0]] + a[1..][..j] && b[..k] == [b[0]] + b[1..][..j];
    }
  }

  lemma {:induction false} DiffersLexLess(a: bytes, b: bytes, k: nat)
    requires DiffersAt(a, b, k)
    ensures LexLess(a, b)
    decreases k
  {
    if k > 0 {
      assert a[0] == a[..k][0] && b[0] == b[..k][0];
      assert a[1..][..k - 1] == a[..k][1..] && b[1..][..k - 1] == b[..k][1..];
      DiffersLexLess(a[1..], b[1..], k - 1);
    }
  }

  /** The library's comparison of byte strings is dictionary order. */
  lemma FirstDifference(a: bytes, b: bytes)
    ensures BytesLess(a, b) <==> exists k :: DiffersAt(a, b, k)
  {
    hide BytesLess, LexLess, DiffersAt;
    BytesLessIsLexLess(a, b);
    if LexLess(a, b) {
      var k := LexLessDiffers(a, b);
    }
    forall k | DiffersAt(a, b, k)
      ensures LexLess(a, b)
    {
      DiffersLexLess(a, b, k);
    }
  }

  lemma {:induction false} BytesLessIsLexLess(a: bytes, b: bytes)
    ensures BytesLess(a, b) <==> LexLess(a, b)
  {
    if a != [] && b != [] && a[0] == b[0] {
      BytesLessIsLexLess(a[1..], b[1..]);
      var n := Min(|a|, |b|);
      assert a[..n][1..] == a[1..][..n - 1];
      assert b[..n][1..] == b[1..][..n - 1];
    }
  }

  lemma {:induction false} LexLessTotal(a: bytes, b: bytes)
    ensures !(LexLess(a, b) && LexLess(b, a))
    ensures !LexLess(a, b) && !LexLess(b, a) <==> a == b
  {
    if a != [] && b != [] {
      LexLessTotal(a[1..], b[1..]);
      if a[0] == b[0] && a[1..] == b[1..] {
        assert a == [a[0]] + a[1..] && b == [b[0]] + b[1..];
      }
    }
  }

  lemma {:induction false} LexLessTransitive(a: bytes, b: bytes, c: bytes)
    requires LexLess(a, b) && LexLess(b, c)
    ensures LexLess(a, c)
  {
    if a != [] && a[0] == b[0] == c[0] {
      LexLessTransitive(a[1..], b[1..], c[1..]);
    }
  }

  /** `BytesLess` is a strict total order on byte strings. */
  lemma BytesOrder(a: bytes, b: bytes, c: bytes)
    ensures !BytesLess(a, a)
    ensures !(BytesLess(a, b) && BytesLess(b, a))
    ensures !BytesLess(a, b) && !BytesLess(b, a) <==> a == b
    ensures BytesLess(a, b) && BytesLess(b, c) ==> BytesLess(a, c)
  {
    BytesLessIsLexLess(a, a);
    BytesLessIsLexLess(a, b);
    BytesLessIsLexLess(b, a);
    BytesLessIsLexLess(b, c);
    BytesLessIsLexLess(a, c);
    LexLessTotal(a, a);
    LexLessTotal(a, b);
    if LexLess(a, b) && LexLess(b, c) {
      LexLessTransitive(a, b, c);
    }
  }
}
