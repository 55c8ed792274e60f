/** Integers of the JSON library: printing into a fixed buffer and decoding without overflow. */
module JsonNumber {
  import opened Bytes

  const MAX_INT: int := 0x7FFF_FFFF
  const MAX_LARGEST_INT: int := 0x7FFF_FFFF_FFFF_FFFF
  const MIN_LARGEST_INT: int := -0x8000_0000_0000_0000
  const MAX_LARGEST_UINT: int := 0xFFFF_FFFF_FFFF_FFFF

  const MINUS: byte := 0x2D
  const ZERO: byte := 0x30

  // ---- What digits mean ----

  predicate Digit(b: byte) {
    0x30 <= b <= 0x39
  }

  predicate AllDigits(t: bytes) {
    forall k :: 0 <= k < |t| ==> Digit(t[k])
  }

  /** The number a digit string denotes in base ten; the empty string denotes 0. */
  function DecValue(t: bytes): nat
    requires AllDigits(t)
  {
    if t == [] then 0 else DecValue(t[..|t| - 1]) * 10 + (t[|t| - 1] - ZERO)
  }

  predicate Negative(t: bytes) {
    t != [] && t[0] == MINUS
  }

  function Magnitude(t: bytes): bytes {
    if Negative(t) then t[1..] else t
  }

  /** The largest magnitude that fits: 2^63 below zero, 2^64 - 1 above. */
  function MaxMagnitude(negative: bool): nat {
    if negative then MAX_LARGEST_INT + 1 else MAX_LARGEST_UINT
  }

  /** The tokens that denote an integer of 64 bits: an optional minus, then only digits. */
  predicate DenotesInteger(t: bytes) {
    AllDigits(Magnitude(t)) && DecValue(Magnitude(t)) <= MaxMagnitude(Negative(t))
  }

  function IntegerValue(t: bytes): int
    requires DenotesInteger(t)
  {
    var magnitude: int := DecValue(Magnitude(t));
    if Negative(t) then -magnitude else magnitude
  }

  /** The payload the reader chooses for a number token. */
  datatype Number = IntNumber(i: int) | UIntNumber(u: nat) | NotAnInteger

  /** Integers above 2^31 - 1 become unsigned. */
  function ReaderInteger(v: int): Number {
    if v <= MAX_INT then IntNumber(v) else UIntNumber(v)
  }

  function DecodeInteger(t: bytes): Number {
    if DenotesInteger(t) then ReaderInteger(IntegerValue(t)) else NotAnInteger
  }

  // ---- decodeNumber ----

  lemma DecValueStep(t: bytes, k: nat)
    requires k < |t| && AllDigits(t[..k]) && Digit(t[k])
    ensures AllDigits(t[..k + 1])
    ensures DecValue(t[..k + 1]) == DecValue(t[..k]) * 10 + (t[k] - ZERO)
  {
    assert t[..k + 1][..k] == t[..k];
  }

  lemma {:induction false} DecValueGrows(t: bytes, k: nat)
    requires k <= |t| && AllDigits(t)
    ensures DecValue(t[..k]) <= DecValue(t)
    decreases |t|
  {
    if k < |t| {
      assert t[..|t| - 1][..k] == t[..k];
      DecValueGrows(t[..|t| - 1], k);
    } else {
      assert t[..k] == t;
    }
  }

  /** A prefix already too large to extend: the whole digit string exceeds the maximum. */
  lemma TooLarge(t: bytes, k: nat, max: nat)
    requires k < |t| && AllDigits(t) && max >= 100
    requires var v, digit := DecValue(t[..k]), t[k] - ZERO;
             v > max / 10 || (v == max / 10 && (k + 1 < |t| || digit > max % 10))
    ensures DecValue(t) > max
  {
    var v, digit := DecValue(t[..k]), t[k] - ZERO;
    DecValueStep(t, k);
    DecValueGrows(t, k + 1);
    if v == max / 10 && digit <= max % 10 {
      DecValueStep(t, k + 1);
      DecValueGrows(t, k + 2);
    }
  }

  /** The digit loop on the text of a number token. All arithmetic is on 64-bit unsigned words, so
      verifying it shows that nothing wraps. */
  method DecodeNumberLoop(token: bytes) returns (decoded: Number)
    requires token != []
    ensures decoded == DecodeInteger(token)
  {
    var current := 0;
    var isNegative := token[0] == MINUS;
    if isNegative {
      current := current + 1;
    }
    ghost var digits := Magnitude(token);
    ghost var first := current;
    var maxIntegerValue: uint64 := if isNegative then 0x8000_0000_0000_0000 else 0xFFFF_FFFF_FFFF_FFFF;
    var threshold: uint64 := maxIntegerValue / 10;
    var value: uint64 := 0;
    while current < |token|
      invariant first <= current <= |token|
      invariant AllDigits(digits[..current - first])
      invariant value as int == DecValue(digits[..current - first])
      invariant value <= maxIntegerValue
    {
      var c := token[current];
      assert c == digits[current - first];
      current := current + 1;
      if c < 0x30 || c > 0x39 {
        return NotAnInteger;
      }
      var digit := (c - ZERO) as uint64;
      if value >= threshold {
        if value > threshold || current != |token| || digit > maxIntegerValue % 10 {
          if AllDigits(digits) {
            TooLarge(digits, current - first - 1, maxIntegerValue as int);
          }
          return NotAnInteger;
        }
      }
      DecValueStep(digits, current - first - 1);
      value := value * 10 + digit;
    }
    assert digits[..current - first] == digits;
    if isNegative && value == maxIntegerValue {
      return IntNumber(MIN_LARGEST_INT);
    } else if isNegative {
      return IntNumber(-(value as int));
    } else if value <= 0x7FFF_FFFF {
      return IntNumber(value as int);
    } else {
      return UIntNumber(value as int);
    }
  }

  // ---- valueToString ----

  const UINT_TO_STRING_BUFFER_SIZE: nat := 25

  /** Decimal digits, most significant first. */
  function Decimal(n: nat): (t: bytes)
    ensures t != []
  {
    if n < 10 then [ZERO + n] else Decimal(n / 10) + [ZERO + n % 10]
  }

  function SignedDecimal(v: int): bytes {
    if v < 0 then [MINUS] + Decimal(-v) else Decimal(v)
  }

  function Pow10(k: nat): nat {
    if k == 0 then 1 else 10 * Pow10(k - 1)
  }

  lemma {:induction false} DecimalLength(n: nat, k: nat)
    requires 0 < k && n < Pow10(k)
    ensures |Decimal(n)| <= k
  {
    if n >= 10 {
      assert Pow10(k) == 10 * Pow10(k - 1);
      assert Pow10(0) == 1;
      DecimalLength(n / 10, k - 1);
    }
  }

  lemma TwentyDigits(n: nat)
    requires n <= MAX_LARGEST_UINT
    ensures |Decimal(n)| <= 20
  {
    assert Pow10(5) == 100000 by { assert Pow10(3) == 1000; }
    assert Pow10(10) == 10000000000 by { assert Pow10(8) == 100000000 by { assert Pow10(6) == 1000000; } }
    assert Pow10(15) == 1000000000000000 by {
      assert Pow10(13) == 10000000000000 by { assert Pow10(11) == 100000000000; }
    }
    assert Pow10(20) == 100000000000000000000 by {
      assert Pow10(18) == 1000000000000000000 by { assert Pow10(16) == 10000000000000000; }
    }
    DecimalLength(n, 20);
  }

  lemma {:induction false} DecimalDenotes(n: nat)
    ensures AllDigits(Decimal(n)) && DecValue(Decimal(n)) == n
  {
    var t := Decimal(n);
    if n < 10 {
      assert t[..0] == [];
      assert DecValue(t) == DecValue(t[..0]) * 10 + n;
    } else {
      DecimalDenotes(n / 10);
      assert t[..|t| - 1] == Decimal(n / 10);
    }
  }

  /** Writes the digits of `value` and a NUL backwards, ending just below `current`. */
  method UIntToString(value: uint64, buffer: array<byte>, current: nat) returns (start: nat)
    requires 21 <= current <= buffer.Length
    modifies buffer
    ensures current - 21 <= start < current && buffer[current - 1] == 0
    ensures buffer[start..current - 1] == Decimal(value as int)
    ensures forall k :: 0 <= k < start || current <= k < buffer.Length ==> buffer[k] == old(buffer[k])
  {
    TwentyDigits(value as int);
    start := current - 1;
    buffer[start] := 0;
    var rest := value;
    start := start - 1;
    buffer[start] := (rest % 10) as int + ZERO;
    rest := rest / 10;
    assert buffer[start..current - 1] == [ZERO + (value % 10) as int];
    while rest != 0
      invariant current - 21 <= start < current - 1
      invariant rest == 0 ==> Decimal(value as int) == buffer[start..current - 1]
      invariant rest != 0 ==> Decimal(value as int) == Decimal(rest as int) + buffer[start..current - 1]
      invariant buffer[current - 1] == 0
      invariant forall k :: 0 <= k < start || current <= k < buffer.Length ==> buffer[k] == old(buffer[k])
      decreases rest
    {
      assert |Decimal(rest as int)| >= 1;
      ghost var was := buffer[start..current - 1];
      start := start - 1;
      buffer[start] := (rest % 10) as int + ZERO;
      assert buffer[start..current - 1] == [ZERO + (rest % 10) as int] + was;
      rest := rest / 10;
    }
  }

  /** Printing a signed 64-bit value; the minimum is printed through its unsigned magnitude. */
  method LargestIntToString(value: int) returns (s: bytes)
    requires MIN_LARGEST_INT <= value <= MAX_LARGEST_INT
    ensures s == SignedDecimal(value)
  {
    hide Decimal;
    var buffer := new byte[UINT_TO_STRING_BUFFER_SIZE];
    var current := buffer.Length;
    if value == MIN_LARGEST_INT {
      var magnitude: uint64 := MAX_LARGEST_INT as uint64 + 1;
      current := UIntToString(magnitude, buffer, current);
      current := current - 1;
      buffer[current] := MINUS;
    } else if value < 0 {
      current := UIntToString((-value) as uint64, buffer, current);
      current := current - 1;
      buffer[current] := MINUS;
    } else {
      current := UIntToString(value as uint64, buffer, current);
    }
    s := buffer[current..buffer.Length - 1];
  }

  method LargestUIntToString(value: uint64) returns (s: bytes)
    ensures s == SignedDecimal(value as int)
  {
    var buffer := new byte[UINT_TO_STRING_BUFFER_SIZE];
    var current := UIntToString(value, buffer, buffer.Length);
    s := buffer[current..buffer.Length - 1];
  }

  // ---- Laws ----

  /** Printing and decoding are inverse on every value of 64 bits, signed or unsigned. */
  lemma IntegerRoundTrip(v: int)
    requires MIN_LARGEST_INT <= v <= MAX_LARGEST_UINT
    ensures DecodeInteger(SignedDecimal(v)) == ReaderInteger(v)
  {
    if v < 0 {
      DecimalDenotes(-v);
      assert Magnitude(SignedDecimal(v)) == Decimal(-v);
    } else {
      DecimalDenotes(v);
      assert Digit(Decimal(v)[0]);
    }
  }
}
