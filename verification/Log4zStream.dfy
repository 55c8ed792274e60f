/** `Log4zStream`: formatting into a bounded buffer. */
module Log4zStream {
  import opened Bytes

  // ---- One digit at a time ----

  const LOWER_DIGITS: string := "0123456789abcdef"
  const UPPER_DIGITS: string := "0123456789ABCDEF"

  /** The digit characters of each base: only base 16 is printed in capitals. */
  function DigitChar(base: nat, d: nat): char
    requires d < base <= 16
  {
    if base == 16 then UPPER_DIGITS[d] else LOWER_DIGITS[d]
  }

  function Digits(n: nat, base: nat): (s: string)
    requires 2 <= base <= 16
    ensures s != []
  {
    if n < base then [DigitChar(base, n)] else Digits(n / base, base) + [DigitChar(base, n % base)]
  }

  function Zeros(n: nat): (s: string)
    ensures |s| == n
  {
    seq(n, _ => '0')
  }

  /** Digits with zeros in front up to the width. */
  function Padded(n: nat, width: nat, base: nat): (s: string)
    requires 2 <= base <= 16
  {
    var digits := Digits(n, base);
    (if |digits| < width then Zeros(width - |digits|) else []) + digits
  }

  // ---- The two-digit tables ----

  const DEC_ROWS: seq<string> := [
    "00010203040506070809",
    "10111213141516171819",
    "20212223242526272829",
    "30313233343536373839",
    "40414243444546474849",
    "50515253545556575859",
    "60616263646566676869",
    "70717273747576777879",
    "80818283848586878889",
    "90919293949596979899"]

  const HEX_ROWS: seq<string> := [
    "000102030405060708090A0B0C0D0E0F",
    "101112131415161718191A1B1C1D1E1F",
    "202122232425262728292A2B2C2D2E2F",
    "303132333435363738393A3B3C3D3E3F",
    "404142434445464748494A4B4C4D4E4F",
    "505152535455565758595A5B5C5D5E5F",
    "606162636465666768696A6B6C6D6E6F",
    "707172737475767778797A7B7C7D7E7F",
    "808182838485868788898A8B8C8D8E8F",
    "909192939495969798999A9B9C9D9E9F",
    "A0A1A2A3A4A5A6A7A8A9AAABACADAEAF",
    "B0B1B2B3B4B5B6B7B8B9BABBBCBDBEBF",
    "C0C1C2C3C4C5C6C7C8C9CACBCCCDCECF",
    "D0D1D2D3D4D5D6D7D8D9DADBDCDDDEDF",
    "E0E1E2E3E4E5E6E7E8E9EAEBECEDEEEF",
    "F0F1F2F3F4F5F6F7F8F9FAFBFCFDFEFF"]

  /** The source's `lutDec[m]`; the rows are the lines of its literal. */
  function LutDec(m: nat): char
    requires m < 200
  {
    RowLengths();
    DEC_ROWS[m / 20][m % 20]
  }

  function LutHex(m: nat): char
    requires m < 512
  {
    RowLengths();
    HEX_ROWS[m / 32][m % 32]
  }

  lemma RowLengths()
    ensures |DEC_ROWS| == 10 && forall r :: 0 <= r < 10 ==> |DEC_ROWS[r]| == 20
    ensures |HEX_ROWS| == 16 && forall r :: 0 <= r < 16 ==> |HEX_ROWS[r]| == 32
  {
  }

  function DecRow(c: char): string {
    [c, '0', c, '1', c, '2', c, '3', c, '4', c, '5', c, '6', c, '7', c, '8', c, '9']
  }

  function HexRow(c: char): string {
    [c, '0', c, '1', c, '2', c, '3', c, '4', c, '5', c, '6', c, '7',
     c, '8', c, '9', c, 'A', c, 'B', c, 'C', c, 'D', c, 'E', c, 'F']
  }

  lemma DecRowsAre()
    ensures DEC_ROWS == seq(10, r requires 0 <= r < 10 => DecRow(LOWER_DIGITS[r]))
  {
  }

  lemma HexRowsAre()
    ensures HEX_ROWS == seq(16, r requires 0 <= r < 16 => HexRow(UPPER_DIGITS[r]))
  {
  }
  lemma DecPair(c: char, e: nat)
    requires e < 10
    ensures DecRow(c)[2 * e] == c && DecRow(c)[2 * e + 1] == LOWER_DIGITS[e]
  {
  }

  lemma HexPair(c: char, e: nat)
    requires e < 16
    ensures HexRow(c)[2 * e] == c && HexRow(c)[2 * e + 1] == UPPER_DIGITS[e]
  {
    if e < 8 {
      if e < 4 {
        match e case 0 => case 1 => case 2 => case 3 =>
      } else {
        match e case 4 => case 5 => case 6 => case 7 =>
      }
    } else if e < 12 {
      match e case 8 => case 9 => case 10 => case 11 =>
    } else {
      match e case 12 => case 13 => case 14 => case 15 =>
    }
  }

  lemma LutDecIs(v: nat)
    requires v < 100
    ensures LutDec(2 * v) == DigitChar(10, v / 10) && LutDec(2 * v + 1) == DigitChar(10, v % 10)
  {
    hide DecRow;
    DecRowsAre();
    DecPair(LOWER_DIGITS[v / 10], v % 10);
    assert 2 * v / 20 == v / 10 && 2 * v % 20 == 2 * (v % 10);
    assert (2 * v + 1) / 20 == v / 10 && (2 * v + 1) % 20 == 2 * (v % 10) + 1;
  }

  lemma LutHexIs(v: nat)
    requires v < 256
    ensures LutHex(2 * v) == DigitChar(16, v / 16) && LutHex(2 * v + 1) == DigitChar(16, v % 16)
  {
    hide HexRow;
    HexRowsAre();
    HexPair(UPPER_DIGITS[v / 16], v % 16);
    assert 2 * v / 32 == v / 16 && 2 * v % 32 == 2 * (v % 16);
    assert (2 * v + 1) / 32 == v / 16 && (2 * v + 1) % 32 == 2 * (v % 16) + 1;
  }

  // ---- Two digits at a time ----

  /** What the table loops put in the cache: always an even number of digits. */
  function PairDigits(n: nat, base: nat): (s: string)
    requires base == 10 || base == 16
    ensures |s| >= 2 && |s| % 2 == 0
  {
    var low := n % (base * base);
    var pair := [DigitChar(base, low / base), DigitChar(base, low % base)];
    if n < base * base then pair else PairDigits(n / (base * base), base) + pair
  }

  lemma ZeroDigit(base: nat, d: nat)
    requires d < base <= 16
    ensures DigitChar(base, d) == '0' <==> d == 0
  {
  }

  lemma LowPair(n: nat, base: nat)
    requires base == 10 || base == 16
    ensures var low := n % (base * base); low / base == n / base % base && low % base == n % base
    ensures n / base / base == n / (base * base)
  {
    if base == 10 {
      LowPair10(n);
    } else {
      LowPair16(n);
    }
  }

  lemma Unique100(n: nat, c: nat, r: nat)
    requires r < 100 && n == 100 * c + r
    ensures n / 100 == c && n % 100 == r
  {
  }

  lemma Unique256(n: nat, c: nat, r: nat)
    requires r < 256 && n == 256 * c + r
    ensures n / 256 == c && n % 256 == r
  {
  }

  lemma LowPair10(n: nat)
    ensures n % 100 / 10 == n / 10 % 10 && n % 100 % 10 == n % 10 && n / 10 / 10 == n / 100
  {
    var m, e := n / 10, n % 10;
    var c, d := m / 10, m % 10;
    assert n == 10 * m + e && m == 10 * c + d;
    Unique100(n, c, 10 * d + e);
  }

  lemma LowPair16(n: nat)
    ensures n % 256 / 16 == n / 16 % 16 && n % 256 % 16 == n % 16 && n / 16 / 16 == n / 256
  {
    var m, e := n / 16, n % 16;
    var c, d := m / 16, m % 16;
    assert n == 16 * m + e && m == 16 * c + d;
    Unique256(n, c, 16 * d + e);
  }

  lemma DigitsTwice(n: nat, base: nat)
    requires base <= n && 2 <= base <= 16 && base <= n / base
    ensures Digits(n, base) == Digits(n / base / base, base)
      + [DigitChar(base, n / base % base), DigitChar(base, n % base)]
  {
    hide DigitChar;
    assert Digits(n, base) == Digits(n / base, base) + [DigitChar(base, n % base)];
  }

  lemma PairParts(n: nat, base: nat)
    requires (base == 10 && n < 100) || (base == 16 && n < 256)
    ensures n / base < base && (n >= base <==> n / base > 0) && (n < base ==> n % base == n)
  {
  }

  lemma OnePair(n: nat, base: nat)
    requires (base == 10 && n < 100) || (base == 16 && n < 256)
    ensures n / base < base
    ensures Digits(n, base)
            == if n < base then [DigitChar(base, n % base)] else [DigitChar(base, n / base), DigitChar(base, n % base)]
  {
    hide DigitChar;
    PairParts(n, base);
  }

  lemma QuotientIsZero(n: nat, d: nat)
    requires d > 0
    ensures n / d == 0 <==> n < d
    ensures n < d ==> n % d == n
  {
  }

  lemma PairStep(n: nat, base: nat)
    requires base == 10 || base == 16
    ensures var low := n % (base * base);
            PairDigits(n, base)
            == (if n / (base * base) == 0 then [] else PairDigits(n / (base * base), base))
              + [DigitChar(base, low / base), DigitChar(base, low % base)]
  {
    hide DigitChar;
    QuotientIsZero(n, base * base);
  }

  lemma ThreeDigits(n: nat, base: nat)
    requires (base == 10 && n >= 100) || (base == 16 && n >= 256)
    ensures base <= n && base <= n / base
  {
  }

  lemma StripBefore(s: string, d: string, pair: string)
    requires s != [] && d == if s[0] == '0' then s[1..] else s
    ensures d + pair == if (s + pair)[0] == '0' then (s + pair)[1..] else s + pair
  {
  }

  /** Dropping at most one leading zero, two digits at a time gives what one digit at a time gives. */
  lemma {:induction false} StripPair(n: nat, base: nat)
    requires base == 10 || base == 16
    ensures var s := PairDigits(n, base); Digits(n, base) == if s[0] == '0' then s[1..] else s
  {
    hide DigitChar, Digits, PairDigits;
    LowPair(n, base);
    PairStep(n, base);
    QuotientIsZero(n, base * base);
    if n < base * base {
      OnePair(n, base);
      PairParts(n, base);
      ZeroDigit(base, n / base);
    } else {
      var q := n / (base * base);
      StripPair(q, base);
      ThreeDigits(n, base);
      DigitsTwice(n, base);
      StripBefore(PairDigits(q, base), Digits(q, base), [DigitChar(base, n / base % base), DigitChar(base, n % base)]);
    }
  }

  // ---- How many digits ----

  function Pow2(k: nat): (r: nat)
    ensures r >= 1
  {
    if k == 0 then 1 else 2 * Pow2(k - 1)
  }

  lemma {:induction false} Pow2Add(a: nat, b: nat)
    ensures Pow2(a + b) == Pow2(a) * Pow2(b)
  {
    if a > 0 {
      Pow2Add(a - 1, b);
    }
  }

  lemma Pow2Of4()
    ensures Pow2(4) == 16
  {
    assert Pow2(2) == 4;
  }

  lemma Pow2Of64()
    ensures Pow2(64) == 0x1_0000_0000_0000_0000
  {
    hide Pow2;
    Pow2Of4();
    Pow2Add(4, 4);
    Pow2Add(8, 8);
    Pow2Add(16, 16);
    Pow2Add(32, 32);
  }

  lemma {:induction false} DigitsLength(n: nat, base: nat, k: nat)
    requires 2 <= base <= 16 && 1 <= k && n < Pow2(k)
    ensures |Digits(n, base)| <= k
  {
    hide DigitChar;
    if n >= base {
      Halves(n, base);
      assert k > 1 by { assert Pow2(1) == 2 * Pow2(0); }
      DigitsLength(n / base, base, k - 1);
    }
  }

  lemma Halves(n: nat, base: nat)
    requires 2 <= base
    ensures 2 * (n / base) <= n
  {
    Recompose(n, base);
    AtLeastTwice(n / base, base);
  }

  lemma AtLeastTwice(q: nat, base: nat)
    requires 2 <= base
    ensures 2 * q <= q * base
  {
    assert q * (base - 2) >= 0;
  }

  lemma FitsCache(n: nat, base: nat)
    requires n < 0x1_0000_0000_0000_0000 && 2 <= base <= 16
    ensures |Digits(n, base)| <= 64
    ensures base == 10 || base == 16 ==> |PairDigits(n, base)| <= 64 && |PairDigits(n, base)| % 2 == 0
  {
    hide Pow2, Digits, PairDigits;
    Pow2Of64();
    DigitsLength(n, base, 64);
    if base == 10 || base == 16 {
      StripPair(n, base);
    }
  }

  // ---- What digits denote ----

  function DigitValue(c: char): nat {
    if '0' <= c <= '9' then (c - '0') as int
    else if 'a' <= c <= 'f' then (c - 'a') as int + 10
    else if 'A' <= c <= 'F' then (c - 'A') as int + 10
    else 0
  }

  function Denoted(s: string, base: nat): nat {
    if s == [] then 0 else Denoted(s[..|s| - 1], base) * base + DigitValue(s[|s| - 1])
  }

  lemma DigitRoundTrip(base: nat, d: nat)
    requires d < base <= 16
    ensures DigitValue(DigitChar(base, d)) == d
  {
  }

  lemma {:induction false} DigitsDenote(n: nat, base: nat)
    requires 2 <= base <= 16
    ensures Denoted(Digits(n, base), base) == n
    ensures n > 0 ==> Digits(n, base)[0] != '0'
  {
    hide DigitChar, DigitValue;
    if n < base {
      DigitRoundTrip(base, n);
      ZeroDigit(base, n);
      assert [DigitChar(base, n)][..0] == [];
    } else {
      DigitsDenote(n / base, base);
      DigitRoundTrip(base, n % base);
      var s := Digits(n, base);
      assert s[..|s| - 1] == Digits(n / base, base);
      Recompose(n, base);
    }
  }

  lemma Recompose(n: nat, base: nat)
    requires 2 <= base
    ensures n / base * base + n % base == n && (n >= base ==> n / base > 0)
  {
  }

  lemma PaddedLength(n: nat, width: nat, base: nat)
    requires 2 <= base <= 16
    ensures var k := |Digits(n, base)|; |Padded(n, width, base)| == if k < width then width else k
  {
  }

  /** The digits are 0 to 9 and then letters, capitals in base 16 and small ones in all others. */
  lemma DigitCharIs(base: nat, d: nat)
    requires d < base <= 16
    ensures DigitChar(base, d) as int == if d < 10 then 48 + d else if base == 16 then 55 + d else 87 + d
  {
  }

  lemma {:induction false} ZerosDenoteNothing(k: nat, s: string, base: nat)
    ensures Denoted(Zeros(k) + s, base) == Denoted(s, base)
    decreases k + |s|
  {
    var t := Zeros(k) + s;
    if s != [] {
      ZerosDenoteNothing(k, s[..|s| - 1], base);
      assert t[..|t| - 1] == Zeros(k) + s[..|s| - 1];
    } else if k > 0 {
      ZerosDenoteNothing(k - 1, [], base);
      assert t[..|t| - 1] == Zeros(k - 1) + [] && t[|t| - 1] == '0';
    }
  }

  /** A padded number is as long as the width asks for, or as its digits need, and denotes the number:
      whatever stands in front of its digits adds nothing. */
  lemma PaddedDenotes(n: nat, width: nat, base: nat)
    requires 2 <= base <= 16
    ensures var t := Padded(n, width, base);
            Denoted(t, base) == n && t[|t| - |Digits(n, base)|..] == Digits(n, base)
  {
    hide Denoted, Digits;
    var d := Digits(n, base);
    DigitsDenote(n, base);
    ZerosDenoteNothing(if |d| < width then width - |d| else 0, d, base);
    assert Zeros(0) + d == d;
  }

  // ---- The stream ----

  const CACHE_SIZE: nat := 64
  const MIN_LONG_LONG: int := -0x8000_0000_0000_0000

  lemma SliceSplit(a: array<char>, i: nat, j: nat, k: nat)
    requires i <= j <= k <= a.Length
    ensures a[i..k] == a[i..j] + a[j..k]
  {
  }

  class Log4zStream {
    const buf: array<char>
    const begin_: nat
    const end_: nat
    var cur_: nat

    ghost predicate Valid()
      reads this
    {
      begin_ <= cur_ <= end_ <= buf.Length
    }

    /** What has been written so far. */
    ghost function Contents(): string
      reads this, buf
      requires Valid()
    {
      buf[begin_..cur_]
    }

    /** A stream over `len` bytes of `buf` from `begin` on. */
    constructor (buf: array<char>, begin: nat, len: nat)
      requires begin + len <= buf.Length
      ensures Valid() && this.buf == buf && begin_ == cur_ == begin && end_ == begin + len
      ensures Contents() == []
    {
      this.buf := buf;
      begin_, end_, cur_ := begin, begin + len, begin;
    }

    /** The last byte of the buffer is never taken by a single character. */
    method WriteChar(ch: char)
      requires Valid()
      modifies this`cur_, buf
      ensures Valid()
      ensures Contents() == old(Contents()) + if end_ - old(cur_) > 1 then [ch] else []
      ensures forall k :: 0 <= k < old(cur_) || cur_ <= k < buf.Length ==> buf[k] == old(buf[k])
    {
      if end_ - cur_ > 1 {
        buf[cur_] := ch;
        cur_ := cur_ + 1;
      }
      assert buf[begin_..old(cur_)] == old(buf[begin_..cur_]);
    }

    method WriteString(t: string)
      requires Valid()
      modifies this`cur_, buf
      ensures Valid()
      ensures Contents() == old(Contents()) + t[..Min(|t|, end_ - old(cur_))]
      ensures forall k :: 0 <= k < old(cur_) || cur_ <= k < buf.Length ==> buf[k] == old(buf[k])
    {
      var len := |t|;
      if len > end_ - cur_ {
        len := end_ - cur_;
      }
      forall k | 0 <= k < len {
        buf[cur_ + k] := t[k];
      }
      cur_ := cur_ + len;
      assert buf[begin_..old(cur_)] == old(buf[begin_..cur_]);
      assert buf[old(cur_)..cur_] == t[..len];
      SliceSplit(buf, begin_, old(cur_), cur_);
    }

    /** An unsigned number, padded with zeros to `width`; nothing at all unless more than 64 bytes are
        left. */
    method WriteULongLong(t: uint64, width: nat, dec: nat)
      requires Valid() && 2 <= dec <= 16 && width <= CACHE_SIZE
      modifies this`cur_, buf
      ensures Valid()
      ensures Contents() == old(Contents()) + if end_ - old(cur_) > 64 then Padded(t as int, width, dec) else []
      ensures forall k :: 0 <= k < old(cur_) || cur_ <= k < buf.Length ==> buf[k] == old(buf[k])
    {
      hide Digits;
      if end_ - cur_ > CACHE_SIZE {
        var cache := new char[CACHE_SIZE];
        var digit := FillCache(t, dec, cache);
        digit := PadCache(cache, digit, width);
        PaddedLength(t as int, width, dec);
        WriteString(cache[CACHE_SIZE - digit..]);
      } else {
        assert Contents() + [] == Contents();
      }
    }

    method WriteLongLong(t: int, width: nat, dec: nat)
      requires Valid() && 2 <= dec <= 16 && width <= CACHE_SIZE && MIN_LONG_LONG < t < -MIN_LONG_LONG
      modifies this`cur_, buf
      ensures Valid()
      ensures var sign := if t < 0 && end_ - old(cur_) > 1 then "-" else "";
              Contents() == old(Contents()) + sign
                + if end_ - old(cur_) - |sign| > 64 then Padded(if t < 0 then -t else t, width, dec) else []
      ensures forall k :: 0 <= k < old(cur_) || cur_ <= k < buf.Length ==> buf[k] == old(buf[k])
    {
      var magnitude := t;
      if t < 0 {
        magnitude := -t;
        WriteChar('-');
      } else {
        assert Contents() + [] == Contents();
      }
      WriteULongLong(magnitude as uint64, width, dec);
    }
  }

  /** The digits of `t`, right-aligned in the cache; the result is their number. */
  method FillCache(t: uint64, dec: nat, cache: array<char>) returns (digit: nat)
    requires 2 <= dec <= 16 && cache.Length == CACHE_SIZE
    modifies cache
    ensures digit <= CACHE_SIZE && cache[CACHE_SIZE - digit..] == Digits(t as int, dec)
  {
    FitsCache(t as int, dec);
    if dec == 10 || dec == 16 {
      digit := FillPairs(t, dec, cache);
      StripPair(t as int, dec);
      if digit >= 2 && cache[CACHE_SIZE - digit] == '0' {
        digit := digit - 1;
      }
    } else {
      digit := FillSingles(t, dec, cache);
    }
  }

  lemma DigitsStep(n: nat, base: nat)
    requires 2 <= base <= 16
    ensures Digits(n, base)
            == (if n / base == 0 then [] else Digits(n / base, base)) + [DigitChar(base, n % base)]
  {
    hide DigitChar;
    QuotientIsZero(n, base);
  }

  lemma NextDigit(t: string, val: nat, base: nat, cache: string)
    requires 2 <= base <= 16 && t == Digits(val, base) + cache && |t| <= CACHE_SIZE
    ensures |cache| < CACHE_SIZE
    ensures var c := [DigitChar(base, val % base)] + cache;
            if val / base == 0 then t == c else t == Digits(val / base, base) + c && |c| < CACHE_SIZE
  {
    hide DigitChar, Digits;
    DigitsStep(val, base);
  }

  /** One turn of the plain loop. */
  method StoreDigit(cache: array<char>, i: nat, dec: nat, d: nat)
    requires 1 <= i <= cache.Length && d < dec < 16
    modifies cache
    ensures cache[i - 1..] == [DigitChar(dec, d)] + old(cache[i..])
  {
    hide DigitChar;
    cache[i - 1] := LowerDigit(dec, d);
    assert cache[i..] == old(cache[i..]);
  }

  method FillSingles(t: uint64, dec: nat, cache: array<char>) returns (digit: nat)
    requires 2 <= dec < 16 && cache.Length == CACHE_SIZE && |Digits(t as int, dec)| <= CACHE_SIZE
    modifies cache
    ensures digit <= CACHE_SIZE && cache[CACHE_SIZE - digit..] == Digits(t as int, dec)
  {
    hide DigitChar, Digits, LastDigit, Quotient;
    var val, i := t, CACHE_SIZE;
    digit := 0;
    var again := true;
    ghost var all := Digits(t as int, dec);
    assert all == all + cache[i..];
    while again
      invariant 0 <= i <= CACHE_SIZE && digit == CACHE_SIZE - i
      invariant again ==> all == Digits(val as int, dec) + cache[i..]
      invariant !again ==> all == cache[i..]
      decreases again, val
    {
      ghost var was := cache[i..];
      NextDigit(all, val as int, dec, was);
      StoreDigit(cache, i, dec, LastDigit(val, dec));
      i := i - 1;
      val := Quotient(val, dec);
      digit := digit + 1;
      again := val != 0 && i > 0;
    }
  }

  function LastDigit(val: uint64, base: nat): (d: nat)
    requires 2 <= base <= 16
    ensures d == val as int % base && d < base
  {
    (val % base as uint64) as int
  }

  function Quotient(val: uint64, base: nat): (q: uint64)
    requires 2 <= base <= 16
    ensures q as int == val as int / base && (val != 0 ==> q < val)
  {
    Smaller(val, base);
    val / base as uint64
  }

  lemma Smaller(val: uint64, base: nat)
    requires 2 <= base <= 256
    ensures val == 0 || val / base as uint64 < val
  {
    Halves(val as int, base);
  }

  function LowerDigit(base: nat, d: nat): (c: char)
    requires d < base < 16
    ensures c == DigitChar(base, d)
  {
    LOWER_DIGITS[d]
  }

  lemma NextPair(t: string, val: nat, base: nat, cache: string)
    requires (base == 10 || base == 16) && t == PairDigits(val, base) + cache && |t| <= CACHE_SIZE
    ensures |cache| <= CACHE_SIZE - 2
    ensures var low := val % (base * base);
            var c := [DigitChar(base, low / base), DigitChar(base, low % base)] + cache;
            if val / (base * base) == 0 then t == c
            else t == PairDigits(val / (base * base), base) + c && |c| <= CACHE_SIZE - 2
  {
    hide DigitChar, PairDigits;
    PairStep(val, base);
  }

  /** One entry of the table for the base. */
  function Lut(dec: nat, m: nat): char
    requires (dec == 10 && m < 200) || (dec == 16 && m < 512)
  {
    if dec == 10 then LutDec(m) else LutHex(m)
  }

  lemma LutIs(dec: nat, v: nat)
    requires (dec == 10 && v < 100) || (dec == 16 && v < 256)
    ensures Lut(dec, 2 * v) == DigitChar(dec, v / dec) && Lut(dec, 2 * v + 1) == DigitChar(dec, v % dec)
  {
    hide LutDec, LutHex, DigitChar;
    if dec == 10 {
      LutDecIs(v);
    } else {
      LutHexIs(v);
    }
  }

  /** One turn of a table loop. */
  method StorePair(cache: array<char>, i: nat, dec: nat, v: nat)
    requires 2 <= i <= cache.Length && ((dec == 10 && v < 100) || (dec == 16 && v < 256))
    modifies cache
    ensures cache[i - 2..] == [DigitChar(dec, v / dec), DigitChar(dec, v % dec)] + old(cache[i..])
  {
    hide Lut, DigitChar;
    LutIs(dec, v);
    var m2 := v * 2;
    cache[i - 1] := Lut(dec, m2 + 1);
    cache[i - 2] := Lut(dec, m2);
    assert cache[i..] == old(cache[i..]);
  }

  method FillPairs(t: uint64, dec: nat, cache: array<char>) returns (digit: nat)
    requires (dec == 10 || dec == 16) && cache.Length == CACHE_SIZE && |PairDigits(t as int, dec)| <= CACHE_SIZE
    modifies cache
    ensures digit <= CACHE_SIZE && cache[CACHE_SIZE - digit..] == PairDigits(t as int, dec)
  {
    hide DigitChar, PairDigits;
    var square: uint64 := if dec == 10 then 100 else 256;
    var val, i := t, CACHE_SIZE;
    digit := 0;
    var again := true;
    ghost var all := PairDigits(t as int, dec);
    assert all == all + cache[i..];
    while again
      invariant 0 <= i <= CACHE_SIZE && digit == CACHE_SIZE - i
      invariant again ==> all == PairDigits(val as int, dec) + cache[i..]
      invariant !again ==> all == cache[i..]
      decreases again, val
    {
      NextPair(all, val as int, dec, cache[i..]);
      StorePair(cache, i, dec, (val % square) as int);
      i := i - 2;
      Smaller(val, square as int);
      val := val / square;
      digit := digit + 2;
      again := val != 0 && i >= 2;
    }
  }

  /** One turn of the padding loop. */
  method StoreZero(cache: array<char>, i: nat)
    requires 1 <= i <= cache.Length
    modifies cache
    ensures cache[i - 1..] == ['0'] + old(cache[i..])
  {
    cache[i - 1] := '0';
    assert cache[i..] == old(cache[i..]);
  }

  lemma NoZeros()
    ensures Zeros(0) == []
  {
  }

  lemma OneMoreZero(n: nat, rest: string)
    ensures ['0'] + (Zeros(n) + rest) == Zeros(n + 1) + rest
  {
    assert Zeros(n + 1) == ['0'] + Zeros(n);
  }

  method PadCache(cache: array<char>, digits: nat, width: nat) returns (digit: nat)
    requires cache.Length == CACHE_SIZE && digits <= CACHE_SIZE && width <= CACHE_SIZE
    modifies cache
    ensures digit <= CACHE_SIZE
    ensures cache[CACHE_SIZE - digit..]
            == (if digits < width then Zeros(width - digits) else []) + old(cache[CACHE_SIZE - digits..])
  {
    hide Zeros;
    digit := digits;
    ghost var was := cache[CACHE_SIZE - digits..];
    NoZeros();
    assert [] + was == was;
    while digit < width
      invariant digits <= digit <= CACHE_SIZE && (digit <= width || digit == digits)
      invariant cache[CACHE_SIZE - digit..] == Zeros(digit - digits) + was
    {
      StoreZero(cache, CACHE_SIZE - digit);
      digit := digit + 1;
      OneMoreZero(digit - 1 - digits, was);
    }
  }
}
