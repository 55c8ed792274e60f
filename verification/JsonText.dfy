/** The JSON grammar of RFC 8259 as a tree of what may be written, with every choice of white space,
    escape and number form, and the value that each text denotes. */
module JsonText {
  import opened Bytes
  import opened Utf8
  import opened JsonValue
  import opened JsonMap
  import opened JsonGrammar
  import opened JsonNormal

  // ---- Strings (section 7) ----

  /** One character of a string: as it is, as a two-character escape, as four hexadecimal digits, or as a
      surrogate pair of them. */
  datatype CharText =
    | Raw(b: byte)
    | Short(letter: byte)
    | Hex(digits: bytes)
    | Pair(high: bytes, low: bytes)

  /** Where the byte `c` stands in `s`, or the length of `s`. */
  function Position(s: string, c: byte): (k: nat)
    ensures k <= |s| && (k < |s| ==> s[k] as int == c)
  {
    if s == [] then 0 else if s[0] as int == c then 0 else 1 + Position(s[1..], c)
  }

  const LOWER_HEX: string := "0123456789abcdef"
  const UPPER_HEX: string := "0123456789ABCDEF"

  /** The value of a hexadecimal digit, small or capital; 16 for any other byte. */
  function HexMeaning(c: byte): (v: nat)
    ensures v <= 16
  {
    if Position(LOWER_HEX, c) < 16 then Position(LOWER_HEX, c) else Position(UPPER_HEX, c)
  }

  predicate ValidHex(d: bytes) {
    |d| == 4 && forall k :: 0 <= k < 4 ==> HexMeaning(d[k]) < 16
  }

  function HexNumber(d: bytes): (n: nat)
    requires ValidHex(d)
    ensures n < 0x1_0000
  {
    HexMeaning(d[0]) * 4096 + HexMeaning(d[1]) * 256 + HexMeaning(d[2]) * 16 + HexMeaning(d[3])
  }

  /** The letters of the two-character escapes, and what each stands for: quotation mark, reverse solidus,
      solidus, backspace, form feed, line feed, carriage return, tab. */
  const SHORT_LETTERS: string := "\"\\/bfnrt"
  const SHORT_MEANINGS: bytes := [0x22, 0x5C, 0x2F, 0x08, 0x0C, 0x0A, 0x0D, 0x09]

  predicate ValidShort(letter: byte) {
    Position(SHORT_LETTERS, letter) < 8
  }

  function ShortMeaning(letter: byte): byte
    requires ValidShort(letter)
  {
    SHORT_MEANINGS[Position(SHORT_LETTERS, letter)]
  }

  /** An unpaired high surrogate denotes no character. */
  predicate ValidChar(c: CharText) {
    match c
    case Raw(b) => b != 0x22 && b != 0x5C
    case Short(letter) => ValidShort(letter)
    case Hex(digits) => ValidHex(digits) && !(0xD800 <= HexNumber(digits) <= 0xDBFF)
    case Pair(high, low) =>
      && ValidHex(high) && 0xD800 <= HexNumber(high) <= 0xDBFF
      && ValidHex(low) && 0xDC00 <= HexNumber(low) <= 0xDFFF
  }

  function CharBytes(c: CharText): bytes {
    match c
    case Raw(b) => [b]
    case Short(letter) => [0x5C, letter]
    case Hex(digits) => [0x5C, 0x75] + digits
    case Pair(high, low) => ([0x5C, 0x75] + high) + ([0x5C, 0x75] + low)
  }

  function CharDenoted(c: CharText): bytes
    requires ValidChar(c)
  {
    match c
    case Raw(b) => [b]
    case Short(letter) => [ShortMeaning(letter)]
    case Hex(digits) => CodePointToUtf8(HexNumber(digits))
    case Pair(high, low) =>
      CodePointToUtf8(0x10000 + (HexNumber(high) - 0xD800) * 1024 + (HexNumber(low) - 0xDC00))
  }

  predicate ValidChars(cs: seq<CharText>) {
    forall k :: 0 <= k < |cs| ==> ValidChar(cs[k])
  }

  function CharsBytes(cs: seq<CharText>): bytes {
    if cs == [] then [] else CharBytes(cs[0]) + CharsBytes(cs[1..])
  }

  function CharsDenoted(cs: seq<CharText>): bytes
    requires ValidChars(cs)
  {
    if cs == [] then [] else CharDenoted(cs[0]) + CharsDenoted(cs[1..])
  }

  function StringBytes(cs: seq<CharText>): bytes {
    [0x22] + (CharsBytes(cs) + [0x22])
  }

  // ---- Numbers (section 6) ----

  datatype Exponent = Exponent(mark: byte, sign: bytes, digits: bytes)

  datatype NumberText = NumberText(minus: bool, digits: bytes, fraction: Option<bytes>, exponent: Option<Exponent>)

  predicate SomeDigits(d: bytes) {
    d != [] && forall k :: 0 <= k < |d| ==> 0x30 <= d[k] <= 0x39
  }

  function TenTo(k: nat): nat {
    if k == 0 then 1 else 10 * TenTo(k - 1)
  }

  /** The number that decimal digits denote, the first one counting most. */
  function DecimalMeaning(d: bytes): nat
    requires forall k :: 0 <= k < |d| ==> 0x30 <= d[k] <= 0x39
  {
    if d == [] then 0 else (d[0] - 0x30) * TenTo(|d| - 1) + DecimalMeaning(d[1..])
  }

  predicate IsSign(s: bytes) {
    s == [] || (|s| == 1 && (s[0] == 0x2B || s[0] == 0x2D))
  }

  /** No leading zeros, and at least one digit in each part that is there. */
  predicate ValidNumber(n: NumberText) {
    && SomeDigits(n.digits) && (n.digits[0] == 0x30 ==> |n.digits| == 1)
    && (n.fraction.Some? ==> SomeDigits(n.fraction.value))
    && (n.exponent.Some? ==>
          var e := n.exponent.value;
          (e.mark == 0x65 || e.mark == 0x45) && IsSign(e.sign) && SomeDigits(e.digits))
  }

  function FractionBytes(f: Option<bytes>): bytes {
    if f.Some? then [0x2E] + f.value else []
  }

  function ExponentBytes(e: Option<Exponent>): bytes {
    if e.Some? then [e.value.mark] + (e.value.sign + e.value.digits) else []
  }

  function NumberBytes(n: NumberText): bytes {
    (if n.minus then [0x2D] else []) + (n.digits + (FractionBytes(n.fraction) + ExponentBytes(n.exponent)))
  }

  /** An integer that fits 64 bits. */
  predicate IsInteger(n: NumberText)
    requires ValidNumber(n)
  {
    && n.fraction.None? && n.exponent.None?
    && DecimalMeaning(n.digits) <= if n.minus then 0x8000_0000_0000_0000 else 0xFFFF_FFFF_FFFF_FFFF
  }

  /** An integer above 2^31 - 1 is unsigned; everything else is what the C library makes of the token. */
  function NumberDenoted(scan: RealScanner, n: NumberText): Value
    requires ValidNumber(n) && (IsInteger(n) || scan(NumberBytes(n)).Some?)
  {
    if !IsInteger(n) then Real(scan(NumberBytes(n)).value)
    else if n.minus then Int(-(DecimalMeaning(n.digits) as int))
    else if DecimalMeaning(n.digits) <= 0x7FFF_FFFF then Int(DecimalMeaning(n.digits))
    else UInt(DecimalMeaning(n.digits))
  }

  // ---- Values (sections 2 to 5) ----

  datatype Text =
    | NullText
    | TrueText
    | FalseText
    | Number(n: NumberText)
    | StringText(cs: seq<CharText>)
    | ArrayText(elements: seq<Spaced>, blank: bytes)
    | ObjectText(members: seq<Member>, blank: bytes)

  /** A value with the white space around it. */
  datatype Spaced = Spaced(before: bytes, text: Text, after: bytes)

  datatype Member = Member(before: bytes, name: seq<CharText>, after: bytes, value: Spaced)

  /** A space, a tab, a line feed or a carriage return. */
  predicate BlankByte(c: byte) {
    c == 0x20 || c == 0x09 || c == 0x0A || c == 0x0D
  }

  predicate Blank(ws: bytes) {
    forall k :: 0 <= k < |ws| ==> BlankByte(ws[k])
  }

  ghost predicate ValidText(scan: RealScanner, t: Text) {
    match t
    case Number(n) => ValidNumber(n) && (IsInteger(n) || scan(NumberBytes(n)).Some?)
    case StringText(cs) => ValidChars(cs)
    case ArrayText(es, blank) => Blank(blank) && forall i :: 0 <= i < |es| ==> ValidSpaced(scan, es[i])
    case ObjectText(ms, blank) => Blank(blank) && forall i :: 0 <= i < |ms| ==> ValidMember(scan, ms[i])
    case _ => true
  }

  ghost predicate ValidSpaced(scan: RealScanner, s: Spaced) {
    Blank(s.before) && Blank(s.after) && ValidText(scan, s.text)
  }

  ghost predicate ValidMember(scan: RealScanner, m: Member) {
    Blank(m.before) && ValidChars(m.name) && Blank(m.after) && ValidSpaced(scan, m.value)
  }

  function TextBytes(t: Text): bytes
    decreases t, 1, 0
  {
    match t
    case NullText => [0x6E, 0x75, 0x6C, 0x6C]
    case TrueText => [0x74, 0x72, 0x75, 0x65]
    case FalseText => [0x66, 0x61, 0x6C, 0x73, 0x65]
    case Number(n) => NumberBytes(n)
    case StringText(cs) => StringBytes(cs)
    case ArrayText(es, blank) => [0x5B] + (if es == [] then blank + [0x5D] else ElementsBytes(t, 0))
    case ObjectText(ms, blank) => [0x7B] + (if ms == [] then blank + [0x7D] else MembersBytes(t, 0))
  }

  /** Element `i` and everything up to the closing bracket. */
  function ElementsBytes(t: Text, i: nat): bytes
    requires t.ArrayText? && i < |t.elements|
    decreases t, 0, |t.elements| - i, 0
  {
    var e := t.elements[i];
    e.before + (TextBytes(e.text) + (e.after + ElementsTail(t, i)))
  }

  /** What follows element `i` and its white space. */
  function ElementsTail(t: Text, i: nat): bytes
    requires t.ArrayText? && i < |t.elements|
    decreases t, 0, |t.elements| - i - 1, 1
  {
    if i + 1 < |t.elements| then [0x2C] + ElementsBytes(t, i + 1) else [0x5D]
  }

  function MembersBytes(t: Text, i: nat): bytes
    requires t.ObjectText? && i < |t.members|
    decreases t, 0, |t.members| - i, 0
  {
    var m := t.members[i];
    m.before + (StringBytes(m.name) + (m.after + ([0x3A] + MemberValueBytes(t, i))))
  }

  /** What follows the colon of member `i`. */
  function MemberValueBytes(t: Text, i: nat): bytes
    requires t.ObjectText? && i < |t.members|
    decreases t, 0, |t.members| - i - 1, 2
  {
    var v := t.members[i].value;
    v.before + (TextBytes(v.text) + (v.after + MembersTail(t, i)))
  }

  function MembersTail(t: Text, i: nat): bytes
    requires t.ObjectText? && i < |t.members|
    decreases t, 0, |t.members| - i - 1, 1
  {
    if i + 1 < |t.members| then [0x2C] + MembersBytes(t, i + 1) else [0x7D]
  }

  /** The value a text denotes. Of members with the same name the last one counts. */
  ghost function Denoted(scan: RealScanner, t: Text): Value
    requires ValidText(scan, t)
    decreases t, 1, 0
  {
    match t
    case NullText => Null
    case TrueText => Bool(true)
    case FalseText => Bool(false)
    case Number(n) => NumberDenoted(scan, n)
    case StringText(cs) => String(CharsDenoted(cs))
    case ArrayText(es, _) => Array(ElementsDenoted(scan, t, |es|))
    case ObjectText(ms, _) => Object(MembersDenoted(scan, t, |ms|))
  }

  /** The first `i` elements, in order. */
  ghost function ElementsDenoted(scan: RealScanner, t: Text, i: nat): (m: ObjectValues)
    requires ValidText(scan, t) && t.ArrayText? && i <= |t.elements|
    ensures |m| == i && forall k :: 0 <= k < i ==> m[k].key == Index(k)
    decreases t, 0, i
  {
    if i == 0 then []
    else
      var e := t.elements[i - 1];
      assert ValidSpaced(scan, e);
      ElementsDenoted(scan, t, i - 1) + [Entry(Index(i - 1), Denoted(scan, e.text))]
  }

  /** The first `i` members. */
  ghost function MembersDenoted(scan: RealScanner, t: Text, i: nat): ObjectValues
    requires ValidText(scan, t) && t.ObjectText? && i <= |t.members|
    decreases t, 0, i
  {
    if i == 0 then []
    else
      var m := t.members[i - 1];
      assert ValidMember(scan, m) && ValidSpaced(scan, m.value);
      Assign(MembersDenoted(scan, t, i - 1), Name(CharsDenoted(m.name)), Denoted(scan, m.value.text))
  }

  /** How many levels of values there are. */
  function Height(t: Text): (d: nat)
    ensures d >= 1
    decreases t, 1, 0
  {
    match t
    case ArrayText(_, _) => 1 + ElementsHeight(t, 0)
    case ObjectText(_, _) => 1 + MembersHeight(t, 0)
    case _ => 1
  }

  function ElementsHeight(t: Text, i: nat): nat
    requires t.ArrayText? && i <= |t.elements|
    decreases t, 0, |t.elements| - i
  {
    if i == |t.elements| then 0 else Max(Height(t.elements[i].text), ElementsHeight(t, i + 1))
  }

  function MembersHeight(t: Text, i: nat): nat
    requires t.ObjectText? && i <= |t.members|
    decreases t, 0, |t.members| - i
  {
    if i == |t.members| then 0 else Max(Height(t.members[i].value.text), MembersHeight(t, i + 1))
  }
}
