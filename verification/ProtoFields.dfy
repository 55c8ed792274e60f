/** The login messages as sequences of numbered fields, the way any reader of the encoding sees them. */
module ProtoFields {
  import opened Bytes
  import opened Utf8
  import opened ProtoWire
  import opened ProtoLogin

  // ---- Varints ----

  /** Seven bits a byte, the first byte counting least. */
  function Groups(s: bytes): nat {
    if s == [] then 0 else (if s[0] < 0x80 then s[0] else s[0] - 0x80) + 0x80 * Groups(s[1..])
  }

  /** Every byte but the last has its top bit set. */
  predicate IsVarint(s: bytes) {
    s != [] && s[|s| - 1] < 0x80 && forall k :: 0 <= k < |s| - 1 ==> s[k] >= 0x80
  }

  lemma IsVarintTail(s: bytes)
    requires |s| > 1
    ensures IsVarint(s) <==> s[0] >= 0x80 && IsVarint(s[1..])
  {
    var t := s[1..];
    if s[0] >= 0x80 && IsVarint(t) {
      forall k | 0 <= k < |s| - 1
        ensures s[k] >= 0x80
      {
        assert k > 0 ==> s[k] == t[k - 1];
      }
    }
  }

  /** A number is written in groups of seven bits, as few as it needs. */
  lemma {:induction false} WrittenVarint(v: nat)
    ensures var s := WriteVarint(v);
            IsVarint(s) && Groups(s) == v && (|s| > 1 ==> s[|s| - 1] != 0)
  {
    var s := WriteVarint(v);
    if v < 128 {
      assert s[1..] == [];
    } else {
      WrittenVarint(v / 128);
      assert s[1..] == WriteVarint(v / 128);
      IsVarintTail(s);
    }
  }

  /** Reading takes the groups that begin the data, at most as many as allowed, for the number they carry. */
  lemma {:induction false} ReadsVarint(s: bytes, limit: nat, v: nat, rest: bytes)
    ensures ReadVarint(s, limit) == Varint(v, rest)
            <==> && |rest| < |s| <= |rest| + limit && s[|s| - |rest|..] == rest
                 && IsVarint(s[..|s| - |rest|]) && Groups(s[..|s| - |rest|]) == v
    decreases |s|
  {
    if s != [] && limit > 0 {
      if s[0] < 128 {
        if |rest| < |s| {
          OneGroup(s, rest);
        }
      } else {
        if |rest| < |s| - 1 {
          ReadsVarint(s[1..], limit - 1, v / 128, rest);
          MoreGroups(s, |s| - |rest|);
        } else if |rest| == |s| - 1 {
          assert s[..1] == [s[0]];
        }
      }
    }
  }

  lemma MoreGroups(s: bytes, n: nat)
    requires 1 < n <= |s| && s[0] >= 0x80
    ensures s[1..][n - 1..] == s[n..]
    ensures IsVarint(s[..n]) <==> IsVarint(s[1..][..n - 1])
    ensures Groups(s[..n]) == s[0] - 0x80 + 0x80 * Groups(s[1..][..n - 1])
  {
    assert s[..n][1..] == s[1..][..n - 1];
    IsVarintTail(s[..n]);
  }

  lemma OneGroup(s: bytes, rest: bytes)
    requires s != [] && s[0] < 0x80 && |rest| < |s|
    ensures IsVarint(s[..|s| - |rest|]) <==> |rest| == |s| - 1
    ensures Groups(s[..1]) == s[0]
  {
    assert s[..1][1..] == [];
    var t := s[..|s| - |rest|];
    assert t[0] == s[0];
  }

  /** A text is read exactly if its length stands in front of it, as a varint of at most five bytes. */
  lemma ReadsText(s: bytes, text: bytes, rest: bytes)
    ensures ReadString(s) == Chunk(text, rest)
            <==> |text| <= 0x7FFF_FFEF && ReadVarint(s, 5) == Varint(|text|, text + rest)
  {
    hide ReadVarint;
    var r := ReadVarint(s, 5);
    if r.Varint? && r.value <= |r.rest| {
      assert r.rest == r.rest[..r.value] + r.rest[r.value..];
      assert r.rest == text + rest && r.value == |text| ==> r.rest[..r.value] == text && r.rest[r.value..] == rest;
    }
  }

  // ---- Fields ----

  /** A field with its number, its wire type being 0 or 2. */
  datatype Field = Number(number: nat, value: nat) | Text(number: nat, text: bytes)

  /** The fields of some data: a tag is the field's number times 8 plus its wire type, 0 for a varint and 2
      for a text with its length. Nothing if the data is cut short or has another wire type. */
  function WireFields(s: bytes): Option<seq<Field>>
    decreases |s|
  {
    if s == [] then Some([])
    else
      match ReadTag(s)
      case NoVarint => None
      case Varint(tag, rest) =>
        if tag % 8 == 0 then
          match ReadVarint(rest, 10)
          case NoVarint => None
          case Varint(value, rest') => Then(Number(tag / 8, value), WireFields(rest'))
        else if tag % 8 == 2 then
          match ReadString(rest)
          case NoChunk => None
          case Chunk(text, rest') => Then(Text(tag / 8, text), WireFields(rest'))
        else None
  }

  function Then(f: Field, fs: Option<seq<Field>>): Option<seq<Field>> {
    if fs.Some? then Some([f] + fs.value) else None
  }

  lemma NumberFirst(number: nat, value: nat, rest: bytes)
    requires number < 16 && value < 0x1_0000_0000_0000_0000
    ensures WireFields([number * 8] + WriteVarint(value) + rest) == Then(Number(number, value), WireFields(rest))
  {
    hide ReadTag, ReadVarint, WriteVarint;
    var tag: byte := number * 8;
    VarintSizeIs(value);
    VarintRoundTrip(value, rest, 10);
    OneByteTag(tag, WriteVarint(value) + rest);
    assert [tag] + WriteVarint(value) + rest == [tag] + (WriteVarint(value) + rest);
    assert tag / 8 == number && tag % 8 == 0;
  }

  lemma TextFirst(number: nat, text: bytes, rest: bytes)
    requires number < 15 && |text| <= MAX_SIZE
    ensures WireFields([number * 8 + 2] + WriteString(text) + rest) == Then(Text(number, text), WireFields(rest))
  {
    hide ReadTag, ReadString, WriteString;
    var tag: byte := number * 8 + 2;
    StringRoundTrip(text, rest);
    OneByteTag(tag, WriteString(text) + rest);
    assert [tag] + WriteString(text) + rest == [tag] + (WriteString(text) + rest);
    assert tag / 8 == number && tag % 8 == 2;
  }

  // ---- What is written ----

  function TextIf(number: nat, text: bytes): seq<Field> {
    if text == [] then [] else [Text(number, text)]
  }

  /** Negative numbers are written modulo 2^64. */
  function NumberIf(number: nat, x: int): seq<Field> {
    if x == 0 then [] else [Number(number, if x < 0 then x % 0x1_0000_0000_0000_0000 else x)]
  }

  function Before(fs: seq<Field>, rest: Option<seq<Field>>): Option<seq<Field>> {
    if rest.Some? then Some(fs + rest.value) else None
  }

  lemma TextFieldFirst(number: nat, tag: byte, text: bytes, rest: bytes)
    requires number < 15 && tag == number * 8 + 2 && |text| <= MAX_SIZE
    ensures WireFields(StringField(tag, text) + rest) == Before(TextIf(number, text), WireFields(rest))
  {
    hide WireFields, WriteString;
    if text == [] {
      assert StringField(tag, text) + rest == rest;
      assert WireFields(rest).Some? ==> [] + WireFields(rest).value == WireFields(rest).value;
    } else {
      TextFirst(number, text, rest);
    }
  }

  lemma NumberFieldFirst(number: nat, tag: byte, x: int, rest: bytes)
    requires number < 16 && tag == number * 8 && IsInt32(x)
    ensures WireFields(Int32Field(tag, x) + rest) == Before(NumberIf(number, x), WireFields(rest))
  {
    hide WireFields, WriteVarint;
    if x == 0 {
      assert Int32Field(tag, x) + rest == rest;
      assert WireFields(rest).Some? ==> [] + WireFields(rest).value == WireFields(rest).value;
    } else {
      NumberFirst(number, SignExtended(x), rest);
    }
  }

  /** A login is written as the fields 1 to 4 in this order, address, port, city and name, those with their
      default value left out. */
  lemma LoginFields(m: Login)
    requires IsInt32(m.port) && |m.ip| <= MAX_SIZE && |m.city| <= MAX_SIZE && |m.name| <= MAX_SIZE
    ensures WireFields(Serialized(m))
            == Some(TextIf(1, m.ip) + NumberIf(2, m.port) + TextIf(3, m.city) + TextIf(4, m.name))
  {
    hide WireFields, StringField, Int32Field, TextIf, NumberIf;
    var ip, port, city, name :=
      StringField(IP_TAG, m.ip), Int32Field(PORT_TAG, m.port), StringField(CITY_TAG, m.city),
      StringField(NAME_TAG, m.name);
    assert Serialized(m) == ip + (port + (city + (name + [])));
    TextFieldFirst(1, IP_TAG, m.ip, port + (city + (name + [])));
    NumberFieldFirst(2, PORT_TAG, m.port, city + (name + []));
    TextFieldFirst(3, CITY_TAG, m.city, name + []);
    TextFieldFirst(4, NAME_TAG, m.name, []);
    NoFields();
    var a, b, c, d := TextIf(1, m.ip), NumberIf(2, m.port), TextIf(3, m.city), TextIf(4, m.name);
    assert a + (b + (c + (d + []))) == a + b + c + d;
  }

  lemma NoFields()
    ensures WireFields([]) == Some([])
  {
  }

  /** A reply is written as field 1, left out if the code is 0. */
  lemma ReplyFields(code: int)
    requires IsInt32(code)
    ensures WireFields(ReplySerialized(code)) == Some(NumberIf(1, code))
  {
    hide WireFields, Int32Field, NumberIf;
    NumberFieldFirst(1, RET_CODE_TAG, code, []);
    NoFields();
    assert Int32Field(RET_CODE_TAG, code) + [] == Int32Field(RET_CODE_TAG, code);
    assert NumberIf(1, code) + [] == NumberIf(1, code);
  }

  // ---- What is parsed ----

  /** The text of the last field of that number, or `old_` if there is none. */
  function LastText(fs: seq<Field>, number: nat, old_: bytes): bytes {
    if fs == [] then old_
    else LastText(fs[1..], number, if fs[0].Text? && fs[0].number == number then fs[0].text else old_)
  }

  /** The low 32 bits of the last field of that number, as a signed number. */
  function LastNumber(fs: seq<Field>, number: nat, old_: int): int {
    if fs == [] then old_
    else LastNumber(fs[1..], number, if fs[0].Number? && fs[0].number == number then Signed(fs[0].value) else old_)
  }

  function Signed(value: nat): int {
    var low := value % 0x1_0000_0000;
    if low < 0x8000_0000 then low else low - 0x1_0000_0000
  }

  /** The fields a login may have. */
  predicate LoginField(f: Field) {
    match f
    case Number(number, _) => number == 2
    case Text(number, text) => (number == 1 || number == 3 || number == 4) && ValidUtf8(text)
  }

  function LoginOf(m: Login, fs: seq<Field>): Login {
    Login(LastText(fs, 1, m.ip), LastNumber(fs, 2, m.port), LastText(fs, 3, m.city), LastText(fs, 4, m.name))
  }

  function WithField(m: Login, f: Field): Login {
    match f
    case Number(number, value) => if number == 2 then m.(port := Signed(value)) else m
    case Text(number, text) =>
      if number == 1 then m.(ip := text)
      else if number == 3 then m.(city := text)
      else if number == 4 then m.(name := text)
      else m
  }

  lemma LoginOfFirst(m: Login, f: Field, fs: seq<Field>)
    ensures LoginOf(m, [f] + fs) == LoginOf(WithField(m, f), fs)
  {
    assert ([f] + fs)[1..] == fs;
  }

  ghost predicate AllLoginFields(fs: seq<Field>) {
    forall k :: 0 <= k < |fs| ==> LoginField(fs[k])
  }

  lemma AllLoginFirst(f: Field, fs: seq<Field>)
    ensures AllLoginFields([f] + fs) <==> LoginField(f) && AllLoginFields(fs)
  {
    hide LoginField;
    var all := [f] + fs;
    assert all[0] == f && forall k :: 0 <= k < |fs| ==> all[k + 1] == fs[k];
  }

  /** Parsing is complete exactly if the data is a sequence of fields that a login may have; the last field
      of each number counts, and where there is none the message keeps its value. */
  ghost predicate ParsedAs(m: Login, fs: Option<seq<Field>>, r: Parsed<Login>) {
    if fs.Some? && AllLoginFields(fs.value) then r == Complete(LoginOf(m, fs.value)) else !r.Complete?
  }

  lemma ParsedAfter(m: Login, f: Field, fs: Option<seq<Field>>, r: Parsed<Login>)
    requires if LoginField(f) then ParsedAs(WithField(m, f), fs, r) else !r.Complete?
    ensures ParsedAs(m, Then(f, fs), r)
  {
    hide LoginField, LoginOf, WithField, AllLoginFields;
    if fs.Some? {
      AllLoginFirst(f, fs.value);
      LoginOfFirst(m, f, fs.value);
    }
  }

  lemma {:induction false} ParsesExactly(m: Login, s: bytes)
    ensures ParsedAs(m, WireFields(s), ParseFrom(m, s))
    decreases |s|
  {
    hide ReadTag, ReadVarint, ReadString, ParsedAs, ValidUtf8, LoginOf;
    if s == [] {
      NothingParsed(m);
    } else if ReadTag(s).Varint? {
      ParsesField(m, s);
    } else {
      NotParsed(m);
    }
  }

  lemma NothingParsed(m: Login)
    ensures ParsedAs(m, Some([]), Complete(m))
  {
  }

  lemma NotParsed(m: Login)
    ensures forall r: Parsed<Login> :: !r.Complete? ==> ParsedAs(m, None, r)
  {
  }

  lemma {:induction false} ParsesField(m: Login, s: bytes)
    requires s != [] && ReadTag(s).Varint?
    ensures ParsedAs(m, WireFields(s), ParseFrom(m, s))
    decreases |s|, 0
  {
    hide ReadTag, ReadVarint, ReadString, ParsedAs, ValidUtf8, LoginOf;
    var tag, rest := ReadTag(s).value, ReadTag(s).rest;
    var r := ParseFrom(m, s);
    NotParsed(m);
    if tag % 8 == 0 {
      var value := ReadVarint(rest, 10);
      if value.Varint? {
        var f := Number(tag / 8, value.value);
        if tag == 16 {
          ParsesExactly(m.(port := Signed(value.value)), value.rest);
        }
        ParsedAfter(m, f, WireFields(value.rest), r);
      }
    } else if tag % 8 == 2 {
      var text := ReadString(rest);
      if text.Chunk? {
        var f := Text(tag / 8, text.text);
        if LoginField(f) {
          ParsesExactly(WithField(m, f), text.rest);
        }
        ParsedAfter(m, f, WireFields(text.rest), r);
      }
    }
  }

  // ---- The reply ----

  predicate IsReplyField(f: Field) {
    f.Number? && f.number == 1
  }

  ghost predicate AllReplyFields(fs: seq<Field>) {
    forall k :: 0 <= k < |fs| ==> IsReplyField(fs[k])
  }

  /** The same for the reply, whose only field is number 1. */
  ghost predicate ReplyParsedAs(code: int, fs: Option<seq<Field>>, r: Parsed<int>) {
    if fs.Some? && AllReplyFields(fs.value) then r == Complete(LastNumber(fs.value, 1, code)) else !r.Complete?
  }

  lemma ReplyParsedAfter(code: int, f: Field, fs: Option<seq<Field>>, r: Parsed<int>)
    requires if IsReplyField(f) then ReplyParsedAs(Signed(f.value), fs, r) else !r.Complete?
    ensures ReplyParsedAs(code, Then(f, fs), r)
  {
    hide Signed;
    if fs.Some? {
      var all := [f] + fs.value;
      assert all[0] == f && all[1..] == fs.value && forall k :: 0 <= k < |fs.value| ==> all[k + 1] == fs.value[k];
    }
  }

  lemma {:induction false} ReplyParsesExactly(code: int, s: bytes)
    ensures ReplyParsedAs(code, WireFields(s), ReplyParseFrom(code, s))
    decreases |s|
  {
    hide ReadTag, ReadVarint, ReadString, ReplyParsedAs, LastNumber;
    var r := ReplyParseFrom(code, s);
    NoReply(code);
    if s != [] && ReadTag(s).Varint? {
      var tag, rest := ReadTag(s).value, ReadTag(s).rest;
      if tag % 8 == 0 {
        var value := ReadVarint(rest, 10);
        if value.Varint? {
          if tag == 8 {
            ReplyParsesExactly(Signed(value.value), value.rest);
          }
          ReplyParsedAfter(code, Number(tag / 8, value.value), WireFields(value.rest), r);
        }
      } else if tag % 8 == 2 {
        var text := ReadString(rest);
        if text.Chunk? {
          ReplyParsedAfter(code, Text(tag / 8, text.text), WireFields(text.rest), r);
        }
      }
    }
  }

  lemma NoReply(code: int)
    ensures ReplyParsedAs(code, Some([]), Complete(code))
    ensures forall r: Parsed<int> :: !r.Complete? ==> ReplyParsedAs(code, None, r)
  {
  }
}
