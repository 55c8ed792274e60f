/** The login messages: parsing, serialising, measuring and merging. */
module ProtoLogin {
  import opened Bytes
  import opened Utf8
  import opened ProtoWire

  /** The fields of `ReqNodeLogin`. */
  datatype Login = Login(ip: bytes, port: int, city: bytes, name: bytes)

  const EMPTY_LOGIN: Login := Login([], 0, [], [])

  const IP_TAG: byte := 10
  const PORT_TAG: byte := 16
  const CITY_TAG: byte := 26
  const NAME_TAG: byte := 34

  /** How parsing ends: at the end of the data, at a tag that ends a group or is zero, at a field this
      message does not know, or with a failure. */
  datatype Parsed<M> =
    | Complete(message: M)
    | Stopped(message: M, tag: nat, rest: bytes)
    | UnknownField(message: M, tag: nat, rest: bytes)
    | Failed

  ghost predicate ValidLogin(m: Login) {
    && IsInt32(m.port)
    && ValidUtf8(m.ip) && ValidUtf8(m.city) && ValidUtf8(m.name)
    && |m.ip| <= MAX_SIZE && |m.city| <= MAX_SIZE && |m.name| <= MAX_SIZE
  }

  /** What the length arithmetic of the library can hold. */
  predicate Measurable(m: Login) {
    IsInt32(m.port) && |m.ip| < 0x8000_0000 && |m.city| < 0x8000_0000 && |m.name| < 0x8000_0000
  }

  // ---- Reference functions ----

  function StringField(tag: byte, s: bytes): bytes {
    if |s| > 0 then [tag] + WriteString(s) else []
  }

  function Int32Field(tag: byte, x: int): bytes
    requires IsInt32(x)
  {
    if x != 0 then [tag] + WriteInt32(x) else []
  }

  /** The serialised message: fields in the order of their numbers, defaults left out. */
  function Serialized(m: Login): bytes
    requires IsInt32(m.port)
  {
    StringField(IP_TAG, m.ip) + Int32Field(PORT_TAG, m.port) + StringField(CITY_TAG, m.city)
      + StringField(NAME_TAG, m.name)
  }

  /** Fields that differ from their default replace the target's. */
  function Merged(to: Login, from: Login): Login {
    Login(if |from.ip| > 0 then from.ip else to.ip,
          if from.port != 0 then from.port else to.port,
          if |from.city| > 0 then from.city else to.city,
          if |from.name| > 0 then from.name else to.name)
  }

  /** A tag of a field number this message has, with the wire type it expects. */
  predicate IsStringTag(tag: nat) {
    tag == IP_TAG || tag == CITY_TAG || tag == NAME_TAG
  }

  function SetString(m: Login, tag: nat, s: bytes): Login
    requires IsStringTag(tag)
  {
    if tag == IP_TAG then m.(ip := s)
    else if tag == CITY_TAG then m.(city := s)
    else m.(name := s)
  }

  predicate EndsGroup(tag: nat) {
    tag % 8 == 4 || tag == 0
  }

  /** `_InternalParse` on the data that remains, into a message that already has some fields. */
  function ParseFrom(m: Login, s: bytes): Parsed<Login>
    decreases |s|
  {
    if s == [] then Complete(m)
    else
      match ReadTag(s)
      case NoVarint => Failed
      case Varint(tag, rest) =>
        if IsStringTag(tag) then
          match ReadString(rest)
          case NoChunk => Failed
          case Chunk(text, rest') =>
            if !ValidUtf8(text) then Failed else ParseFrom(SetString(m, tag, text), rest')
        else if tag == PORT_TAG then
          match ReadVarint(rest, MAX_VARINT_BYTES)
          case NoVarint => Failed
          case Varint(value, rest') => ParseFrom(m.(port := ToInt32(value)), rest')
        else if EndsGroup(tag) then Stopped(m, tag, rest)
        else UnknownField(m, tag, rest)
  }

  // ---- Laws ----

  lemma ParseStringField(m: Login, tag: byte, s: bytes, rest: bytes)
    requires IsStringTag(tag) && 0 < |s| <= MAX_SIZE && ValidUtf8(s)
    ensures ParseFrom(m, StringField(tag, s) + rest) == ParseFrom(SetString(m, tag, s), rest)
  {
    hide ReadTag, ReadString, WriteString, ValidUtf8;
    StringRoundTrip(s, rest);
    OneByteTag(tag, WriteString(s) + rest);
    assert StringField(tag, s) + rest == [tag] + (WriteString(s) + rest);
  }

  lemma ParseInt32Field(m: Login, x: int, rest: bytes)
    requires IsInt32(x) && x != 0
    ensures ParseFrom(m, Int32Field(PORT_TAG, x) + rest) == ParseFrom(m.(port := x), rest)
  {
    hide ReadTag, ReadVarint, WriteInt32, ValidUtf8;
    Int32RoundTrip(x, rest);
    OneByteTag(PORT_TAG, WriteInt32(x) + rest);
    assert Int32Field(PORT_TAG, x) + rest == [PORT_TAG] + (WriteInt32(x) + rest);
  }

  lemma ParseOptionalString(m: Login, tag: byte, s: bytes, rest: bytes)
    requires IsStringTag(tag) && |s| <= MAX_SIZE && ValidUtf8(s)
    ensures ParseFrom(m, StringField(tag, s) + rest) == ParseFrom(if |s| > 0 then SetString(m, tag, s) else m, rest)
  {
    hide ParseFrom, SetString, WriteString, ValidUtf8;
    if |s| > 0 {
      ParseStringField(m, tag, s, rest);
    } else {
      assert StringField(tag, s) + rest == rest;
    }
  }

  lemma ParseOptionalInt32(m: Login, x: int, rest: bytes)
    requires IsInt32(x)
    ensures ParseFrom(m, Int32Field(PORT_TAG, x) + rest) == ParseFrom(if x != 0 then m.(port := x) else m, rest)
  {
    hide ParseFrom, WriteInt32;
    if x != 0 {
      ParseInt32Field(m, x, rest);
    } else {
      assert Int32Field(PORT_TAG, x) + rest == rest;
    }
  }

  /** Parsing a serialised message, whatever follows it, merges it into the target and goes on. */
  lemma ParseSerialized(m: Login, b: Login, rest: bytes)
    requires ValidLogin(b)
    ensures ParseFrom(m, Serialized(b) + rest) == ParseFrom(Merged(m, b), rest)
  {
    hide ParseFrom, StringField, Int32Field, ValidUtf8;
    var ip, port, city, name :=
      StringField(IP_TAG, b.ip), Int32Field(PORT_TAG, b.port), StringField(CITY_TAG, b.city), StringField(NAME_TAG,
        b.name);
    assert Serialized(b) + rest == ip + (port + (city + (name + rest)));
    var m1 := if |b.ip| > 0 then SetString(m, IP_TAG, b.ip) else m;
    var m2 := if b.port != 0 then m1.(port := b.port) else m1;
    var m3 := if |b.city| > 0 then SetString(m2, CITY_TAG, b.city) else m2;
    ParseOptionalString(m, IP_TAG, b.ip, port + (city + (name + rest)));
    ParseOptionalInt32(m1, b.port, city + (name + rest));
    ParseOptionalString(m2, CITY_TAG, b.city, name + rest);
    ParseOptionalString(m3, NAME_TAG, b.name, rest);
  }

  lemma ParseNothing(m: Login)
    ensures ParseFrom(m, []) == Complete(m)
  {
  }

  /** Parsing what was serialised gives the message back. */
  lemma RoundTrip(m: Login)
    requires ValidLogin(m)
    ensures ParseFrom(EMPTY_LOGIN, Serialized(m)) == Complete(m)
  {
    hide ParseFrom, Serialized, ValidUtf8;
    ParseSerialized(EMPTY_LOGIN, m, []);
    assert Serialized(m) + [] == Serialized(m);
    ParseNothing(m);
  }

  /** Two serialised messages one after the other parse to the second merged into the first. */
  lemma ConcatenationMerges(a: Login, b: Login)
    requires ValidLogin(a) && ValidLogin(b)
    ensures ParseFrom(EMPTY_LOGIN, Serialized(a) + Serialized(b)) == Complete(Merged(a, b))
  {
    hide ParseFrom, Serialized, ValidUtf8;
    ParseSerialized(EMPTY_LOGIN, a, Serialized(b));
    ParseSerialized(a, b, []);
    assert Serialized(b) + [] == Serialized(b);
    ParseNothing(Merged(a, b));
  }

  /** Different messages are serialised differently. */
  lemma SerializedInjective(a: Login, b: Login)
    requires ValidLogin(a) && ValidLogin(b) && Serialized(a) == Serialized(b)
    ensures a == b
  {
    hide ParseFrom, Serialized, ValidUtf8;
    RoundTrip(a);
    RoundTrip(b);
  }

  // ---- The message classes ----

  class ReqNodeLogin {
    var ip_: bytes
    var port_: int
    var city_: bytes
    var name_: bytes

    function Message(): Login
      reads this
    {
      Login(ip_, port_, city_, name_)
    }

    constructor ()
      ensures Message() == EMPTY_LOGIN
    {
      ip_, port_, city_, name_ := [], 0, [], [];
    }

    method Clear()
      modifies this
      ensures Message() == EMPTY_LOGIN
    {
      ip_ := [];
      city_ := [];
      name_ := [];
      port_ := 0;
    }

    method MergeFrom(from: ReqNodeLogin)
      modifies this
      ensures Message() == Merged(old(Message()), old(from.Message()))
    {
      if |from.ip_| > 0 {
        ip_ := from.ip_;
      }
      if |from.city_| > 0 {
        city_ := from.city_;
      }
      if |from.name_| > 0 {
        name_ := from.name_;
      }
      if from.port_ != 0 {
        port_ := from.port_;
      }
    }

    method CopyFrom(from: ReqNodeLogin)
      modifies this
      ensures Message() == old(from.Message())
    {
      if from == this {
        return;
      }
      Clear();
      MergeFrom(from);
    }

    method ByteSizeLong() returns (total: nat)
      requires Measurable(Message())
      ensures total == |Serialized(Message())|
    {
      hide WriteVarint, VarintSize;
      total := 0;
      if |ip_| > 0 {
        total := total + 1 + StringSize(ip_);
      }
      if |city_| > 0 {
        total := total + 1 + StringSize(city_);
      }
      if |name_| > 0 {
        total := total + 1 + StringSize(name_);
      }
      if port_ != 0 {
        total := total + 1 + Int32Size(port_);
      }
      VarintSizeIs(|ip_|);
      VarintSizeIs(|city_|);
      VarintSizeIs(|name_|);
      Int32RoundTrip(port_, []);
    }

    method InternalSerialize() returns (target: bytes)
      requires IsInt32(port_)
      ensures target == Serialized(Message())
    {
      hide WriteString, WriteInt32;
      target := [];
      if |ip_| > 0 {
        target := target + [IP_TAG];
        target := target + WriteString(ip_);
      }
      assert target == StringField(IP_TAG, ip_);
      if port_ != 0 {
        target := target + [PORT_TAG];
        target := target + WriteInt32(port_);
      }
      assert target == StringField(IP_TAG, ip_) + Int32Field(PORT_TAG, port_);
      if |city_| > 0 {
        target := target + [CITY_TAG];
        target := target + WriteString(city_);
      }
      assert target == StringField(IP_TAG, ip_) + Int32Field(PORT_TAG, port_) + StringField(CITY_TAG, city_);
      if |name_| > 0 {
        target := target + [NAME_TAG];
        target := target + WriteString(name_);
      }
    }

    /** The parse loop. It stops early at a field the message does not know. */
    method InternalParse(data: bytes) returns (outcome: Parsed<Login>)
      modifies this
      ensures outcome == ParseFrom(old(Message()), data)
      ensures !outcome.Failed? ==> outcome.message == Message()
    {
      hide ReadTag, ReadString, ReadVarint, ValidUtf8;
      var ptr := data;
      while ptr != []
        invariant ParseFrom(Message(), ptr) == ParseFrom(old(Message()), data)
        decreases |ptr|
      {
        var tag := ReadTag(ptr);
        if tag.NoVarint? {
          return Failed;
        }
        var number := tag.value / 8;
        if number == 1 && tag.value % 256 == 10 {
          var str := ReadString(tag.rest);
          if str.NoChunk? || !ValidUtf8(str.text) {
            return Failed;
          }
          ip_ := str.text;
          ptr := str.rest;
        } else if number == 2 && tag.value % 256 == 16 {
          var value := ReadVarint(tag.rest, MAX_VARINT_BYTES);
          if value.NoVarint? {
            return Failed;
          }
          port_ := ToInt32(value.value);
          ptr := value.rest;
        } else if number == 3 && tag.value % 256 == 26 {
          var str := ReadString(tag.rest);
          if str.NoChunk? || !ValidUtf8(str.text) {
            return Failed;
          }
          city_ := str.text;
          ptr := str.rest;
        } else if number == 4 && tag.value % 256 == 34 {
          var str := ReadString(tag.rest);
          if str.NoChunk? || !ValidUtf8(str.text) {
            return Failed;
          }
          name_ := str.text;
          ptr := str.rest;
        } else if tag.value % 8 == 4 || tag.value == 0 {
          return Stopped(Message(), tag.value, tag.rest);
        } else {
          return UnknownField(Message(), tag.value, tag.rest);
        }
      }
      return Complete(Message());
    }
  }

  // ---- The reply ----

  const RET_CODE_TAG: byte := 8

  function ReplySerialized(code: int): bytes
    requires IsInt32(code)
  {
    Int32Field(RET_CODE_TAG, code)
  }

  function ReplyMerged(to: int, from: int): int {
    if from != 0 then from else to
  }

  function ReplyParseFrom(code: int, s: bytes): Parsed<int>
    decreases |s|
  {
    if s == [] then Complete(code)
    else
      match ReadTag(s)
      case NoVarint => Failed
      case Varint(tag, rest) =>
        if tag == RET_CODE_TAG then
          match ReadVarint(rest, MAX_VARINT_BYTES)
          case NoVarint => Failed
          case Varint(value, rest') => ReplyParseFrom(ToInt32(value), rest')
        else if EndsGroup(tag) then Stopped(code, tag, rest)
        else UnknownField(code, tag, rest)
  }

  lemma ReplyParseSerialized(code: int, b: int, rest: bytes)
    requires IsInt32(b)
    ensures ReplyParseFrom(code, ReplySerialized(b) + rest) == ReplyParseFrom(ReplyMerged(code, b), rest)
  {
    hide ReadTag, ReadVarint, WriteInt32;
    if b != 0 {
      Int32RoundTrip(b, rest);
      OneByteTag(RET_CODE_TAG, WriteInt32(b) + rest);
      assert ReplySerialized(b) + rest == [RET_CODE_TAG] + (WriteInt32(b) + rest);
    } else {
      assert ReplySerialized(b) + rest == rest;
    }
  }

  lemma ReplyParseNothing(code: int)
    ensures ReplyParseFrom(code, []) == Complete(code)
  {
  }

  /** Round trip and concatenation, for the reply. */
  lemma ReplyLaws(a: int, b: int)
    requires IsInt32(a) && IsInt32(b)
    ensures ReplyParseFrom(0, ReplySerialized(a)) == Complete(a)
    ensures ReplyParseFrom(0, ReplySerialized(a) + ReplySerialized(b)) == Complete(ReplyMerged(a, b))
  {
    hide ReplyParseFrom, ReplySerialized;
    ReplyParseSerialized(0, a, []);
    ReplyParseSerialized(0, a, ReplySerialized(b));
    ReplyParseSerialized(a, b, []);
    assert ReplySerialized(a) + [] == ReplySerialized(a) && ReplySerialized(b) + [] == ReplySerialized(b);
    ReplyParseNothing(a);
    ReplyParseNothing(ReplyMerged(a, b));
  }

  class RespNodeLogin {
    var ret_code_: int

    constructor ()
      ensures ret_code_ == 0
    {
      ret_code_ := 0;
    }

    method MergeFrom(from: RespNodeLogin)
      modifies this
      ensures ret_code_ == ReplyMerged(old(ret_code_), old(from.ret_code_))
    {
      if from.ret_code_ != 0 {
        ret_code_ := from.ret_code_;
      }
    }

    method ByteSizeLong() returns (total: nat)
      requires IsInt32(ret_code_)
      ensures total == |ReplySerialized(ret_code_)|
    {
      hide WriteVarint, VarintSize;
      total := 0;
      if ret_code_ != 0 {
        total := total + 1 + Int32Size(ret_code_);
      }
      Int32RoundTrip(ret_code_, []);
    }

    method InternalSerialize() returns (target: bytes)
      requires IsInt32(ret_code_)
      ensures target == ReplySerialized(ret_code_)
    {
      target := [];
      if ret_code_ != 0 {
        target := target + [RET_CODE_TAG];
        target := target + WriteInt32(ret_code_);
      }
    }

    method InternalParse(data: bytes) returns (outcome: Parsed<int>)
      modifies this
      ensures outcome == ReplyParseFrom(old(ret_code_), data)
      ensures !outcome.Failed? ==> outcome.message == ret_code_
    {
      hide ReadTag, ReadVarint;
      var ptr := data;
      while ptr != []
        invariant ReplyParseFrom(ret_code_, ptr) == ReplyParseFrom(old(ret_code_), data)
        decreases |ptr|
      {
        var tag := ReadTag(ptr);
        if tag.NoVarint? {
          return Failed;
        }
        if tag.value / 8 == 1 && tag.value % 256 == 8 {
          var value := ReadVarint(tag.rest, MAX_VARINT_BYTES);
          if value.NoVarint? {
            return Failed;
          }
          ret_code_ := ToInt32(value.value);
          ptr := value.rest;
        } else if tag.value % 8 == 4 || tag.value == 0 {
          return Stopped(ret_code_, tag.value, tag.rest);
        } else {
          return UnknownField(ret_code_, tag.value, tag.rest);
        }
      }
      return Complete(ret_code_);
    }
  }
}
