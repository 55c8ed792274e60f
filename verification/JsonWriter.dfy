/** `FastWriter`: one line of JSON text. */
module JsonWriter {
  import opened Bytes
  import opened JsonValue
  import opened JsonMap
  import opened JsonArray
  import opened JsonTree
  import opened JsonNumber
  import opened JsonString

  /** How the C library prints a `double`. */
  type RealPrinter = Double -> bytes

  const NULL_TEXT: bytes := [0x6E, 0x75, 0x6C, 0x6C]
  const TRUE_TEXT: bytes := [0x74, 0x72, 0x75, 0x65]
  const FALSE_TEXT: bytes := [0x66, 0x61, 0x6C, 0x73, 0x65]

  const COMMA: byte := 0x2C
  const COLON: byte := 0x3A
  const LBRACKET: byte := 0x5B
  const RBRACKET: byte := 0x5D
  const LBRACE: byte := 0x7B
  const RBRACE: byte := 0x7D
  const LINE_FEED: byte := 0x0A

  function Comma(i: nat): bytes {
    if i > 0 then [COMMA] else []
  }

  function Written(pr: RealPrinter, v: Value): bytes
    decreases Weight(v), 0
  {
    match v
    case Null => NULL_TEXT
    case Int(i) => SignedDecimal(i)
    case UInt(u) => SignedDecimal(u)
    case Real(d) => pr(d)
    case String(s) => Quoted(s)
    case Bool(b) => if b then TRUE_TEXT else FALSE_TEXT
    case Array(m) => [LBRACKET] + ElementsText(pr, m, 0) + [RBRACKET]
    case Object(m) => [LBRACE] + MembersText(pr, m, 0) + [RBRACE]
  }

  /** The elements from position `i` on; missing ones are printed as null. */
  function ElementsText(pr: RealPrinter, m: ObjectValues, i: nat): bytes
    decreases MapWeight(m), Size(m) - i
  {
    if i >= Size(m) then []
    else
      ElementWeight(m, i);
      Comma(i) + Written(pr, Element(m, i)) + ElementsText(pr, m, i + 1)
  }

  function MemberText(pr: RealPrinter, m: ObjectValues, i: nat): bytes
    requires i < |m|
    decreases MapWeight(m), 0
  {
    MapWeightAt(m, i);
    Quoted(KeyName(m[i].key)) + [COLON] + Written(pr, m[i].value)
  }

  function MembersText(pr: RealPrinter, m: ObjectValues, i: nat): bytes
    decreases MapWeight(m), 1 + |m| - i
  {
    if i >= |m| then []
    else Comma(i) + MemberText(pr, m, i) + MembersText(pr, m, i + 1)
  }

  function KeyName(k: CZString): bytes {
    if k.Name? then k.name else []
  }

  class FastWriter {
    var document_: bytes
    const printReal: RealPrinter

    constructor (printReal: RealPrinter)
      ensures this.printReal == printReal
    {
      document_ := [];
      this.printReal := printReal;
    }

    method Write(root: Value) returns (text: bytes)
      requires WellFormed(root)
      modifies this
      ensures text == document_ == Written(printReal, root) + [0x0A]
    {
      document_ := [];
      WriteValue(root);
      document_ := document_ + [LINE_FEED];
      text := document_;
    }

    method WriteValue(value: Value)
      requires WellFormed(value)
      modifies this
      ensures document_ == old(document_) + Written(printReal, value)
      decreases Weight(value), 1
    {
      hide Decimal, EscapedBody;
      match value
      case Null => document_ := document_ + NULL_TEXT;
      case Int(i) =>
        var s := LargestIntToString(i);
        document_ := document_ + s;
      case UInt(u) =>
        var s := LargestUIntToString(u as uint64);
        document_ := document_ + s;
      case Real(d) => document_ := document_ + printReal(d);
      case String(s) =>
        var t := ValueToQuotedStringN(s);
        document_ := document_ + t;
      case Bool(b) => document_ := document_ + if b then TRUE_TEXT else FALSE_TEXT;
      case Array(m) => WriteArray(m);
      case Object(m) => WriteObject(m);
    }

    /** The array branch. */
    method WriteArray(m: ObjectValues)
      requires WellFormed(Array(m))
      modifies this
      ensures document_ == old(document_) + Written(printReal, Array(m))
      decreases Weight(Array(m)), 0
    {
      hide Written, Element;
      ghost var before := document_ + [LBRACKET];
      ghost var all := ElementsText(printReal, m, 0);
      document_ := document_ + [LBRACKET];
      var size := Size(m);
      for index := 0 to size
        invariant document_ + ElementsText(printReal, m, index) == before + all
      {
        ghost var was := document_;
        ElementWeight(m, index);
        WellFormedElement(m, index);
        if index > 0 {
          document_ := document_ + [COMMA];
        }
        WriteValue(Element(m, index));
        assert document_ == was + (Comma(index) + Written(printReal, Element(m, index)));
        Regroup(was, Comma(index) + Written(printReal, Element(m, index)), ElementsText(printReal, m, index + 1));
      }
      assert document_ == before + all;
      document_ := document_ + [RBRACKET];
      ArrayText(printReal, m);
    }

    method WriteMember(m: ObjectValues, it: nat, name: bytes)
      requires WellFormed(Object(m)) && it < |m| && name == KeyName(m[it].key)
      modifies this
      ensures document_ == old(document_) + (Comma(it) + MemberText(printReal, m, it))
      decreases MapWeight(m), 2
    {
      hide Written, WellFormed, Quoted, Lookup, Weight, MapWeight, Sorted;
      WellFormedMember(m, it);
      ghost var was := document_;
      if it > 0 {
        document_ := document_ + [COMMA];
      }
      var t := ValueToQuotedStringN(name);
      document_ := document_ + t;
      document_ := document_ + [COLON];
      var value := Lookup(m, Name(name));
      WriteValue(value);
      RegroupMember(was, Comma(it), t, Written(printReal, value));
    }

    /** The object branch. */
    method WriteObject(m: ObjectValues)
      requires WellFormed(Object(m))
      modifies this
      ensures document_ == old(document_) + Written(printReal, Object(m))
      decreases Weight(Object(m)), 0
    {
      hide Written, MemberText;
      ghost var before := document_ + [LBRACE];
      ghost var all := MembersText(printReal, m, 0);
      var members := seq(|m|, i requires 0 <= i < |m| => KeyName(m[i].key));
      document_ := document_ + [LBRACE];
      for it := 0 to |members|
        invariant document_ + MembersText(printReal, m, it) == before + all
      {
        ghost var was := document_;
        WriteMember(m, it, members[it]);
        Regroup(was, Comma(it) + MemberText(printReal, m, it), MembersText(printReal, m, it + 1));
      }
      assert document_ == before + all;
      document_ := document_ + [RBRACE];
      ObjectText(printReal, m);
    }
  }

  lemma Regroup(a: bytes, b: bytes, c: bytes)
    ensures a + b + c == a + (b + c)
  {
  }

  lemma RegroupMember(a: bytes, comma: bytes, name: bytes, value: bytes)
    ensures a + comma + name + [COLON] + value == a + (comma + (name + [COLON] + value))
  {
  }

  lemma ArrayText(pr: RealPrinter, m: ObjectValues)
    ensures Written(pr, Array(m)) == [LBRACKET] + ElementsText(pr, m, 0) + [RBRACKET]
  {
  }

  lemma ObjectText(pr: RealPrinter, m: ObjectValues)
    ensures Written(pr, Object(m)) == [LBRACE] + MembersText(pr, m, 0) + [RBRACE]
  {
  }
}
