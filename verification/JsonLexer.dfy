/** The tokens of the JSON reader, as functions of the document and the cursor. */
module JsonLexer {
  import opened Bytes
  import opened JsonString
  import opened JsonNumber
  import opened JsonWriter

  datatype TokenKind =
    | EndOfStream
    | ObjectBegin
    | ObjectEnd
    | ArrayBegin
    | ArrayEnd
    | StringToken
    | NumberToken
    | TrueToken
    | FalseToken
    | NullToken
    | ArraySeparator
    | MemberSeparator
    | CommentToken
    | ErrorToken

  datatype Token = Token(kind: TokenKind, start: nat, end: nat)

  const SLASH: byte := 0x2F
  const STAR: byte := 0x2A
  const CARRIAGE_RETURN: byte := 0x0D

  predicate Space(c: byte) {
    c == 0x20 || c == 0x09 || c == 0x0D || c == 0x0A
  }

  function SkipSpaces(doc: bytes, p: nat): (q: nat)
    requires p <= |doc|
    ensures p <= q <= |doc|
    decreases |doc| - p
  {
    if p < |doc| && Space(doc[p]) then SkipSpaces(doc, p + 1) else p
  }

  function SkipDigits(doc: bytes, p: nat): (q: nat)
    requires p <= |doc|
    ensures p <= q <= |doc|
    decreases |doc| - p
  {
    if p < |doc| && Digit(doc[p]) then SkipDigits(doc, p + 1) else p
  }

  function SkipFraction(doc: bytes, p: nat): (q: nat)
    requires p <= |doc|
    ensures p <= q <= |doc|
  {
    if p < |doc| && doc[p] == 0x2E then SkipDigits(doc, p + 1) else p
  }

  function SkipExponent(doc: bytes, p: nat): (q: nat)
    requires p <= |doc|
    ensures p <= q <= |doc|
  {
    if p < |doc| && (doc[p] == 0x65 || doc[p] == 0x45) then
      if p + 1 < |doc| && (doc[p + 1] == 0x2B || doc[p + 1] == 0x2D) then SkipDigits(doc, p + 2)
      else SkipDigits(doc, p + 1)
    else p
  }

  /** Where a number ends whose first character stands before `p`. */
  function ScanNumber(doc: bytes, p: nat): (q: nat)
    requires p <= |doc|
    ensures p <= q <= |doc|
  {
    SkipExponent(doc, SkipFraction(doc, SkipDigits(doc, p)))
  }

  /** A C comment, from just after its opening. A lone `/` as the last byte closes it too. */
  function ScanCComment(doc: bytes, p: nat): (r: StringScan)
    requires p <= |doc|
    ensures p <= r.end <= |doc|
    decreases |doc| - p
  {
    if p == |doc| then StringScan(false, p)
    else if p + 1 == |doc| then StringScan(doc[p] == SLASH, p + 1)
    else if doc[p] == STAR && doc[p + 1] == SLASH then StringScan(true, p + 2)
    else ScanCComment(doc, p + 1)
  }

  /** A C++ comment, up to and including its line end. */
  function ScanLineComment(doc: bytes, p: nat): (q: nat)
    requires p <= |doc|
    ensures p <= q <= |doc|
    decreases |doc| - p
  {
    if p == |doc| then p
    else if doc[p] == LINE_FEED then p + 1
    else if doc[p] == CARRIAGE_RETURN then
      if p + 1 < |doc| && doc[p + 1] == LINE_FEED then p + 2 else p + 1
    else ScanLineComment(doc, p + 1)
  }

  /** What follows a `/`. */
  function ScanComment(doc: bytes, p: nat): (r: StringScan)
    requires p <= |doc|
    ensures p <= r.end <= |doc|
  {
    if p == |doc| then StringScan(false, p)
    else if doc[p] == STAR then ScanCComment(doc, p + 1)
    else if doc[p] == SLASH then StringScan(true, ScanLineComment(doc, p + 1))
    else StringScan(false, p + 1)
  }

  predicate Matches(doc: bytes, p: nat, pattern: bytes)
    requires p <= |doc|
  {
    |pattern| <= |doc| - p && doc[p..p + |pattern|] == pattern
  }

  function Word(doc: bytes, start: nat, rest: bytes, kind: TokenKind): (t: Token)
    requires start < |doc|
    ensures t.start == start < t.end <= |doc|
    ensures t.kind == kind || t.kind == ErrorToken
  {
    if Matches(doc, start + 1, rest) then Token(kind, start, start + 1 + |rest|)
    else Token(ErrorToken, start, start + 1)
  }

  /** The token that starts at `start`, which is not a space. */
  function TokenAt(doc: bytes, start: nat): (t: Token)
    requires start <= |doc|
    ensures t.start == start <= t.end <= |doc|
    ensures t.kind != EndOfStream ==> start < t.end
    ensures t.kind == StringToken ==>
              doc[start] == QUOTE && ScanString(doc, start + 1) == StringScan(true, t.end)
  {
    var next := start + 1;
    if start == |doc| then Token(EndOfStream, start, start)
    else
      match doc[start]
      case 0x7B => Token(ObjectBegin, start, next)
      case 0x7D => Token(ObjectEnd, start, next)
      case 0x5B => Token(ArrayBegin, start, next)
      case 0x5D => Token(ArrayEnd, start, next)
      case 0x22 =>
        var r := ScanString(doc, next);
        Token(if r.ok then StringToken else ErrorToken, start, r.end)
      case 0x2F =>
        var r := ScanComment(doc, next);
        Token(if r.ok then CommentToken else ErrorToken, start, r.end)
      case 0x74 => Word(doc, start, TRUE_TEXT[1..], TrueToken)
      case 0x66 => Word(doc, start, FALSE_TEXT[1..], FalseToken)
      case 0x6E => Word(doc, start, NULL_TEXT[1..], NullToken)
      case 0x2C => Token(ArraySeparator, start, next)
      case 0x3A => Token(MemberSeparator, start, next)
      case 0 => Token(EndOfStream, start, next)
      case c =>
        if Digit(c) || c == MINUS then Token(NumberToken, start, ScanNumber(doc, next))
        else Token(ErrorToken, start, next)
  }

  /** `readToken` from cursor `p`; the cursor moves to the token's end. */
  function ReadToken(doc: bytes, p: nat): (t: Token)
    requires p <= |doc|
    ensures p <= t.start <= t.end <= |doc|
    ensures t.kind != EndOfStream ==> t.start < t.end
    ensures t.kind == StringToken ==>
              doc[t.start] == QUOTE && ScanString(doc, t.start + 1) == StringScan(true, t.end)
  {
    TokenAt(doc, SkipSpaces(doc, p))
  }

  /** The first token from cursor `p` on that is not a comment. */
  function NextToken(doc: bytes, p: nat): (t: Token)
    requires p <= |doc|
    ensures p <= t.start <= t.end <= |doc| && t.kind != CommentToken
    ensures t.kind != EndOfStream ==> t.start < t.end
    ensures t.kind == StringToken ==>
              doc[t.start] == QUOTE && ScanString(doc, t.start + 1) == StringScan(true, t.end)
    decreases |doc| - p
  {
    var t := ReadToken(doc, p);
    if t.kind == CommentToken then NextToken(doc, t.end) else t
  }

  /** Where `recoverFromError` leaves the cursor. */
  function Recover(doc: bytes, p: nat, until: TokenKind): (q: nat)
    requires p <= |doc|
    ensures p <= q <= |doc|
    decreases |doc| - p
  {
    var skip := ReadToken(doc, p);
    if skip.kind == until || skip.kind == EndOfStream then skip.end else Recover(doc, skip.end, until)
  }
}
