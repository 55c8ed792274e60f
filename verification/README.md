# Verified model of the server's bundled libraries and protocols

The server distributes media-server nodes: it accepts connections, hands them to worker threads, and
exchanges framed protobuf messages with the nodes. The logic that is easy to get wrong sits in the two
libraries it ships and in the small protocols between its threads. This project models five parts of it
in Dafny and proves what they promise.

| part | files | what is proved |
|---|---|---|
| JSON reader and writer | `Utf8`, `JsonString`, `JsonStringLaws`, `JsonRepair`, `JsonNumber`, `JsonValue`, `JsonMap`, `JsonArray`, `JsonTree`, `JsonWriter`, `JsonLexer`, `JsonGrammar`, `JsonReader`, `JsonNormal`, `JsonTokens`, `JsonRoundTrip`, `JsonCanonical`, `JsonTwice`, `JsonOnce`, `JsonQuirks`, `JsonText`, `JsonSpelling`, `JsonEscapes`, `JsonPrinted`, `JsonTokenShapes`, `JsonComplete`, `JsonTokenTree`, `JsonAccepted`, `JsonRefused` | exactly which documents survive writing and strict parsing, at any nesting; what becomes of the others; every RFC 8259 text parses to what it denotes; exactly which documents strict mode accepts and refuses, with what root and errors; safety of quoting on any bytes; exact integers; the order on values; arrays as index maps |
| Asynchronous logger | `Log4zLogger`, `Log4zQueue`, `Log4zInvariants`, `Log4zOwnership`, `Log4zSettings`, `Log4zRuns`, `Log4zPool`, `Log4zManager`, `Log4zStream` | over every interleaving: queue conservation, single ownership of blocks, settings in queue order, bounded rolling files; bounded formatting |
| Login messages | `ProtoWire`, `ProtoLogin`, `ProtoFields` | round trip, size, concatenation is merging, exactly which data is parsed and as what |
| Frame header | `Frame` | which header fields survive, whole frames with a login body |
| Connection hand-off | `HandOff`, `ThreadPool` | exactly-once, in-order, round-robin handling over every interleaving |

`Bytes` holds octets, fixed-width integers and the byte-string order that several parts share.

## How the model is built

Code that changes things step by step is a class or a method with a loop (`Reader`, `FastWriter`,
`ArrayValue`, `LogerManager`, `Log4zStream`, `ReqNodeLogin`, `XThreadPool`, the codec of the header on an
array), and its contract ties the new state to a function of the old one. What the source promises is
then proved of those functions: the grammar in `JsonGrammar` is one such function, the state machines
`Log4zQueue` and `HandOff` are built from others.

* `char` is signed, as on x86 Linux. Machine words are written out: 32-bit truncation in `Value::operator<`
  and in the log file limit, 64-bit words in `decodeNumber` and `writeULongLong`, 16-bit conversions in
  the header.
* A string is a sequence of bytes. Well-formed UTF-8 is defined from section 4 of RFC 3629, not from the
  library's decoder.
* Threads are state machines. A locked section is one step. An unlocked test whose outcome is acted on
  later (whether the pool is empty, whether the manager runs, the size of the pool, the two halves of the
  quit test) is a step of its own.
* What comes from outside is a parameter: the length of a log file when it is opened (or that it cannot be
  opened), local midnight, the addresses the allocator returns, and how the C library scans and prints a
  `double`. A pipe write always succeeds in the state machine of the hand-off.
* Varints, tags and length-delimited strings follow the Protocol Buffers encoding ("Base 128 Varints",
  "Length-Delimited Records"): at most 10 bytes for a value, 5 for a tag or a length.

## Where the code and what one would expect differ

The model follows the code.

* The unescaped fast path of the JSON writer compares with `< 0x80` and so is taken for the empty string
  only (`JsonString.FastPathOnlyWhenEmpty`).
* Strict mode accepts more than JSON. `JsonAccepted.AcceptedExactly` says what: exactly the documents that
  begin with a closed tree of the grammar in `JsonTokenTree`, an array or object of at most 1000 levels, and the
  root is what the tree denotes. `JsonRefused.RefusedExactly` says what becomes of the others. Some of what that
  admits and refuses:
  * Whatever stands behind the root is ignored: `{}x` parses to true (3rd/json/jsoncpp.cpp:374-391,
    `JsonAccepted.TreeDocument`, `JsonComplete.EveryTextParses`).
  * Comments are switched off, yet inside objects, after array elements and after members they are skipped; in
    front of a value they are refused (`JsonQuirks.CommentIsNoValue`). After a member's value and a comment, the
    next token is consumed in the comma's place whatever it is, unless it closes the object:
    `{"a":1/**/:"b":2}` is accepted, and `{"a":1/**/"b":2}` is refused because the name is taken for the comma
    (`JsonQuirks.AfterMemberValue`, `AnyMarkServes`, `MissingCommaIsRefused`).
  * A comma before a closing brace is accepted exactly after the empty name, as in `{"":1,}`, whatever members
    stand before (`JsonAccepted.BraceBehindComma`).
  * Zeros may stand in front of a number's digits, and the digits may be missing: `01` decodes as 1 and a lone
    `-` as 0 (`JsonQuirks.LeadingZeros`, `LoneMinus`).
  * A C comment that is never closed is a comment token exactly when the document ends in `/`
    (`JsonQuirks.UnclosedComment`), but no text that is read contains a comment that runs to the end of the
    document (`JsonQuirks.CommentAtEnd`, `JsonAccepted.CommentsAreClosed`).
* A string that is not well-formed UTF-8 is replaced while it is written. Numbers above U+10FFFF come back as
  encoded surrogates. Two trips are always enough, and `JsonOnce.OneTripIsEnough` says exactly when one is.
* `==` fails on a value and itself exactly when there is a NaN in it (`JsonOrder.EqualsItself`). Sizes are
  compared by a difference cut to 32 bits, so `<` can hold both ways: exactly between two arrays, or two objects,
  whose sizes differ by 2^31 modulo 2^32, or whose sizes agree modulo 2^32 and whose entries, the first that can
  be told apart, have equal keys and values between which `<` holds both ways (`JsonOrder.BothLess`).
* `removeIndex` and a shrinking `resize` keep the array's promise only under a condition on gaps, which is
  proved to be exact.
* `resize`'s closing assertion fails exactly when the new last position was missing.
* The logger's size limit is computed in 32 bits and is right exactly below 4096 million bytes.
* The pool of log records may exceed its 200 by one block for each producer and no more, and it does in some
  run (`Log4zPool.PoolBoundIsAttained`).
* A thread that saw the manager running may push after `run` has left its loop. Exactly these records are never
  popped (`Log4zRuns.LateRecordsStay`).
* The header loses the sequence number and the upper half of priority and reserve; the exact condition
  under which a header arrives is `Frame.HeadArrives`.

## Model

| member | source | states |
|---|---|---|
| Utf8.DecodeWellFormed | 3rd/json/jsoncpp.cpp:4350-4402 | on every character that RFC 3629 section 4 calls well-formed, the decoder consumes exactly the bytes the RFC gives it, yields a scalar value, and the encoder turns that value back into those bytes |
| Utf8.EncodeScalar | 3rd/json/jsoncpp.cpp:125-151 | every Unicode scalar value is encoded as one well-formed character that decodes to it whatever follows |
| JsonStringLaws.CodepointRange | 3rd/json/jsoncpp.cpp:4350-4402 | on any bytes at all the decoder yields a number below 2^21 that is no surrogate |
| Utf8.DecodesPayload | 3rd/json/jsoncpp.cpp:4350-4402 | a well-formed character decodes to the number whose bits its bytes carry by section 3 of RFC 3629 |
| Utf8.DecodesAny | 3rd/json/jsoncpp.cpp:4350-4402 | any bytes decode to U+FFFD for one byte if the string ends before the announced length, to U+FFFD for all announced bytes if they carry an overlong form or a surrogate, and otherwise to the number they carry |
| JsonString.IsAnyCharRequiredQuoting | 3rd/json/jsoncpp.cpp:4338-4348 | the scan returns true exactly when some byte passes the test (with `char` signed) |
| JsonString.FastPathOnlyWhenEmpty | 3rd/json/jsoncpp.cpp:4341-4347 | because the last comparison is `< 0x80`, the unescaped path is taken for the empty string and no other |
| JsonString.AppendCodePoint | 3rd/json/jsoncpp.cpp:4475-4490 | one code point is appended as itself, as one escape, or as the two escapes of a surrogate pair |
| JsonString.EscapeNext | 3rd/json/jsoncpp.cpp:4443-4490 | one turn of the escape loop appends the escape of the character at the cursor, moves past that character and never past the end |
| JsonString.ValueToQuotedStringN | 3rd/json/jsoncpp.cpp:4429-4493 | the printed token is the quoted sequence of the escaped characters, on every byte string |
| JsonString.DecodeUnicodeEscapeSequenceLoop | 3rd/json/jsoncpp.cpp:945-970 | the four-digit loop yields the value of the digits or the error at the first character that is none |
| JsonString.DecodeUnicodeCodePoint | 3rd/json/jsoncpp.cpp:918-943 | a decoded escape or pair of escapes lies inside the token and moves the cursor forward; an error stays inside too |
| JsonString.ReadUnicodeCodePoint | 3rd/json/jsoncpp.cpp:918-943 | the escape, or the pair of escapes that a high surrogate demands, is decoded or refused as the reference does, with the same position |
| JsonString.DecodeStringLoop | 3rd/json/jsoncpp.cpp:865-916 | the decoding loop computes the decoded text, the early stop at a bare quote, or the error and its position |
| JsonString.ScanString | 3rd/json/jsoncpp.cpp:674-684 | the string lexer stays inside the document and accepts only at a quote |
| JsonStringLaws.ScannedIsAligned | 3rd/json/jsoncpp.cpp:674-684 | an accepted token body is a run of ordinary bytes and complete two-byte escapes |
| JsonStringLaws.AlignedIsScanned | 3rd/json/jsoncpp.cpp:674-684 | conversely every such run that is followed by a quote is accepted, ending there |
| JsonStringLaws.LexerAndDecoderAgree | 3rd/json/jsoncpp.cpp:865-916 | for every token the lexer accepts in any document, the decoder never meets an unescaped quote or an empty escape, never moves past the closing quote, and on success stops exactly at it |
| JsonStringLaws.HexRoundTrip | 3rd/json/jsoncpp.cpp:4418-4427 | four printed hexadecimal digits decode to the number they were printed from |
| JsonStringLaws.DecodePair | 3rd/json/jsoncpp.cpp:918-943 | the two escapes printed for a code point above U+FFFF decode to that code point |
| JsonStringLaws.DecodeEscapedBody | 3rd/json/jsoncpp.cpp:880-915 | decoding any printed token body gives the repaired string, at any position of any document |
| JsonStringLaws.QuotedIsPrintable | 3rd/json/jsoncpp.cpp:4429-4493 | the printed token of any byte string has only bytes 0x20-0x7F |
| JsonStringLaws.QuotingIsSafe | 3rd/json/jsoncpp.cpp:4429-4493 | for every byte string, valid UTF-8 or not, and whatever text surrounds it: printable output, lexed as one token that ends at its last byte, and accepted by the decoder |
| JsonPrinted.PrintedAscii | 3rd/json/jsoncpp.cpp:4443-4490 | quotation mark, reverse solidus and the five named control characters are printed as their two-character escapes, other control characters as four digits, and every other byte below 0x80 as itself |
| JsonPrinted.PrintedUnicode | 3rd/json/jsoncpp.cpp:4475-4490 | a character beyond ASCII is printed as the four-digit escape of its code point, or as the escapes of its two surrogates, in small letters |
| JsonPrinted.PrintedMalformed | 3rd/json/jsoncpp.cpp:4350-4402 | what ends too early, is overlong or a surrogate is printed as `\ufffd`, and takes one byte or the announced ones |
| JsonPrinted.PrintedPlain | 3rd/json/jsoncpp.cpp:4429-4493 | printable ASCII without quotation marks and reverse solidi is printed as it is |
| JsonRepair.MalformedHead | 3rd/json/jsoncpp.cpp:4350-4402 | a malformed character never comes back as the bytes it was made of |
| JsonRepair.ValidIsKept | 3rd/json/jsoncpp.cpp:4429-4493 | well-formed UTF-8 survives printing and decoding |
| JsonRepair.KeptIsValid | 3rd/json/jsoncpp.cpp:4429-4493 | only well-formed UTF-8 survives printing and decoding |
| JsonRepair.StringRoundTrip | 3rd/json/jsoncpp.cpp:865-916 | decoding the printed token gives back the very string if and only if the string is well-formed UTF-8, NULs and code points above U+FFFF included |
| JsonRepair.TwiceRepairedIsValid | 3rd/json/jsoncpp.cpp:4429-4493 | what went through writer and reader twice is well-formed UTF-8, whatever it was at first |
| JsonRepair.OnceRepairedIsValid | 3rd/json/jsoncpp.cpp:4475-4490 | one trip gives well-formed UTF-8 if and only if no character of the string decodes above U+10FFFF |
| JsonNumber.DecodeNumberLoop | 3rd/json/jsoncpp.cpp:790-831 | on 64-bit unsigned words, without wrapping, the loop yields an integer exactly when the token is an optional minus and digits of magnitude at most 2^64-1 (2^63 below zero), and then its mathematical value, unsigned above 2^31-1 |
| JsonNumber.DecimalDenotes | 3rd/json/jsoncpp.cpp:167-173 | the printed digits denote the number printed |
| JsonNumber.TwentyDigits | 3rd/json/jsoncpp.cpp:153-160 | no 64-bit value has more than twenty digits |
| JsonNumber.UIntToString | 3rd/json/jsoncpp.cpp:167-173 | the backward loop writes the decimal digits and a NUL, inside the 21 bytes below the start, and touches nothing else |
| JsonNumber.LargestIntToString | 3rd/json/jsoncpp.cpp:4251-4265 | signed printing in the 25-byte buffer gives sign and digits, the minimum included, without running under the buffer |
| JsonNumber.LargestUIntToString | 3rd/json/jsoncpp.cpp:4267-4273 | unsigned printing in the 25-byte buffer gives the digits |
| JsonNumber.IntegerRoundTrip | 3rd/json/jsoncpp.cpp:790-831 | decoding inverts printing for every 64-bit value, signed or unsigned, in the reader's choice of signed and unsigned form |
| JsonPrinted.PrintedDecimal | 3rd/json/jsoncpp.cpp:167-173 | the digits denote the number, the first one counting most, and the first is not 0 unless it is the only one |
| Bytes.BytesOrder | 3rd/json/jsoncpp.cpp:2755-2770 | `memcmp` on the common length and then the length is a strict total order on byte strings |
| Bytes.FirstDifference | 3rd/json/jsoncpp.cpp:2755-2770 | one byte string is less than another exactly if at their first difference its byte is smaller or it ends |
| JsonValue.KeyOrder | 3rd/json/jsoncpp.cpp:2755-2784 | keys are strictly totally ordered, and incomparable keys are equal |
| JsonValue.KeysInOrder | 3rd/json/jsoncpp.cpp:2755-2784 | names are ordered as in a dictionary and indices by size |
| JsonTree.MembersInOrder | 3rd/json/jsoncpp.cpp:4564-4578 | of two members of an object the one that is printed first has the smaller name in dictionary order |
| JsonOrder.Trichotomy | 3rd/json/jsoncpp.cpp:2958-3008 | of two NaN-free values with containers below 2^31 members exactly one is less, or they are the same value, through any nesting |
| JsonOrder.Transitive | 3rd/json/jsoncpp.cpp:2958-3008 | `<` is transitive through any nesting |
| JsonOrder.EqualsIsEquality | 3rd/json/jsoncpp.cpp:3016-3056 | `==` holds exactly between equal trees |
| JsonOrder.ValueOrder | 3rd/json/jsoncpp.cpp:2950-3056 | `<` is a strict total order, exactly one of less, equal and greater holds, and `compare` is 0 exactly on equality |
| JsonOrder.EqualsItself | 3rd/json/jsoncpp.cpp:3016-3056 | a value equals itself exactly when there is no NaN in it, at any depth |
| JsonOrder.BothLess | 3rd/json/jsoncpp.cpp:2958-3008 | each of two values is less than the other if and only if they clash: two arrays or two objects whose sizes differ by 2^31 modulo 2^32, or whose sizes agree modulo 2^32 and whose first entries that can be told apart have one key and clashing values, through any nesting |
| JsonOrder.SizesBothLess | 3rd/json/jsoncpp.cpp:2997-3002 | where the 32-bit difference of two sizes is not zero, each array is less than the other exactly when the difference is 2^31 modulo 2^32 |
| JsonOrder.ScalarLess | 3rd/json/jsoncpp.cpp:2958-2988 | integers are ordered by size, false before true, and strings as in a dictionary |
| JsonOrder.RealLess | 3rd/json/jsoncpp.cpp:2958-2988 | reals are ordered by size between the two infinities, and a NaN is neither less nor greater than anything |
| JsonOrder.TypesInOrder | 3rd/json/jsoncpp.cpp:2958-2962 | values of different types stand in the order null, integer, unsigned integer, real, string, boolean, array, object |
| JsonOrder.ContainersInOrder | 3rd/json/jsoncpp.cpp:2989-3008 | of two containers of one type the smaller one is less, and at equal sizes the first entry that differs decides |
| JsonOrder.EntryLessIs | 3rd/json/jsoncpp.cpp:2989-3008 | entries are compared by key, and by value where the keys are equal |
| JsonMap.AssignSorted | 3rd/json/jsoncpp.cpp:3404-3418 | inserting at the lower bound keeps the map sorted |
| JsonMap.AssignLookup | 3rd/json/jsoncpp.cpp:3536-3552 | after an assignment the key reads as the new value and every other key as before |
| JsonMap.EraseLookup | 3rd/json/jsoncpp.cpp:3386-3402 | after an erasure the key is absent and every other key reads as before |
| JsonArray.ArrayValue.Get | 3rd/json/jsoncpp.cpp:3427-3438 | reading any index gives the element of the sequence the map stands for, and null outside it |
| JsonArray.ArrayValue.Access | 3rd/json/jsoncpp.cpp:3404-3418 | the mutable access makes the position present and changes no element |
| JsonArray.ArrayValue.Append | 3rd/json/jsoncpp.cpp:3617-3621 | append extends the sequence by one value, gaps or not |
| JsonArray.ArrayValue.Resize | 3rd/json/jsoncpp.cpp:3386-3402 | growing pads with nulls, shrinking truncates, and the closing assertion holds exactly when the new last position was present (or the new size is 0 or larger); where it fails, the truncated sequence has lost its trailing nulls |
| JsonArray.ArrayValue.RemoveIndex | 3rd/json/jsoncpp.cpp:3667-3689 | the removed value is returned and exactly one position is deleted with the order kept, unless the removed position was the last and the one before it was missing: then and only then the sequence loses the nulls at its end too, and nothing else |
| JsonWriter.FastWriter.Write | 3rd/json/jsoncpp.cpp:4519-4525 | the document is the text of the root and a line feed |
| JsonWriter.FastWriter.WriteValue | 3rd/json/jsoncpp.cpp:4527-4579 | the text of the value is appended to what was written before |
| JsonWriter.FastWriter.WriteArray | 3rd/json/jsoncpp.cpp:4554-4563 | the element loop appends all elements up to the highest index, gaps as null |
| JsonWriter.FastWriter.WriteObject | 3rd/json/jsoncpp.cpp:4564-4578 | the member loop appends all members in key order |
| JsonPrinted.PrintedScalar | 3rd/json/jsoncpp.cpp:4527-4553 | the three words, and a minus for negative numbers in front of the digits |
| JsonPrinted.PrintedArray | 3rd/json/jsoncpp.cpp:4554-4563 | an array is the texts of its elements up to the highest index between brackets, with single commas and nothing else between them |
| JsonPrinted.PrintedObject | 3rd/json/jsoncpp.cpp:4564-4578 | an object is its members in order between braces, with single commas between them and a colon between name and value |
| JsonLexer.TokenAt | 3rd/json/jsoncpp.cpp:480-549 | a token starts where the spaces end, stays inside the document, is not empty except at the end, and a string token is one the string lexer accepts |
| JsonTokenShapes.SkipsBlank | 3rd/json/jsoncpp.cpp:551-559 | the cursor stops exactly at the first byte that is no space, tab, line feed or carriage return |
| JsonTokenShapes.NumberIs | 3rd/json/jsoncpp.cpp:652-672 | a number ends exactly where a run of digits, a period and digits or nothing, and an exponent or nothing end, each run being as long as it can |
| JsonTokenShapes.CCommentIs | 3rd/json/jsoncpp.cpp:627-634 | a C comment ends exactly behind the first asterisk and solidus, or with the document if that ends in a solidus |
| JsonTokenShapes.LineIs | 3rd/json/jsoncpp.cpp:636-650 | a line comment ends exactly behind the first line end, CR LF counting as one, or with the document |
| JsonTokenShapes.TokenExactly | 3rd/json/jsoncpp.cpp:480-549 | at any place there is a token of a kind other than an error if and only if its bytes stand there |
| JsonTokenShapes.ErrorEnds | 3rd/json/jsoncpp.cpp:480-549 | where an error token ends |
| JsonTokenShapes.ReadsExactly | 3rd/json/jsoncpp.cpp:480-549 | from any cursor the reader takes a token if and only if it stands behind the white space there |
| JsonLexer.NextToken | 3rd/json/jsoncpp.cpp:692-694 | skipping comments never moves back and stops at a token that is none |
| JsonLexer.Recover | 3rd/json/jsoncpp.cpp:981-992 | recovery never moves back and stays inside the document |
| JsonTokenShapes.RecoversBehind | 3rd/json/jsoncpp.cpp:981-992 | recovery goes on token by token, up to and including the first one that is sought or ends the document |
| JsonReader.Reader.SkipSpaces | 3rd/json/jsoncpp.cpp:551-559 | the loop stops at the first character that is no space |
| JsonReader.Reader.Match | 3rd/json/jsoncpp.cpp:561-570 | the backward comparison succeeds exactly when the pattern stands at the cursor, and moves the cursor only then |
| JsonReader.Reader.ReadString | 3rd/json/jsoncpp.cpp:674-684 | the loop scans one string body |
| JsonReader.Reader.ReadNumber | 3rd/json/jsoncpp.cpp:652-672 | the loops scan digits, fraction and exponent |
| JsonReader.Reader.ReadCStyleComment | 3rd/json/jsoncpp.cpp:627-634 | the loop scans a C comment, which a lone `/` at the very end also closes |
| JsonReader.Reader.ReadCppStyleComment | 3rd/json/jsoncpp.cpp:636-650 | the loop scans to the end of the line, CR LF counting as one |
| JsonReader.Reader.ReadToken | 3rd/json/jsoncpp.cpp:480-549 | the token read is the one the grammar has at the cursor, and the cursor moves to its end |
| JsonReader.Reader.RecoverFromError | 3rd/json/jsoncpp.cpp:981-992 | the cursor moves to the closing token or the end, and the error list is what it was |
| JsonReader.Reader.DecodeNumber | 3rd/json/jsoncpp.cpp:780-831 | the node on top takes the number, or keeps its value and one error is added |
| JsonReader.Reader.ReadScalar | 3rd/json/jsoncpp.cpp:411-459 | each branch that reads no further token leaves cursor, node stack and errors as the grammar says |
| JsonReader.Reader.ReadValue | 3rd/json/jsoncpp.cpp:393-468 | reading a value throws above 1000 nodes; otherwise the cursor, the value on top and at most one new error are the grammar's, and the nodes below are untouched |
| JsonReader.Reader.ReadArray | 3rd/json/jsoncpp.cpp:742-778 | the same for the array branch, whose stack height is restored |
| JsonReader.Reader.ReadElementLoop | 3rd/json/jsoncpp.cpp:754-777 | the element loop agrees with the grammar from any state of the stack |
| JsonReader.Reader.ReadObject | 3rd/json/jsoncpp.cpp:686-740 | the same for the object branch, what it accepts beyond the grammar included |
| JsonReader.Reader.ReadMemberValue | 3rd/json/jsoncpp.cpp:718-736 | one member after its colon: value, separator, and whether the loop goes on |
| JsonReader.Reader.Parse | 3rd/json/jsoncpp.cpp:352-391 | whatever was parsed before, parsing terminates with the grammar's result, root and errors, one node on the stack, and true if and only if the error list is empty |
| JsonGrammar.ReadValue | 3rd/json/jsoncpp.cpp:393-468 | on every input reading ends inside the document, never moves back, and a value takes at least one byte |
| JsonGrammar.ThrowNeedsBytes | 3rd/json/jsoncpp.cpp:398-399 | every level of nesting costs a byte of the document |
| JsonGrammar.ShortDocumentsDoNotThrow | 3rd/json/jsoncpp.cpp:398-399 | a document below 1000 bytes never throws |
| JsonTokens.ReadQuoted | 3rd/json/jsoncpp.cpp:480-549 | a printed string anywhere in a document is one string token that decodes to the repaired string |
| JsonTokens.ReadDecimal | 3rd/json/jsoncpp.cpp:652-672 | a printed integer followed by a separator, a bracket or the end is one number token |
| JsonTokens.ReadWord | 3rd/json/jsoncpp.cpp:520-531 | `null`, `true` and `false` are read as one token each |
| JsonRoundTrip.ReadWrittenElements | 3rd/json/jsoncpp.cpp:754-777 | the element loop reads back a printed array from any element on, throwing exactly when some element is too deep |
| JsonRoundTrip.ReadWrittenMembers | 3rd/json/jsoncpp.cpp:691-737 | the member loop reads back a printed object from any member on |
| JsonRoundTrip.ReadWritten | 3rd/json/jsoncpp.cpp:393-468 | wherever a printed value stands in a document, reading gives its normal form and stops just after it, or throws exactly when the nesting passes 1000 |
| JsonCanonical.DocumentRoundTrip | 3rd/json/jsoncpp.cpp:352-391 | parsing a written document gives the normal form of the value: true for arrays and objects, one error for anything else, an exception exactly above 1000 levels |
| JsonCanonical.NormalIsCanonical | 3rd/json/jsoncpp.cpp:4527-4579 | a value is its own normal form if and only if arrays have no gaps, integers are in the reader's form, and strings and keys are well-formed UTF-8 |
| JsonCanonical.RoundTripIsExact | 3rd/json/jsoncpp.cpp:4519-4525 | strict parsing of the written document returns true with exactly the value written, if and only if it is an array or object, at most 1000 deep, with gapless arrays, canonical integers and valid UTF-8 throughout |
| JsonCanonical.WriteThenParse | 3rd/json/jsoncpp.cpp:352-391 | the same for the writer and reader objects, whatever they did before |
| JsonTwice.TwoTripsAreEnough | 3rd/json/jsoncpp.cpp:4519-4525 | after two trips through writer and reader every value is canonical, so a third changes nothing |
| JsonOnce.OneTripIsEnough | 3rd/json/jsoncpp.cpp:4475-4490 | one trip makes a value canonical if and only if every string and key decodes within Unicode, but for values under a key that a later member takes over once keys are repaired |
| JsonOnce.OneTripWithoutCollisions | 3rd/json/jsoncpp.cpp:4475-4490 | where no two keys of an object coincide once repaired, one trip is enough if and only if every string and key of the tree decodes within Unicode |
| JsonQuirks.BraceForName | 3rd/json/jsoncpp.cpp:698-699 | where a name is expected a closing brace ends the object if and only if the last name is empty, and is refused otherwise |
| JsonQuirks.AfterMemberValue | 3rd/json/jsoncpp.cpp:723-736 | after a member's value the loop goes on if and only if a comma follows, or a comment and then any token but a closing brace, which is consumed; otherwise a closing brace ends the object and anything else is refused |
| JsonQuirks.TrailingCommaAccepted | 3rd/json/jsoncpp.cpp:686-740 | for one member of any name and value, a comma before the closing brace is accepted if and only if the name is empty |
| JsonQuirks.AnyMarkServes | 3rd/json/jsoncpp.cpp:729-736 | behind a value and a comment any punctuation but a closing brace serves as the comma, whatever the members |
| JsonQuirks.MissingCommaIsRefused | 3rd/json/jsoncpp.cpp:729-740 | without a token in the comma's place the next name is taken for it and the object is refused, whatever the members |
| JsonQuirks.CommentIsNoValue | 3rd/json/jsoncpp.cpp:451-458 | a comment in front of a value is refused |
| JsonQuirks.UnclosedComment | 3rd/json/jsoncpp.cpp:627-634 | a C comment that is never closed is a comment token if and only if the document ends in a slash |
| JsonQuirks.CommentAtEnd | 3rd/json/jsoncpp.cpp:686-778 | behind a comment that runs to the end of the document the member loop and the element loop fail, wherever they stand |
| JsonQuirks.LoneMinus | 3rd/json/jsoncpp.cpp:652-672 | a minus without digits is a number token and decodes as 0 |
| JsonQuirks.LeadingZeros | 3rd/json/jsoncpp.cpp:652-672 | any number of zeros in front of the digits, behind a minus or not, is read as part of the number token and makes no difference to its value |
| JsonSpelling.ReadStringText | 3rd/json/jsoncpp.cpp:865-916 | a string in any spelling of RFC 8259 section 7, pairs of surrogate escapes included, is one token that decodes to what it denotes |
| JsonSpelling.ReadNumberText | 3rd/json/jsoncpp.cpp:652-672 | a number in any spelling of RFC 8259 section 6 is one token |
| JsonSpelling.DecodeNumberText | 3rd/json/jsoncpp.cpp:790-831 | it decodes to its integer if it is one of 64 bits, and otherwise to what the C library scans |
| JsonSpelling.DecodesExactly | 3rd/json/jsoncpp.cpp:790-831 | every token at all decodes to an integer exactly if it is an optional minus and digits, be they none, of at most 64 bits, and then to the number these denote, unsigned above 2^31-1 |
| JsonSpelling.DecimalIs | 3rd/json/jsoncpp.cpp:811-826 | reading digits one after the other gives the sum of each times its power of ten |
| JsonSpelling.HexValueIs | 3rd/json/jsoncpp.cpp:945-970 | a byte is a hexadecimal digit, small or capital, exactly if it stands in the two rows of digits, and has the value of its position |
| JsonSpelling.UnescapeIs | 3rd/json/jsoncpp.cpp:880-915 | exactly the eight letters of RFC 8259 section 7 are two-character escapes, with the characters named there |
| JsonEscapes.DecodedExactly | 3rd/json/jsoncpp.cpp:865-943 | the body of a string token is decoded if and only if it is a run of the characters of RFC 8259, or of high surrogate escapes with any second escape, and then to their meanings one after the other |
| JsonComplete.ReadText | 3rd/json/jsoncpp.cpp:393-468 | wherever a text of RFC 8259 stands, reading yields the value it denotes and stops just after it, or throws exactly when the nesting passes 1000 |
| JsonComplete.EveryTextParses | 3rd/json/jsoncpp.cpp:352-391 | every RFC 8259 array or object, in any spelling, behind any white space and in front of anything at all, its escaped surrogates being paired and its numbers beyond 64-bit integers being ones the C library scans, is parsed to true with the value it denotes if at most 1000 deep, and throws otherwise |
| JsonAccepted.ElementsAreRead | 3rd/json/jsoncpp.cpp:742-778 | where the elements of a tree stand, the element loop ends behind them with the values they denote, throws if they nest too deep, and ends without a value if one of them is not closed |
| JsonAccepted.MembersAreRead | 3rd/json/jsoncpp.cpp:686-740 | the same for the member loop, which also ends without a value where a brace stands for a name after a name that is not empty |
| JsonAccepted.TreeIsRead | 3rd/json/jsoncpp.cpp:393-468 | wherever a tree of the grammar stands, reading gives what it denotes and ends where it ends, or throws exactly above 1000 levels, if the tree is closed; otherwise it gives no value |
| JsonAccepted.TreeOf | 3rd/json/jsoncpp.cpp:393-468 | conversely wherever reading gives a value, a closed tree within the stack limit stands there, ends where reading ends and denotes the value |
| JsonAccepted.TreeDocument | 3rd/json/jsoncpp.cpp:352-391 | a document that begins with a closed array or object tree is parsed to true with what the tree denotes, or throws above 1000 levels, whatever stands behind it; one whose tree is not closed is refused |
| JsonAccepted.AcceptedExactly | 3rd/json/jsoncpp.cpp:352-391 | parse returns true with a given root if and only if the document begins with a closed array or object tree of at most 1000 levels that denotes the root |
| JsonAccepted.BraceBehindComma | 3rd/json/jsoncpp.cpp:698-699 | in an object of any number of members a closing brace behind the last comma is accepted if and only if the last name is empty |
| JsonAccepted.CommentsAreClosed | 3rd/json/jsoncpp.cpp:627-634 | every comment in a tree ends before the tree does, so none in an accepted text runs to the end of the document |
| JsonRefused.BrokenIsRead | 3rd/json/jsoncpp.cpp:393-468 | wherever a text breaks off, reading leaves everything read so far in the node and reports the one error of the place where it breaks off, unless it throws before |
| JsonRefused.BrokenOf | 3rd/json/jsoncpp.cpp:393-468 | conversely wherever reading fails, a text stands there that breaks off, with that value and that error |
| JsonRefused.RefusedExactly | 3rd/json/jsoncpp.cpp:352-391 | parse returns false with a given root and given errors if and only if the document begins with a text that breaks off, with what was read so far and that error, or with a scalar; a root that is no container is reported in addition |
| Log4zLogger.LimitIsExact | 3rd/log/log4z.cpp:1788 | the 32-bit limit is the setting modulo 4096 times 2^20, and so what the setting says exactly below 4096 |
| Log4zLogger.Terminated | 3rd/log/log4z.cpp:1575-1579 | a queued text is the first 8189 bytes, or all of a shorter text, and CR LF |
| Log4zLogger.SizeStaysBounded | 3rd/log/log4z.cpp:1987-2000 | writing a record leaves a file that was within the limit when opened at most 8191 bytes beyond it, and the 32-bit counter is the file length modulo 2^32 |
| Log4zLogger.FilesStayBounded | 3rd/log/log4z.cpp:1772-1880 | the same over any run of records, changes and refused opens |
| Log4zLogger.IndexRule | 3rd/log/log4z.cpp:1787-1802 | a written record sets the file index to 0 on a new day, raises it by one when the length of the last file is over the limit, and keeps it otherwise |
| Log4zLogger.IndexNeverFalls | 3rd/log/log4z.cpp:1787-1802 | with 24-hour days, times that do not fall back and successful opens, the index never falls within a day over any run, and grows by at most one a record |
| Log4zLogger.IndexRisesWhenFull | 3rd/log/log4z.cpp:1787-1802 | over any run, while the day stays the same the index changes only where a record goes to a file and the open file is longer than the limit, modulo 2^32, and then rises by one |
| Log4zLogger.FileAfterRecord | 3rd/log/log4z.cpp:1804-1880 | a record adds exactly its text to the open file, or if it rolls to a new one under the current name, path and month directory |
| Log4zLogger.RefusedOpen | 3rd/log/log4z.cpp:1851-1859 | if a file must be opened and cannot be, nothing is written and the logger stops writing files |
| Log4zLogger.OneFieldChanges | 3rd/log/log4z.cpp:1650-1668 | a change sets exactly the field its kind names, to the value the source gives it, and leaves all others |
| Log4zInvariants.ConsumerOkStep | 3rd/log/log4z.cpp:1897-1918 | in `popLog` the second emptiness test never fires, and the cache is empty whenever the consumer is not draining it |
| Log4zInvariants.InOrderStep | 3rd/log/log4z.cpp:1897-1918 | every step of every thread keeps enqueued = popped, then cache, then queue, in order |
| Log4zInvariants.RecordsOkStep | 3rd/log/log4z.cpp:1542-1617 | every queued record names an existing logger and fits the buffer, so the consumer's identifier test never fires |
| Log4zInvariants.CountersStep | 3rd/log/log4z.cpp:1945-2008 | every step keeps the push count at the general records enqueued, the pop count at those popped, and the write count below |
| Log4zInvariants.CountersMean | 3rd/log/log4z.cpp:1613-1616 | pushed minus popped is the number of general records in queue and cache (and the one not counted yet) |
| Log4zOwnership.OwnedOnceStep | 3rd/log/log4z.cpp:1202-1220 | every step keeps each live block in exactly one of pool, queue, cache and hands |
| Log4zOwnership.PoolBoundedStep | 3rd/log/log4z.cpp:1303-1315 | the size test before the lock lets the pool grow past 200 by no more than the number of producers |
| Log4zPool.PoolBoundIsAttained | 3rd/log/log4z.cpp:1303-1315 | however the manager is set up, some run ends with 200 blocks in the pool and one more for each producer |
| Log4zRuns.QueueConservation | 3rd/log/log4z.cpp:1542-1617 | in every state of every interleaving: order, single ownership, counters and the bound of the pool |
| Log4zRuns.HistoryGrows | 3rd/log/log4z.cpp:1897-1918 | what was enqueued and popped is never taken back |
| Log4zRuns.NothingLeftAtExit | 3rd/log/log4z.cpp:2026-2030 | when `run` leaves its loop both queues are empty and every record enqueued so far has been popped |
| Log4zRuns.LateRecordsStay | 3rd/log/log4z.cpp:2026-2030 | from the moment `run` leaves its loop, exactly the records enqueued before it are popped and exactly those enqueued later stay in the queue, in every later state |
| Log4zRuns.FilesAreClosed | 3rd/log/log4z.cpp:2010-2048 | after a drain the files of loggers that are off are closed and no others; at the end the loggers still on are switched off and closed |
| Log4zSettings.SettingsStep | 3rd/log/log4z.cpp:1650-1668 | every step keeps each logger's settings at the fold of the changes popped so far, each open file at the current name, path and month directory, and its size within the limit |
| Log4zSettings.SettingsAreLastChanges | 3rd/log/log4z.cpp:1650-1668 | after any sequence of records each of the eight settings is the one asked for by the last change of its kind to that logger, and the initial one if there is none |
| Log4zSettings.SwitchAndLevelAreLastChanges | 3rd/log/log4z.cpp:1650-1668 | the same for the switch and the level |
| Log4zRuns.SettingsFollowQueueOrder | 3rd/log/log4z.cpp:1956-1962 | while no change bypassed the queue since the start and no open failed, a record is shown and written while each of its logger's settings is the one asked for by the last change of its kind enqueued before it, or the initial one |
| Log4zRuns.FilesStayCurrent | 3rd/log/log4z.cpp:1804-1861 | in every clean state of a run each setting of each logger is the one asked for by the last change applied so far, its open file carries the current name, path and month directory, and no file has grown past its limit by more than 8191 bytes |
| Log4zManager.TestsTogether | 3rd/log/log4z.cpp:1544-1556 | the three separate tests of the state machine, taken together, queue a record exactly when its logger exists, does not discard it and the manager runs |
| Log4zManager.StepsTogether | 3rd/log/log4z.cpp:1950-2008 | the consumer's separate steps of the state machine, taken together, change one logger as the loop body does, count a general record once, and count it as written exactly when it is |
| Log4zManager.WrittenIs | 3rd/log/log4z.cpp:1963-2000 | a record is counted as written exactly if it passes its logger's tests and no file must be opened for it that cannot be |
| Log4zManager.LogerManager.MakeLogData | 3rd/log/log4z.cpp:1202-1240 | the last pooled block is reused, or the allocator's, and the record's header is reset |
| Log4zManager.LogerManager.FreeLogData | 3rd/log/log4z.cpp:1303-1315 | the block goes back to the pool while that holds fewer than 200 |
| Log4zManager.LogerManager.PushLog | 3rd/log/log4z.cpp:1542-1617 | a record is queued exactly when its logger exists, is enabled and passes the level while the manager runs; its text is cut and terminated; a refused one's block is freed once |
| Log4zManager.LogerManager.HotChange | 3rd/log/log4z.cpp:1631-1648 | a change is queued as a record in a block from the pool while the manager runs, and made at once while it does not |
| Log4zManager.LogerManager.OnHotChange | 3rd/log/log4z.cpp:1650-1668 | exactly the field that the kind names changes, of exactly one existing logger, to the value the source gives it |
| Log4zManager.LogerManager.OpenLogger | 3rd/log/log4z.cpp:1772-1881 | rolling and opening, step by step, leave the logger that the model of a logger prescribes |
| Log4zManager.LogerManager.PopLog | 3rd/log/log4z.cpp:1897-1918 | the oldest record is removed and returned; nothing is found exactly when both queues are empty |
| Log4zManager.LogerManager.HandleLog | 3rd/log/log4z.cpp:1947-2008 | one turn of the consumer's loop changes one logger as prescribed, counts a general record once, counts it as written exactly when it was, and frees its block once |
| Log4zManager.LogerManager.Drain | 3rd/log/log4z.cpp:1945-2009 | the loop handles everything waiting, in order, frees each block once and leaves both queues empty |
| Log4zManager.DrainSettings | 3rd/log/log4z.cpp:1956-1962 | after the loop each of a logger's settings is the one asked for by the last change of its kind in the queue |
| Log4zStream.LutDecIs | 3rd/log/log4z.h:710-720 | the decimal digit-pair table holds at 2v the two digits of v, for all v below 100 |
| Log4zStream.LutHexIs | 3rd/log/log4z.h:722-738 | the hexadecimal table holds at 2v the two capital digits of v, for all v below 256 |
| Log4zStream.StripPair | 3rd/log/log4z.h:751-766 | two digits at a time, less one leading zero, is the same as one digit at a time |
| Log4zStream.FitsCache | 3rd/log/log4z.h:740-748 | no 64-bit value in base 2 to 16 needs more than the 64-byte cache |
| Log4zStream.DigitsDenote | 3rd/log/log4z.h:783-791 | the digits denote the number printed and have no leading zero |
| Log4zStream.PaddedLength | 3rd/log/log4z.h:793-797 | the printed length is the larger of width and digit count |
| Log4zStream.PaddedDenotes | 3rd/log/log4z.h:793-799 | in every base from 2 to 16 and any width the padded text denotes the number and ends in its digits |
| Log4zStream.DigitCharIs | 3rd/log/log4z.h:708-738 | digits are 0 to 9 and then letters, capitals in base 16 and small ones in all others |
| Log4zStream.FillPairs | 3rd/log/log4z.h:751-782 | the table loops write the digit pairs of the value, right-aligned, and never leave the cache |
| Log4zStream.FillSingles | 3rd/log/log4z.h:783-791 | the plain loop writes the digits of the value, right-aligned, and never leaves the cache |
| Log4zStream.FillCache | 3rd/log/log4z.h:748-791 | in every base from 2 to 16 the cache ends with the one-digit-at-a-time digits of the value |
| Log4zStream.Log4zStream.WriteULongLong | 3rd/log/log4z.h:705-802 | with more than 64 bytes left the padded number is appended, otherwise nothing; the cursor stays within the buffer and nothing else is touched |
| Log4zStream.Log4zStream.WriteLongLong | 3rd/log/log4z.h:694-703 | a minus if there is room for it, then the magnitude, for every value above the minimum |
| Log4zStream.Log4zStream.WriteString | 3rd/log/log4z.h:909-923 | as much of the string as fits is appended |
| Log4zStream.Log4zStream.WriteChar | 3rd/log/log4z.h:899-907 | a character is appended unless it would take the last byte |
| ProtoWire.VarintRoundTrip | serverDiscover/message.pb.cpp:567 | a written varint is read back whatever follows it |
| ProtoWire.VarintSizeIs | serverDiscover/message.pb.cpp:687-691 | the size computed for a 64-bit varint is the number of bytes written |
| ProtoWire.Int32RoundTrip | serverDiscover/message.pb.cpp:625-628 | an int32, negative ones as ten bytes, is read back exactly |
| ProtoWire.StringRoundTrip | serverDiscover/message.pb.cpp:613-621 | a length-delimited string is read back exactly, and takes the size computed for it |
| ProtoFields.WrittenVarint | serverDiscover/message.pb.cpp:567 | a number is written in groups of seven bits, the lowest first, every byte but the last with its top bit set, and in as few as it needs |
| ProtoFields.ReadsVarint | serverDiscover/message.pb.cpp:567 | on any data a varint is read exactly if such groups begin the data, at most as many as allowed, and then as the number they carry |
| ProtoFields.ReadsText | serverDiscover/message.pb.cpp:558-566 | a text is read exactly if its length stands in front of it, as a varint of at most five bytes |
| ProtoLogin.ParseSerialized | serverDiscover/message.pb.cpp:546-604 | parsing a serialised message, whatever follows, merges it into the target and goes on with the rest |
| ProtoLogin.RoundTrip | serverDiscover/message.pb.cpp:546-604 | parsing a serialised login gives the login back, any int32 port included |
| ProtoLogin.ConcatenationMerges | serverDiscover/message.pb.cpp:717-738 | two serialised logins one after the other parse to the second merged into the first |
| ProtoLogin.SerializedInjective | serverDiscover/message.pb.cpp:607-655 | different logins are serialised differently |
| ProtoFields.LoginFields | serverDiscover/message.pb.cpp:607-655 | to any reader of the encoding a serialised login is the fields 1 to 4 in this order, address, port, city and name, defaults left out and a negative port modulo 2^64 |
| ProtoFields.ParsesExactly | serverDiscover/message.pb.cpp:546-604 | on any data parsing is complete if and only if the data is a sequence of such fields with well-formed texts, and then the last field of each number counts |
| ProtoLogin.ReqNodeLogin.InternalParse | serverDiscover/message.pb.cpp:546-604 | the parse loop ends as the reference parser does, with the same fields |
| ProtoLogin.ReqNodeLogin.InternalSerialize | serverDiscover/message.pb.cpp:607-655 | the fields are written in order, defaults left out |
| ProtoLogin.ReqNodeLogin.ByteSizeLong | serverDiscover/message.pb.cpp:657-700 | the computed size is the length of the serialised message |
| ProtoLogin.ReqNodeLogin.MergeFrom | serverDiscover/message.pb.cpp:717-738 | fields that differ from their default replace the target's, the others stay |
| ProtoLogin.ReqNodeLogin.CopyFrom | serverDiscover/message.pb.cpp:748-753 | after copying the message is the source's, itself included |
| ProtoLogin.ReplyLaws | serverDiscover/message.pb.cpp:828-931 | round trip and concatenation for the reply |
| ProtoFields.ReplyFields | serverDiscover/message.pb.cpp:862-880 | a serialised reply is field 1, left out if it is 0 |
| ProtoFields.ReplyParsesExactly | serverDiscover/message.pb.cpp:828-859 | on any data parsing a reply is complete if and only if the data is a sequence of fields 1, the last of which counts |
| ProtoLogin.RespNodeLogin.InternalParse | serverDiscover/message.pb.cpp:828-859 | the reply's parse loop ends as the reference parser does |
| ProtoLogin.RespNodeLogin.ByteSizeLong | serverDiscover/message.pb.cpp:882-903 | the reply's computed size is its serialised length |
| Frame.SetUnsignedInt | common/dataProtocolHead.cpp:89-96 | the low 16 bits are written big-endian into the first two bytes, the other two become 0 |
| Frame.SetUnsignedLonglong | common/dataProtocolHead.cpp:98-108 | the upper half of the value ends up little-endian in the eight bytes, the lower half nowhere |
| Frame.GetUnsignedInt | common/dataProtocolHead.cpp:54-61 | the 32-bit getter reads the first two bytes only |
| Frame.GetUnsignedLonglong | common/dataProtocolHead.cpp:63-71 | the 64-bit getter reads two 16-bit halves |
| Frame.Encode | common/dataProtocolHead.cpp:23-36 | header writes produce the 24 header bytes and touch nothing behind them |
| Frame.Decode | common/dataProtocolHead.cpp:8-21 | every field of the head is assigned from the buffer |
| Frame.HeadRoundTrip | common/dataProtocolHead.cpp:8-36 | tag, version, type, length and message id arrive exactly; of priority and reserve 16 bits arrive; the sequence number arrives as the swapped low 16 bits of its upper half |
| Frame.HeadLayout | common/dataProtocolHead.cpp:23-36 | which byte of the 24 holds which part of which field |
| Frame.DecodedLayout | common/dataProtocolHead.cpp:8-21 | from which bytes of any buffer each field of the head is made |
| Frame.HeadArrives | common/dataProtocolHead.cpp:8-36 | a header arrives unchanged if and only if priority and reserve fit 16 bits and the sequence number has only bits 32 to 47 set, in two equal bytes |
| Frame.SmallNumbersAreLost | common/dataProtocolHead.cpp:98-108 | a sequence number below 2^32 arrives as 0 |
| Frame.FrameRoundTrip | serverDiscover/nodeConnect.cpp:34-52 | from any frame with a login body of at most 1000 bytes the receiver gets type, message id, length and login back, whatever the other header fields hold |
| Frame.SendLogin | client/ClientConnect.cpp:164-188 | the request buffer holds the header with the body's length and the body at offset 24; bytes behind the body are untouched |
| Frame.ReceiveLogin | common/pbCodec.cpp:35-53 | a protobuf login request is parsed from the bytes the length covers, which lie in the buffer if and only if the length is at most 1000; anything else is not parsed |
| Frame.LoginArrives | serverDiscover/nodeConnect.cpp:34-69 | what the client sends as a login is the login the server receives |
| HandOff.RoundRobinStep | core/threadPool.cpp:40-53 | every step keeps each worker's connections, handled to listed, at the dispatches with its remainder, in order |
| HandOff.InStepStep | core/xthread.cpp:13-39 | every step keeps each list as long as the bytes in the pipe plus the announcements under way |
| HandOff.NeverEmpty | core/xthread.cpp:27-36 | a worker that has read a byte always finds a connection: the empty-list branch is unreachable |
| HandOff.HandledInOrder | core/xthread.cpp:34-38 | in every state of every run a worker's handled connections are, in order and each once, the dispatches with its remainder |
| HandOff.ExactlyOnce | core/threadPool.cpp:40-53 | once everything is quiet, dispatch d has been handled exactly once, by worker d mod n as its d/n-th |
| HandOff.NothingStranded | core/xthread.cpp:109-128 | until then some step is always possible |
| HandOff.WorkStep | core/xthread.cpp:13-39 | every step but a dispatch takes exactly one from the work to be done, and a dispatched connection adds five |
| HandOff.WorkIsConserved | core/xthread.cpp:13-39 | in every state of every run the steps taken besides dispatches and the work to be done add up to five for each connection dispatched |
| HandOff.BecomesQuiet | core/xthread.cpp:109-128 | without new dispatches a run becomes quiet after exactly as many steps as there was work, in every interleaving |
| ThreadPool.Xthread.Notify | core/xthread.cpp:13-39 | one wake-up takes one byte and handles the oldest connection |
| ThreadPool.Xthread.AddConnect | core/xthread.cpp:109-120 | a connection goes to the end of the list; a null one is ignored |
| ThreadPool.Xthread.Active | core/xthread.cpp:122-128 | a successful write adds one byte to the pipe |
| ThreadPool.XThreadPool.Init | core/threadPool.cpp:19-31 | as many distinct idle workers as asked for, numbered from 1 |
| ThreadPool.XThreadPool.DispatchThread | core/threadPool.cpp:40-53 | the next worker in turn gets the connection and one byte, the others nothing; a null connection changes nothing |

## Left out

- JsonNormal.RealFree: reals take no part in the round trip, because scanning and printing a `double` is the C library's; the reader and writer are proved with both as parameters.
- JsonCanonical.DocumentRoundTrip: does not model the widths of lengths and indices: from 2^31 array elements the reader's `int` index overflows, and strings of 2^31 bytes or keys of 2^30 bytes are refused or truncated by the library.
- JsonCanonical.RoundTripIsExact: the same widths are not modelled.
- JsonCanonical.WriteThenParse: the same widths are not modelled.
- JsonAccepted.AcceptedExactly: the same widths are not modelled.
- JsonComplete.EveryTextParses: the same widths are not modelled; a text whose number the C library cannot scan is not a valid text here.
- JsonText.ValidChar: an escape of a high surrogate that is not followed by one of a low surrogate denotes no character and is outside the completeness theorem, although the grammar of RFC 8259 admits it.
- JsonOrder.Comparable: 0.0 and -0.0 are one value here, because a real cannot tell them apart.
- JsonArray.ArrayValue.Append: does not model the wrap of the 32-bit index at 2^32 elements.
- JsonString.ValueToQuotedStringN: does not model strings of 2^32 bytes and more, whose length the writer truncates, nor a `Value` of string type without a string.
- JsonReader.Reader.ReadChild: a child is pushed as a copy and stored back when it is popped, where the source pushes a pointer to it; when the reader throws, the partly built root is not described.
- JsonReader.Reader.Parse: comments are not collected (strict mode collects none), and source offsets of values and the texts of error messages are not modelled.
- JsonArray.ArrayValue: the promotion of a null value to an array on first use, and assertions on values of other types.
- `OurReader`, the builders, the styled writers, YAML and placeholder flags of the writer, `Path`, comments on values: duplicates of what is modelled or not used by the server.
- Log4zQueue.Next: what a consumer reads of one logger while it handles one record is one step; other threads can only enable the logger or lower its level meanwhile, or change it while the manager is stopped, which clears `clean`.
- Log4zQueue.Producer: the records that the manager's own thread logs at the start of `run` (3rd/log/log4z.cpp:1922-1935) are not tied to that thread; they are the records of one more producer.
- Log4zQueue.Run: one start of the manager; stopping waits for the thread and frees the pool afterwards, a second start is not modelled.
- Log4zLogger.OpenLogger: the reserve-time deletion of old files, the printed path itself (name, path, month directory, time and index stand for it), and flushing.
- Log4zManager.LogerManager.PushLog: the file-and-line suffix is a parameter that fits the buffer, as the bounded stream guarantees.
- `prePushLog` and its throttling, configuration files and their periodic reload, synchronous output, console colours, semaphores and thread creation: operating-system calls or not on the queue's path.
- Level and enable settings in queue order: lowering a level and enabling a logger take effect at once while the opposite changes are queued, so no such claim holds.
- Log4zStream.Log4zStream.WriteLongLong: the minimum 64-bit value, whose negation overflows in the source.
- Log4zStream.Log4zStream.WriteULongLong: widths above 64, which the source's cache cannot hold, and bases outside 2 to 16, for which it has no digits.
- `writeDouble`, `writeBinary`, `writePointer` and the containers of `Log4zStream`: the C library or repetitions of what is modelled.
- ProtoLogin.ParseFrom: a field the message does not know ends the model's parse with its own outcome; the library skips and keeps it. After a failure the fields are not described.
- Arenas, reflection, descriptor tables, cached sizes and the heartbeat messages, which have no fields.
- Frame.ReceiveLogin: ends with its own outcome where the length reaches past the 1024-byte buffer; the source goes on parsing there. Partial reads from the socket are not modelled.
- HandOff.Next: a failed pipe write, which the source only logs, and an index beyond 2^31-1.
- libevent, sockets, HTTP handlers, timers and the node registry: I/O plumbing without a property of its own.
