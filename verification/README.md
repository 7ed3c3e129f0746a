# The algorithmic cores of NekoScript's script engine

NekoScript is a Windows shell around the Duktape script engine. The shell is plumbing; the engine it
vendors under `NekoScript/vendors/duktape` holds the algorithms. This project models the densest of them
in Dafny, in the form the engine has them (cursors, buffers, in-place arrays, object fields), and proves
that each does what it is for. Every method is proved against a specification, and the lemmas say what
the specifications are worth: inverses, invariants over whole runs, and independent definitions they equal.

| file | what it models | main results |
|---|---|---|
| `Xutf8.dfy`, `Bytes.dfy` | the engine's extended UTF-8 | decoding undoes encoding for every 32-bit codepoint; every encoding and decoding in numbers |
| `JsonDocument.dfy`, `JsonEncoder.dfy` | values, heaps and text; the slow serializer, the fast one, and the wrapper choosing between them | both give the same outcome on every finite heap, cyclic or not |
| `JsonReserve.dfy` | room reserved for a chunk of a quoted string | when exactly six bytes per byte are enough |
| `LookupTables.dfy` | the literal tables of the JSON and hex readers | each entry is what the comparisons of the table-free build give |
| `JsonGraph.dfy` | what serialization means on object graphs | cycles and nothing else are reported as cycles; sharing is invisible |
| `JsonParser.dfy`, `JsonRoundTrip.dfy` | the recursive-descent parser | it follows the grammar on every byte string; parsing undoes stringifying |
| `JsonGrammar.dfy` | JSON text in literal characters, as syntax trees | exactly the texts derived are accepted, repeated keys and depth included; whatever is written is derived |
| `JsonStandard.dfy` | the text the ECMAScript standard prescribes, and which properties are shown | the serializer writes exactly that text |
| `Bytecode.dfy` | function dump and load | load undoes dump on every function tree; dump of load of dump is dump, with one exact exception |
| `BytecodeFormat.dfy` | the dump as positions in a byte string | every field of a dump is where the format has it; what a reloaded function has, at every depth |
| `Calendar.dfy`, `TimeValue.dfy`, `Iso8601.dfy` | day and year conversion, splitting and joining time values, local time, ISO 8601 text | every time value survives splitting and joining, and printing and parsing |
| `CivilDays.dfy` | dates in closed form, without tables | splitting and joining satisfy it for all years, months and days |
| `IsoGrammar.dfy` | date text in literal characters | exactly the strings derived are accepted, with which time value; every character written |
| `Base64.dfy` | both encoders and both decoders | each pair agrees; decoding undoes encoding, concatenation and whitespace included |
| `Base64Literal.dfy` | RFC 4648 by division and remainder | encoding and decoding are that |
| `SparseArray.dfy`, `ArraySort.dfy`, `ArraySplice.dfy` | quicksort and splice on arrays with holes | permutation for every comparator, sorted for consistent ones; splice is prefix ++ items ++ suffix |
| `TypedArraySet.dfy` | `set()` between overlapping views | the bytes a conversion from a snapshot would leave; the byte-copy table is exact |
| `UriCodec.dfy` | URI encoding and decoding, escape and unescape | exact acceptance of encoding and of multi-byte escapes; exact round trips |
| `UriLiteral.dfy` | the same functions in literal characters and numbers | the whole result of encodeURI, encodeURIComponent and escape; each step of decoding |
| `ModuleId.dfy` | CommonJS module id resolution in two fixed buffers | equals folding terms over a stack; idempotent; never out of bounds |
| `PrototypeChain.dfy` | prototype assignment | chains stay finite over every run; refused exactly when a cycle would arise |
| `ValueStack.dfy`, `StackRun.dfy` | value stack primitives and resizing, and runs over the stacks of all threads of a heap | over every run, moves between stacks included, reference counts equal occurrences and the stacks are what was asked for |

How the pieces fit together:

- JSON has one specification of the walk over the heap, `JsonDocument.Walk`, which carries the path of objects
  entered, and one of text, `JsonDocument.DocText`. The methods of `JsonEncoder.EncCtx` are proved against the
  two. `JsonGraph.Denotes` is a second, independent reading of a value that records no path at all, and
  the lemmas of `JsonGraph` connect the two in both directions. `JsonRoundTrip` connects `DocText` to the
  grammar functions of `JsonParser`, against which the parser's methods are proved. Numbers and their text
  are a parameter (`NumConv`), assumed invertible only in the round trip.
- Dates are described by `Calendar.Denotes`: normalized parts that say what a time value is on the calendar,
  defined by counting days year by year and month by month. Splitting, joining, the equivalent year and
  the text are all related to it.
- A specification that the code's own constants and tables go into says little if one of them is wrong, so each is
  also tied to a second description that uses none of them, written in literal characters and plain arithmetic:
  `JsonGrammar`, `JsonStandard`, `BytecodeFormat`, `CivilDays`, `IsoGrammar`, `Base64Literal` and `UriLiteral`, and
  the lemmas called `...InNumbers` and `...Literal` of the other modules.
- For base64, `Encode` and `Decode` follow section 4 of RFC 4648; the four loops are proved against them.
- In sorting, a comparison function may answer anything and may answer differently at each call; `Consistent`
  says that the answers follow a total preorder.

Where the code and its own comments or intent part ways, the code is modelled as it is and the exact
condition is proved:

- A variable called `__proto__` is lost when dumped bytecode is loaded, because the variable map is filled
  by ordinary property assignment, which runs the inherited setter (`duk_api_bytecode.cpp:610`). This takes
  Object.prototype as the engine creates it, with that one setter.
  `Bytecode.ReloadedComplete` and `Bytecode.RedumpSame` say that this is the only loss.
- A comment in the year computation expects two iterations to be enough. They are from 85060960 days before
  1970 on (`Calendar.TwoCorrectionsSuffice`), not the day before (`Calendar.TwoCorrectionsFallShort`); over all
  supported days three are enough, and `Calendar.ThreeCorrections` says exactly for which days two are.
- Printed offsets drop seconds, so local time text reads back exactly if and only if the offset is in whole
  minutes (`Iso8601.PrintedTimeReads`).
- The search for the local offset finds an instant whenever there is one as long as no more than two offsets
  occur within a day of it (`TimeValue.LocalTimeFound`); with more it can miss one
  (`TimeValue.MoreOffsetsCanCycle`). `TimeValue.SearchExact` says for every zone exactly when it succeeds.
- Decoding URI escapes skips the byte between two escapes without looking at it: it never matters
  (`UriCodec.SeparatorsIgnored`), and what is accepted is grammatical exactly when those bytes are percent signs
  (`UriCodec.AcceptedGrammatical`).
- Quoting reserves six bytes per byte of a chunk, but the last codepoint may reach beyond the chunk: the
  reservation is one byte short exactly for the chunks `JsonReserve.Overruns` describes, none of them CESU-8.
- Strings holding codepoints beyond U+FFFF as such, rather than as surrogate pairs, are encoded but come back as
  pairs: the URI round trip holds exactly for the strings without them (`UriCodec.UriRoundTrip`).
- `duk_check_stack_top()` counts from the start of the stack instead of the frame, so what it grants is room for the
  frame exactly when the frame starts within the internal reserve (`ValueStack.CheckStackTopExact`).

`dafny verify dfyconfig.toml` checks the whole project.

## Model

| member | source | states |
|---|---|---|
| Xutf8.DecodeEncode | NekoScript/vendors/duktape/duk_unicode_support.cpp:64-243 | for every 32-bit codepoint and any bytes behind it, decoding gives the codepoint back and consumes exactly its encoding |
| Xutf8.EncodeAllCanonical | NekoScript/vendors/duktape/duk_unicode_support.cpp:68-96 | concatenated encodings are canonical: every decode step re-encodes to the bytes it consumed |
| Xutf8.EncodeHigh | NekoScript/vendors/duktape/duk_unicode_support.cpp:68-96 | a multi-byte encoding never holds a byte that could be taken for ASCII |
| Xutf8.EncodeInNumbers | NekoScript/vendors/duktape/duk_unicode_support.cpp:60-96 | every encoding of one to seven bytes spelled out: first byte, then the codepoint in groups of six bits |
| Xutf8.DecodeInNumbers | NekoScript/vendors/duktape/duk_unicode_support.cpp:158-243 | what is decoded from any bytes spelled out: which first bytes are refused, how many more are taken, and their low six bits in order |
| Bytes.RepeatSum | NekoScript/vendors/duktape/duk_bi_json.cpp:1649-1698 | copies of the gap concatenate; what makes the doubling copy equal to writing the gap once per level |
| JsonDocument.ElemsTextSnoc | NekoScript/vendors/duktape/duk_bi_json.cpp:1887-1943 | writing elements one after the other with a leading separator gives the comma-separated text defined from the front |
| JsonDocument.MembersTextSnoc | NekoScript/vendors/duktape/duk_bi_json.cpp:1787-1881 | the same for the members of an object |
| LookupTables.QuotestrIs | NekoScript/vendors/duktape/duk_bi_json.cpp:88-112 | the 256 entries of the quoting table: as is, short escape, generic escape or slow path, each exactly where it belongs |
| LookupTables.DecstrIs | NekoScript/vendors/duktape/duk_bi_json.cpp:122-144 | the table sends exactly control characters, quote and backslash to the slow path and keeps all other bytes |
| LookupTables.EatwhiteIs | NekoScript/vendors/duktape/duk_bi_json.cpp:146-168 | the table marks exactly the four whitespace characters |
| LookupTables.DecnumberIs | NekoScript/vendors/duktape/duk_bi_json.cpp:170-192 | the table marks exactly the characters a number may have |
| LookupTables.HexDectabIs | NekoScript/vendors/duktape/duk_util_misc.cpp:35-53 | the table gives the value of each hex digit of either case and is negative for all other bytes |
| JsonEncoder.EncCtx.QuoteOne | NekoScript/vendors/duktape/duk_bi_json.cpp:1252-1274 | the table-driven step writes the quoted form of one codepoint and moves past exactly that codepoint |
| JsonEncoder.EncCtx.QuoteOnePlain | NekoScript/vendors/duktape/duk_bi_json.cpp:1275-1305 | the table-free step writes and consumes the same |
| JsonEncoder.EncCtx.QuoteSlow | NekoScript/vendors/duktape/duk_bi_json.cpp:1306-1341 | the shared non-ASCII step: decoded codepoint re-encoded, U+2028 and U+2029 escaped, an undecodable byte taken as a codepoint of its own |
| JsonEncoder.EncCtx.EncQuoteChunk | NekoScript/vendors/duktape/duk_bi_json.cpp:1234-1341 | a chunk writes the codepoints that start in it, the last possibly reaching beyond; at most one byte more than the six per byte reserved, and within the reservation if and only if it does not overrun |
| JsonReserve.ChunkRoom | NekoScript/vendors/duktape/duk_bi_json.cpp:1241-1251 | what a chunk writes exceeds the reservation, by one byte, if and only if all its bytes but the last are control characters without a short escape and a seven-byte codepoint starts at the last |
| JsonReserve.NoOverrun | NekoScript/vendors/duktape/duk_bi_json.cpp:1241-1251 | the reservation is enough for every string without the byte 0xfe, CESU-8 strings in particular |
| JsonReserve.ReservationFallsShort | NekoScript/vendors/duktape/duk_bi_json.cpp:1241-1251 | a chunk for which it is one byte short |
| JsonEncoder.EncCtx.EncQuoteString | NekoScript/vendors/duktape/duk_bi_json.cpp:1215-1347 | both builds append exactly the quoted string, whatever the chunk boundaries cut through |
| JsonEncoder.EncCtx.EncNewlineIndent | NekoScript/vendors/duktape/duk_bi_json.cpp:1649-1698 | the doubling copy appends a newline and exactly `depth` copies of the gap |
| JsonEncoder.EncCtx.EncObjarrEntry | NekoScript/vendors/duktape/duk_bi_json.cpp:1702-1751 | the array-then-key-set check reports a cycle if and only if the object is on the current path, and the depth error if and only if it is not and the limit is reached |
| JsonEncoder.EncCtx.EncObjarrExit | NekoScript/vendors/duktape/duk_bi_json.cpp:1754-1781 | leaving removes exactly the innermost object from the recorded path, in both regimes of the check |
| JsonEncoder.EncCtx.EncValue2 | NekoScript/vendors/duktape/duk_bi_json.cpp:2104-2210 | appends the text of what the value denotes on the current path, or fails with the first error of the walk; path and depth restored |
| JsonEncoder.EncCtx.EncElement | NekoScript/vendors/duktape/duk_bi_json.cpp:1906-1930 | one array element with its leading separator and indentation, `null` for missing or undefined ones |
| JsonEncoder.EncCtx.EncArray | NekoScript/vendors/duktape/duk_bi_json.cpp:1887-1943 | the text of the whole array, or the first error among its elements |
| JsonEncoder.EncCtx.EncMember | NekoScript/vendors/duktape/duk_bi_json.cpp:1845-1867 | one object member with its leading separator, indentation, quoted key and colon |
| JsonEncoder.EncCtx.EncObject | NekoScript/vendors/duktape/duk_bi_json.cpp:1787-1881 | the text of the whole object without its undefined members, through key enumeration and lookup, or the first error |
| JsonEncoder.EncCtx.FastEnter | NekoScript/vendors/duktape/duk_bi_json.cpp:2317-2340 | the fast path enters an object exactly when the depth is below the array size and the object is not on the path |
| JsonEncoder.EncCtx.FastValue | NekoScript/vendors/duktape/duk_bi_json.cpp:2242-2663 | aborts exactly when a lightfunc, a repeated object or too much depth is met; otherwise writes what the slow serializer writes, or nothing for an undefined value |
| JsonEncoder.EncCtx.FastObject | NekoScript/vendors/duktape/duk_bi_json.cpp:2283-2584 | the same for an object: trailing commas taken back, path and depth restored |
| JsonEncoder.EncCtx.FastMember | NekoScript/vendors/duktape/duk_bi_json.cpp:2410-2458 | key and colon are written before the value and taken back completely when the value turns out undefined |
| JsonEncoder.EncCtx.FastMembers | NekoScript/vendors/duktape/duk_bi_json.cpp:2410-2458 | members joined by commas plus one trailing comma if anything was written, and `emitted` says exactly that |
| JsonEncoder.EncCtx.FastElem | NekoScript/vendors/duktape/duk_bi_json.cpp:2492-2533 | one element and its trailing comma |
| JsonEncoder.EncCtx.FastElems | NekoScript/vendors/duktape/duk_bi_json.cpp:2492-2533 | elements joined by commas plus one trailing comma if there are any |
| JsonEncoder.EncCtx.Stringify | NekoScript/vendors/duktape/duk_bi_json.cpp:2999-3110 | for every finite heap, cyclic or not, every value, any gap and with the fast path on or off, serialization ends with the same outcome: the text, undefined, or the error of the walk |
| JsonEncoder.WalkKeysAgrees | NekoScript/vendors/duktape/duk_bi_json.cpp:1803-1863 | key list plus property lookup visits the same members in the same order as the property table the fast path walks |
| JsonGraph.ChildFits | NekoScript/vendors/duktape/duk_bi_json.cpp:1887-1943 | whatever an object holds nests in one level less than the object |
| JsonGraph.NotOnOwnChain | NekoScript/vendors/duktape/duk_bi_json.cpp:1702-1751 | an object with a finite meaning is never reachable from itself, so the loop check cannot misfire on it |
| JsonGraph.WalkSound | NekoScript/vendors/duktape/duk_bi_json.cpp:1702-1943 | a walk that succeeds yields the meaning of the value, which knows nothing of visited objects |
| JsonGraph.WalkComplete | NekoScript/vendors/duktape/duk_bi_json.cpp:1702-1943 | a value that nests within the levels left is serialized without error, whatever chain of objects led to it |
| JsonGraph.SharingIsInvisible | NekoScript/vendors/duktape/duk_bi_json.cpp:1702-1943 | serialization fails if and only if the value has no finite meaning within the limit: objects reached twice are never mistaken for a cycle |
| JsonGraph.WalkWitness | NekoScript/vendors/duktape/duk_bi_json.cpp:1702-1751 | every failure comes with its evidence: a chain of distinct objects that returns to itself, or one longer than the limit |
| JsonGraph.LassoNeverFits | NekoScript/vendors/duktape/duk_bi_json.cpp:1702-1751 | a value that leads into a cycle has no finite meaning at any limit |
| JsonGraph.TooDeepNeedsManyObjects | NekoScript/vendors/duktape/duk_bi_json.cpp:1702-1751 | the depth error needs more live objects than the limit |
| JsonGraph.CycleReports | NekoScript/vendors/duktape/duk_bi_json.cpp:1702-1751 | "cyclic" is reported only for graphs that have a cycle, and every such graph is refused |
| JsonGraph.StringifyOutcome | NekoScript/vendors/duktape/duk_bi_json.cpp:2999-3110 | on heaps no larger than the recursion limit, an error is thrown if and only if a cycle is reachable and it is then the cyclic one; otherwise the result is the text of the meaning |
| JsonGraph.FastPathReaches | NekoScript/vendors/duktape/duk_bi_json.cpp:2242-2663 | the fast path aborts on no lightfunc-free graph that nests less deeply than its array |
| JsonParser.DecCtx.EatWhiteSpace | NekoScript/vendors/duktape/duk_bi_json.cpp:216-244 | skips exactly the longest run of JSON whitespace and stops before the NUL |
| JsonParser.DecCtx.DecGet | NekoScript/vendors/duktape/duk_bi_json.cpp:251-254 | one byte; only reading the terminating NUL can leave the text |
| JsonParser.DecCtx.DecGetNonwhite | NekoScript/vendors/duktape/duk_bi_json.cpp:256-259 | first byte behind whitespace, never beyond the NUL |
| JsonParser.DecCtx.DecodeHexEscape | NekoScript/vendors/duktape/duk_bi_json.cpp:262-293 | the value of `n` hex digits of either case, none if one is missing, end of text included |
| JsonParser.DecCtx.DecReqStr | NekoScript/vendors/duktape/duk_bi_json.cpp:295-331 | accepts exactly when the keyword is a prefix of what is left |
| JsonParser.DecCtx.DecStringEscape | NekoScript/vendors/duktape/duk_bi_json.cpp:333-380 | the bytes one escape stands for, `\u` through the codepoint encoder, or failure |
| JsonParser.DecCtx.DecString | NekoScript/vendors/duktape/duk_bi_json.cpp:382-486 | chunked reading gives the same bytes as reading one character at a time; control characters and a missing end quote are refused |
| JsonParser.DecCtx.DecNumber | NekoScript/vendors/duktape/duk_bi_json.cpp:647-710 | takes the longest run of number characters and then what the number converter says of it |
| JsonParser.DecCtx.DecKeyValue | NekoScript/vendors/duktape/duk_bi_json.cpp:773-799 | key, colon and value, agreeing with the grammar on success and on the kind of failure |
| JsonParser.DecCtx.DecObject | NekoScript/vendors/duktape/duk_bi_json.cpp:734-815 | members up to the closing brace, later duplicates overwrite earlier ones in place, no trailing comma; depth restored |
| JsonParser.DecCtx.DecArray | NekoScript/vendors/duktape/duk_bi_json.cpp:817-883 | elements up to the closing bracket, no trailing comma; depth restored |
| JsonParser.DecCtx.DecValue | NekoScript/vendors/duktape/duk_bi_json.cpp:885-951 | agrees with the grammar on every byte string: same document and same position, or the same kind of error |
| JsonParser.DecCtx.ParseText | NekoScript/vendors/duktape/duk_bi_json.cpp:2685-2752 | a whole text is accepted exactly when one value and only whitespace precede the NUL; the cursor then stands on the NUL |
| JsonRoundTrip.IndentWhite | NekoScript/vendors/duktape/duk_bi_json.cpp:1649-1698 | indentation made of whitespace reads as whitespace |
| JsonRoundTrip.StepReads | NekoScript/vendors/duktape/duk_bi_json.cpp:1251-1341 | the quoted form of a codepoint reads back as the bytes it was made from |
| JsonRoundTrip.StringReads | NekoScript/vendors/duktape/duk_bi_json.cpp:1215-1347 | reading a quoted canonical string gives the string and stops right behind the quote, whatever follows |
| JsonRoundTrip.NumberSpanText | NekoScript/vendors/duktape/duk_bi_json.cpp:647-710 | the extent found for a number text is that text |
| JsonRoundTrip.DocReads | NekoScript/vendors/duktape/duk_bi_json.cpp:885-951 | the text of any readable document, at any depth and gap and in front of anything that ends a number, parses to that document |
| JsonRoundTrip.WalkReads | NekoScript/vendors/duktape/duk_bi_json.cpp:1702-1943 | what serialization walks over is readable and nests within the limit |
| JsonRoundTrip.StringifyThenParse | NekoScript/vendors/duktape/duk_bi_json.cpp:2685-3110 | parse(stringify(v)) is v: for every heap, value and whitespace gap, whatever text is produced parses to the document serialized and leaves only the NUL |
| JsonGrammar.ParseExact | NekoScript/vendors/duktape/duk_bi_json.cpp:734-951 | the parser accepts exactly the texts that a grammar in literal characters derives, nested at most 1000 deep, each with the document it spells |
| JsonGrammar.SpelledParses | NekoScript/vendors/duktape/duk_bi_json.cpp:734-951 | a derived text that nests deeper than 1000 is a range error and nothing else |
| JsonGrammar.RepeatedKeys | NekoScript/vendors/duktape/duk_bi_json.cpp:734-803 | for an object text with members `ms`, keys repeated or not: the parsed object has each key once, in order of first occurrence, with the value of its last occurrence, and nothing else does |
| JsonGrammar.CollapsedIsPutAll | NekoScript/vendors/duktape/duk_bi_json.cpp:797-797 | that description fits no other object than the one got by defining the members one after the other |
| JsonGrammar.DocSpelled | NekoScript/vendors/duktape/duk_bi_json.cpp:2104-2210 | the text of a readable document is derived from the literal grammar and spells the document, at every depth and white gap |
| JsonGrammar.StringifySpelled | NekoScript/vendors/duktape/duk_bi_json.cpp:2685-3110 | whatever text is produced for a heap of canonical strings and a white gap is derived, spells the document shown, and nests at most 1000 deep |
| JsonStandard.QuoteStandard | NekoScript/vendors/duktape/duk_bi_json.cpp:1215-1347 | the quoted form of any codepoints is the standard one in literal characters, surrogates and U+2028 included |
| JsonStandard.TextStandard | NekoScript/vendors/duktape/duk_bi_json.cpp:1787-2210 | the text of every document, at every gap and depth, is the text of section 15.12.3 of ECMAScript 5.1 in literal characters |
| JsonStandard.WalkShown | NekoScript/vendors/duktape/duk_bi_json.cpp:1787-2210 | which properties and values are written and how, by their positions: enumerable, not internal, not undefined, in order, null for undefined elements |
| JsonStandard.StringifyStandard | NekoScript/vendors/duktape/duk_bi_json.cpp:2685-3110 | the result is undefined exactly for undefined values, and any text is the standard text of a document that shows the value |
| Bytecode.BlobReads | NekoScript/vendors/duktape/duk_api_bytecode.cpp:27-82 | length-prefixed bytes read back and leave exactly what follows |
| Bytecode.InstrsRead | NekoScript/vendors/duktape/duk_api_bytecode.cpp:281-296 | the counted instruction block reads back word by word |
| Bytecode.ConstsRead | NekoScript/vendors/duktape/duk_api_bytecode.cpp:298-321 | tagged constants read back in order |
| Bytecode.VarsRead | NekoScript/vendors/duktape/duk_api_bytecode.cpp:135-179 | the variable map up to its empty-name terminator reads back without its `__proto__` entry |
| Bytecode.NamesRead | NekoScript/vendors/duktape/duk_api_bytecode.cpp:181-218 | the parameter names up to their terminator read back |
| Bytecode.LoadDump | NekoScript/vendors/duktape/duk_api_bytecode.cpp:220-635 | load(dump(f) ++ rest) gives the whole function tree with defaults for missing properties and stops exactly at `rest`, for every tree of any depth |
| Bytecode.FuncsLoad | NekoScript/vendors/duktape/duk_api_bytecode.cpp:323-336 | the same for a list of inner functions |
| Bytecode.ReloadedComplete | NekoScript/vendors/duktape/duk_api_bytecode.cpp:600-611 | nothing but defaults is added or lost if and only if no variable anywhere in the tree is called `__proto__` |
| Bytecode.ReloadedValid | NekoScript/vendors/duktape/duk_api_bytecode.cpp:371-635 | a reloaded function can be dumped again, and a second reload changes nothing more |
| Bytecode.RedumpSame | NekoScript/vendors/duktape/duk_api_bytecode.cpp:220-635 | dump(load(dump(f))) is dump(f), byte for byte and equivalently in length, if and only if no variable is called `__proto__`; otherwise it is shorter |
| Bytecode.ProtoVariableIsLost | NekoScript/vendors/duktape/duk_api_bytecode.cpp:600-611 | a function whose one variable is called `__proto__` is reloaded without it |
| BytecodeFormat.DumpLayout | NekoScript/vendors/duktape/duk_api_bytecode.cpp:220-355 | a dump anywhere in the data has every field of the whole function tree at its position: sizes, byte order, tags, terminators and the defaults for missing properties |
| BytecodeFormat.LoadRestores | NekoScript/vendors/duktape/duk_api_bytecode.cpp:371-635 | loading a dump gives, at every depth, the function with nargs as its length where it had none, empty names and line table where it had none, and all variables but `__proto__` |
| BytecodeFormat.TemplateLength | NekoScript/vendors/duktape/duk_api_bytecode.cpp:338-345 | an inner function without a length property reloads with its number of arguments as length |
| BytecodeFormat.PutVarEffect | NekoScript/vendors/duktape/duk_api_bytecode.cpp:600-611 | a name already there gets the new register in its place, a new one comes last, `__proto__` is ignored |
| Bytecode.Dumper.RawU32 | NekoScript/vendors/duktape/duk_api_bytecode.cpp:258-282 | appends the four big-endian bytes |
| Bytecode.Dumper.RawBlob | NekoScript/vendors/duktape/duk_api_bytecode.cpp:48-82 | appends length and contents |
| Bytecode.Dumper.DumpHeader | NekoScript/vendors/duktape/duk_api_bytecode.cpp:255-282 | appends the counts, register counts, line range and flags |
| Bytecode.Dumper.DumpCode | NekoScript/vendors/duktape/duk_api_bytecode.cpp:281-296 | appends every instruction in order |
| Bytecode.Dumper.DumpConstants | NekoScript/vendors/duktape/duk_api_bytecode.cpp:298-321 | appends every constant with its tag |
| Bytecode.Dumper.DumpVarmap | NekoScript/vendors/duktape/duk_api_bytecode.cpp:135-179 | appends names with registers and the terminator |
| Bytecode.Dumper.DumpFormals | NekoScript/vendors/duktape/duk_api_bytecode.cpp:181-218 | appends the names of the used slots and the terminator |
| Bytecode.Dumper.DumpProps | NekoScript/vendors/duktape/duk_api_bytecode.cpp:338-350 | appends the six optional properties, defaults where absent |
| Bytecode.Dumper.DumpFunc | NekoScript/vendors/duktape/duk_api_bytecode.cpp:220-355 | appends the format of the whole function tree |
| Bytecode.Dumper.DumpFunction | NekoScript/vendors/duktape/duk_api_bytecode.cpp:637-669 | signature and version followed by the tree |
| Bytecode.Loader.RawBlob | NekoScript/vendors/duktape/duk_api_bytecode.cpp:27-46 | reads what the format says is next |
| Bytecode.Loader.LoadHead | NekoScript/vendors/duktape/duk_api_bytecode.cpp:396-453 | reads the header fields |
| Bytecode.Loader.LoadInstrs | NekoScript/vendors/duktape/duk_api_bytecode.cpp:457-472 | reads exactly the counted instructions |
| Bytecode.Loader.LoadConsts | NekoScript/vendors/duktape/duk_api_bytecode.cpp:474-499 | pushes exactly the constants onto the value stack, or reports the unknown tag |
| Bytecode.Loader.LoadFuncs | NekoScript/vendors/duktape/duk_api_bytecode.cpp:501-507 | pushes exactly the inner functions behind the constants |
| Bytecode.Loader.CopyParts | NekoScript/vendors/duktape/duk_api_bytecode.cpp:518-558 | constants and inner functions copied off the stack come out complete, in order and not mixed up |
| Bytecode.Loader.LoadVarmap | NekoScript/vendors/duktape/duk_api_bytecode.cpp:600-611 | reads pairs up to the empty name; a repeated name overwrites in place, `__proto__` with a number sets nothing |
| Bytecode.Loader.LoadFormals | NekoScript/vendors/duktape/duk_api_bytecode.cpp:615-624 | reads names up to the empty one |
| Bytecode.Loader.LoadTail | NekoScript/vendors/duktape/duk_api_bytecode.cpp:560-626 | reads the six properties |
| Bytecode.Loader.LoadFunc | NekoScript/vendors/duktape/duk_api_bytecode.cpp:371-635 | loads what the format describes, moves past it, and leaves just the function on the value stack |
| Bytecode.Loader.LoadFunction | NekoScript/vendors/duktape/duk_api_bytecode.cpp:671-709 | succeeds exactly on a valid signature followed by well-formed data, with that function as the result |
| Calendar.DivFloor | NekoScript/vendors/duktape/duk_bi_date.cpp:483-495 | truncating division corrected to the floor for every dividend |
| Calendar.LeapYears | NekoScript/vendors/duktape/duk_bi_date.cpp:443-454 | the remainder tests, with truncating remainder on negative years, are the Gregorian rule |
| Calendar.DayFromYearExact | NekoScript/vendors/duktape/duk_bi_date.cpp:497-506 | the closed formula equals the sum of the lengths of all years between, before 1970 too |
| Calendar.DayFromYearStep | NekoScript/vendors/duktape/duk_bi_date.cpp:497-506 | consecutive years differ by the length of the year |
| Calendar.Estimate | NekoScript/vendors/duktape/duk_bi_date.cpp:509-541 | the first estimate never lies before the true year and at most 600 years after it over the supported days |
| Calendar.Correction | NekoScript/vendors/duktape/duk_bi_date.cpp:509-541 | a correction strictly decreases the year, never goes below the true one, and how close it comes |
| Calendar.YearFromDay | NekoScript/vendors/duktape/duk_bi_date.cpp:508-541 | for every integer day the loop ends with the one year containing it and the day within it; the number of corrections is exactly the first that leaves no excess, at most three over the supported days and three exactly where NeedsThree holds |
| Calendar.ExcessSteps | NekoScript/vendors/duktape/duk_bi_date.cpp:525-541 | for every day, what each correction leaves: the common years still in between and the days passed, in leap years of days |
| Calendar.ThreeCorrections | NekoScript/vendors/duktape/duk_bi_date.cpp:525-541 | over the supported days two corrections are enough unless the day is the last of a year before a common year with at least 367 common years between it and the estimate, and then they are not |
| Calendar.TwoCorrectionsSuffice | NekoScript/vendors/duktape/duk_bi_date.cpp:525-541 | from 85060960 days before 1970 on two are always enough |
| Calendar.TwoCorrectionsFallShort | NekoScript/vendors/duktape/duk_bi_date.cpp:525-541 | the bound is sharp: the day before takes a third |
| Calendar.DenotesUnique | NekoScript/vendors/duktape/duk_bi_date.cpp:608-745 | a time value has exactly one normalized description |
| Calendar.EquivYearTable | NekoScript/vendors/duktape/duk_bi_date.cpp:62-90 | each entry names a year from 2008 to 2035 with the weekday and leap status of its index |
| Calendar.MonthFromDay | NekoScript/vendors/duktape/duk_bi_date.cpp:680-696 | month and day add up to the day within the year, both in range |
| Calendar.EquivYear | NekoScript/vendors/duktape/duk_bi_date.cpp:710-729 | the mapped year lies in 1971-2037 with the same leap status and the same weekday on 1 January |
| Calendar.SplitMsec | NekoScript/vendors/duktape/duk_bi_date.cpp:635-650 | milliseconds within the day and day number recombine to the time value, negative ones included |
| Calendar.SplitTime | NekoScript/vendors/duktape/duk_bi_date.cpp:652-663 | hour, minute, second and millisecond are normalized and add up |
| Calendar.SplitDay | NekoScript/vendors/duktape/duk_bi_date.cpp:635-696 | date, time and weekday together denote the time value |
| Calendar.TimevalToParts | NekoScript/vendors/duktape/duk_bi_date.cpp:608-745 | the parts denote the time value; equivalent year and one-based counting change exactly what they should, and `dparts` equals `parts` |
| TimeValue.MakeDay | NekoScript/vendors/duktape/duk_bi_date.cpp:543-602 | the day number of any integer year, month and day, months carried into years on either side, or out of range |
| TimeValue.TimevalFromDparts | NekoScript/vendors/duktape/duk_bi_date.cpp:753-881 | the clipped time value of arbitrary, possibly unnormalized parts, as UTC or as local time |
| TimeValue.JoinUndoesSplit | NekoScript/vendors/duktape/duk_bi_date.cpp:608-881 | joining the parts of a time value gives it back, over the whole range with its leeway |
| TimeValue.SplitAndJoin | NekoScript/vendors/duktape/duk_bi_date.cpp:608-881 | the two routines run in sequence return every time value in range and reject exactly those outside |
| TimeValue.EquivalentParts | NekoScript/vendors/duktape/duk_bi_date.cpp:698-729 | with the equivalent year the same month, day, weekday and time are a valid date in the 31-bit range of seconds |
| TimeValue.EquivalentSeconds | NekoScript/vendors/duktape/duk_bi_date_unix.cpp:59-128 | the seconds handed to the platform lie in 0 to 2^31 and denote the same date and time in the equivalent year; refused exactly outside the leeway |
| TimeValue.FindLocalOffset | NekoScript/vendors/duktape/duk_bi_date.cpp:846-875 | the loop returns what at most four steps of guessing, confirmation and two-cycle detection give |
| TimeValue.SearchExact | NekoScript/vendors/duktape/duk_bi_date.cpp:846-875 | for every zone and time: the search finds an instant that shows the time if and only if a guess confirms itself before two lead to each other, the conditions spelled out on the four guesses |
| TimeValue.LocalTimeFound | NekoScript/vendors/duktape/duk_bi_date.cpp:820-875 | with at most two offsets within a day of a local time, whatever happens elsewhere: an instant that shows it is found if and only if there is one within a day; otherwise the higher offset is used |
| TimeValue.LocalRoundTrip | NekoScript/vendors/duktape/duk_bi_date.cpp:820-875 | an instant shown and read back shows the same local time; it is the very same instant if and only if no other instant within a day shows that time or its offset is the one in force when UTC reads it |
| TimeValue.MoreOffsetsCanCycle | NekoScript/vendors/duktape/duk_bi_date.cpp:846-875 | a zone with four changes within a day for which the search circles and misses an instant that exists |
| CivilDays.DayIsCivil | NekoScript/vendors/duktape/duk_bi_date.cpp:543-602 | for every year, month and day the day number by tables of months and years is the closed form that counts months from March |
| CivilDays.JoinIsCivil | NekoScript/vendors/duktape/duk_bi_date.cpp:546-602 | joining any integer parts gives the closed form, or nothing exactly if the year with months carried is out of range |
| CivilDays.SplitIsCivil | NekoScript/vendors/duktape/duk_bi_date.cpp:608-745 | parts denote a time value if and only if they are in their ranges, the closed form gives the value, and the weekday counts from a Thursday |
| CivilDays.SplitInNumbers | NekoScript/vendors/duktape/duk_bi_date.cpp:608-745 | what splitting leaves, months and days counted from 0 or 1, satisfies those equations |
| Iso8601.FindSep | NekoScript/vendors/duktape/duk_bi_date.cpp:254-262 | finds the separator or reports that it is none |
| Iso8601.FindRule | NekoScript/vendors/duktape/duk_bi_date.cpp:264-311 | the first of the bit-packed rules that matches is the one the grammar prescribes, or there is none |
| Iso8601.NextAction | NekoScript/vendors/duktape/duk_bi_date.cpp:254-311 | separator and rule lookup together follow the grammar |
| Iso8601.ParseParts | NekoScript/vendors/duktape/duk_bi_date.cpp:217-321 | the character loop accepts and yields parts exactly as the one-character-at-a-time reading; ends at the first NUL at the latest |
| Iso8601.ToUtcParts | NekoScript/vendors/duktape/duk_bi_date.cpp:335-347 | signs applied, offset subtracted from hour and minute, month and day counted from zero |
| Iso8601.ParseIso8601 | NekoScript/vendors/duktape/duk_bi_date.cpp:188-364 | any NUL-terminated text is rejected or read as the time value of the parts it spells, without reading past its NUL |
| Iso8601.DigitsRead | NekoScript/vendors/duktape/duk_bi_date.cpp:223-233 | a zero-padded number reads back as its value |
| Iso8601.DateAndTimeReads | NekoScript/vendors/duktape/duk_bi_date.cpp:188-364 | formatted date and time read as exactly the parts printed, six-digit and negative years and either zone form included |
| Iso8601.FormatReads | NekoScript/vendors/duktape/duk_bi_date.cpp:956-1010 | reading formatted text gives the time value of the parts less the printed whole minutes of the offset |
| Iso8601.DateAloneReads | NekoScript/vendors/duktape/duk_bi_date.cpp:994-1001 | date text alone is read as midnight UTC |
| Iso8601.TimeAloneRejected | NekoScript/vendors/duktape/duk_bi_date.cpp:1003-1009 | time text alone is rejected |
| Iso8601.PrintedTimeReads | NekoScript/vendors/duktape/duk_bi_date.cpp:956-1010 | the text of a time value, in UTC or within a day of it, reads back as that value if and only if the offset is in whole minutes |
| Iso8601.TimeToString | NekoScript/vendors/duktape/duk_bi_date.cpp:1016-1065 | the result is the text of the parts that denote the shown time, and reads back under exactly that condition |
| IsoGrammar.AcceptedExactly | NekoScript/vendors/duktape/duk_bi_date.cpp:161-333 | a string is accepted if and only if a grammar in literal characters derives it |
| IsoGrammar.SpelledAccepted | NekoScript/vendors/duktape/duk_bi_date.cpp:161-333 | the numbers read from a derived string: defaults where fields are missing, fractions of any number of digits cut to milliseconds |
| IsoGrammar.SpelledValue | NekoScript/vendors/duktape/duk_bi_date.cpp:188-364 | the time value of a derived string in closed form, offset taken off hour and minute, out of range exactly where the closed form is |
| IsoGrammar.FormatLiteral | NekoScript/vendors/duktape/duk_bi_date.cpp:956-1010 | text of dates, times and offsets character by character, six-digit years with their sign, minutes of the offset |
| Base64.EncTableRight | NekoScript/vendors/duktape/duk_util_misc.cpp:168-175 | each of the 64 literal entries is the character that comparisons give |
| Base64.DecTableRight | NekoScript/vendors/duktape/duk_util_misc.cpp:181-201 | each of the 256 literal entries, sign-extended, is what comparisons say of the character: value, whitespace, padding or error |
| Base64.TablesInverse | NekoScript/vendors/duktape/duk_util_misc.cpp:168-201 | the decoding table undoes the encoding table, and no encoded character is padding or whitespace |
| Base64Literal.EncodeLiteral | NekoScript/vendors/duktape/duk_api_codec.cpp:25-135 | an encoding spelled out: the letters of the four numbers made of the octets by division and remainder, and equal signs |
| Base64Literal.DecodeLiteral | NekoScript/vendors/duktape/duk_api_codec.cpp:139-367 | a decoding spelled out: which characters are skipped, which have which number, where padding may stand, and the octets the numbers make |
| Base64.EncodeLength | NekoScript/vendors/duktape/duk_api_codec.cpp:396-399 | an encoding has (n + 2) / 3 * 4 characters |
| Base64.EncodeFast | NekoScript/vendors/duktape/duk_api_codec.cpp:25-79 | fills the buffer with the encoding, three octets at a time and one of two tails |
| Base64.EncodePlain | NekoScript/vendors/duktape/duk_api_codec.cpp:81-135 | the accumulate-and-snip encoder fills the buffer with the same encoding |
| Base64.PlainChar | NekoScript/vendors/duktape/duk_api_codec.cpp:111-130 | the comparisons of the plain build give the entry of the encoding table |
| Base64.PlainClass | NekoScript/vendors/duktape/duk_api_codec.cpp:286-313 | the comparisons of the plain build give the entry of the decoding table |
| Base64.DecodeUndoesEncode | NekoScript/vendors/duktape/duk_api_codec.cpp:139-272 | decoding an encoding in front of any text gives the octets and then what the text decodes to |
| Base64.RoundTrip | NekoScript/vendors/duktape/duk_api_codec.cpp:25-272 | decode(encode(x)) is x for every octet string |
| Base64.DecodeConcatenated | NekoScript/vendors/duktape/duk_api_codec.cpp:139-367 | decode(encode(a) ++ encode(b)) is a ++ b, padding in the middle included |
| Base64.SpacesIgnored | NekoScript/vendors/duktape/duk_api_codec.cpp:139-367 | whitespace at any place changes neither acceptance nor result |
| Base64.DecodeBound | NekoScript/vendors/duktape/duk_api_codec.cpp:428-437 | no text yields more than three octets for four characters |
| Base64.DecodePlain | NekoScript/vendors/duktape/duk_api_codec.cpp:274-367 | the character-by-character decoder accepts exactly the decodable texts and writes exactly their octets, inside (n + 3) / 4 * 3 bytes |
| Base64.FastUnit | NekoScript/vendors/duktape/duk_api_codec.cpp:159-184 | one test on the sign of four combined lookups tells exactly whether all four are characters |
| Base64.FastUnits | NekoScript/vendors/duktape/duk_api_codec.cpp:156-184 | clean units are decoded up to the first one that is not; nothing is lost on bailing out |
| Base64.SlowUnit | NekoScript/vendors/duktape/duk_api_codec.cpp:186-252 | one unit with whitespace and padding: completed, end of input or rejected, each exactly when it should be |
| Base64.DecodeFast | NekoScript/vendors/duktape/duk_api_codec.cpp:139-272 | the fast decoder with its bail-outs accepts the same texts, writes the same octets and stays inside the same buffer as the plain one |
| Base64.Base64Encode | NekoScript/vendors/duktape/duk_api_codec.cpp:370-408 | either helper gives the encoding, refused exactly above the size limit |
| Base64.Base64Decode | NekoScript/vendors/duktape/duk_api_codec.cpp:410-452 | either helper gives the decoded octets or an error, refused exactly above the size limit |
| ArraySort.Sorter.SortCompare | NekoScript/vendors/duktape/duk_bi_array.cpp:424-540 | holes last, undefined before them, values by comparison function or string order; the sign agrees with the order whenever the comparisons are consistent |
| ArraySort.Sorter.DefaultConsistent | NekoScript/vendors/duktape/duk_bi_array.cpp:526-534 | the default comparison is always consistent with a total preorder |
| ArraySort.DataCompareTransitive | NekoScript/vendors/duktape/duk_js_ops.cpp:771-796 | byte-wise comparison with the length as tie-break is transitive |
| ArraySort.DataCompareAntisymmetric | NekoScript/vendors/duktape/duk_js_ops.cpp:771-796 | and antisymmetric |
| ArraySort.DataCompareLexicographic | NekoScript/vendors/duktape/duk_js_ops.cpp:771-796 | the sign is decided by the first byte in which the strings differ, or by which one ends first; it is zero exactly for equal strings |
| ArraySort.Sorter.SortSwap | NekoScript/vendors/duktape/duk_bi_array.cpp:542-568 | exchanges two slots, holes by deletion, and nothing else |
| ArraySort.Sorter.ScanLeft | NekoScript/vendors/duktape/duk_bi_array.cpp:641-651 | stops in bounds; what it passed belongs left of the pivot and what it stopped at does not, unless it is at the end |
| ArraySort.Sorter.ScanRight | NekoScript/vendors/duktape/duk_bi_array.cpp:652-662 | the mirror image |
| ArraySort.Sorter.Partition | NekoScript/vendors/duktape/duk_bi_array.cpp:626-689 | for every comparator a rearrangement of the range with the result in bounds; for a consistent one nothing greater is left and nothing smaller right of the pivot |
| ArraySort.Sorter.Qsort | NekoScript/vendors/duktape/duk_bi_array.cpp:602-698 | ends for every comparator, consistent or not, rearranges only its range, and sorts it if the comparator is consistent |
| ArraySort.Sorter.Sort | NekoScript/vendors/duktape/duk_bi_array.cpp:700-721 | a permutation of elements and holes, everything outside untouched, sorted when consistent; refused exactly from length 2^31 |
| ArraySort.SortedLayout | NekoScript/vendors/duktape/duk_bi_array.cpp:460-494 | in a sorted array values come first in order, then undefined elements, then holes |
| ArraySplice.StartInNumbers | NekoScript/vendors/duktape/duk_bi_array.cpp:761-766 | the start for every argument: counted from the end if negative, held between 0 and the length |
| ArraySplice.DeletedInNumbers | NekoScript/vendors/duktape/duk_bi_array.cpp:768-780 | the delete count for every argument, or none: never negative, never more than there are |
| ArraySplice.Splicer.Arguments | NekoScript/vendors/duktape/duk_bi_array.cpp:761-780 | start and delete count clamped as counted from either end |
| ArraySplice.Splicer.Removed | NekoScript/vendors/duktape/duk_bi_array.cpp:806-816 | the fresh result array holds the removed elements with their holes |
| ArraySplice.Splicer.CloseGap | NekoScript/vendors/duktape/duk_bi_array.cpp:827-845 | moving down in ascending order never overwrites what is still to be moved, and the tail is deleted |
| ArraySplice.Splicer.OpenGap | NekoScript/vendors/duktape/duk_bi_array.cpp:857-865 | moving up in descending order never overwrites what is still to be moved |
| ArraySplice.Splicer.SpliceAt | NekoScript/vendors/duktape/duk_bi_array.cpp:804-893 | prefix ++ items ++ suffix in place, holes kept, removed slice returned, nothing negative touched |
| ArraySplice.Splicer.Splice | NekoScript/vendors/duktape/duk_bi_array.cpp:736-894 | the same from the raw arguments; refused exactly for too long arrays, and then nothing changes |
| TypedArraySet.CompatibleExact | NekoScript/vendors/duktape/duk_bi_buffer.cpp:59-103 | the table allows a raw byte copy for exactly those pairs of equal width for which converting any element leaves its bytes alone |
| TypedArraySet.ConvertedSame | NekoScript/vendors/duktape/duk_bi_buffer.cpp:1810-1829 | for compatible types converting every element is copying the bytes |
| TypedArraySet.ConvertedAt | NekoScript/vendors/duktape/duk_bi_buffer.cpp:1889-1907 | element k of the target is element k of the source, converted |
| TypedArraySet.ConvertInNumbers | NekoScript/vendors/duktape/duk_bi_buffer.cpp:394-489 | converting one element between any two of the seven integer types in numbers: sign, byte order, cutting off and clamping |
| TypedArraySet.ElementInNumbers | NekoScript/vendors/duktape/duk_bi_buffer.cpp:1889-1907 | after a set, every element of the target holds the number its source element held before, in its own width |
| TypedArraySet.FitsInElements | NekoScript/vendors/duktape/duk_bi_buffer.cpp:1765-1800 | with both views attached the call succeeds exactly if the elements of the source fit behind the offset, and is a type error exactly for negative offsets |
| TypedArraySet.SetResultElsewhere | NekoScript/vendors/duktape/duk_bi_buffer.cpp:1769-1907 | nothing outside the target range changes |
| TypedArraySet.CopyFits | NekoScript/vendors/duktape/duk_bi_buffer.cpp:1781-1808 | the checks made are enough for source and target ranges to lie within memory |
| TypedArraySet.Memory.CopyElements | NekoScript/vendors/duktape/duk_bi_buffer.cpp:1889-1907 | the element loop over separate ranges leaves what converting a snapshot would |
| TypedArraySet.Memory.CopyView | NekoScript/vendors/duktape/duk_bi_buffer.cpp:1810-1907 | byte copy, direct loop and loop over a temporary copy all leave what converting a snapshot of the source would, for every overlap and pair of widths |
| TypedArraySet.Memory.Set | NekoScript/vendors/duktape/duk_bi_buffer.cpp:1696-1910 | outcome and final memory for every pair of views and every signed 32-bit offset: error, silent return, or exactly the converted elements |
| UriCodec.DecodeHexEscape | NekoScript/vendors/duktape/duk_bi_global.cpp:100-116 | the value of the digits, or -1 if any is not one |
| UriCodec.PercentIsEscaped | NekoScript/vendors/duktape/duk_bi_global.cpp:25-85 | no table leaves the percent sign unescaped |
| UriCodec.ReservedIsUnescaped | NekoScript/vendors/duktape/duk_bi_global.cpp:25-71 | what decoding leaves escaped is never escaped by encoding |
| UriLiteral.UnescapedExact | NekoScript/vendors/duktape/duk_bi_global.cpp:25-47 | the characters encoding leaves alone, as listed in section 15.1.3 of ECMAScript 5.1 |
| UriLiteral.ReservedExact | NekoScript/vendors/duktape/duk_bi_global.cpp:49-71 | the characters decodeURI leaves escaped; decodeURIComponent leaves none |
| UriLiteral.EscapeExempt | NekoScript/vendors/duktape/duk_bi_global.cpp:73-84 | the characters escape() leaves alone, as listed in section B.2.1 |
| UriLiteral.DigitRead | NekoScript/vendors/duktape/duk_util_misc.cpp:35-53 | sixteen digits in either case have their values, nothing else has one |
| UriLiteral.EncodeUriLiteral | NekoScript/vendors/duktape/duk_bi_global.cpp:146-206 | the whole result of encodeURI and encodeURIComponent in literal characters and the numbers of UTF-8 and of surrogate pairs, errors included |
| UriLiteral.DecodeAscii | NekoScript/vendors/duktape/duk_bi_global.cpp:208-253 | an escape below 0x80 is decoded, or kept with its digits as written if the character is reserved |
| UriLiteral.DecodeScalar | NekoScript/vendors/duktape/duk_bi_global.cpp:255-336 | the escaped UTF-8 of a scalar value gives it in three bytes at most, or two surrogates of three bytes each |
| UriLiteral.EscapeLiteral | NekoScript/vendors/duktape/duk_bi_global.cpp:347-384 | the whole result of escape() in literal characters, error included |
| UriLiteral.UnescapeLiteral | NekoScript/vendors/duktape/duk_bi_global.cpp:386-407 | what unescape() reads behind a percent sign: u and four digits, two digits, or nothing |
| UriCodec.TransformContext.CallbackEncodeUri | NekoScript/vendors/duktape/duk_bi_global.cpp:146-206 | one codepoint: passed, escaped as its UTF-8 bytes with a surrogate pair joined, or refused |
| UriCodec.TransformContext.MultiByteEscape | NekoScript/vendors/duktape/duk_bi_global.cpp:255-336 | the escaped bytes of one codepoint, merged and split into surrogates, or refused |
| UriCodec.TransformContext.CallbackDecodeUri | NekoScript/vendors/duktape/duk_bi_global.cpp:208-344 | one step of decoding, reserved characters kept escaped |
| UriCodec.TransformContext.CallbackEscape | NekoScript/vendors/duktape/duk_bi_global.cpp:347-384 | one step of escape() |
| UriCodec.TransformContext.CallbackUnescape | NekoScript/vendors/duktape/duk_bi_global.cpp:386-407 | one step of unescape(); a percent sign without digits is kept |
| UriCodec.TransformContext.Run | NekoScript/vendors/duktape/duk_bi_global.cpp:118-144 | the output is the concatenation of the steps, or an error if any step fails |
| UriCodec.EncodeUriExact | NekoScript/vendors/duktape/duk_bi_global.cpp:146-206 | encoding succeeds if and only if all surrogates are paired and nothing exceeds U+10FFFF; the result is the escaped UTF-8 of the joined scalar values |
| UriCodec.DecodeUriReads | NekoScript/vendors/duktape/duk_bi_global.cpp:208-344 | decoding the text of any scalar values gives them in CESU-8 |
| UriCodec.UriRoundTrip | NekoScript/vendors/duktape/duk_bi_global.cpp:118-344 | decode(encode(s)) is s if and only if every codepoint of s is within the BMP, that is, s is CESU-8; for both pairs of functions |
| UriCodec.AcceptedIsShortest | NekoScript/vendors/duktape/duk_bi_global.cpp:255-336 | whatever multi-byte escape is accepted denotes a scalar value in its shortest form |
| UriCodec.MultiByteExact | NekoScript/vendors/duktape/duk_bi_global.cpp:255-336 | a multi-byte escape is accepted if and only if its digits spell the shortest form of a scalar value |
| UriCodec.AcceptedGrammatical | NekoScript/vendors/duktape/duk_bi_global.cpp:288-309 | an accepted multi-byte escape is one the grammar has, percent signs included, if and only if each percent sign between its bytes is there |
| UriCodec.SeparatorsIgnored | NekoScript/vendors/duktape/duk_bi_global.cpp:293-307 | whatever stands where those percent signs belong changes neither acceptance nor result |
| UriCodec.SeparatorIgnored | NekoScript/vendors/duktape/duk_bi_global.cpp:293-307 | an ungrammatical escape that is accepted |
| UriCodec.EscapeExact | NekoScript/vendors/duktape/duk_bi_global.cpp:347-384 | escape() succeeds exactly for strings within the BMP, with the prescribed text |
| UriCodec.UnescapeReads | NekoScript/vendors/duktape/duk_bi_global.cpp:386-407 | unescape(escape(s)) is s for every string within the BMP, lone surrogates included |
| ModuleId.Resolver.SetInput | NekoScript/vendors/duktape/duk_bi_global.cpp:881-896 | the input buffer holds the string and its NUL |
| ModuleId.Resolver.EatDupSlashes | NekoScript/vendors/duktape/duk_bi_global.cpp:972-980 | skips exactly a run of slashes |
| ModuleId.Resolver.CopyTerm | NekoScript/vendors/duktape/duk_bi_global.cpp:956-970 | copies one name and its slash without leaving the output buffer |
| ModuleId.Resolver.Backtrack | NekoScript/vendors/duktape/duk_bi_global.cpp:931-948 | drops exactly the last name of the output |
| ModuleId.Resolver.Loop | NekoScript/vendors/duktape/duk_bi_global.cpp:905-985 | the byte loop over both buffers fails or succeeds as folding the terms over a stack does and writes its names joined by slashes, always within bounds |
| ModuleId.Resolver.ResolveModuleId | NekoScript/vendors/duktape/duk_bi_global.cpp:841-989 | the resolved identifier or an error, for any request and current module, size limits included |
| ModuleId.ResolveLiteral | NekoScript/vendors/duktape/duk_bi_global.cpp:841-989 | resolution as rewriting of text in literal characters: names and single slashes taken over, `./` dropped, `../` dropping a name, 254 bytes at most |
| ModuleId.ResolvedWellFormed | NekoScript/vendors/duktape/duk_bi_global.cpp:854-869 | a resolved identifier has no empty, dot or dot-dot term |
| ModuleId.WalkLength | NekoScript/vendors/duktape/duk_bi_global.cpp:861-863 | the output never gets longer than what was written and what is left to read; why the output needs no bound checks |
| ModuleId.ResolveIdempotent | NekoScript/vendors/duktape/duk_bi_global.cpp:841-989 | resolving a resolved identifier returns it unchanged, whatever the current module |
| ModuleId.RelativeToDirectory | NekoScript/vendors/duktape/duk_bi_global.cpp:871-889 | a relative request starts from the names of the current module without the last one |
| ModuleId.TermsOfJoin | NekoScript/vendors/duktape/duk_bi_global.cpp:956-985 | splitting a joined identifier gives its names back |
| PrototypeChain.LoopExactlyWhenReached | NekoScript/vendors/duktape/duk_bi_object.cpp:129-141 | redirecting a prototype keeps all chains finite if and only if the new one does not lead to the object |
| PrototypeChain.CycleNeverEnds | NekoScript/vendors/duktape/duk_bi_object.cpp:135-140 | once redirected into itself a chain ends in no number of steps |
| PrototypeChain.GrowKeepsAcyclic | NekoScript/vendors/duktape/duk_bi_object.cpp:158-197 | a new object in front of a chain keeps all chains finite |
| PrototypeChain.ObjectHeap.WalkFinds | NekoScript/vendors/duktape/duk_bi_object.cpp:135-140 | the loop prevention walk ends and finds the object exactly when it is reachable |
| PrototypeChain.ObjectHeap.SetPrototypeShared | NekoScript/vendors/duktape/duk_bi_object.cpp:86-151 | for every kind of target and argument the prescribed outcome; for an extensible object and a changed prototype refused exactly when a cycle would arise; no other link changes |
| PrototypeChain.ObjectHeap.CreateObject | NekoScript/vendors/duktape/duk_bi_object.cpp:158-197 | a fresh extensible object with the given prototype, or an error and no change |
| PrototypeChain.ObjectHeap.Step | NekoScript/vendors/duktape/duk_bi_object.cpp:86-197 | one request: the links afterwards in terms of those before, and all chains finite |
| PrototypeChain.ObjectHeap.Run | NekoScript/vendors/duktape/duk_bi_object.cpp:86-197 | after any sequence of requests every prototype chain is finite |
| ValueStack.Heap.Incref | NekoScript/vendors/duktape/duk_heaphdr.h:252-274 | one more reference for a heap value, none for others |
| ValueStack.Heap.Decref | NekoScript/vendors/duktape/duk_heaphdr.h:252-274 | one reference less |
| ValueStack.Thread.Slot | NekoScript/vendors/duktape/duk_api_stack.cpp:181-246 | an index from 0 on counts from the start of the frame, a negative one from the top, and anything outside the frame is invalid |
| ValueStack.Thread.Swap | NekoScript/vendors/duktape/duk_api_stack.cpp:805-821 | exchanges two values; reference counts still equal occurrences plus the same outside references |
| ValueStack.Thread.Dup | NekoScript/vendors/duktape/duk_api_stack.cpp:829-844 | pushes a copy, counted once more; refused without room or a valid index |
| ValueStack.Thread.DupTop | NekoScript/vendors/duktape/duk_api_stack.cpp:846-865 | the same for the top value |
| ValueStack.Thread.Insert | NekoScript/vendors/duktape/duk_api_stack.cpp:867-905 | moves the top value to a slot, the rest up |
| ValueStack.Thread.Replace | NekoScript/vendors/duktape/duk_api_stack.cpp:907-928 | the top value replaces a slot, the old value is released |
| ValueStack.Thread.Copy | NekoScript/vendors/duktape/duk_api_stack.cpp:930-945 | overwrites one slot with the value of another |
| ValueStack.Thread.Remove | NekoScript/vendors/duktape/duk_api_stack.cpp:947-985 | takes one value out, the rest moves down, the vacated slot becomes undefined |
| ValueStack.Thread.PopN | NekoScript/vendors/duktape/duk_api_stack.cpp:4225-4272 | drops exactly that many values, wiped to undefined; refused exactly if there are fewer |
| ValueStack.Thread.SetTop | NekoScript/vendors/duktape/duk_api_stack.cpp:343-432 | raises with undefined values or drops, exactly when the new top is within what is allocated |
| ValueStack.Thread.XcopyMoveRaw | NekoScript/vendors/duktape/duk_api_stack.cpp:991-1058 | copies or moves values between two stacks of one heap, invariants of both kept; a stack is refused as its own partner |
| ValueStack.Thread.ResizeValstack | NekoScript/vendors/duktape/duk_api_stack.cpp:487-615 | all live values survive a reallocation, even if a collection resized the stack meanwhile; new slots are undefined |
| ValueStack.Thread.Resize | NekoScript/vendors/duktape/duk_api_stack.cpp:617-715 | granted, refused or ignored exactly as size, limit and allocation say, and a granted size is there |
| ValueStack.TargetSizeFits | NekoScript/vendors/duktape/duk_api_stack.cpp:648-672 | the rounded size is enough, growing grows, and shrinking gives back at least 64 slots |
| ValueStack.Thread.CheckStack | NekoScript/vendors/duktape/duk_api_stack.cpp:717-759 | outcome exactly by limit and allocation; when granted there is room for the request and the reserve above the top |
| ValueStack.Thread.CheckStackTop | NekoScript/vendors/duktape/duk_api_stack.cpp:761-799 | outcome exactly by limit and allocation; the size is counted from the start of the stack |
| ValueStack.CheckStackTopExact | NekoScript/vendors/duktape/duk_api_stack.cpp:761-799 | a granted check for a top of n guarantees room for n values in the frame if and only if the frame starts within the first 64 slots |
| StackRun.AppliedKeeps | NekoScript/vendors/duktape/duk_api_stack.cpp:343-985 | no operation on a stack moves the frame or changes a value below it |
| StackRun.ServedValid | NekoScript/vendors/duktape/duk_api_stack.cpp:343-1058 | no request to any of the stacks moves a frame or changes a value below one, moves between stacks included |
| StackRun.HeldAllParts | NekoScript/vendors/duktape/duk_api_stack.cpp:991-1058 | the references on all stacks include those on any two, so a pair of stacks taken from many is consistent by itself |
| StackRun.XcopyOn | NekoScript/vendors/duktape/duk_api_stack.cpp:991-1058 | a copy or move seen from outside: carried out exactly when it fits, the same outside references |
| StackRun.StepOn | NekoScript/vendors/duktape/duk_api_stack.cpp:343-985 | one operation, resizing with a collection meanwhile included, leaves values, frame and size exactly as specified and all outside references the same |
| StackRun.NegativeIndex | NekoScript/vendors/duktape/duk_api_stack.cpp:181-246 | with n values in the frame the index -k is the index n - k, for every operation with one index |
| StackRun.NegativeIndices | NekoScript/vendors/duktape/duk_api_stack.cpp:181-246 | the same for either index of swap and copy |
| StackRun.NoSuchIndex | NekoScript/vendors/duktape/duk_api_stack.cpp:181-246 | an index below -n or from n on changes nothing |
| StackRun.IndexFromBottom | NekoScript/vendors/duktape/duk_api_stack.cpp:829-985 | dup, insert, replace, remove and set_top at an index from 0 on, spelled out on the values of the stack |
| StackRun.IndicesFromBottom | NekoScript/vendors/duktape/duk_api_stack.cpp:805-945 | swap and copy spelled out the same way |
| StackRun.TopIndex | NekoScript/vendors/duktape/duk_api_stack.cpp:829-985 | at -1 dup is dup_top, remove and replace are a pop of one, insert, swap and copy change nothing |
| StackRun.WithoutIndex | NekoScript/vendors/duktape/duk_api_stack.cpp:343-432 | push, pop and raising the top spelled out, refusals included |
| StackRun.GrowthInNumbers | NekoScript/vendors/duktape/duk_api_stack.cpp:648-799 | a checked stack grows to the next larger multiple of 128 with 64 slots in reserve, or not at all beyond the limit |
| StackRun.ShrinkageInNumbers | NekoScript/vendors/duktape/duk_api_stack.cpp:648-672 | nothing is given back for less than 256 slots; otherwise 64 are kept in reserve and the size is rounded up, unless compacting |
| StackRun.Threads.constructor | NekoScript/vendors/duktape/duk_api_stack.cpp:343-1058 | takes charge of any existing stacks of one heap whose references its counts cover |
| StackRun.Threads.StepOne | NekoScript/vendors/duktape/duk_api_stack.cpp:343-985 | the same for one stack among many: the others are as they were, every count still covers all stacks |
| StackRun.Threads.XcopyBetween | NekoScript/vendors/duktape/duk_api_stack.cpp:991-1058 | a copy or move between any two of many stacks: exactly those two change, every count still covers all stacks with the same references outside |
| StackRun.Threads.Step | NekoScript/vendors/duktape/duk_api_stack.cpp:343-1058 | one request to any stack or pair of stacks of a heap: all stacks as specified, invariants kept |
| StackRun.Threads.Run | NekoScript/vendors/duktape/duk_api_stack.cpp:343-1058 | after every sequence of operations, moves between stacks, resizes and thread creations: all stacks are what the requests say, slots above every top are undefined, every reference count is its occurrences on all stacks plus the same references outside, and the frames below are untouched |

## Left out

- JsonEncoder.EncCtx.Stringify: standard mode with the source's default options; the JX and JC extensions, toJSON, replacer functions and key lists, getters, boxed values, Proxy objects and inherited elements of arrays with gaps are not modelled.
- JsonEncoder.EncCtx.FastObject: objects with an array part and arrays longer than theirs, for which the fast path only gives up, are not modelled.
- JsonEncoder.EncCtx.EncObjarrEntry: the deep part of the loop check keys a set by printed pointers; distinct objects are taken to print differently.
- JsonEncoder.EncCtx.EncQuoteString: growth of the output buffer is not modelled, output is a sequence; the reservation per chunk is (`JsonReserve.dfy`).
- JsonParser.DecCtx.DecNumber: number conversion is a parameter; what it accepts beyond inverting its own text is open.
- JsonParser.DecCtx.ParseText: revivers, which run after parsing, are not modelled.
- JsonRoundTrip.StringifyThenParse: speaks of the document serialized; NaN and infinities serialize as null, and undefined or function values as null in arrays and not at all in objects.
- Bytecode.Loader.LoadFunction: the loader has no bounds checks outside assertions, so reading past the end of truncated data is excluded by a precondition; truncated data is the one input not covered.
- Bytecode.Dumper.DumpFunc: line ranges kept only with debugger support, the environment, prototype object and constructor link made on load, and the big-endian instruction copy are not modelled; variable register numbers are taken to be 32-bit integers.
- Calendar.TimevalToParts: time values are integers; rounding of doubles, NaN and infinite parts are not modelled.
- TimeValue.FindLocalOffset: the platform's offset is an arbitrary function of time; the platform calls behind it (`duk_bi_date_unix.cpp`, `duk_bi_date_windows.cpp`) are not modelled beyond the equivalent year.
- Iso8601.TimeToString: locale formats, "Invalid Date" and offsets of more than a day are not modelled.
- Iso8601.ParseIso8601: the platform parser tried when this one rejects is not modelled.
- Base64.DecodePlain: bits under padding are not checked by the source, so encoding does not undo decoding; no claim is made about it.
- Hex encoding and decoding in `duk_api_codec.cpp` would add easy members only.
- ArraySort.Sorter.Sort: getters, setters, inherited indices, property attributes, coercion side effects and the depth of recursion are not modelled; comparison functions do not touch the array.
- ArraySplice.Splicer.Splice: the same for splice; arrays hold no element at or beyond their length when it is called.
- reverse(), join() and the chunked concatenation in `duk_bi_array.cpp` would add easy members only.
- TypedArraySet.Memory.Set: integer element types only; a plain array as source and views whose offset plus length wraps 32 bits are not modelled.
- readfield(), writefield() and slice() of buffers are not modelled.
- UriCodec.TransformContext.Run: growth of the output buffer is not modelled; input is any byte string, the round trips speak of strings made of encoded codepoints.
- ModuleId.Resolver.ResolveModuleId: loading and caching of modules in the rest of require() is not modelled.
- PrototypeChain.ObjectHeap.CreateObject: property descriptors are not modelled, nor are Proxy targets.
- ValueStack.Heap.Decref: freeing and finalizers when a count reaches zero are not modelled, nor is a count wrapping around.
- StackRun.Threads.Run: function calls and returns, which move the start of a frame, are not among the requests; the stacks taken over may be in the middle of any frames.
- ValueStack.Thread.Resize: wrap-around of pointer differences is excluded by the stack's size limit and not modelled.
- The shell: Win32 calls, dialogs, files, processes and foreign function calls are not modelled.
- The compiler, executor, property tables, garbage collector and regular expressions of the engine are not modelled.
