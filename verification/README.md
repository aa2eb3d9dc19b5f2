# A model of the JSON engine, the lock, the thread pool, the allocator and the protocol chain

This project models, in Dafny, the parts of the repository with the most state and branching, and proves what
they promise.

* **JSON text.** `Reader` reads a text through a cursor that yields NUL at the end, with both parsers of
  `reader.h`: the recursive one, and the automaton with an explicit stack. Each method is proved against a
  specification function; the theorems relate these functions: the two parsers send the same events on every
  text, whatever the flags and whatever the handler answers, and they accept exactly the texts of RFC 8259 and what
  the flags add. `Writer` prints events, `GenericDocument` builds a tree from them, and parsing undoes printing,
  whatever white space is put between the tokens.
* **UTF-8, numbers, strings.** Decoding inverts encoding; the reader's string scanner accepts exactly the spelled
  strings; integers are exact at any length; the exponent arithmetic stays in its machine word under an exact
  condition.
* **Schema validation and hashing.** The streaming validator with its parallel sub-validators decides a recursive
  definition of validity; its document path always spells the current position; the hasher computes a hash that
  does not depend on the order of members.
* **JSON Pointer.** Parsing and stringifying are inverse in both forms; `Create` and `Get` agree, and `Create` leaves
  everything else in the tree alone.
* **Concurrency.** The reader/writer lock and the thread pool are transition systems; invariants hold over every
  run, and the classes' methods are exactly their steps. For how many threads the lock loses no wake-up is stated
  exactly.
* **Allocator.** Blocks stay disjoint over every run, under a condition that is proved exact; null is returned exactly
  when there is no memory.
* **Protocols.** Packing through a chain of any length and unpacking with a fresh chain restores the message; every
  byte on the wire is stated.

Modules named after a component alone (`JsonGrammar`, `JsonAutomaton`, `JsonValidator`, `SharedMutex`, ...) hold
specification functions; the class modules (`JsonReader`, `JsonWriter`, `JsonDom`, `JsonSchemaValidator`,
`JsonPointerParser`, `JsonPointerDom`, `SharedMutexObject`, `ThreadPoolObject`, `PoolAllocatorObject`,
`ProtocolChain`, and the class `Hasher`) hold the code in its imperative form; the others hold theorems.

Where the code does not do what it is for, a lemma shows an input, and another gives the exact condition:

* The parsers differ in one error code and in the offset of some declined brackets, nowhere else (`ParsersAgree`).
* Lone low-surrogate escapes are let through, so a validated string can mean ill-formed UTF-8
  (`MeaningWellFormedIffNoLone`).
* The comment in `ParseNumber` promises the int range for short literals (`ShortLiteralsFit`); the exact bounds are far
  larger (`PositiveExponentExact`, `NegativeExponentExact`).
* Containers of 2^32 entries are counted wrong, and the document is left without a single root (`TooManyRoots`,
  `ExactlyOneRoot`); objects of 2^31 members leave more than one code in the hasher (`MembersStay`,
  `OneCodeExactly`).
* The overflow test for pointer indices misses wraps: the name 5000000000 gets the index 705032704
  (`WrapGoesUnnoticed`). Indices are right exactly below 2^32 (`IndexExact`), and a larger name is noticed exactly if
  some digit makes the wrapped value drop (`NoticedExactly`).
* In a fragment an encoded slash belongs to a name (`TripletIsCharacter`), where section 6 of RFC 6901 decodes first and
  splits then.
* A reader that waited because the reader count was at its maximum can be left asleep at a free lock
  (`OverflowLosesReader`), exactly if there are at least two threads more than that maximum (`NeverLostExactly`,
  `NeverStuckExactly`).
* `Malloc` and `Realloc` break their invariant exactly for requests that wrap (`WrappingRequests`,
  `MallocKeepsExactly`, `ReallocKeepsExactly`).
* Messages of 1500 bytes and more cannot be packed by the endian protocols, wherever they stand in a chain
  (`ChainPacksExactly`); an empty universal command without a sender is packed but not unpacked
  (`UniversalRoundTrip`); a universal segment whose hsize exceeds its length is read outside (`HeaderBeyondSegment`,
  `InsideExactly`, `ChainInsideExactly`).

`dafny verify dfyconfig.toml` checks everything. Inductions are written out: wherever Dafny would try one by itself, the
lemma switches that off.

## Model

| member | source | states |
|---|---|---|
| Utf8Properties.DecodeOfEncode | lib/json/rapidjson/encodings.h:102-176 | decoding the encoding of any scalar value, wherever it stands in a text, gives the value and stops right behind it |
| Utf8Properties.EncodeOfDecode | lib/json/rapidjson/encodings.h:146-176 | whatever decodes is the encoding of a scalar value: overlong forms, surrogates and values past 0x10FFFF never decode |
| Utf8Properties.DecodeAllOfEncodeAll | lib/json/rapidjson/encodings.h:102-176 | decoding the concatenated encodings of any sequence of scalar values returns that sequence |
| Utf8Properties.EncodeAllOfDecodeAll | lib/json/rapidjson/encodings.h:102-176 | a text that decodes to its end is the concatenated encodings of what it decodes to |
| Utf8Properties.DecodableIffWellFormed | lib/json/rapidjson/encodings.h:146-220 | repeated decoding reaches the end of a text if and only if the text is well-formed UTF-8 (section 4 of RFC 3629) |
| Characters.EncodedBits | lib/json/rapidjson/encodings.h:102-121 | the bits of a code point, the highest first: those the mark of the first byte leaves free, then six in every byte behind it (section 3 of RFC 3629) |
| Characters.EncodingKeepsOrder | lib/json/rapidjson/encodings.h:102-121 | encoding keeps the order of code points, bytes compared as in a dictionary (section 1 of RFC 3629) |
| Utf8Stream.Stream.Encode | lib/json/rapidjson/encodings.h:102-121 | the bytes put are the encoding that the theorems above are about |
| Utf8Stream.Stream.Decode | lib/json/rapidjson/encodings.h:146-176 | verdict, cursor and code point are those of the decoder the theorems are about, on every byte text |
| Utf8Stream.Stream.Validate | lib/json/rapidjson/encodings.h:179-201 | takes as many bytes as Decode with the same verdict, and on success has put exactly the bytes taken |
| JsonNumber.AccumulateDecides | lib/json/rapidjson/reader.h:1640-1656 | the test on the saturating exponent accumulator decides about the value of all digits: one exceeds the limit if and only if the other does, and below it they are equal |
| JsonNumber.AccumulateBound | lib/json/rapidjson/reader.h:1640-1656 | whatever the digits of an exponent, the accumulator never exceeds ten times the limit plus nine |
| JsonNumber.PositiveExponentExact | lib/json/rapidjson/reader.h:1651-1658 | no intermediate value of any positive exponent leaves the 32-bit int range if and only if at most 214748055 fraction digits were counted |
| JsonNumber.NegativeExponentExact | lib/json/rapidjson/reader.h:1633-1650 | no intermediate value of any negative exponent, nor its sum with expFrac, leaves the int range if and only if at most 2147483549 fraction digits were counted |
| JsonNumber.ShortLiteralsFit | lib/json/rapidjson/reader.h:1569-1665 | in a text of any length: if a literal takes less than 10^8 characters in front of its exponent, no intermediate value of the exponent, whatever its digits, and no sum that goes to the conversion leaves int |
| JsonReader.Reader.ParseSuffix | lib/json/rapidjson/reader.h:1569-1665 | fraction and exponent: where the literal ends or the first error, and the very exponents that theorem is about |
| JsonRoundTrip.IntegerLiteral | lib/json/rapidjson/reader.h:1468-1567 | for an integer literal of any length, numbers not being read as strings: its exact value is sent, as a 32-bit kind exactly when it fits, if it lies in [-2^63, 2^64); otherwise it takes the double path |
| JsonNumberGrammar.ReadIsLiteral | lib/json/rapidjson/reader.h:1455-1734 | whatever is read as a number is a literal of section 6 of RFC 8259, to its end: sign, integer without leading zero, fraction, exponent with either mark and either sign; or NaN, Inf, Infinity if allowed |
| JsonNumberGrammar.LiteralIsRead | lib/json/rapidjson/reader.h:1455-1734 | every such literal is read to its end, and what is sent depends on its parts: an integer exactly if it has no fraction and no exponent and fits 64 bits; too big exactly if the exponent exceeds 308 and the fraction digits counted, or the double is |
| JsonNumberGrammar.CountedExactly | lib/json/rapidjson/reader.h:1569-1616 | how many fraction digits count: none behind an integer part over 64 bits, else all leading zeros behind a zero and digits up to 17 behind the first |
| JsonNumberGrammar.ExponentIsValue | lib/json/rapidjson/reader.h:1618-1665 | the exponent that goes to the conversion: the value of its digits with its sign, or beyond the limit if they are |
| JsonNumberGrammar.KindsAreRanges | lib/json/rapidjson/reader.h:1667-1733 | the ranges of the four integer events, in numbers |
| JsonReader.Reader.ParseDigits | lib/json/rapidjson/reader.h:1480-1567 | the 32-bit and 64-bit accumulators never wrap; they hold the exact value of all digits, the wider one exactly when the value does not fit 32 bits, and the double path is taken exactly when it does not fit 64 |
| JsonReader.Reader.ParseDigits32 | lib/json/rapidjson/reader.h:1480-1507 | the 32-bit accumulator holds the exact value of the digits read, and the loop is left for 64 bits exactly when the next digit would leave the 32-bit range |
| JsonReader.Reader.ParseDigits64 | lib/json/rapidjson/reader.h:1535-1560 | the same for the 64-bit accumulator, the limit depending on the sign |
| JsonReader.Reader.ParseNanOrInf | lib/json/rapidjson/reader.h:1508-1531 | accepts NaN, Inf and Infinity, and reports the position where the spelling goes wrong otherwise |
| JsonReader.Reader.ExtendInteger | lib/json/rapidjson/reader.h:1584-1593 | the fraction digits that still extend the 64-bit significand: cursor, significand, digit count and expFrac |
| JsonReader.Reader.ExtendDouble | lib/json/rapidjson/reader.h:1603-1612 | the fraction digits behind it: all are consumed, and expFrac counts those up to 17 significant ones |
| JsonReader.Reader.ParseExponent | lib/json/rapidjson/reader.h:1618-1665 | the exponent with its sign, the error of a missing or too large one, and: exp and exp + expFrac stay in the int range |
| JsonReader.Reader.ParseNegativeExponent | lib/json/rapidjson/reader.h:1632-1650 | the two nested loops consume all digits and leave the saturating accumulator |
| JsonReader.Reader.ParsePositiveExponent | lib/json/rapidjson/reader.h:1651-1658 | rejects exactly the exponents whose digits, all of them, exceed 308 - expFrac, and computes the others exactly |
| JsonReader.Reader.Deliver | lib/json/rapidjson/reader.h:1667-1733 | negating an unsigned accumulator by complement and increment sends the exact negative value; a handler that declines is an error at the start of the literal |
| JsonReader.Reader.ParseNumber | lib/json/rapidjson/reader.h:1455-1734 | cursor, error and events are those of the number grammar |
| JsonReader.Reader.SkipWhitespaceAndComments | lib/json/rapidjson/reader.h:709-735 | skips blanks and, with the flag, both kinds of comments; an unterminated block comment is a syntax error |
| JsonGaps.SkipsWhiteSpace | lib/json/rapidjson/reader.h:265-272 | without comments, exactly the bytes 0x20, 0x09, 0x0A and 0x0D from the cursor on are skipped, and no other |
| JsonGaps.SkipsComments | lib/json/rapidjson/reader.h:709-735 | with comments, what is skipped is a row of white space and complete comments in front of something else; otherwise the error is at the first slash that begins no complete comment, or at the end of the text |
| JsonGaps.GapIsSkipped | lib/json/rapidjson/reader.h:709-735 | every such row is skipped to its end |
| JsonReader.Reader.ParseLiteral | lib/json/rapidjson/reader.h:855-892 | null, true and false; the offset of the error is where the spelling goes wrong |
| JsonReader.Reader.ParseHex4 | lib/json/rapidjson/reader.h:905-924 | four hex digits give their value, anything else is an error at the escape |
| Characters.HexDigitsAreAscii | lib/json/rapidjson/reader.h:905-924 | the hexadecimal digits are 0 to 9, a to f and A to F, with these values; written ones are in upper case |
| Characters.EscapesAreAscii | lib/json/rapidjson/reader.h:993-1000 | which letter behind a backslash stands for which character, and that no other does (section 7 of RFC 8259) |
| Characters.WordsAreAscii | lib/json/rapidjson/reader.h:855-892 | the words and the structural characters, in ASCII |
| JsonReader.Reader.ParseEscape | lib/json/rapidjson/reader.h:1009-1035 | one escape: the short ones, one code unit, or a surrogate pair combined; the four escape errors |
| JsonReader.Reader.ParseStringToStream | lib/json/rapidjson/reader.h:990-1055 | the string read and the place where it ends, or the first error |
| JsonReader.Reader.ParseString | lib/json/rapidjson/reader.h:958-988 | the same, sent to the handler as a string or a key |
| JsonStringGrammar.AcceptedIffSpelled | lib/json/rapidjson/reader.h:990-1055 | a text is read as the string `str` ending at `q` if and only if it is spelled by items that mean `str`: valid escapes, and between them no raw control characters and, with encoding validation, well-formed UTF-8 |
| JsonStringGrammar.MeaningWellFormedIffNoLone | lib/json/rapidjson/reader.h:1017-1032 | what such a string means is well-formed UTF-8 if and only if no escape is a lone low surrogate: the reader lets those through |
| JsonReader.Reader.ParseObject | lib/json/rapidjson/reader.h:738-803 | the recursive parser of objects: cursor, events with the member count, first error |
| JsonReader.Reader.ParseMembers | lib/json/rapidjson/reader.h:755-802 | its loop |
| JsonReader.Reader.ParseArray | lib/json/rapidjson/reader.h:806-852 | the recursive parser of arrays: cursor, events with the element count, first error |
| JsonReader.Reader.ParseElements | lib/json/rapidjson/reader.h:823-851 | its loop |
| JsonReader.Reader.ParseValue | lib/json/rapidjson/reader.h:1737-1750 | the recursive parser of values |
| JsonReader.Reader.RecursiveParse | lib/json/rapidjson/reader.h:557-589 | the whole text, with the checks in front of and behind the root value |
| JsonReader.Reader.Transit | lib/json/rapidjson/reader.h:1996-2145 | one step of the automaton on the explicit stack: next state, cursor, stack, events; on failure the error |
| JsonReader.Reader.OpenContainer | lib/json/rapidjson/reader.h:2003-2028 | entering a container pushes the return state and a zero count below it |
| JsonReader.Reader.CloseContainer | lib/json/rapidjson/reader.h:2065-2123 | leaving a container pops exactly that pair and sends the count |
| JsonErrors.ErrorsTellTheTruth | lib/json/rapidjson/reader.h:557-589 | for every text, all flags and every handler, the error a parser reports is so: the character at the offset, or what stands around it, is what the code says; the automaton also calls a document empty that begins with a closing bracket, comma or colon |
| JsonEquivalence.ErrorsAlike | lib/json/rapidjson/reader.h:2147-2166 | the code set for a state in which a character is not expected is the code the recursive parser reports for that character at that place |
| JsonReader.Reader.IterativeParse | lib/json/rapidjson/reader.h:2177-2209 | the loop over the automaton: outcome of the automaton, and an empty stack again |
| JsonReader.Reader.Parse | lib/json/rapidjson/reader.h:557-589 | with either parser the events are the same, the text is accepted by both or by neither, and accepted at the same position |
| JsonTexts.AcceptsJson | lib/json/rapidjson/reader.h:557-589 | for a handler that never declines, what either parser accepts is a JSON text of RFC 8259, extended by what the flags allow, and both accept every such text, unless a number in it is too big |
| JsonTexts.ValueIsSound | lib/json/rapidjson/reader.h:738-852 | wherever a value is read, the text up to its end is one by the grammar: words, numbers, strings, arrays, objects, with gaps, commas and colons where they belong |
| JsonTexts.ValueIsComplete | lib/json/rapidjson/reader.h:738-852 | every value of the grammar is read to its end, wherever it stands, unless a number in it is too big |
| JsonEquivalence.ValueFollows | lib/json/rapidjson/reader.h:1829-2145 | wherever a value is awaited and whatever lies on the stack, running the automaton is running the recursive parser of a value and resuming with that stack: one (return state, count) pair per open container |
| JsonEquivalence.ParsersAgree | lib/json/rapidjson/reader.h:557-589 | on every text, for all flags and every handler: both parsers send the same events, accept the same texts at the same position, and report the same error at the same offset, with two exceptions: a document that begins with a closing bracket, comma or colon (DocumentEmpty against ValueInvalid), and a declined bracket, where the offset of the automaton is exactly one less unless the bracket closes a container behind a trailing comma |
| JsonEquivalence.SameForAcceptingHandler | lib/json/rapidjson/reader.h:738-852 | for a handler that never declines the outcomes are equal if and only if the first significant character is none of `] } , :` |
| JsonEquivalence.ValueTermination | lib/json/rapidjson/reader.h:738-852 | a Termination error is reported only when the handler declined the last event |
| JsonValue.FlagsAreExact | lib/json/rapidjson/document.h:742-777 | whichever of the four constructors makes an integer, its flags name exactly the C++ types that can represent it |
| JsonDocument.EventsBuild | lib/json/rapidjson/document.h:2467-2507 | on any stack, the events of a tree, from Accept or from the reader, push exactly that tree |
| JsonDocumentSafety.ExactlyOneRoot | lib/json/rapidjson/document.h:2289-2299 | for every text, every handler and both parsers: while every container that has ended has fewer than 2^32 entries, as in all texts under 2^32 bytes, no event makes the document pop what is not there; and an accepted text leaves exactly one value on its stack if and only if every container has fewer |
| JsonDocumentSafety.TooManyRoots | lib/json/rapidjson/document.h:2289-2299 | an array of 2^32 empty arrays is accepted to its last byte and does not leave one root: the count wraps to zero |
| JsonCounts.ValueCounts | lib/json/rapidjson/reader.h:738-852 | the count the reader sends is the number of entries modulo 2^32, so the stack is left one higher by a value if and only if all containers in it are counted right, and higher otherwise |
| JsonDom.GenericDocument.Receive | lib/json/rapidjson/document.h:2467-2507 | every handler method: the new stack of values |
| JsonDom.GenericDocument.ParseStream | lib/json/rapidjson/document.h:2289-2299 | after parsing, with either parser, the root is the tree the events build, or unchanged if the text is rejected, and the stack is empty; the assertion about one root holds where every container has fewer than 2^32 entries, and exactly there |
| JsonWriter.Writer.PrefixValue | lib/json/rapidjson/writer.h:473-491 | a comma, a colon or nothing is put according to the parity of the count, and the count grows |
| JsonWriter.Writer.WriteCharacter | lib/json/rapidjson/writer.h:396-448 | one turn of the loop: plain byte, short escape, hex escape or surrogate pair, or refusal |
| JsonWriter.Writer.WriteString | lib/json/rapidjson/writer.h:377-449 | the string between quotes; or failure, and then the quote and all characters in front of the refused one have been put |
| JsonWriter.Writer.String | lib/json/rapidjson/writer.h:196-222 | prefix and text of a string, key or raw number; on failure the prefix has been put and counted, and what the string has put |
| JsonWriter.Writer.Scalar | lib/json/rapidjson/writer.h:182-187 | prefix and text of null, booleans and integers |
| JsonWriter.Writer.Double | lib/json/rapidjson/writer.h:194 | prefix and text of a double, or failure with nothing but the prefix put |
| JsonWriter.Writer.StartObject | lib/json/rapidjson/writer.h:216-220 | prefix, level and brace |
| JsonWriter.Writer.EndObject | lib/json/rapidjson/writer.h:231-238 | the level is popped and the brace put |
| JsonWriter.Writer.StartArray | lib/json/rapidjson/writer.h:240-244 | prefix, level and bracket |
| JsonWriter.Writer.EndArray | lib/json/rapidjson/writer.h:246-253 | the level is popped and the bracket put |
| JsonPrint.EventsPrint | lib/json/rapidjson/writer.h:473-491 | where a value is expected, in any state of the level stack, the events of a tree append exactly the text of the tree, defined by recursion with separators between entries, and leave the levels as they were but for one more entry |
| JsonPrint.AcceptPrints | lib/json/rapidjson/writer.h:182-262 | a fresh writer driven by Accept is left with the text of the tree, no open level and a root |
| JsonDom.Accept | lib/json/rapidjson/document.h:1898-1935 | driving a writer with a tree succeeds if and only if every string and double can be printed, and then appends the tree's text |
| JsonDom.AcceptArray | lib/json/rapidjson/document.h:1916-1922 | the same for an array and its loop |
| JsonDom.AcceptObject | lib/json/rapidjson/document.h:1904-1914 | the same for an object and its loop |
| JsonStrings.WriterRefusesIllFormed | lib/json/rapidjson/writer.h:396-448 | the writer refuses a string if and only if it transcodes or validates and the string is not well-formed UTF-8 |
| Characters.WrittenEscapes | lib/json/rapidjson/writer.h:377-449 | what is written for each byte below 0x80: its letter behind a backslash, four hexadecimal digits, or itself |
| Characters.DigitOfValue | lib/json/rapidjson/writer.h:317-351 | the digit that counts 10^k is the kth from the right, in every digit string |
| JsonStrings.StringReadsBack | lib/json/rapidjson/writer.h:377-449 | every string the writer prints, with a UTF-8 or an ASCII target, is read back byte by byte (if the reader validates: every well-formed one) |
| JsonRoundTrip.ParsingUndoesPrinting | lib/json/rapidjson/document.h:1898-1935 | for every tree of nulls, booleans, integers in [-2^63, 2^64), strings, arrays and objects that the writer does not refuse: writing it gives a text both parsers accept to its last byte, and the document built is that tree, the one root |
| JsonRoundTrip.SpelledReadsBack | lib/json/rapidjson/reader.h:557-589 | the same for every text that spells such a tree, with white space of any kind and length between any two tokens and around it |
| JsonRoundTrip.SpacedReadsBack | lib/json/rapidjson/reader.h:557-589 | the same for a printer that puts any text of white space it is given into each gap of each container |
| JsonSpelling.CompactText | lib/json/rapidjson/writer.h:473-491 | with empty gaps that printer prints what the writer prints |
| JsonSchema.TypelessAcceptsAll | lib/json/rapidjson/schema.h:1541-1542 | every value is valid for the schema of the empty object |
| JsonSchema.PresentMeansNamed | lib/json/rapidjson/schema.h:940-956 | a required property counts as present if and only if some member has its name |
| JsonSchemaKeywords.ValidIffKeywords | lib/json/rapidjson/schema.h:675-1013 | a value is valid if and only if every keyword is satisfied, each written down by itself: type, limits, items, additionalItems, properties, additionalProperties, required, the four counts, allOf, anyOf, oneOf, not |
| JsonSchemaKeywords.StreamingDecidesKeywords | lib/json/rapidjson/schema.h:2076-2147 | the streaming validator decides the keywords |
| JsonSchemaKeywords.TypeIsNamed | lib/json/rapidjson/schema.h:1173-1182 | a schema with the one keyword type accepts exactly the values of a type it names; an integer is named by integer and by number, a double by number |
| JsonValidatorTheorem.ValueVerdict | lib/json/rapidjson/schema.h:675-1013 | inside any stack of contexts, the events of a value leave the stack below untouched and the validator valid if and only if the value is valid by the recursive definition |
| JsonValidatorTheorem.StreamingIsRecursive | lib/json/rapidjson/schema.h:2076-2147 | the verdict of the streaming validator on the events of any tree, all parallel sub-validators included, is the recursive definition of validity |
| JsonValidatorProof.CombinedIsCombination | lib/json/rapidjson/schema.h:702-782 | if each parallel validator is right about its schema, their combination is allOf, anyOf, oneOf and not |
| JsonValidatorPath.PathSpellsPosition | lib/json/rapidjson/schema.h:2232-2317 | after every run of events that has not failed, the document path is the base path followed by the escaped names of the current position, one per key or index, and an array context holds the index of its next element |
| JsonValidatorPath.PopName | lib/json/rapidjson/schema.h:2295-2297 | popping up to a slash removes exactly the last token, whatever slashes and tildes the key contains |
| JsonValidatorLocate.EveryPrefixLocated | lib/json/rapidjson/schema.h:2232-2300 | the events of a tree have a position after every one of them, so the path theorem speaks about all of them |
| JsonValidatorPointer.PathIsPointer | lib/json/rapidjson/schema.h:2302-2317 | parsing the document path as a JSON Pointer gives back the raw names and indices of the position |
| JsonSchemaValidator.GenericSchemaValidator.AppendToken | lib/json/rapidjson/schema.h:2302-2317 | appends a slash and the escaped key |
| JsonSchemaValidator.GenericSchemaValidator.AppendIndexToken | lib/json/rapidjson/schema.h:1455-1472 | appends a slash and the decimal index |
| JsonSchemaValidator.GenericSchemaValidator.PopLastToken | lib/json/rapidjson/schema.h:2295-2297 | pops up to and including the last slash |
| JsonSchemaValidator.GenericSchemaValidator.BeginValue | lib/json/rapidjson/schema.h:2232-2261 | chooses and pushes the schema of the value that begins, and the index token |
| JsonSchemaValidator.GenericSchemaValidator.Check | lib/json/rapidjson/schema.h:784-997 | the schema's methods for the events that begin a value: the disallowed type and the limits checked event by event, and the context prepared, make the step of the machine |
| JsonSchemaValidator.GenericSchemaValidator.CreateParallelValidator | lib/json/rapidjson/schema.h:1184-1219 | one fresh validator, with the current document path, for each combined schema: allOf, anyOf, oneOf and not, each at its index |
| JsonSchemaValidator.GenericSchemaValidator.Parallel | lib/json/rapidjson/schema.h:2083-2093 | every parallel validator of every context receives the event |
| JsonSchemaValidator.GenericSchemaValidator.EndValue | lib/json/rapidjson/schema.h:2263-2300 | combines the verdicts and pops context and token |
| JsonSchemaValidator.GenericSchemaValidator.Key | lib/json/rapidjson/schema.h:2121-2127 | a key selects the schema of the value and marks the property |
| JsonSchemaValidator.GenericSchemaValidator.EndObject | lib/json/rapidjson/schema.h:2129-2134 | the checks at the end of an object |
| JsonSchemaValidator.GenericSchemaValidator.EndArray | lib/json/rapidjson/schema.h:2142-2147 | the checks at the end of an array |
| JsonSchemaValidator.GenericSchemaValidator.Receive | lib/json/rapidjson/schema.h:2103-2147 | any event reaches the state of the machine the theorems are about; once the verdict is negative nothing changes any more |
| JsonSchemaValidator.GenericSchemaValidator.Validate | lib/json/rapidjson/schema.h:1857 | after all events of a tree IsValid is the recursive definition of validity, which is that all keywords are satisfied, and both stacks are empty if it holds |
| JsonHasher.OneCodeExactly | lib/json/rapidjson/schema.h:226-310 | driven by the events of any tree, a fresh hasher is left with exactly one code if and only if every object has fewer than 2^31 members, and then the code is the recursively defined hash |
| JsonHasher.MembersStay | lib/json/rapidjson/schema.h:252-256 | the product memberCount * 2 wraps: an object of 2^31 members leaves all its codes on the stack |
| JsonHasher.EventsHash | lib/json/rapidjson/schema.h:252-269 | on any stack, the events of a tree whose objects have fewer than 2^31 members push exactly its code |
| JsonHasher.ReorderingKeepsCode | lib/json/rapidjson/schema.h:252-260 | permuting the members of objects, at any depth, does not change the code |
| JsonHasher.PermutingKeepsCode | lib/json/rapidjson/schema.h:252-260 | two objects whose members are the same, counted, whatever their order, have the same code |
| JsonHasher.KnownWords | lib/json/rapidjson/schema.h:226-307 | the codes of null, false and true, in numbers |
| JsonHasher.KnownStrings | lib/json/rapidjson/schema.h:244-307 | the codes of the empty string and of "a" |
| JsonHasher.KnownContainers | lib/json/rapidjson/schema.h:252-269 | the codes of the empty object and the empty array |
| JsonHasher.Hasher.WriteBuffer | lib/json/rapidjson/schema.h:292-307 | FNV-1a over the bytes, pushed |
| JsonHasher.Hasher.EndObject | lib/json/rapidjson/schema.h:252-260 | pops twice the number of members, modulo 2^32, and pushes the exclusive or of the pairs |
| JsonHasher.Hasher.EndArray | lib/json/rapidjson/schema.h:262-269 | pops the elements and pushes their chain |
| JsonHasher.Hasher.Receive | lib/json/rapidjson/schema.h:226-269 | every handler method: the new stack of codes |
| JsonPointerProof.ParsingUndoesStringifying | lib/json/rapidjson/pointer.h:1002-1033 | for every list of tokens with their indices, parsing the string or URI fragment it is stringified to gives the same tokens and indices (sections 3, 5 and 6 of RFC 6901) |
| JsonPointerProof.ParsedPointersRoundTrip | lib/json/rapidjson/pointer.h:863-993 | every parsed pointer survives stringifying, in either form, and parsing again |
| JsonPointerProof.StringifyingUndoesParsing | lib/json/rapidjson/pointer.h:863-993 | a string that parses as a pointer and is no fragment is exactly what its tokens are stringified to |
| JsonPointerProof.StringifiesIffWellFormed | lib/json/rapidjson/pointer.h:1002-1033 | stringifying succeeds always as a string, and as a fragment if and only if every name is well-formed UTF-8 |
| JsonPointerProof.TripletIsCharacter | lib/json/rapidjson/pointer.h:905-940 | in a fragment a percent-encoded ASCII character means what the character means, the tilde of an escape included; but an encoded slash belongs to the name and does not end it |
| JsonPointerProof.IndexExact | lib/json/rapidjson/pointer.h:961-978 | a numeric name gets its value as index if and only if the value is below 2^32 |
| JsonPointerProof.IndexIffNumeral | lib/json/rapidjson/pointer.h:961-978 | below the invalid index, the names that are indices are exactly the decimal numerals (section 4 of RFC 6901) |
| JsonPointerProof.NoticedExactly | lib/json/rapidjson/pointer.h:966-978 | for a numeric name of any length: the index is invalid if and only if some digit makes the value left in 32 bits smaller than the one before it, and otherwise it is the value modulo 2^32 |
| JsonPointerProof.TenDigitsNoticed | lib/json/rapidjson/pointer.h:966-978 | a wrap of a ten-digit name is noticed if and only if the wrapped value is below the first nine digits' value |
| JsonPointerParser.CountSlashes | lib/json/rapidjson/pointer.h:873-876 | the number of tokens to allocate |
| JsonPointerParser.ConvertIndex | lib/json/rapidjson/pointer.h:961-978 | the loop over the digits with its overflow test |
| JsonPointerParser.GenericPointer.constructor | lib/json/rapidjson/pointer.h:863-993 | tokens, indices and names in the buffers are those of the parse, every write being inside the buffers sized in advance; or the error code and offset |
| JsonPointerParser.GenericPointer.ParseTokens | lib/json/rapidjson/pointer.h:894-980 | the outer loop |
| JsonPointerParser.GenericPointer.ParseName | lib/json/rapidjson/pointer.h:901-955 | the inner loop: the unescaped name lands in the buffer and never runs past the read position |
| JsonPointerParser.GenericPointer.PercentDecode | lib/json/rapidjson/pointer.h:905-923 | a percent-encoded code point is decoded through Validate into the buffer |
| JsonPointerParser.GenericPointer.PutUnescaped | lib/json/rapidjson/pointer.h:930-954 | ~0, ~1, or the error of another escape |
| JsonPointerParser.GenericPointer.Stringify | lib/json/rapidjson/pointer.h:1002-1033 | what is put is the escaped, and for a fragment percent-encoded, form of the tokens; failure exactly where transcoding fails, and then all tokens in front of the failing one have been put |
| Characters.NamesAreEscaped | lib/json/rapidjson/pointer.h:1002-1033 | in a string a tilde is written ~0, a slash ~1, every other character as itself (section 3 of RFC 6901) |
| Characters.UnreservedStay | lib/json/rapidjson/pointer.h:851-853 | in a fragment all characters but the unreserved ones are percent-encoded (section 2.3 of RFC 3986) |
| Characters.PercentTriplets | lib/json/rapidjson/pointer.h:1086-1098 | each byte by a percent sign and its two hexadecimal digits, the higher first |
| JsonPointerTree.ExistsIffResolved | lib/json/rapidjson/pointer.h:461-508 | Create reports "already exists" if and only if Get resolved before; then the tree is unchanged and the node is the same; otherwise the node is null |
| JsonPointerTree.CreatedIsResolved | lib/json/rapidjson/pointer.h:461-508 | after Create, Get resolves to the node Create returned, unless a "-" token was applied to an array, and then it does not resolve |
| JsonPointerTree.SetIsResolved | lib/json/rapidjson/pointer.h:671-678 | assigning to the node found leaves the pointer resolving to it |
| JsonPointerFrame.ResolvesIffSpelled | lib/json/rapidjson/pointer.h:540-568 | Get resolves a pointer to a position if and only if its tokens name the children along it: the first member of the name, the element at the index |
| JsonPointerFrame.TurnExtends | lib/json/rapidjson/pointer.h:466-501 | one token of Create: to what a value is converted and when, that all children stay under their names, that the new child comes last, and that padding is null |
| JsonPointerFrame.OldIsKept | lib/json/rapidjson/pointer.h:461-508 | every position of the old tree that is not below a converted value is a position of the new one, under the same names, and holds the same value unless it lies on the way |
| JsonPointerFrame.NewIsAccounted | lib/json/rapidjson/pointer.h:461-508 | every position of the new tree was there before and is not below a converted value, or lies on the way, or holds a null that fills an array |
| JsonPointerFrame.OthersResolve | lib/json/rapidjson/pointer.h:461-508 | every pointer that resolved before to a position not below a converted value still resolves to it, and to the same value unless that lies on the way |
| JsonPointerDom.Dom.Get | lib/json/rapidjson/pointer.h:540-568 | the walk down the tree |
| JsonPointerDom.Dom.Create | lib/json/rapidjson/pointer.h:461-508 | the walk that creates what is missing: new tree, node, and for the object the theorems about resolution and about what is kept and what is new |
| JsonPointerDom.Dom.CreateOne | lib/json/rapidjson/pointer.h:466-501 | one token: conversion, padding, or a new member |
| SharedMutexProof.EveryRun | lib/lock/shared_mutex_kes.h:267-369 | in every state any number of threads can reach: the high bit is set if and only if exactly one writer owns the lock or queues at gate2, the low bits are the number of reader owners, an owning writer excludes readers, and no writer waits without a wake-up that is due |
| SharedMutexProof.StepKeeps | lib/lock/shared_mutex_kes.h:290-369 | each critical section, and each spurious wake-up, keeps that invariant |
| SharedMutexProof.NoNewReaders | lib/lock/shared_mutex_kes.h:326-332 | while the high bit is set, no step adds a reader |
| SharedMutexSteps.WhoGetsTheLock | lib/lock/shared_mutex_kes.h:290-347 | in every state that can be reached: lock and try_lock take the lock exactly if no thread owns a share or the lock or queues for it, lock_shared and try_lock_shared a share exactly if no writer has entered and the shares are fewer than the maximum, the try variants given the mutex; lock queues exactly behind readers only; else the first waits and the second changes nothing |
| SharedMutexSteps.WhoIsWokenByWriters | lib/lock/shared_mutex_kes.h:313-324 | a writer that leaves wakes all who sleep at gate1, and nobody else |
| SharedMutexSteps.WhoIsWokenByReaders | lib/lock/shared_mutex_kes.h:348-369 | a reader that leaves wakes exactly one sleeper of gate2 if it was the last in front of a writer, exactly one of gate1 if it leaves a full lock without a writer, and nobody else |
| SharedMutexSteps.WhoMayStep | lib/lock/shared_mutex_kes.h:290-347 | every thread can take the step that is due, and no other, unless it sleeps: a sleeper has to be woken |
| SharedMutexThreads.NeverLostExactly | lib/lock/shared_mutex_kes.h:326-369 | for any number of threads: no run leaves a reader asleep at gate1 with neither the write-entered flag nor a full count, if and only if there is at most one thread more than the maximal reader count |
| SharedMutexThreads.NeverStuckExactly | lib/lock/shared_mutex_kes.h:326-369 | in every run each thread waiting at a free lock has a wake-up due, if and only if the threads are at most that many |
| SharedMutexThreads.OverflowLosesReader | lib/lock/shared_mutex_kes.h:349-369 | with one thread more, a run in which the count reaches the maximum and a reader is left asleep at a free lock |
| SharedMutexObject.SharedMutexCv.Lock | lib/lock/shared_mutex_kes.h:290-299 | lock, from outside or woken at gate1: waits, queues or owns; the state is exactly the step's, and the invariant holds |
| SharedMutexObject.SharedMutexCv.Dequeue | lib/lock/shared_mutex_kes.h:298-298 | the second wait of lock; the state is exactly the step's, and the invariant holds |
| SharedMutexObject.SharedMutexCv.TryLock | lib/lock/shared_mutex_kes.h:301-311 | try_lock; the state is exactly the step's, and the invariant holds |
| SharedMutexObject.SharedMutexCv.Unlock | lib/lock/shared_mutex_kes.h:313-324 | unlock clears the word and wakes all at gate1; the state is exactly the step's, and the invariant holds |
| SharedMutexObject.SharedMutexCv.LockShared | lib/lock/shared_mutex_kes.h:326-332 | lock_shared; the state is exactly the step's, and the invariant holds |
| SharedMutexObject.SharedMutexCv.TryLockShared | lib/lock/shared_mutex_kes.h:334-347 | try_lock_shared: a test and an increment under the mutex, if that is got; the state is exactly the step's, and the invariant holds |
| SharedMutexObject.SharedMutexCv.UnlockShared | lib/lock/shared_mutex_kes.h:348-369 | unlock_shared wakes one at gate2 when the last reader leaves, one at gate1 when the count was maximal; the state is exactly the step's, and the invariant holds |
| ThreadPoolProof.EveryRun | communicator/source/include/base/CThreadPool.h:160-208 | over every interleaving: jobs leave the queue in submission order, each job taken is held by exactly one looper or finished once, a looper waiting in IDLE holds none, and the idle list names existing loopers |
| ThreadPoolProof.Conservation | communicator/source/include/base/CThreadPool.h:253-296 | as multisets, jobs pushed = queued + held + finished |
| ThreadPoolProof.NeverOverwritten | communicator/source/include/base/CThreadPool.h:105-125 | no step overwrites a job a looper holds: it keeps it, or the job has just finished |
| ThreadPoolProof.FinishedGrows | communicator/source/include/base/CThreadPool.h:181-195 | the list of finished jobs only grows: no step forgets one or changes the order |
| ThreadPoolSteps.QueueChanges | communicator/source/include/base/CThreadPool.h:169-195 | a push puts the next job last; a looper that loads, ends a job or is triggered while idle takes the first job if there is one; nothing else changes the queue |
| ThreadPoolSteps.HoldingsChange | communicator/source/include/base/CThreadPool.h:105-195 | that looper then holds that job, and nobody else gains or loses one, but for the job that ends |
| ThreadPoolSteps.WhereLoopersGo | communicator/source/include/base/CThreadPool.h:160-195 | a looper runs exactly with a job and waits exactly without one |
| ThreadPoolSteps.WhoIsChosen | communicator/source/include/base/CThreadPool.h:262-285 | a call takes the first idle looper off the list, or makes one if it may, or gives up |
| ThreadPoolSteps.WhoIsTested | communicator/source/include/base/CThreadPool.h:105-110 | the chosen looper is triggered further exactly if it is idle; else the call gives up |
| ThreadPoolObject.CThreadPool.Push | communicator/source/include/base/CThreadPool.h:253-260 | push_runfunc: the state is exactly the step's, and the invariant holds |
| ThreadPoolObject.CThreadPool.Choose | communicator/source/include/base/CThreadPool.h:262-285 | the section of run_thread under the map lock: the state is exactly the step's, and the invariant holds |
| ThreadPoolObject.CThreadPool.Test | communicator/source/include/base/CThreadPool.h:105-110 | the unlocked test of trig_run_func: the state is exactly the step's, and the invariant holds |
| ThreadPoolObject.CThreadPool.Trigger | communicator/source/include/base/CThreadPool.h:112-124 | trig_run_func under the wake lock: the state is exactly the step's, and the invariant holds |
| ThreadPoolObject.CThreadPool.Start | communicator/source/include/base/CThreadPool.h:160-165 | a looper starts: the state is exactly the step's, and the invariant holds |
| ThreadPoolObject.CThreadPool.Begin | communicator/source/include/base/CThreadPool.h:181-193 | a busy looper begins its job or goes idle: the state is exactly the step's, and the invariant holds |
| ThreadPoolObject.CThreadPool.Finish | communicator/source/include/base/CThreadPool.h:183-193 | a job ends and the next is loaded: the state is exactly the step's, and the invariant holds |
| ThreadPoolObject.CThreadPool.Load | communicator/source/include/base/CThreadPool.h:169-175 | an idle looper loads a job: the state is exactly the step's, and the invariant holds |
| ThreadPoolObject.CThreadPool.Enroll | communicator/source/include/base/CThreadPool.h:176-179 | an idle looper enrolls and waits: the state is exactly the step's, and the invariant holds |
| ThreadPoolObject.CThreadPool.Wake | communicator/source/include/base/CThreadPool.h:167-180 | the wait ends: the state is exactly the step's, and the invariant holds |
| ThreadPoolObject.CThreadPool.PopRunFunc | communicator/source/include/base/CThreadPool.h:347-357 | takes the oldest queued job, or none |
| PoolAllocatorProof.EveryRun | lib/json/rapidjson/allocators.h:158-262 | over every run of truthful Malloc, Realloc and Clear calls: blocks are 8-aligned, lie inside a chunk, are pairwise disjoint, and no chunk is filled beyond its capacity |
| PoolAllocatorProof.MallocKeeps | lib/json/rapidjson/allocators.h:189-201 | Malloc keeps that, and returns null or a new block of the requested size |
| PoolAllocatorProof.ReallocKeeps | lib/json/rapidjson/allocators.h:204-235 | Realloc keeps that, and returns the same block resized, a new block with the old one left alone, or null |
| PoolAllocatorProof.MallocKeepsExactly | lib/json/rapidjson/allocators.h:189-201 | for every request: the invariant survives if and only if null is returned or nothing wraps, neither the aligned size nor its sum with the head's nor the sum of header and capacity asked of the base allocator |
| PoolAllocatorProof.ReallocKeepsExactly | lib/json/rapidjson/allocators.h:204-235 | the same for Realloc, with the condition on the new size and the head chunk |
| PoolAllocatorAnswers.MallocAnswers | lib/json/rapidjson/allocators.h:189-201 | null exactly if nothing is asked for or the head has no room and the base allocator refuses; else a block at the end of the head if that has room, and the first block of a new chunk that is large enough if not |
| PoolAllocatorAnswers.NullExactly | lib/json/rapidjson/allocators.h:189-201 | when Malloc returns null, for every request, wrapping ones included |
| PoolAllocatorAnswers.ReallocAnswers | lib/json/rapidjson/allocators.h:204-235 | null exactly if nothing is asked for or the block has to move, the head has no room and the base allocator refuses; the block stays exactly if it does not grow or is the last with room behind it; else Malloc makes the new one |
| PoolAllocatorAnswers.ClearAnswers | lib/json/rapidjson/allocators.h:158-166 | of the chunks only the user's buffer, emptied, and what lies behind it is left |
| PoolAllocatorProof.WrappingRequests | lib/json/rapidjson/allocators.h:189-262 | three requests that wrap: one is aligned to zero, one passes the test for room, and one makes a chunk of 2^64-16 bytes out of 8 |
| PoolAllocatorProof.NoSharedAddress | lib/json/rapidjson/allocators.h:189-235 | no address belongs to two blocks |
| PoolAllocatorObject.MemoryPoolAllocator.Malloc | lib/json/rapidjson/allocators.h:189-201 | the chunk list, blocks and answer are the specified ones, null exactly in the cases of the theorem above, and the invariant holds |
| PoolAllocatorObject.MemoryPoolAllocator.Realloc | lib/json/rapidjson/allocators.h:204-235 | the same; the bytes of the block, up to the smaller size, are at the returned address and no other block's bytes change |
| PoolAllocatorObject.MemoryPoolAllocator.Size | lib/json/rapidjson/allocators.h:181-186 | the bytes in use, never more than the capacity |
| PoolAllocatorObject.MemoryPoolAllocator.Capacity | lib/json/rapidjson/allocators.h:171-176 | the sum of all capacities |
| PoolAllocatorObject.MemoryPoolAllocator.Clear | lib/json/rapidjson/allocators.h:158-166 | all chunks in front of the user's buffer go, the buffer is emptied, no block is left |
| ProtocolFormats.EndianRoundTrip | protocol/src/protocol/CPBigEndian.cpp:66-133 | unpacking what either endian protocol packed restores message, length and msg_id, whatever the header was |
| ProtocolLayout.PackLayout | protocol/src/protocol/CPBigEndian.cpp:183-207 | byte k of what an endian protocol packs is the digit of msg_id in base 256 that counts 256^(3-k) in the big-endian one and 256^k in the little-endian one, the next four are those of the length, and then comes the message |
| ProtocolLayout.UnpackLayout | protocol/src/protocol/CPLittleEndian.cpp:176-189 | out of any bytes msg_id and length are the numbers those digits make, the payload is what follows; it is refused exactly if that is fewer bytes than the length |
| ProtocolLayout.UniversalPackLayout | protocol/include/protocol/CPUniversalCMD.h:39-52 | offset, width and byte order of every field of the packed universal header, sender and NUL behind it if there is one, then the message |
| ProtocolLayout.UniversalUnpackLayout | protocol/src/protocol/CPUniversalCMD.cpp:305-320 | the same fields out of any bytes, the sender up to its NUL, and the payload at hsize |
| ProtocolFormats.ChainPacksExactly | communicator/api/src/IProtocolInf.cpp:105-142 | for chains of any length: a message can be packed if and only if, at every endian layer, it and the headers in front of it are more than nothing and under 1500 bytes, and every universal layer has its fields set and its sizes fit; and the size of the packed segment |
| ProtocolFormats.UniversalRoundTrip | protocol/src/protocol/CPUniversalCMD.cpp:267-320 | where the header fits the 16-bit hsize, a fresh universal command unpacks what another packed: all header fields, sender and message; it fails exactly for an empty message without sender |
| ProtocolFormats.LongHeaderOverwritten | protocol/src/protocol/CPUniversalCMD.cpp:190-197 | where it does not, hsize is cut to 16 bits and the message is written over the sender |
| ProtocolFormats.InsideExactly | protocol/src/protocol/CPUniversalCMD.cpp:305-320 | unpacking a universal segment stays inside it if and only if the name, where there is one, ends in it, and hsize, where there is a payload, is at most its length: the difference in the assertion wraps |
| ProtocolFormats.ChainInsideExactly | communicator/api/src/IProtocolInf.cpp:144-205 | a chain reads outside a segment if and only if some layer that is reached does |
| ProtocolFormats.HeaderBeyondSegment | protocol/src/protocol/CPUniversalCMD.cpp:305-320 | a segment of 25 bytes with an hsize of 100 passes the assertion and is read outside |
| ProtocolFormats.ChainRoundTrip | communicator/api/src/IProtocolInf.cpp:105-205 | for chains of any length: unpacking the packed segment restores the message at the first protocol and the msg_id at every layer |
| ProtocolChain.PackedUnpacks | communicator/api/src/IProtocolInf.cpp:144-205 | what a chain has packed is unpacked by a clean chain down to its first protocol, no payload on the way being empty, and restored |
| ProtocolChain.PackRecursive | communicator/api/src/IProtocolInf.cpp:105-142 | succeeds exactly when every layer can pack; then each protocol holds exactly one segment, the last one the chain's; an empty message makes an endian first protocol, and so the chain, pack nothing |
| ProtocolChain.UnpackRecursive | communicator/api/src/IProtocolInf.cpp:144-205 | where unpacking stops and why: empty payload, refusal, or a read outside the segment; protocols behind hold exactly what their formats unpack, those in front are untouched; the first is reached if and only if all formats unpack and no payload on the way is empty |
| ProtocolChain.CleanChain | communicator/api/src/IProtocolInf.cpp:75-95 | the loop over the chain clears the segments, and header and payload, of every protocol, or leaves them |
| ProtocolChain.Protocol.PackEndian | protocol/src/protocol/CPLittleEndian.cpp:62-110 | one segment holding the format, for messages under 1500 bytes; the loop that should cut longer ones fails |
| ProtocolChain.Protocol.PackRawData | protocol/src/protocol/CPBigEndian.cpp:183-207 | the raw buffer holds msg_id, length and message, digit by digit as the layout says |
| ProtocolChain.Protocol.PackUniversal | protocol/src/protocol/CPUniversalCMD.cpp:77-104 | one segment holding header, sender and message, hsize cut to 16 bits; or false; or a write outside the buffer, told apart |
| ProtocolChain.Protocol.Unpack | protocol/src/protocol/CPUniversalCMD.cpp:106-125 | header and payload are the format's, laid out in the bytes as said, and so is the verdict: done, refused, or a read outside the segment |

## Left out

- JsonDom.GenericDocument.ParseStream: the document receives the reader's events after the reader has run, not interleaved with it; the two share no state. What the document does with a container of 2^32 entries or more, where its assertion fails, is not stated.
- JsonRoundTrip.ParsingUndoesPrinting: doubles are not part of the trees, and with encoding validation in the reader the strings have to be well-formed; containers hold fewer than 2^32 entries, as SizeType demands.
- JsonRoundTrip.SpelledReadsBack: trees without doubles, as above; comments between the tokens are the business of JsonGaps and JsonTexts.
- JsonTexts.AcceptsJson: stated for a reader that reads on behind the root, without kParseStopWhenDoneFlag; with it, ValueIsSound and ValueIsComplete still hold of the root.
- JsonSchemaKeywords.ValidIffKeywords: property names are distinct, as the schema constructor makes them.
- JsonWriter.Writer.WriteString: which bytes of the refused character itself are left in the stream is not stated.
- JsonWriter.Writer.String: the same.
- JsonPointerParser.GenericPointer.Stringify: what the failing name itself has put is not stated.
- JsonPointerParser.GenericPointer.PercentDecode: the stream of decoded triplets is a text made in advance; the source of length 0 is read as NUL.
- JsonPointerDom.Dom.Create: trees are values and a node is named by its position in the tree, not by its address.
- JsonPointerTree.SetIsResolved: Set is modelled as replacing the node; Swap, Erase and default values are not modelled.
- JsonNumber.ShortLiteralsFit: covers the integer arithmetic only; what the double conversion makes of the exponent is not modelled.
- JsonSchemaValidator.GenericSchemaValidator.Receive: the state the failing event itself leaves behind is not stated, only the verdict; events the code rules out by assertion make the validator invalid.
- JsonSchemaValidator.GenericSchemaValidator.Parallel: the parallel validators are values inside their contexts, not objects of their own.
- JsonValidatorTheorem.StreamingIsRecursive: checks of a single number or string (minimum, length, pattern, ...) are a parameter of the schema.
- JsonHasher.OneCodeExactly: how a number lies in memory is a parameter that depends on the number only; so is what the loop of EndObject reads beyond the codes it has popped.
- SharedMutexProof.EveryRun: a critical section is one step; the order in which the condition variable picks a waiter is arbitrary.
- ThreadPoolProof.EveryRun: jobs are numbered in the order of submission; the unlocked reads of a looper's state are atomic steps; liveness is not claimed.
- PoolAllocatorProof.EveryRun: the base allocator's addresses are a parameter; it is taken to return as many aligned bytes as it was asked for, modulo 2^64, inside the address space and apart from all others.
- PoolAllocatorObject.MemoryPoolAllocator.Malloc: the linked list of chunks is a sequence.
- ProtocolChain.PackRecursive: what the objects hold when an assertion of the code fails is not stated; "none" protocols are not modelled.
- ProtocolChain.UnpackRecursive: exceptions are the result false, and the run stops where something outside the segment would be read; what the failing protocol itself holds is not stated.
- ProtocolFormats.UniversalRoundTrip: names without NUL; the time is eight bytes given from outside.
- Values of doubles: their conversion and printing (StrtodX, dtoa, under internal/) are not part of this model. A double is its literal; whether it overflows and how it is printed are parameters.
- The handler: any function of the events sent so far.
- IterativeParseNext, in-situ parsing, SIMD scanning, wide encodings: platform variants or repeats of the generic code.
- Schema constructor, $ref, patternProperties, dependencies, enum, uniqueItems, error reports: the model starts from a compiled schema.
- AddMember, EraseMember, operator== and the getters of GenericValue: they would add easy members only.
- Thread pool destruction, thread creation timeouts, jobs that throw; __shared_mutex_pthread and the lock wrappers; sockets, aliases, configuration, loggers, time: input, output or thin wrappers.
