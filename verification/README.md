# Verified models of evpp and its vendored libraries

This project models the parts of evpp whose correctness is hardest to see from the code, and
proves what they promise, in Dafny 4.11. `dafny verify dfyconfig.toml` checks everything.

- **JSON (rapidjson).** Two readers of one language, a recursive descent and a table-driven
  automaton with an explicit stack, are modelled as functions over text, position, handler and
  event log (`JsonRecursive`, `JsonIterative`) and as a class whose loops refine them
  (`JsonReader`). A handler is an arbitrary predicate on the event history. `JsonEquivalence`
  proves the readers equal as long as the automaton has its stack to itself; `JsonStack` gives it
  the bytes it really shares with the strings, and says when that makes no difference.
  `JsonGrammar` proves that the reader accepts exactly the readable values of RFC 4627, section 2, and
  delivers exactly their events, `JsonExact` says which texts of the whole grammar those are, and
  `JsonReceived` is what the 32-bit lengths leave of their strings.
  `JsonPrinter` and `JsonWriter` model the writers, `JsonPrinted` simulates the levels of a writer
  by the frames of the automaton, event by event, `JsonRoundTrip` draws the round trip from it, and
  `JsonLayout` writes the text of a value down by recursion.
  `JsonDocument`, `JsonRoot`, `JsonBuilding` and `JsonTree` treat the document that builds values
  on a stack and stores them in blocks of a pool. `Utf`, `Doubles`, `JsonNumber`, `JsonReal`,
  `JsonString` and `JsonLocality` are the tokens underneath, and `JsonFaults` is what the reader says
  of a text that breaks off between them.
- **Event loop.** `LoopProtocol` is the wake-up protocol as a transition system: every push,
  atomic access, swap, send and recv is a step, steps interleave as the lock allows, and there is
  any number of producers. `LoopWakeups` proves that no wake-up is lost, `LoopFunctors` follows the
  functors through it, `EventLoops` shows that the methods of the loop, run without interruption,
  are runs of the protocol, and `LoopLockFree` is the build with boost::lockfree::queue.
- **Buffer and TCP.** `Buffers` is the byte buffer as a class over an array, `TcpStream` the send
  path as a state machine over whole runs with the kernel free to accept any part of what it is
  offered, `TcpCallbacks` its callbacks, `TcpConns` the channel and connection classes that refine
  it on the real buffer, and `Framers` the memcached response framer on top of the buffer.
- **Hashing, searching, allocation.** `Md5`, `Jenkins`, `Memmem` and `Pool`.

Conventions. Text is a sequence of bytes and shows NUL beyond its end, so an embedded NUL ends it
too. `Option` and result datatypes carry the error paths; an assertion of the source is a
precondition. Where the source leaves its memory or the range of an int, the model stops: a reader
with the code `Undetermined`, the document with `None` or a false flag. Where a promised property
fails, the code is kept, a lemma or method shows a concrete case, and the exact condition is proved
unless the line says otherwise:

- a complete writer does not always make readable text: `JsonPrinted.CompleteIsNotEnough`, `JsonPrinted.PrintedParses`;
- a container with 2^32 entries leaves no single root: `JsonRoot.TooManyElements`, `JsonRoot.OneRoot`;
- a string of 2^32 - 1 bytes or more does not reach the handler whole: `JsonString.LongStringLost`, `JsonRoot.LongStringReadsEmpty`, `JsonString.HandedWhole`, `JsonRoundTrip.TextReads`;
- a value that needs more than 2^32 - 8 bytes at once is not stored: `JsonRoot.TooMuchMemory`, `JsonRoot.OneRoot`, `JsonDocument.AcceptStores`, `JsonRoundTrip.RoundTrip`;
- not every text of the grammar is accepted: `JsonString.LoneSurrogateRejected`, `JsonString.StringComplete`, `JsonExact.AcceptedIff`;
- a short number takes an int out of its range: `JsonNumber.TinyUndetermined`, `JsonNumber.FinishDetermined`;
- a string of 2^32 - 1 bytes or more inside a container makes the two readers differ: `JsonStack.BoxedMiscounted`; `JsonStack.SameEventsSameVerdict` gives a condition under which they agree, and not an exact one, since the bytes of the string may happen to read like the frame they cover;
- an integer beyond 64 bits that is a double can be read as another one: `JsonNumber.DoubleMisread`; `JsonNumber.DigitsSurvive` gives a necessary condition and a sufficient one;
- putting back what emptied the buffer: `Buffers.PutBackOther`, `Buffers.Buffer.NextThenUnread`;
- an update near 2^32 bytes never ends: `Md5.LongUpdateNeverEnds`, `Md5.LoopEndsIff`;
- requests near 2^32 bytes overlap: `Pool.SameAddressTwice`, `Pool.AlignCovers`.

Where the code and its documentation differ, the model follows the code: the reader accepts any
value as the root, where RFC 4627 asks for an object or an array, and any bytes from 0x20 up in a
string; it rejects an escaped high surrogate that stands alone, which RFC 4627 allows; in
`SendInLoop` an error that is neither retriable nor a broken connection is treated like a retriable
one; `Buffer::Shrink` replaces a custom reserved size by the default one; and the low bits that
`RAPIDJSON_ALIGN` keeps are those of a 32-bit mask.

## Model

| member | source | states |
|---|---|---|
| Utf.Decode8Exact | 3rdparty/rapidjson/encodings.h:124-150 | Decode accepts at a position exactly the byte sequences that are a UTF8-char of RFC 3629, section 4, and consumes exactly that sequence; both directions, for every text and position. |
| Utf.Validate8Agrees | 3rdparty/rapidjson/encodings.h:153-176 | Validate accepts what Decode accepts, moves as far, and copies the bytes unchanged. |
| Utf.Decode8Encode8 | 3rdparty/rapidjson/encodings.h:102-150 | Decoding the encoding of any Unicode scalar value, between any two texts, gives that value and ends right behind it. |
| Utf.Encode8Decode8 | 3rdparty/rapidjson/encodings.h:102-150 | Whatever Decode accepts is a scalar value whose encoding is the bytes that were read: no second spelling is accepted. |
| Utf.Encode8Bits | 3rdparty/rapidjson/encodings.h:102-122 | The bytes put for a scalar value have the prefixes and the bits of section 3 of RFC 3629. |
| Utf.Decode16Encode16 | 3rdparty/rapidjson/encodings.h:248-278 | The same for UTF-16, surrogate pairs included. |
| Utf.Encode16Decode16 | 3rdparty/rapidjson/encodings.h:248-278 | The converse for UTF-16. |
| Utf.Encode16Bits | 3rdparty/rapidjson/encodings.h:247-262 | A scalar value beyond 0xFFFF is put as the surrogate pair of section 2.1 of RFC 2781, any other as itself. |
| Utf.Decode16Bits | 3rdparty/rapidjson/encodings.h:248-278 | Decode takes a unit outside the surrogates for itself and a pair for the value of its twenty bits, and accepts nothing else. |
| Utf.To8To16 | 3rdparty/rapidjson/encodings.h:586-602 | Transcoding UTF-8 to UTF-16 and back is the identity on every text the first step accepts. |
| Utf.To16To8 | 3rdparty/rapidjson/encodings.h:586-602 | Transcoding UTF-16 to UTF-8 and back is the identity on every text the first step accepts. |
| Utf.To16AcceptsText8 | 3rdparty/rapidjson/encodings.h:586-602 | The UTF-8 text of any sequence of scalar values is accepted. |
| Utf.To16AcceptsOnlyText8 | 3rdparty/rapidjson/encodings.h:586-602 | Nothing else is accepted. |
| Bytes.SkipSpace | 3rdparty/rapidjson/reader.h:247-253 | The result is the first position at or after the start that holds no white space, and all positions before it hold white space. |
| Bytes.ByteClasses | 3rdparty/rapidjson/reader.h:247-253 | White space is space, tab, line feed and carriage return, and digits are 0 to 9, by their characters. |
| JsonNumber.ScanIntExact | 3rdparty/rapidjson/reader.h:796-818 | Each accumulating loop ends with the exact value of the digits it took, never above its maximum, and stops early only at a digit that would take it above. |
| Doubles.RoundIsNearest | 3rdparty/rapidjson/reader.h:851-858 | The rounding of each double operation of the digit loops: no double is nearer to the exact result. |
| Doubles.RoundIsDouble | 3rdparty/rapidjson/reader.h:851-858 | What rounding gives has at most 53 significant bits. |
| Doubles.TiesToEven | 3rdparty/rapidjson/reader.h:851-858 | Half-way between two doubles the even one is taken. |
| JsonNumber.ScanBigExact | 3rdparty/rapidjson/reader.h:851-858 | The loop beyond 64 bits appends every digit, rounding after each operation, unless the double without the last digit has reached a tenth of the largest one: exactly then the number is too big. |
| JsonNumber.ParseIntExact | 3rdparty/rapidjson/reader.h:783-858 | Widening from 32 to 64 bits loses no digit; beyond 64 bits the held double is the part that fits, rounded, with the other digits appended, or the number is too big, under the exact condition. |
| JsonNumber.IntegerExact | 3rdparty/rapidjson/reader.h:783-858 | For every integer text the event is the narrowest of Int or Uint, Int64 or Uint64 with exactly that value; beyond 64 bits it carries the double that rounding digit by digit gives, except that exactly the numbers whose double without the last digit reaches a tenth of the largest one are too big. |
| JsonNumber.DigitsSurvive | 3rdparty/rapidjson/reader.h:851-858 | Beyond 64 bits, the double that comes out is the value of the digits only if that value is a double, and it is if every partial value beyond 64 bits, and ten times it where a digit follows, is a double. |
| JsonNumber.DoubleMisread | 3rdparty/rapidjson/reader.h:851-858 | A double whose digits are read as another one: any text of 60391400817472610304 comes out 8192 higher. |
| JsonReal.ThresholdIs | 3rdparty/rapidjson/reader.h:851-858 | The bound of the loop beyond 64 bits is a double, and none is nearer to 1.7976931348623157e307. |
| JsonNumber.NumberGrammar | 3rdparty/rapidjson/reader.h:772-983 | ParseNumber accepts a number of RFC 4627, section 2.4, and consumes its sign, digits, fraction and exponent; a point or an exponent letter that follows the digits must start a complete fraction or exponent. It rejects such a number only as too big, or where the exponent arithmetic leaves the range of an int. |
| JsonNumber.FinishDetermined | 3rdparty/rapidjson/reader.h:911-960 | With fewer than two hundred million fraction digits, the exponent arithmetic leaves the range of an int if and only if the sum of the exponent read and the fraction count does, below. |
| JsonNumber.TinyUndetermined | 3rdparty/rapidjson/reader.h:911-960 | A number of 24 bytes for which it does: 0.0000000001e-2147483639. |
| JsonNumber.NumberBytes | 3rdparty/rapidjson/reader.h:772-983 | Signs, point and exponent letters by their characters. |
| JsonReal.ExponentExact | 3rdparty/rapidjson/reader.h:911-951 | A positive exponent is read as its number up to 308 plus the fraction digits collected and is an error beyond; a negative one as its number while its digits but the last stay below 214748364, and as at most minus that otherwise. |
| JsonReal.DecimalExact | 3rdparty/rapidjson/reader.h:861-983 | A number with k fraction digits and no exponent, whose digits taken together make V up to 2^53 - 1, is delivered as its sign, V and minus k. |
| JsonReal.ScientificExact | 3rdparty/rapidjson/reader.h:861-983 | With an exponent E it is delivered as its sign, V and E - k, for every E in range; a positive E out of range is an error. |
| JsonReal.IntScientificExact | 3rdparty/rapidjson/reader.h:783-983 | An integer with an exponent is delivered as its sign, what the reader holds of the integer, exact up to 2^53 - 1, and the exponent. |
| JsonReal.LongDecimal | 3rdparty/rapidjson/reader.h:861-905 | With more digits: which fraction digits are collected exactly, how many more are appended in doubles, namely until seventeen count, and what they make. |
| JsonReal.CountedIs | 3rdparty/rapidjson/reader.h:868-905 | The fraction digits that count are all of them if the integer part is not zero, and otherwise those from the first that is not zero. |
| JsonReal.BigDecimal | 3rdparty/rapidjson/reader.h:861-905 | Behind an integer beyond 64 bits the fraction is read and dropped. |
| JsonReal.NumberFaults | 3rdparty/rapidjson/reader.h:772-983 | No digit, a point without digits and an exponent letter without digits are rejected with a code of their own each. |
| JsonLocality.NumberMoves | 3rdparty/rapidjson/reader.h:772-983 | A number is read the same wherever its text stands, provided the byte behind it does not continue it. |
| JsonString.StringRoundTrip | 3rdparty/rapidjson/writer.h:244-310 | Whatever surrounds it, the written form of any byte string, NUL and invalid UTF-8 included, is decoded byte for byte and ends at its closing quote. |
| JsonString.HandedWhole | 3rdparty/rapidjson/reader.h:612-661 | With the 32-bit length of the stack stream, a decoded string reaches the handler whole if and only if it has fewer than 2^32 - 1 bytes, and exactly then leaves nothing on the stack; it is given no byte of the string, but memory beyond the stack, if and only if one more than the length is a multiple of 2^32; otherwise its end, as long as the wrapped length says. |
| JsonString.LongStringLost | 3rdparty/rapidjson/reader.h:612-661 | Of any string of 2^32 bytes the handler is given none, and all of them stay on the stack. |
| JsonString.HexValueIff | 3rdparty/rapidjson/reader.h:592-610 | A byte is read as the n-th hexadecimal digit if and only if it is the n-th of 0123456789abcdef or of 0123456789ABCDEF. |
| JsonString.FourDigits | 3rdparty/rapidjson/reader.h:592-610 | Four digits, in any mixture of cases, are read as their number to base 16. |
| JsonString.EscapesAgree | 3rdparty/rapidjson/reader.h:668-679 | The letters that the reader knows behind a backslash, and what they denote, are the eight of RFC 4627, section 2.5. |
| JsonString.PairIsUtf16 | 3rdparty/rapidjson/reader.h:693-701 | An escaped surrogate pair denotes the scalar value of which it is the UTF-16 form, put in UTF-8. |
| JsonString.EscapeByteIs | 3rdparty/rapidjson/writer.h:245-296 | The writer puts the letters of that table, except for the slash, upper-case digits for the other control characters, and every other byte as it is. |
| JsonString.StringComplete | 3rdparty/rapidjson/reader.h:666-724 | A string of RFC 4627, section 2.5, with any four hexadecimal digits in an escape, is accepted if and only if every escaped high surrogate is directly followed by an escaped low one; it is then read as the bytes it denotes, by the digit and letter tables, and otherwise fails with the surrogate code. |
| JsonString.LoneSurrogateRejected | 3rdparty/rapidjson/reader.h:690-699 | A string of that grammar that is rejected: one escaped high surrogate and nothing else. |
| JsonString.StringSound | 3rdparty/rapidjson/reader.h:666-724 | Every accepted string is a string of that grammar, its surrogates paired, and denotes the bytes decoded. |
| JsonString.StringFaults | 3rdparty/rapidjson/reader.h:666-724 | After any characters of the grammar, an end of the text, a control character, an unknown letter behind a backslash and missing hexadecimal digits fail with their codes. |
| JsonIterative.StepCoherent | 3rdparty/rapidjson/reader.h:1241-1380 | Every turn of the table-driven loop keeps the frame stack coherent with the state and consumes input, so the loop ends. |
| JsonEquivalence.ValueTracks | 3rdparty/rapidjson/reader.h:1241-1380 | Wherever a value is expected, the automaton, on a stack of frames of its own, goes on exactly as if the recursive ParseValue had returned: same events, same position, same frames, or the same failure. |
| JsonEquivalence.TableAgrees | 3rdparty/rapidjson/reader.h:1402-1432 | For every text and every handler, that automaton and the recursive Parse deliver the same events with the same counts and agree on success and end position; failure codes differ only where a value is missing. |
| JsonStack.RunFollows | 3rdparty/rapidjson/reader.h:1402-1432 | On the stack of bytes that frames and strings really share, the iterative loop does what the automaton does, from any configuration, as long as no string leaves bytes above a frame and no token is met with which the source leaves its memory or the range of an int. |
| JsonStack.SameEventsSameVerdict | 3rdparty/rapidjson/reader.h:1402-1432 | For every text and every handler, IterativeParse on its byte stack and the recursive Parse deliver the same events with the same counts, agree on success and end position, and fail with the same code except where a value is missing, unless a string leaves bytes above a frame or what the source does with a token is undetermined. In a text without a string of 2^32 - 1 bytes or more, as in any of fewer than 2^32 bytes, that is so if and only if the recursive reader itself comes to a number whose exponent arithmetic leaves the range of an int. |
| JsonStack.FrameIs | 3rdparty/rapidjson/reader.h:1248-1262 | A frame in memory is the state to come back to and the count above it, lowest byte first. |
| JsonStack.BoxedCounted | 3rdparty/rapidjson/reader.h:517-548 | An array holding any string of 2^32 bytes: the recursive reader counts one element. |
| JsonStack.BoxedMiscounted | 3rdparty/rapidjson/reader.h:1355-1380 | On the same text the iterative reader takes the last four bytes of the string for the count, so the readers agree there if and only if those bytes are zero. |
| JsonHandlers.HandlerOnlyCuts | 3rdparty/rapidjson/reader.h:393-549 | Whatever the handler, Parse delivers the events that an always-accepting handler would get, up to and including the first one refused, and then reports Termination. |
| JsonGrammar.DocumentComplete | 3rdparty/rapidjson/reader.h:393-549 | Every value of RFC 4627, section 2, with any white space, is accepted, its escaped surrogates paired, its numbers in range and the lengths of its strings not 2^32 - 1 modulo 2^32; the events are exactly those of its syntax tree, in order, with 32-bit counts and strings as handed over. |
| JsonGrammar.DocumentSound | 3rdparty/rapidjson/reader.h:393-549 | Every accepted text is a value of that grammar, and the events delivered are those of the syntax tree found. |
| JsonExact.NumberEndMoves | 3rdparty/rapidjson/reader.h:772-983 | A number of the grammar ends at the same byte wherever it stands, whether or not it is in range. |
| JsonExact.AcceptedIff | 3rdparty/rapidjson/reader.h:393-549 | A text of the whole grammar, with any escapes and numbers of any size, is accepted if and only if every escaped high surrogate is directly followed by an escaped low one, every number is in range and no string has a length of 2^32 - 1 modulo 2^32; every other one fails with the code for one of these. |
| JsonFaults.DocumentFaults | 3rdparty/rapidjson/reader.h:393-422 | A blank text, and a text with something behind its value, are rejected with their codes. |
| JsonFaults.ArrayFaults | 3rdparty/rapidjson/reader.h:517-548 | Behind an element, anything but a comma or a bracket is rejected with its code. |
| JsonFaults.NameFaults | 3rdparty/rapidjson/reader.h:467-513 | Anything but a string in the place of a name, and anything but a colon behind a name, is rejected with its code. |
| JsonFaults.MemberFaults | 3rdparty/rapidjson/reader.h:467-513 | Behind a member, anything but a comma or a brace is rejected with its code. |
| JsonReader.Reader.SkipWhitespace | 3rdparty/rapidjson/reader.h:247-253 | The loop stops where the specification says. |
| JsonReader.Reader.ParseWord | 3rdparty/rapidjson/reader.h:552-588 | The letter-by-letter comparison accepts exactly the word and hands over its event. |
| JsonReader.Reader.ParseHex4 | 3rdparty/rapidjson/reader.h:592-610 | The four-turn loop computes the value of four hexadecimal digits or sets the error, at the first character that is none. |
| JsonReader.Reader.ParseUnicode | 3rdparty/rapidjson/reader.h:690-704 | Surrogate pairs are joined and encoded; every malformed pair gives its own error. |
| JsonReader.Reader.ParseStringToStream | 3rdparty/rapidjson/reader.h:666-724 | The decoding loop puts exactly the bytes the specification gives, and a terminator, on the stack and counts them in 32 bits, or sets the same error. |
| JsonReader.Reader.PopString | 3rdparty/rapidjson/reader.h:655-656 | Popping as many bytes as the 32-bit length says, where that is not zero, gives the handler what the specification says and leaves the specified rest on the stack. |
| JsonReader.Reader.ParseString | 3rdparty/rapidjson/reader.h:637-661 | What the 32-bit length leaves of the decoded string is handed over as a key or a string; where the length wraps to zero the model stops; a refusal sets Termination; the bytes left on the stack are the specified ones. |
| JsonReader.Reader.ScanInt | 3rdparty/rapidjson/reader.h:796-818 | The loop refines the exact integer scan. |
| JsonReader.Reader.ScanBig | 3rdparty/rapidjson/reader.h:851-858 | The loop for integers beyond 64 bits refines its specification, NumberTooBig included. |
| JsonReader.Reader.ParseInt | 3rdparty/rapidjson/reader.h:783-858 | The three stages together refine the specification of the integer part. |
| JsonReader.Reader.ParseFrac | 3rdparty/rapidjson/reader.h:863-905 | The two fraction loops refine their specification, the int that counts the digits included. |
| JsonReader.Reader.ParseExp | 3rdparty/rapidjson/reader.h:911-951 | The exponent loops refine their specification: a huge negative exponent is consumed, a huge positive one is too big, and the model stops where an int leaves its range. |
| JsonReader.Reader.ParseNumber | 3rdparty/rapidjson/reader.h:772-983 | The method delivers the event of the specification or sets its error. |
| JsonReader.Reader.ParseValue | 3rdparty/rapidjson/reader.h:987-997 | The recursive descent method ends in the state the specification gives. |
| JsonReader.Reader.ParseObject | 3rdparty/rapidjson/reader.h:467-513 | The member loop, with its 32-bit count, ends in the state the specification gives. |
| JsonReader.Reader.ParseArray | 3rdparty/rapidjson/reader.h:517-548 | The element loop, with its 32-bit count, ends in the state the specification gives. |
| JsonReader.Reader.Parse | 3rdparty/rapidjson/reader.h:393-422 | A whole recursive parse refines the specification. |
| JsonReader.Reader.Transit | 3rdparty/rapidjson/reader.h:1241-1380 | One turn of the loop on the byte stack, with frames pushed and popped as words, refines the specified turn. |
| JsonReader.Reader.IterativeParse | 3rdparty/rapidjson/reader.h:1402-1432 | The loop on the shared byte stack refines the specified run and ends; the model stops where a popped word names no state. |
| JsonDocument.ConstructorsAgree | 3rdparty/rapidjson/document.h:500-538 | Whichever of the four integer constructors makes a number, flags and payload are those that belong to its value. |
| JsonDocument.NumberRebuilds | 3rdparty/rapidjson/document.h:1518-1523 | The number event that Accept chooses by the flags rebuilds the number, flags and payload alike. |
| JsonDocument.AcceptBuilds | 3rdparty/rapidjson/document.h:1487-1524 | Feeding a value to the stack of the document by its own traversal pushes that value, at any nesting depth and on any stack, memory of the pool aside. |
| JsonDocument.FitsIff | 3rdparty/rapidjson/document.h:1634-1680 | What an event makes the document copy, 24 bytes for an element, 48 for a member, a string of more than 15 bytes and its terminator, stays inside the block of the pool if and only if it has at most 2^32 - 8 bytes. |
| JsonDocument.LargestStored | 3rdparty/rapidjson/document.h:1634-1680 | The document can store arrays of up to 178,956,970 elements, objects of up to 89,478,485 members and strings of up to 4,294,967,287 bytes; strings of up to 15 bytes take no memory of the pool. |
| JsonDocument.AcceptStores | 3rdparty/rapidjson/document.h:1487-1524 | With the pool: the traversal of a value pushes it, at any depth and on any stack, if and only if no array, object or string in it needs more than 2^32 - 8 bytes; otherwise what the document holds is undetermined. |
| JsonRoot.NodeLeaves | 3rdparty/rapidjson/document.h:1920-1952 | The events of any syntax tree leave the stack below alone and add a number of values that is one exactly when no container has 2^32 entries or more. |
| JsonReceived.ReceivedWhole | 3rdparty/rapidjson/reader.h:637-661 | A value comes out of the reader unchanged if and only if each of its strings and names has fewer than 2^32 - 1 bytes. |
| JsonRoot.NodeFits | 3rdparty/rapidjson/document.h:1634-1680 | The events of any syntax tree without a container of 2^32 entries ask the pool for blocks that cover what is copied if and only if the value received can be stored: no array, object or string in it needs more than 2^32 - 8 bytes. |
| JsonRoot.OneRoot | 3rdparty/rapidjson/document.h:1795-1805 | After any accepted text whose events ask the pool for no more than 2^32 - 8 bytes at once, no builder call has failed; exactly one value is left if and only if no container of the text has 2^32 entries or more; then it is the value the text denotes with every string as handed over, and that is the value itself if and only if every string has fewer than 2^32 - 1 bytes. Every text of fewer than 357,913,943 bytes meets all these conditions. |
| JsonRoot.TooMuchMemory | 3rdparty/rapidjson/document.h:1634-1644 | A concrete accepted text of exactly 357,913,943 bytes, an array of 178,956,971 digits, after which 2^32 + 8 bytes were copied into a block of eight. |
| JsonRoot.LongStringReadsEmpty | 3rdparty/rapidjson/document.h:1795-1805 | The text of any string of 2^32 bytes is accepted and makes a document that is the empty string. |
| JsonRoot.TooManyElements | 3rdparty/rapidjson/document.h:1801-1803 | A concrete accepted text, an array of 2^32 elements, that asks for no memory and after which the assertion of ParseStream does not hold. |
| JsonBuilding.BuilderNeverFails | 3rdparty/rapidjson/document.h:1940-1952 | On every text, accepted or not, the reader never makes the document pop more than its stack holds or take a number its constructors do not; memory of the pool aside. |
| JsonTree.Document.Handle | 3rdparty/rapidjson/document.h:1920-1952 | Each handler method takes one block of the specified size from the pool, or none; it reports whether what it copies stays inside, and if so changes the stack as the builder specification says. |
| JsonTree.Document.Accept | 3rdparty/rapidjson/document.h:1487-1524 | The recursive traversal with the document as handler pushes a copy of the value and leaves the stack below alone, if and only if the pool can store the value. |
| JsonTree.Document.CopyOf | 3rdparty/rapidjson/document.h:1987-2009 | The deep copy equals its source if and only if the pool can store it. |
| JsonTree.Document.ParseStream | 3rdparty/rapidjson/document.h:1795-1805 | While every copy stays inside its block: the stack is empty again; a failed parse leaves a null root; after a successful one the assertion holds exactly when one value was left, and that value is the root. |
| JsonTree.WriteThenRead | 3rdparty/rapidjson/document.h:1795-1805 | A value written by a Writer and read back into a Document, through the classes themselves and a pool, is the same value if and only if the pool can store it. |
| JsonPrinted.PrintedRuns | 3rdparty/rapidjson/writer.h:317-335 | At any point of any event sequence the reader, run on what the writer put so far, stands in the configuration that the writer levels describe. |
| JsonPrinted.PrintedParses | 3rdparty/rapidjson/writer.h:108-168 | For every event sequence the writer takes, in either style: the readers accept the text if and only if the writer says it is complete, no object was closed after a name and no string has a length of 2^32 - 1 modulo 2^32; then they deliver the events again, with names and counts as they really were and strings as handed over. The iterative reader does so if no string leaves bytes above a frame, as in any text of fewer than 2^32 bytes. |
| JsonPrinted.PrettyReadsAlike | 3rdparty/rapidjson/prettywriter.h:65-133 | For every event sequence and every legal indentation, PrettyWriter text and Writer text give the same events and the same verdict, accepted or not. |
| JsonPrinted.CompleteIsNotEnough | 3rdparty/rapidjson/writer.h:99-101 | IsComplete alone does not make the text readable: a concrete event sequence after which it holds and no reader accepts the text. |
| JsonLayout.ValueLaid | 3rdparty/rapidjson/prettywriter.h:65-190 | Wherever a value may stand, the writer puts the separator of the place and the layout of the value at the depth of the levels. |
| JsonLayout.TextIsLayout | 3rdparty/rapidjson/prettywriter.h:65-190 | For every value without floating-point numbers: the text of Writer and of PrettyWriter is, byte for byte, the layout defined by recursion on the value, with its commas, colons, line breaks and indentation. |
| JsonRoundTrip.ValueFaithful | 3rdparty/rapidjson/writer.h:108-168 | The traversal of any value without floating-point numbers is taken by the writer wherever a value may stand, and reads back as itself up to the kind of integers and what is handed over of strings. |
| JsonRoundTrip.RenumberedBuilds | 3rdparty/rapidjson/document.h:1920-1952 | A document cannot tell the kinds of integer events apart. |
| JsonRoundTrip.TextReads | 3rdparty/rapidjson/writer.h:108-168 | For every value without floating-point numbers, any bytes in its strings, either writer: the text is accepted to its end, with the events of the value, integers by value, if and only if its strings have fewer than 2^32 - 1 bytes; otherwise what the reader does is undetermined. |
| JsonRoundTrip.RoundTrip | 3rdparty/rapidjson/writer.h:108-168 | For the same values: the text is accepted and the document built from its events is the value, if and only if the pool of the document can store the value, as it can if the text has fewer than 357,913,943 bytes; otherwise a string is too long for the reader or a copy leaves its block. |
| JsonRoundTrip.TextDetermines | 3rdparty/rapidjson/writer.h:108-168 | Two values with the same text are equal, if their strings have fewer than 2^32 - 1 bytes. |
| JsonWriter.Writer.Prefix | 3rdparty/rapidjson/writer.h:317-335 | Puts the separator that belongs to the position and counts the value; its assertions are its precondition. |
| JsonWriter.Writer.WriteString | 3rdparty/rapidjson/writer.h:244-310 | The escaping loop puts exactly the quoted form. |
| JsonWriter.Writer.Handle | 3rdparty/rapidjson/writer.h:108-168 | Each handler method puts what the specification gives for the event and moves the levels accordingly. |
| JsonWriter.Writer.HandleAll | 3rdparty/rapidjson/writer.h:108-168 | A whole run of events puts the specified text and reaches the specified levels. |
| JsonWriter.Writer.IsComplete | 3rdparty/rapidjson/writer.h:99-101 | True exactly when a root was started and no level is open. |
| JsonWriter.PrettyWriter.SetIndent | 3rdparty/rapidjson/prettywriter.h:53-58 | Sets an indentation that is legal white space. |
| JsonWriter.PrettyWriter.WriteIndent | 3rdparty/rapidjson/prettywriter.h:187-190 | The loop puts depth times width copies of the indentation character. |
| JsonWriter.PrettyWriter.PrettyPrefix | 3rdparty/rapidjson/prettywriter.h:146-185 | Separator, line break and indentation of every branch are those of the specification. |
| JsonWriter.PrettyWriter.Handle | 3rdparty/rapidjson/prettywriter.h:65-133 | Each handler method puts what the specification gives in the indented style. |
| JsonWriter.PrettyWriter.HandleAll | 3rdparty/rapidjson/prettywriter.h:65-133 | A whole run of events puts the specified indented text and reaches the specified levels. |
| LoopWakeups.WakeKept | evpp/event_loop.cc:221-264 | Every single step of any thread keeps: a raised flag means a byte in the pipe, a loop about to lower it, or a producer about to send; queued work means one of these, a loop that has lowered the flag and not yet swapped the queue, or a producer on its way to the send. |
| LoopWakeups.NoLostWakeup | evpp/event_loop.cc:221-264 | The same in every state that any interleaving of any number of producers reaches. |
| LoopWakeups.IdleLoopWakes | evpp/event_watcher.cc:152-181 | From the start, an idle loop with idle producers and pending work always has a readable pipe. |
| LoopFunctors.ConservedKept | evpp/event_loop.cc:319-332 | Every step, nested drains included, keeps the multiset of finished, batched and queued functors equal to what was pushed. |
| LoopFunctors.ExactlyOne | evpp/event_loop.cc:319-332 | So every pushed functor is in exactly one place, once. |
| LoopFunctors.CountKept | evpp/event_loop.cc:221-237 | pending_functor_count_ equals queued plus unfinished batch items minus the producers between push and increment, after every step. |
| LoopFunctors.FunctorsConserved | evpp/event_loop.cc:119-131 | Over every run: conservation, the exact counter and, without nested drains, push order. |
| LoopFunctors.FinishedInPushOrder | evpp/event_loop.cc:319-332 | Without Stop, the finished functors are at any time a prefix of those pushed. |
| LoopFunctors.LoopRests | evpp/event_loop.cc:300-332 | The loop on its own uses up a measure with every step, so it comes to rest. |
| LoopFunctors.LoopFinishes | evpp/event_loop.cc:300-332 | From any state without lost wake-ups and with idle producers, the loop on its own reaches an empty queue, no batch and an empty pipe. |
| LoopFunctors.AllDoneAtRest | evpp/event_loop.cc:300-332 | When it rests with idle producers, everything ever pushed has run, in push order without Stop, and the counter is zero. |
| LoopFunctors.StoreMustComeFirst | evpp/event_loop.cc:243-249 | With flag and byte in the other order, as the comment there warns, a run exists after which work is queued, all threads are idle and the pipe is empty. |
| EventLoops.EventLoop.QueueInLoop | evpp/event_loop.cc:221-264 | A call of QueueInLoop that nobody interrupts is exactly the run push, increment, load and, if the flag was down, store and send. |
| EventLoops.EventLoop.Notify | evpp/event_loop.cc:240-256 | The flag is stored first, then the byte is sent; a full pipe stays as it is. |
| EventLoops.EventLoop.DoPendingFunctors | evpp/event_loop.cc:319-332 | The drain is exactly the run that lowers the flag, swaps the queue, runs every functor queued, in order, and returns; the counter falls by as many. |
| EventLoops.EventLoop.HandlerFn | evpp/event_watcher.cc:152-169 | Reading the pipe and draining the queue is exactly the run of the protocol for it. |
| LoopLockFree.LockFreeSafe | evpp/event_loop.cc:303-310 | In the build with boost::lockfree::queue, which pops until empty: no lost wake-up, functors started in push order even with nested drains, exact counter, over every run. |
| LoopLockFree.LockFreeWakes | evpp/event_loop.cc:303-310 | From the start, in that build: an idle loop with idle producers and pending work has a readable pipe. |
| Buffers.IntRoundTrip | evpp/buffer.h:144-181 | Every signed integer of n bytes survives being appended in network order and peeked. |
| Buffers.BytesRoundTrip | evpp/buffer.h:308-333 | Every string of n bytes is the network form of the integer peeked from it. |
| Buffers.SwapReverses | evpp/buffer.h:112-120 | The swap macro reverses the eight bytes of a word. |
| Buffers.SwapIsNetworkOrder | evpp/buffer.h:112-120 | In little-endian memory a swapped word is the unsigned number of the word, as the machine has it, in network order. |
| Buffers.WordNumber | evpp/buffer.h:144-147 | The machine word of a signed 64-bit number is the unsigned number of its two's complement. |
| Buffers.StoreSwapped | evpp/buffer.h:144-147 | The memory of the swapped machine word of any signed 64-bit number is its network form. |
| Buffers.LoadSwapped | evpp/buffer.h:308-313 | Eight bytes loaded as a word and swapped are the signed number whose network form they are. |
| Buffers.Buffer.constructor | evpp/buffer.h:22-31 | Empty, with the room behind and in front that was asked for. |
| Buffers.Buffer.Skip | evpp/buffer.h:48-60 | Drops that many bytes from the front, or all. |
| Buffers.Buffer.Truncate | evpp/buffer.h:65-72 | Keeps that many bytes at the front, or all. |
| Buffers.Buffer.Reset | evpp/buffer.h:77-79 | Empties the buffer and restores the room in front. |
| Buffers.Buffer.Grow | evpp/buffer.h:420-442 | Contents unchanged, room for len more bytes, reserved room in front; both assertions of the compacting branch hold from both callers, and when the capacity itself is too small the array always grows to twice the capacity plus len. |
| Buffers.Buffer.Reserve | evpp/buffer.h:86-93 | Contents unchanged and enough capacity; nothing at all changes when it was there before. |
| Buffers.Buffer.EnsureWritableBytes | evpp/buffer.h:96-102 | Contents unchanged and room for len more bytes. |
| Buffers.Buffer.Write | evpp/buffer.h:124-129 | Contents followed by the new bytes, whatever is moved or allocated; where the room suffices, nothing in front of them changes. |
| Buffers.Buffer.Prepend | evpp/buffer.h:184-189 | The new bytes followed by the contents. |
| Buffers.Buffer.UnwriteBytes | evpp/buffer.h:191-194 | Drops bytes at the end. |
| Buffers.Buffer.WriteBytes | evpp/buffer.h:196-199 | Takes over bytes already stored behind the contents. |
| Buffers.Buffer.Next | evpp/buffer.h:257-265 | Returned bytes followed by the remaining contents are the old contents. |
| Buffers.Buffer.NextAll | evpp/buffer.h:269-273 | Returns the contents and empties the buffer. |
| Buffers.Buffer.ReadByte | evpp/buffer.h:287-295 | Returns the first byte, which stays in front of the read index. |
| Buffers.Buffer.UnreadBytes | evpp/buffer.h:299-302 | Puts the bytes in front of the read index back before the contents. |
| Buffers.Buffer.ReadUnread | evpp/buffer.h:287-302 | A byte just read and put back leaves the contents as they were. |
| Buffers.Buffer.NextThenUnread | evpp/buffer.h:257-302 | For every length and buffer: whether the assertion of UnreadBytes holds after the read, and if it does, that the contents are restored if and only if the read left something or the bytes of the reserved room equal the contents. |
| Buffers.PutBackOther | evpp/buffer.h:257-302 | A case in which other bytes come back: a one is written and read, and a zero is put back. |
| Buffers.Buffer.AppendInt64 | evpp/buffer.h:144-147 | The swapped word appended from memory is the network form of the number. |
| Buffers.Buffer.PrependInt64 | evpp/buffer.h:164-167 | The same in front of the contents. |
| Buffers.Buffer.PeekInt64 | evpp/buffer.h:308-313 | The loaded and swapped word is the number whose network form the contents start with. |
| Buffers.Buffer.ReadInt64 | evpp/buffer.h:211-215 | The same, and drops it. |
| Buffers.Buffer.AppendInt | evpp/buffer.h:149-161 | Appends the network form of an integer of the size given. |
| Buffers.Buffer.PrependInt | evpp/buffer.h:169-181 | Prepends the network form of the integer. |
| Buffers.Buffer.PeekInt | evpp/buffer.h:315-333 | The integer whose network form the contents start with. |
| Buffers.Buffer.ReadInt | evpp/buffer.h:217-233 | The same, and drops it. |
| Buffers.Buffer.ToText | evpp/buffer.h:106-109 | A NUL lies behind unchanged contents. |
| Buffers.Buffer.Swap | evpp/buffer.h:39-45 | Exchanges everything. |
| Buffers.Buffer.Shrink | evpp/buffer.h:243-247 | Contents unchanged in a new array with exactly the given room behind; the reserved room in front becomes the default. |
| Buffers.Buffer.ReadFromFD | evpp/buffer.cc:22-47 | Whatever one readv delivers into the two segments is appended in order; an error changes nothing. |
| Buffers.Buffer.Perform | evpp/buffer.h:48-302 | One append, prepend, arrival, skip, truncation, unwrite, reserve, shrink or read changes the contents as on a plain byte sequence; a prepend is refused exactly when it does not fit the room in front, an unwrite exactly when it exceeds the contents, an arrival exactly when one readv cannot deliver it. |
| Buffers.Buffer.PerformAll | evpp/buffer.h:48-302 | Any sequence of appends, prepends, arrivals, skips, truncations, unwrites, reads, reserves and shrinks: the contents are what the performed ones make of a plain byte sequence, and only prepends, unwrites and arrivals are ever refused. |
| TcpStream.SendKeeps | evpp/tcp_conn.cc:156-210 | One SendInLoop, with any answer of the kernel, keeps the invariant of the connection. |
| TcpStream.WriteKeeps | evpp/tcp_conn.cc:251-275 | One HandleWrite, with any answer of the kernel, keeps it. |
| TcpStream.RunKeeps | evpp/tcp_conn.cc:156-210 | Every run keeps it, and what was accepted is the concatenation of the messages. |
| TcpStream.StreamConserved | evpp/tcp_conn.cc:156-210 | Over every run of a new connection: while open, the wire followed by the output buffer is the messages in order, write interest is on exactly when the buffer is non-empty, and the channel is attached exactly when its interest set is non-empty; after any close the wire is a prefix of the messages. |
| TcpStream.EndsIff | evpp/tcp_conn.cc:156-275 | One step ends an open connection if and only if it is a close, a write of the backlog that fails with an error that is not retriable, or a send of a message at once that fails with a broken connection. |
| TcpStream.RunEndsIff | evpp/tcp_conn.cc:156-275 | So a run leaves it open if and only if none of its steps is one of these. |
| TcpStream.StaysOpen | evpp/tcp_conn.cc:156-275 | After Attach, with partial writes and retriable errors only, it is open at the end and the wire followed by the output buffer is the messages. |
| TcpStream.Interested | evpp/tcp_conn.cc:220-228 | While it is open, the loop is told to read from it unless the peer has shut down its side, and it is connected unless a close has begun. |
| TcpStream.AttachReads | evpp/tcp_conn.cc:334-342 | Attaching tells the loop to read. |
| TcpCallbacks.CompleteMeansCaughtUp | evpp/tcp_conn.cc:171-175 | Write-complete is queued exactly when a step drains the buffer or sends a message whole at once, and then the wire holds everything accepted. |
| TcpCallbacks.HighMeansCrossing | evpp/tcp_conn.cc:196-202 | High-water is queued exactly when the backlog reaches the mark from below, and carries the length of the backlog. |
| TcpCallbacks.BacklogFellBetween | evpp/tcp_conn.cc:196-209 | Between two high-water firings there is a write event at which the backlog fell below the mark. |
| TcpConns.FdChannel.Update | evpp/fd_channel.cc:124-132 | Registered with the loop exactly when the interest set is non-empty. |
| TcpConns.FdChannel.Enable | evpp/fd_channel.cc:68-84 | The interest is added and the registration follows. |
| TcpConns.FdChannel.Disable | evpp/fd_channel.cc:86-101 | The interest is removed and the registration follows. |
| TcpConns.FdChannel.DisableAllEvent | evpp/fd_channel.cc:103-110 | No interest and no registration. |
| TcpConns.TcpConn.constructor | evpp/tcp_conn.cc:12-33 | A new connection is the initial state of the run-wide model. |
| TcpConns.TcpConn.OnAttachedToLoop | evpp/tcp_conn.cc:334-341 | Refines the attach step. |
| TcpConns.TcpConn.SendInLoop | evpp/tcp_conn.cc:156-210 | On the real buffer and channel: refines the send step, fatal and retriable errors included. |
| TcpConns.TcpConn.HandleWrite | evpp/tcp_conn.cc:251-275 | Refines the write step. |
| TcpConns.TcpConn.HalfClose | evpp/tcp_conn.cc:224-228 | Refines the step by which reading stops. |
| TcpConns.TcpConn.HandleError | evpp/tcp_conn.cc:328-332 | Closes the connection whatever its status. |
| TcpConns.TcpConn.HandleClose | evpp/tcp_conn.cc:286-326 | Refines the close step; does nothing when closed already. |
| Framers.FramesExact | apps/evmc/binary_codec.cc:9-26 | The packets dispatched and the bytes left are the stream, every packet is whole, and what is left is not. |
| Framers.FramesUnique | apps/evmc/binary_codec.cc:9-26 | There is only one way to cut a stream like that. |
| Framers.FramesResume | apps/evmc/binary_codec.cc:9-26 | Framing a prefix and then the rest together with what was left is framing the whole. |
| Framers.SplitIndependent | apps/evmc/binary_codec.cc:9-26 | However the stream is cut into reads, packets and rest are those of one single read. |
| Framers.OnePacket | apps/evmc/binary_codec.cc:7-26 | A packet of the protocol, its header given by the nine fields with their widths and a body of the length it says, is cut out as one packet with nothing left; any proper part of it is left as it is. |
| Framers.PacketsCut | apps/evmc/binary_codec.cc:7-26 | Any such packets one after the other and a part of another one: exactly these packets are cut out and exactly the part is left. |
| Framers.WholeIsPacket | apps/evmc/binary_codec.cc:7-26 | Whatever is cut out is such a packet. |
| Framers.Codec.OnResponsePacket | apps/evmc/binary_codec.cc:79-164 | Whatever becomes of a packet, exactly the packet is consumed. |
| Framers.Codec.OnCodecMessage | apps/evmc/binary_codec.cc:9-26 | The loop on the buffer dispatches the packets of the contents, leaves the rest, and ends. |
| Framers.Codec.OnMessages | apps/evmc/binary_codec.cc:9-26 | Any number of reads dispatches the packets of their concatenation. |
| Md5.DecodeEncode | 3rdparty/libhashkit/md5.c:324-353 | Decode undoes Encode. |
| Md5.Encode | 3rdparty/libhashkit/md5.c:324-337 | The loop writes the words lowest byte first. |
| Md5.Decode | 3rdparty/libhashkit/md5.c:343-353 | The loop reads them back. |
| Md5.CountAdds | 3rdparty/libhashkit/md5.c:170-174 | The carry test and the shifts keep the two count words equal to eight times the byte count modulo 2^64. |
| Md5.IndexIs | 3rdparty/libhashkit/md5.c:166-167 | The buffer index taken from the low count word is the byte count modulo 64. |
| Md5.LoopEndsIff | 3rdparty/libhashkit/md5.c:184-185 | The 32-bit loop guard ends the loop if and only if buffered and new bytes together are fewer than 2^32. |
| Md5.LongUpdateNeverEnds | 3rdparty/libhashkit/md5.c:184-185 | One buffered byte and an update of 2^32 - 1 bytes is a case where it never ends. |
| Md5.PaddedWhole | 3rdparty/libhashkit/md5.c:208-218 | The padded message is whole blocks, at most 72 bytes more than the message: the message, a one bit, zeros, and the length in bits, each of its eight bytes given. |
| Md5.DigestChain | 3rdparty/libhashkit/md5.c:132-226 | The digest comes from a chain of states that starts with the four words of section 3.3 of RFC 1321, takes one block of the padded message after the other, and ends with the words put lowest byte first. |
| Md5.DigestStart | 3rdparty/libhashkit/md5.c:145-151 | With a compression that changes nothing, the digest of every message is the sixteen bytes that section lists. |
| Md5.Context.Update | 3rdparty/libhashkit/md5.c:159-195 | For every input of a 32-bit length: a context that has absorbed m has absorbed m followed by the input, with state, count and buffer as for the concatenation, if buffered and new bytes are fewer than 2^32; otherwise the loop guard holds at every turn. |
| Md5.Context.Final | 3rdparty/libhashkit/md5.c:201-226 | The digest is the fold of the compression function over the RFC 1321 padding of all that was absorbed; the context is wiped. |
| Md5.Signature | 3rdparty/libhashkit/md5.c:132-139 | For every key length of 32 bits the result is the digest of the key. |
| Md5.Stream | 3rdparty/libhashkit/md5.c:159-226 | Successive updates give the digest of the concatenation if and only if every one of them ends. |
| Jenkins.Add32 | 3rdparty/libhashkit/jenkins.c:94-110 | A masked 32-bit read adds the key bytes of the word, whatever follows them in memory. |
| Jenkins.Add16 | 3rdparty/libhashkit/jenkins.c:131-160 | The 16-bit reads add the same word. |
| Jenkins.Add8 | 3rdparty/libhashkit/jenkins.c:189-206 | The byte-wise fall-through cases add the same word. |
| Jenkins.Branch | 3rdparty/libhashkit/jenkins.c:69-110 | Each branch, block loop and last block, computes the hash of the key bytes alone. |
| Jenkins.HashAt | 3rdparty/libhashkit/jenkins.c:59-213 | The value does not depend on the alignment of the key or on the bytes behind it. |
| Jenkins.MixReversible | 3rdparty/libhashkit/jenkins.c:20-28 | Mixing has an inverse: no two states are mixed into one. |
| Jenkins.PublishedValue | 3rdparty/libhashkit/jenkins.c:30-39 | With initial value zero, the hash of a key of 30 bytes is the value its author publishes. |
| Jenkins.EmptyValue | 3rdparty/libhashkit/jenkins.c:41-65 | The hash of the empty key shows the initial value of the library. |
| Memmem.Rolls | evpp/memmem.h:73-75 | Subtracting the byte that leaves and adding the byte that enters gives the sum of the next window. |
| Memmem.MatchPasses | evpp/memmem.h:66-71 | A real match is never rejected by the hash or the first byte. |
| Memmem.Initialize | evpp/memmem.h:56-60 | Both hashes are the wrapped sums of needle and first window. |
| Memmem.Find | evpp/memmem.h:36-79 | Returns the first occurrence or none, whatever byte lies behind the haystack. |
| Pool.AlignCovers | 3rdparty/rapidjson/rapidjson.h:243-249 | The alignment macro rounds a size up if and only if it is at most 2^32 - 8. |
| Pool.LiveBlocksDisjoint | 3rdparty/rapidjson/allocators.h:176-187 | Live blocks of sizes within that limit never overlap. |
| Pool.SameAddressTwice | 3rdparty/rapidjson/allocators.h:176-187 | Beyond the limit they do: two requests of 2^32 bytes get the same address. |
| Pool.MemoryPoolAllocator.WithBuffer | 3rdparty/rapidjson/allocators.h:125-134 | The user buffer, less its header, is the first chunk and is empty. |
| Pool.MemoryPoolAllocator.AddChunk | 3rdparty/rapidjson/allocators.h:231-239 | A new empty chunk at the head of the list, all blocks as before. |
| Pool.MemoryPoolAllocator.Malloc | 3rdparty/rapidjson/allocators.h:176-187 | For every size: where the block lies, that it lies in one chunk and apart from all others, and that it covers the request if and only if the size is within the limit. |
| Pool.MemoryPoolAllocator.Realloc | 3rdparty/rapidjson/allocators.h:190-217 | For every size: within the limit the block covers the new size; the first originalSize bytes are kept and every other live block is left as it is, whether the block grows in place, moves or stays, except where the old bytes do not fit the room set aside for a new size beyond the limit. |
| Pool.MemoryPoolAllocator.Expand | 3rdparty/rapidjson/allocators.h:201-209 | In-place growth happens only at the end of the head chunk and keeps all blocks apart. |
| Pool.MemoryPoolAllocator.Capacity | 3rdparty/rapidjson/allocators.h:158-163 | The loop over the list sums the capacities. |
| Pool.MemoryPoolAllocator.Size | 3rdparty/rapidjson/allocators.h:168-173 | The loop over the list sums the sizes, never more than the capacity. |
| Pool.MemoryPoolAllocator.Clear | 3rdparty/rapidjson/allocators.h:145-153 | All chunks go but the user buffer, which becomes empty. |

## Left out
- Floating-point values: the final scaling of a collected double by a power of ten and the printing of doubles are not modelled. A number event carries the sign, the double in which the digits were collected, rounded as in the code, and the power of ten.
- JsonReader.Reader.ParseNumber: the handler gets sign, collected double and power of ten in place of their product.
- JsonRoundTrip.RoundTrip: covers values without floating-point numbers, because printing of doubles is not modelled.
- JsonPrinted.PrintedParses: covers event sequences without doubles, for the same reason.
- JsonPrinted.PrettyReadsAlike: covers event sequences without doubles, for the same reason.
- JsonRoundTrip.TextReads: covers values without floating-point numbers, for the same reason.
- JsonTree.WriteThenRead: covers values without floating-point numbers, for the same reason.
- JsonNumber.FinishDetermined: is about fewer than two hundred million fraction digits; the specification it is about has no such bound.
- JsonReal.DecimalExact: is about digits that make at most 2^53 - 1 together; beyond, JsonReal.LongDecimal says what is collected, which need not be the number.
- JsonReal.ScientificExact: is about the same numbers; a negative exponent of nine digits or more is read as a smaller one, and more than two thousand million fraction digits are left to JsonReal.DecimalExact.
- JsonReal.LongDecimal: is about texts without an exponent, which is read the same way.
- JsonNumber.DigitsSurvive: its two conditions do not meet, since two roundings can cancel.
- What the source does once it has left its memory or the range of an int: the contracts say when that happens, and nothing about what follows.
- JsonTree.Document.Handle: strings are always copied, as a reader that is not in-situ asks; the bytes themselves are kept as values and not in the blocks of the pool.
- JsonTree.Document.CopyOf: a string held by reference only is not modelled.
- The call stack is taken to have room for any nesting depth, and the base allocator for any chunk.
- JsonRoundTrip.TextDetermines: is drawn from the round trip, so it asks for strings that the reader hands over whole.
- JsonStack.SameEventsSameVerdict: error offsets are not modelled, and error codes for a missing value differ between the two readers.
- JsonStack.RunFollows: says nothing about a run in which a string leaves bytes above a frame.
- JsonTree.Document.ParseStream: the document receives the events after the reader has finished, not in between; as the document refuses nothing this makes no difference to either.
- EventLoops.EventLoop.QueueInLoop: is a call that no other thread interrupts; interleaved calls are the steps of `LoopProtocol`.
- EventLoops.EventLoop.Notify: is uninterrupted as well, and the watcher has not been released.
- EventLoops.EventLoop.DoPendingFunctors: its functors neither queue nor drain while they run; in `LoopProtocol` they may.
- EventLoops.EventLoop.HandlerFn: is uninterrupted as well.
- LoopLockFree.LockFreeSafe: takes the queue for a linearizable first-in-first-out queue whose pop fails only when it is empty; moodycamel::ConcurrentQueue promises order only per producer and its try_dequeue may miss an element, so that build is not covered.
- LoopLockFree.LockFreeWakes: rests on the same queue.
- Buffers.Buffer.AppendInt: htonl and htons are library functions and are taken to put a number in network order; so for PrependInt, PeekInt and ReadInt. Only the 64-bit methods swap bytes themselves.
- TcpConns.FdChannel.Update: registration of a channel with libevent is taken to succeed.
- TcpConns.TcpConn.OnAttachedToLoop: the connection callback is not modelled.
- TcpConns.TcpConn.HalfClose: the delayed close that follows is a separate step of the run model.
- TcpConns.TcpConn.HandleClose: timers and user callbacks are not modelled.
- Framers.Codec.OnResponsePacket: what the memcached client does with a packet is not modelled; it is recorded whole and consumed.
- Pool.MemoryPoolAllocator.Realloc: where the copy would leave the new block the model stops and says so; failure of the base allocator is not modelled.
- Md5.Context.Update: where the loop does not end the model stops in front of it and says so.
- Integers wider than the model needs: 64-bit wrap-around of buffer indices, allocation sizes and level counts is not modelled.
- In-situ parsing, stop-when-done, validation of source encodings while parsing, stream encodings and the vectorised white-space code of rapidjson.
- A handler that stops `Accept` half-way, `GenericValue` mutators and comparison.
- `RunInLoop` on the loop thread, which calls the functor directly, and everything around shutdown of the loop after its last drain; `AfterFork`.
- `TCPConn::HandleRead` beyond the two-segment read, delayed and repeated closing, the server, client, connector and resolver.
- `Buffer::SetReadIndex`, `ResetData` and `ResetBegin`, which move the read index without regard to contents, and the line searches.
- The MD5 compression function is a parameter; the other hash functions are not modelled.
- Big-endian hosts for the Jenkins hash.
