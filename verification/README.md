# Verified models of rdkNativeScript

rdkNativeScript is a JavaScript runtime. This project models the parts of it that hold invariants or inverses, and
proves them. Each file is one component:

- `Common.dfy`, `Unicode.dfy`: bytes, 16-bit units, results of calls that throw; UTF-16, and UTF-8 by sections 3 and 4 of RFC 3629.
- `BufferUtf8.dfy`, `Base64.dfy`, `BufferInts.dfy`, `BufferSearch.dfy`, `BufferCopy.dfy`: the codecs and array loops of the Buffer polyfill.
- `Punycode.dfy`, `PunycodeSamples.dfy`: the encoder, against the decoding procedure of section 6.2 of RFC 3492, which is written from the RFC because the decoder in the file is commented out.
- `Timers.dfy`: the scheduler, whose heap, tag map and side vector share objects while callbacks re-enter it.
- `Handles.dfy`: protecting and weak handles on JavaScript objects, over JavaScriptCore's counters.
- `Renderer.dfy`: the request queue, as a sequence of critical sections.
- `Percent.dfy`, `Urlencoded.dfy`: percent-encoding and forms of the URL Standard (sections 1.3 and 5).
- `JsonString.dfy`: the inspector's string escaping, against section 7 of RFC 8259, and its expression scanner.
- `Snapshot.dfy`: local storage as a temporary file renamed over a target, over a small file system.

Code that updates state is modelled by classes and by methods with loops; each is proved against a specification function or an
invariant, and the laws are lemmas about those. Strings are sequences of 16-bit units or of bytes, and JavaScript numbers are integers.
Exceptions and error returns are `Result` values.

## What the code does where its documentation says otherwise

Each of these is proved, with the exact condition under which the documented behaviour holds:

- `basicToDigit` returns a value for some characters that are no digits, although its comment says `base` (`Punycode.BasicToDigitExact`; `Punycode.BasicToDigitFails` for `:`).
- `encode` adapts the bias with a count taken before the round, which RFC 3492 does not do; the result is the same (`Punycode.StaleCountIsHarmless`).
- `utf8ToBytes` loses the last unit when the last two are both lead surrogates (`BufferUtf8.Utf8RoundTrip`; `BufferUtf8.TwoLeadsFail` for U+D800 U+D801).
- `toByteArray` loses the block before a `=` that starts a block, and leaves two zero bytes in its place; it decodes the text before the first `=` iff there is no `=` or the first one does not start a block (`Base64.PaddingExact`, and `Base64.PaddingBlockFails` for the text `TWFu====`).
- `copy` returns a negative number, having copied nothing, when it gets past its checks with `end` 0 and a positive `start`; this is stated on the arguments (`BufferCopy.ReturnsCountUnlessEndIsZero`).
- The comparator of the timer queue holds of a timer and itself, which a strict weak ordering must not; it is the reverse of the order by (fireTime, tag) on two timers iff their keys differ (`Timers.ComparatorIsReverseOrder`).
- `serializeUrlencoded` escapes nothing, so only some lists of entries are read back (`Urlencoded.FormRoundTrip`; `Urlencoded.PlusFails` for the value `+`, which comes back as a space).
- The `Runtime.evaluate` scanner does not undo `\b`, `\f` and `\u00XX` (`JsonString.ScannerRoundTrip`; `JsonString.BackspaceFails` for the byte 0x08).

## Model

| member | source | states |
|---|---|---|
| `Unicode.Utf8ThenDecode` | utils/buffer.js:1114-1185 | encodings by section 3 of RFC 3629 are well-formed by the grammar of its section 4, and decode to the same scalar values |
| `Unicode.DecodeThenUtf8` | utils/buffer.js:1114-1185 | re-encoding what was decoded gives the input iff it was well-formed; otherwise it comes back longer |
| `BufferUtf8.Utf8ToBytes` | utils/buffer.js:1826-1904 | the bytes are the UTF-8 of the string's scalar values, unpaired surrogates as U+FFFD: all of them if `units` is 0 or they fit, otherwise as many whole characters as fit in `units` bytes |
| `BufferUtf8.FitIsLongestPrefix` | utils/buffer.js:1826-1904 | what fits is the longest prefix whose encoding is within the budget |
| `BufferUtf8.DecodeAt` | utils/buffer.js:1120-1166 | a sequence is accepted at a position iff the RFC 3629 grammar has a character there, with its value and length |
| `BufferUtf8.Utf8Slice` | utils/buffer.js:1114-1185 | the text of any range: every character of the grammar, and one U+FFFD for each byte that starts none |
| `BufferUtf8.DecodeCodePointsArray` | utils/buffer.js:1192-1208 | decoding in chunks gives every unit, in order |
| `BufferUtf8.SanitizedByScalars` | utils/buffer.js:1826-1904 | reading a string as scalar values and writing them replaces exactly the unpaired surrogates |
| `BufferUtf8.Utf8RoundTrip` | utils/buffer.js:1826-1904 | decoding what was encoded gives the string with unpaired surrogates replaced iff its last two units are not both leads; well-formed strings come back |
| `BufferUtf8.TwoLeadsFail` | utils/buffer.js:1826-1904 | U+D800 U+D801 does not come back as two U+FFFD |
| `BufferUtf8.DecodeThenEncode` | utils/buffer.js:1114-1185 | what is decoded is well-formed UTF-16, and encoding it gives the bytes back iff they were well-formed |
| `Base64.BuildTables` | utils/buffer.js:12-25 | `lookup` is the 64 characters of Table 1 of RFC 4648, `revLookup` inverts it, and `-` and `_` read as 62 and 63 |
| `Base64.TestVectors` | utils/buffer.js:86-156 | the test vectors `f`, `fo` and `foo` of section 10 of RFC 4648, in numbers |
| `Base64.TestVectorsDecoded` | utils/buffer.js:27-102 | the same decoded; a unit outside the alphabet counts as zero |
| `Base64.ByteLengthExact` | utils/buffer.js:46-56 | `byteLength` is the length of what is decoded, wherever the first `=` is; a text that starts with it has length -1 |
| `Base64.EncodeChunk` | utils/buffer.js:109-120 | a chunk is encoded block by block as RFC 4648 has it |
| `Base64.EncodeFull` | utils/buffer.js:122-134 | the loop over chunks writes what one pass over all whole blocks would |
| `Base64.FromByteArray` | utils/buffer.js:122-156 | the text is the base64 of all bytes, padding included |
| `Base64.RoundTrip` | utils/buffer.js:27-156 | decoding undoes encoding, and the encoded length is 4 * ceil(n / 3) |
| `Base64.DecodeBlocks` | utils/buffer.js:68-84 | after the loop over whole blocks the bytes written, followed by the decoding of what is left, are the decoding of the text |
| `Base64.ToByteArray` | utils/buffer.js:58-102 | every text: the length error, the negative array length, and otherwise the bytes of the text before the first `=` iff there is none or it does not start a block |
| `Base64.PaddingExact` | utils/buffer.js:27-102 | decoding by the positions the code computes gives what the text before the first `=` stands for by RFC 4648 iff that `=` does not start a block; if it does, one byte less comes out |
| `Base64.PaddingBlockFails` | utils/buffer.js:27-102 | `TWFu====` stands for the bytes of `Man` and decodes to two zero bytes |
| `Base64.EncodeThenDecode` | utils/buffer.js:27-156 | an array that is encoded and decoded by the two loops comes back |
| `BufferInts.BorrowIsFloor` | utils/buffer.js:1562-1567 | a truncated quotient less the borrow is the floor quotient, modulo 256 |
| `BufferInts.BorrowDue` | utils/buffer.js:1563-1565 | a borrow is due exactly if a lower byte of the two's complement is not zero |
| `BufferInts.SignedRoundTrip` | utils/buffer.js:1356-1390 | two's-complement bytes read back as the value, and are the only bytes that do |
| `BufferInts.SignedRange` | utils/buffer.js:1356-1390 | every byte sequence reads as a value in range whose bytes it is |
| `BufferInts.UnsignedRoundTrip` | utils/buffer.js:1287-1316 | the bytes of an unsigned value read back as it |
| `BufferInts.UnsignedRange` | utils/buffer.js:1287-1316 | every byte sequence reads as an unsigned value in range whose bytes it is |
| `BufferInts.ReadUIntLE` | utils/buffer.js:1287-1300 | the unsigned value of the bytes, or the range error |
| `BufferInts.ReadUIntBE` | utils/buffer.js:1302-1316 | the same, most significant byte first |
| `BufferInts.ReadIntLE` | utils/buffer.js:1356-1372 | the signed value of the bytes, or the range error |
| `BufferInts.ReadIntBE` | utils/buffer.js:1374-1390 | the same, most significant byte first |
| `BufferInts.WriteUIntLE` | utils/buffer.js:1463-1480 | exactly the bytes of the value are written in place, nothing else changes; or an error and no change |
| `BufferInts.WriteUIntBE` | utils/buffer.js:1482-1499 | the same, most significant byte first |
| `BufferInts.WriteIntLE` | utils/buffer.js:1549-1570 | exactly the two's-complement bytes are written, nothing else changes; or an error and no change |
| `BufferInts.WriteIntBE` | utils/buffer.js:1572-1593 | the same, most significant byte first |
| `BufferInts.WriteThenReadUIntLE` | utils/buffer.js:1287-1480 | an unsigned value in range that is written is read back |
| `BufferInts.WriteThenReadUIntBE` | utils/buffer.js:1302-1499 | the same, most significant byte first |
| `BufferInts.WriteThenReadIntLE` | utils/buffer.js:1356-1570 | a signed value in range that is written is read back |
| `BufferInts.WriteThenReadIntBE` | utils/buffer.js:1374-1593 | the same, most significant byte first |
| `BufferSearch.IndexOf` | utils/buffer.js:943-953 | the forward loop, which moves its index back, ends with the least match at or after the offset, or -1 iff there is none |
| `BufferSearch.LastIndexOf` | utils/buffer.js:954-966 | the greatest match at or before the offset, or -1 iff there is none |
| `BufferSearch.ArrayIndexOf` | utils/buffer.js:915-969 | both directions: -1 iff there is no match, otherwise the nearest one |
| `BufferCopy.PlanFits` | utils/buffer.js:1687-1712 | after the argument checks both ranges are inside their buffers, and the count is as large as buffers and `end` allow |
| `BufferCopy.PlanOfRanges` | utils/buffer.js:1687-1712 | `copy(target)` copies from start to start as much as fits; a range in order is copied as given |
| `BufferCopy.PlanOfTheRest` | utils/buffer.js:1687-1712 | exactly when nothing is copied, and exactly when each error is thrown |
| `BufferCopy.ReturnsCountUnlessEndIsZero` | utils/buffer.js:1687-1730 | the returned number differs from the number of bytes copied iff `end` is 0, `start` is positive and inside the source, the target is not empty and its start is not negative |
| `BufferCopy.CopyDescending` | utils/buffer.js:1717-1721 | the descending loop leaves the source bytes as they were before the call, although the ranges overlap |
| `BufferCopy.Copy` | utils/buffer.js:1687-1731 | the target range holds the source bytes as they were before the call, also within one buffer; nothing else changes; errors change nothing |
| `Punycode.DigitRoundTrip` | utils/punycode.js:142-170 | `basicToDigit` inverts `digitToBasic` iff no uppercase form of a digit from 26 on is asked for |
| `Punycode.BasicToDigitExact` | utils/punycode.js:142-153 | `basicToDigit` agrees with its documentation iff the character is a digit of the alphabet or beyond `z` |
| `Punycode.DigitsInCharacters` | utils/punycode.js:142-153 | the digits of section 5 of RFC 3492 by their characters, and what `basicToDigit` returns for the others up to `z` |
| `Punycode.BasicToDigitFails` | utils/punycode.js:142-153 | a colon is no digit, and comes out as -7 |
| `Punycode.Adapt` | utils/punycode.js:177-185 | the loop ends with the bias of section 3.4 of RFC 3492 |
| `Punycode.BiasInNumbers` | utils/punycode.js:177-185 | the bias in closed form, with the parameters of section 5 of RFC 3492 as numbers: divisions by 35 until 455, then 36 times the quotient by itself plus 38 |
| `Punycode.StaleCountIsHarmless` | utils/punycode.js:336-367 | adapting with the count from before the round gives the bias of the true count |
| `Punycode.EncodeVarInt` | utils/punycode.js:351-366 | the digit loop ends, and spells the variable-length integer of section 3.3 of RFC 3492 |
| `Punycode.ReadVarIntInvertsVarInt` | utils/punycode.js:351-366 | reading the digits of an integer gives exactly it and stops right after them, whatever follows |
| `Punycode.VarIntInvertsReadVarInt` | utils/punycode.js:351-366 | whatever reads as an integer is the spelling of that integer |
| `Punycode.OneEncoding` | utils/punycode.js:285-378 | two texts without upper-case digits that section 6.2 of RFC 3492 decodes to the same code points are the same text |
| `Punycode.SingleDecodes` | utils/punycode.js:285-378 | a code point that is not basic is spelled by its distance from 128 with thresholds 1, 1, 26, 26 and so on |
| `PunycodeSamples.OneUmlaut` | utils/punycode.js:4-16 | `tda` decodes to U+00FC |
| `PunycodeSamples.PriceArrows` | utils/punycode.js:285-378 | sample (S) of section 7.1 of RFC 3492, in numbers |
| `PunycodeSamples.Rumba` | utils/punycode.js:285-378 | sample (Q) of section 7.1 of RFC 3492, two basic code points and seven insertions, in numbers |
| `Punycode.PushBasics` | utils/punycode.js:299-307 | the basic code points, in order |
| `Punycode.NextCodePoint` | utils/punycode.js:325-332 | the least code point not below `n` |
| `Punycode.EncodeRound` | utils/punycode.js:344-371 | a round inserts every occurrence of one code point; the output so far stays decodable to the code points handled |
| `Punycode.EncodeCodePoints` | utils/punycode.js:285-378 | without an overflow the output is ASCII, section 6.2 of RFC 3492 decodes it to exactly the input, and no other text in lower case decodes to it; a single code point is spelled in numbers; an overflow needs an input of excessive length |
| `Punycode.Ucs2Decode` | utils/punycode.js:101-123 | the code points of a 16-bit string, unpaired surrogates kept |
| `Punycode.CodePointsRoundTrip` | utils/punycode.js:101-123 | writing the code points back as units gives the string |
| `Punycode.Encode` | utils/punycode.js:285-378 | the encoding of a string decodes to its code points, which spell the string |
| `Timers.ComparatorIsReverseOrder` | include/jsc/JavaScriptUtils.h:80-86 | the comparator is the reverse of the order by (fireTime, tag) on two timers iff their keys differ, and a strict total order on timers with different tags; of a timer and itself it holds |
| `Timers.TopIsEarliest` | include/jsc/JavaScriptUtils.h:80-93 | the front of a heap is before every other timer in it |
| `Timers.LawfulLives` | src/jsc/JavaScriptUtils.cpp:132-158 | in a lawful history a tag is installed first and once, after a clear only deleted, and after its deletion never used |
| `Timers.Scheduler.PushTimeouts` | src/jsc/JavaScriptUtils.cpp:74-81 | the heap takes over the kept timers and is a heap again |
| `Timers.Scheduler.UpdateForInfo` | src/jsc/JavaScriptUtils.cpp:83-91 | a timer whose key was lowered in place is put right: the same timers, in heap order |
| `Timers.Scheduler.ClearTimeout` | src/jsc/JavaScriptUtils.cpp:537-548 | the timer of a tag is cancelled and unmapped, no other timer changes, the invariant holds |
| `Timers.Scheduler.InstallTimeout` | src/jsc/JavaScriptUtils.cpp:550-569 | a new timer under a new tag, due after its interval, in the map and the heap |
| `Timers.Scheduler.RunCalls` | src/jsc/JavaScriptUtils.cpp:147-147 | whatever a callback installs and clears keeps ownership and the order; every call is made as it asks: a new timer has its interval, its repeat flag and its due time, a tag given out before its clear is unmapped, and nothing else is cleared |
| `Timers.Scheduler.NothingDue` | src/jsc/JavaScriptUtils.cpp:138-141 | when the top is not due, nothing in the heap is due or cancelled |
| `Timers.Scheduler.Drain` | src/jsc/JavaScriptUtils.cpp:136-156 | at the end of the loop the heap has no cancelled timer and none due at or before the pass time |
| `Timers.DueTold` | src/jsc/JavaScriptUtils.cpp:136-156 | a callback that ran is noted with the time its timer was due when the pass began, or the time of the pass if it was installed since |
| `Timers.Scheduler.DispatchTimeouts` | src/jsc/JavaScriptUtils.cpp:132-158 | callbacks run in strictly increasing (fireTime, tag) order, none before its timer's fire time, none twice, none after its clear, and each repeats as its return code and its timer's flag say; the calls of the callbacks that ran are made as they ask, and nothing else is cleared; a timer installed meanwhile fires at once if it is due and waits otherwise; what was due has fired or was cleared; what was not due stays as it was unless cleared; what fired is kept or deleted, and nothing is deleted that was neither cleared nor finished |
| `Timers.Scheduler.Run` | src/jsc/JavaScriptUtils.cpp:132-158 | over any run the live objects are exactly the heap, the map is the uncancelled ones by tag, and each object is deleted at most once and not used after; every step makes its calls and no others |
| `Handles.Engine.ConstructProtected` | src/jsc/rtScriptJSCPrivate.cpp:177-191 | a handle on a known context protects its object once more and is listed; on an unknown one it holds nothing |
| `Handles.Engine.ReleaseProtected` | src/jsc/rtScriptJSCPrivate.cpp:198-209 | one protection is given back, if the handle still has one |
| `Handles.Engine.DestroyProtected` | src/jsc/rtScriptJSCPrivate.cpp:193-196 | the counts stay those of the remaining handles; after a bulk release it changes nothing |
| `Handles.Engine.ConstructEmptyWeak` | src/jsc/rtScriptJSCPrivate.cpp:211-213 | a handle that holds nothing |
| `Handles.Engine.ConstructWeak` | src/jsc/rtScriptJSCPrivate.cpp:215-220 | a handle that holds a new weak reference and its group |
| `Handles.Engine.CopyConstructWeak` | src/jsc/rtScriptJSCPrivate.cpp:222-230 | both references shared and retained once more |
| `Handles.Engine.MoveConstructWeak` | src/jsc/rtScriptJSCPrivate.cpp:232-236 | both references taken over; the counts do not change |
| `Handles.Engine.CopyAssignWeak` | src/jsc/rtScriptJSCPrivate.cpp:254-266 | the references of the other handle, also when it is the same handle or on the same reference |
| `Handles.Engine.MoveAssignWeak` | src/jsc/rtScriptJSCPrivate.cpp:268-276 | the references move; moving a handle to itself keeps them |
| `Handles.Engine.ReleaseWeakRef` | src/jsc/rtScriptJSCPrivate.cpp:244-252 | both references are given back, if the handle has them |
| `Handles.Engine.DestroyWeak` | src/jsc/rtScriptJSCPrivate.cpp:238-242 | the counts stay those of the remaining handles |
| `Handles.Engine.Wrapped` | src/jsc/rtScriptJSCPrivate.cpp:278-283 | the object is the one the handle's reference was created for; there is none iff the handle holds no reference or the collector has cleared it |
| `Handles.Engine.FindModule` | src/jsc/rtScriptJSCPrivate.cpp:152-161 | the object the path's handle was created for; a collected one is forgotten and its handle destroyed |
| `Handles.Engine.AddToModuleCache` | src/jsc/rtScriptJSCPrivate.cpp:163-166 | the path has a new handle, and what it had before is destroyed |
| `Handles.Engine.ExactlyProtected` | src/jsc/rtScriptJSCPrivate.cpp:177-209 | `m_protected` is exactly the set of the handles that still hold an object of the context |
| `Handles.Engine.ReleaseAllProtected` | src/jsc/rtScriptJSCPrivate.cpp:168-176 | every handle of the context is released and every cached one destroyed, and the counts still balance |
| `Handles.Engine.NothingLeaks` | src/jsc/rtScriptJSCPrivate.cpp:152-276 | with no handle left nothing is protected and nothing is retained |
| `Handles.Run.Perform` | src/jsc/rtScriptJSCPrivate.cpp:152-276 | every operation on any handles, aliased or not, keeps protect and retain counts equal to the numbers of holders, and gives the handles the object and references it should |
| `Handles.Run.Execute` | src/jsc/rtScriptJSCPrivate.cpp:152-276 | after any run, once the handles are gone, every count is back to zero |
| `Renderer.FoldKeys` | src/NativeJSRenderer.cpp:294-457 | an application is in the map iff it was created and not terminated since |
| `Renderer.FoldUrl` | src/NativeJSRenderer.cpp:336-424 | an application shows the URL of its last run, or a fixed name once code ran when there was none |
| `Renderer.HttpIsPrefix` | src/NativeJSRenderer.cpp:336-401 | a URL is downloaded iff it starts with `http` |
| `Renderer.NativeJSRenderer.CreateApplication` | src/NativeJSRenderer.cpp:227-242 | a new identifier, and one more request |
| `Renderer.NativeJSRenderer.RunApplication` | src/NativeJSRenderer.cpp:244-251 | one more request, in arrival order |
| `Renderer.NativeJSRenderer.RunJavaScript` | src/NativeJSRenderer.cpp:253-260 | one more request, in arrival order |
| `Renderer.NativeJSRenderer.TerminateApplication` | src/NativeJSRenderer.cpp:285-292 | one more request, in arrival order |
| `Renderer.NativeJSRenderer.CreateApplicationInternal` | src/NativeJSRenderer.cpp:295-334 | the application was not in the map, so no live context is overwritten |
| `Renderer.NativeJSRenderer.RunApplicationInternal` | src/NativeJSRenderer.cpp:337-401 | the URL is set even if the download fails; an unknown identifier changes nothing |
| `Renderer.NativeJSRenderer.RunJavaScriptInternal` | src/NativeJSRenderer.cpp:404-430 | the code runs under the application's URL; an unknown identifier changes nothing |
| `Renderer.NativeJSRenderer.TerminateApplicationInternal` | src/NativeJSRenderer.cpp:433-457 | the context is deleted, which it was not before, and the entry with it |
| `Renderer.NativeJSRenderer.Drain` | src/NativeJSRenderer.cpp:478-507 | afterwards the map is the fold of all requests that arrived, in arrival order, however they were batched; the requests of the queue were carried out one by one with the outcomes of their downloads |
| `Renderer.NativeJSRenderer.HandledInArrivalOrder` | src/NativeJSRenderer.cpp:478-507 | with no test file the requests carried out are the first that arrived, one for one: none is lost, repeated or reordered |
| `Renderer.NativeJSRenderer.TakeTestId` | src/NativeJSRenderer.cpp:509-512 | the test file's identifier is new although it is taken outside the critical section |
| `Renderer.NativeJSRenderer.RunTestFile` | src/NativeJSRenderer.cpp:513-518 | its two requests are carried out without the queue, and keep the invariant |
| `Renderer.NativeJSRenderer.GetApplications` | src/NativeJSRenderer.cpp:262-283 | the list, by identifier, is the fold of a prefix of the requests that arrived |
| `Renderer.Execute` | src/NativeJSRenderer.cpp:227-507 | any interleaving of producers, readers and the loop keeps the invariant, and does to the queue and its history what the steps mean one after the other |
| `Renderer.NothingTakenBack` | src/NativeJSRenderer.cpp:227-507 | whatever the steps, nothing that arrived or was carried out is taken back |
| `Percent.DecodingShortens` | src/jsc/modules/lib/percent-encoding.js:20-37 | decoding never lengthens, and changes nothing iff there is no escape |
| `Percent.NoPercentNoEscape` | src/jsc/modules/lib/percent-encoding.js:20-37 | decoding is the identity without a percent sign |
| `Percent.EscapesInNumbers` | src/jsc/modules/lib/percent-encoding.js:20-37 | what `%41`, `%4a`, `%4A` and `%4g` decode to, in numbers |
| `Percent.PercentDecodeBytes` | src/jsc/modules/lib/percent-encoding.js:20-37 | the loop fills the output with the decoding of section 1.3 of the URL Standard |
| `Percent.PercentEncodeIsEscape` | src/jsc/modules/lib/percent-encoding.js:10-17 | a percent sign and two ASCII hexadecimal digits that read back as the byte |
| `Percent.EncodeCodePoint` | src/jsc/modules/lib/percent-encoding.js:92-114 | the encoding of each UTF-8 byte of the code point, in order |
| `Percent.WhichSets` | src/jsc/modules/lib/percent-encoding.js:45-90 | all eight sets hold every byte outside ASCII; two hold the percent sign, and the other six neither it nor a hexadecimal digit |
| `Percent.SetsInCharacters` | src/jsc/modules/lib/percent-encoding.js:45-78 | each set is the characters the URL Standard lists for it, the C0 controls and all above `~` |
| `Percent.RoundTrip` | src/jsc/modules/lib/percent-encoding.js:80-110 | under the component and the form set the encoding of any string is ASCII and decodes to its UTF-8 |
| `Percent.EncodedWithoutPercent` | src/jsc/modules/lib/percent-encoding.js:45-78 | under a set without the percent sign bytes come back iff they hold no escape |
| `Percent.OtherSets` | src/jsc/modules/lib/percent-encoding.js:45-78 | the same for strings and their UTF-8 |
| `Urlencoded.StrictlySplitByteSequence` | src/jsc/modules/lib/urlencoded.js:79-92 | the fields between the separators, without an empty one at the end |
| `Urlencoded.ReplaceByteInByteSequence` | src/jsc/modules/lib/urlencoded.js:94-101 | the buffer is rewritten in place, every occurrence and nothing else |
| `Urlencoded.ParseUrlencoded` | src/jsc/modules/lib/urlencoded.js:10-38 | the entries of the non-empty fields, or the error of the first that is not UTF-8 |
| `Urlencoded.ParseUrlencodedString` | src/jsc/modules/lib/urlencoded.js:41-43 | the same for a string, which must be well-formed |
| `Urlencoded.SerializeUrlencoded` | src/jsc/modules/lib/urlencoded.js:46-77 | the entries joined, the character set and file names put in |
| `Urlencoded.NamesInCharacters` | src/jsc/modules/lib/urlencoded.js:46-77 | the names are `_charset_` and `utf-8` |
| `Urlencoded.NoSeparators` | src/jsc/modules/lib/urlencoded.js:10-38 | if entries come back, no name or value held a separator, by counting equals signs and bytes |
| `Urlencoded.BytesRoundTrip` | src/jsc/modules/lib/urlencoded.js:10-101 | entries come back from their bytes iff all are clean |
| `Urlencoded.FormRoundTrip` | src/jsc/modules/lib/urlencoded.js:10-101 | entries come back iff all strings are well-formed, hold no `&`, `+` or escape, and no name holds `=` |
| `Urlencoded.SpacesComeBack` | src/jsc/modules/lib/urlencoded.js:10-101 | well-formed entries without `&`, `+`, escapes, and `=` in names, come back from the form that has every space as `+` |
| `Urlencoded.PlusFails` | src/jsc/modules/lib/urlencoded.js:10-101 | an entry whose value is `+` comes back with a space as its value |
| `Urlencoded.PlainFormRoundTrip` | src/jsc/modules/lib/urlencoded.js:10-101 | well-formed entries without `&`, `+`, `%`, and `=` in names, empty ones included, all come back |
| `JsonString.EscapeJSON` | src/InspectorHTTPServer.cpp:34-73 | the escapes of all bytes before the first NUL; nothing for a null pointer |
| `JsonString.EscapesInNumbers` | src/InspectorHTTPServer.cpp:34-73 | the seven short escapes and a long one, in numbers; every other byte is kept |
| `JsonString.ReadEscaped` | src/InspectorHTTPServer.cpp:34-73 | a reader that follows section 7 of RFC 8259 gets any escaped string back and stops at its closing quotation mark |
| `JsonString.ReaderInNumbers` | src/InspectorHTTPServer.cpp:34-73 | the reference reader on `\/` and `\u12aF`, in numbers |
| `JsonString.ReaderOfPairs` | src/InspectorHTTPServer.cpp:34-73 | the reference reader on the surrogate pair of section 7 of RFC 8259, and on its first half alone |
| `JsonString.EscapeString` | src/InspectorHTTPServer.cpp:34-73 | what the loop makes of a string without NUL, whatever lies behind it in memory, is read back as that string |
| `JsonString.EscapedWellFormed` | src/InspectorHTTPServer.cpp:34-73 | the escaped string is UTF-8 by section 4 of RFC 3629, as a JSON text has to be, iff the string is |
| `JsonString.ScanExpression` | src/InspectorHTTPServer.cpp:574-599 | what the scanner collects after the first expression key, and where it stops |
| `JsonString.ExpressionKeyIs` | src/InspectorHTTPServer.cpp:576-580 | the key is `"expression":"`, 14 bytes long |
| `JsonString.KeyAtMeans` | src/InspectorHTTPServer.cpp:576-576 | a key is found where it stands in the message and nowhere else |
| `JsonString.ScanEscaped` | src/InspectorHTTPServer.cpp:580-599 | on an escaped string the scanner stops exactly at the closing quotation mark |
| `JsonString.ScannerRoundTrip` | src/InspectorHTTPServer.cpp:580-599 | the scanner gets an escaped string back iff its only control bytes are line feeds, carriage returns and tabs |
| `JsonString.BackspaceFails` | src/InspectorHTTPServer.cpp:580-599 | byte 0x08 comes back as a backslash and `b` |
| `JsonString.EvaluateRoundTrip` | src/InspectorHTTPServer.cpp:574-599 | the same for a whole message |
| `Snapshot.TempNamesDiffer` | src/NativeJSLocalStorage.cpp:98-101 | names of temporary files are equal only for the same process and number, and never the target |
| `Snapshot.Storage.MakeDirectory` | src/NativeJSLocalStorage.cpp:86-96 | a failure ends the call and changes no file |
| `Snapshot.Storage.TakeNumber` | src/NativeJSLocalStorage.cpp:98-101 | calls of a process under way have different numbers |
| `Snapshot.Storage.OpenTemp` | src/NativeJSLocalStorage.cpp:103-109 | a file of the call's own, new or left by a stopped process; the target is as before |
| `Snapshot.Storage.WriteSome` | src/NativeJSLocalStorage.cpp:110-110 | the file holds as much of the snapshot as was written; nothing else changes |
| `Snapshot.Storage.Close` | src/NativeJSLocalStorage.cpp:110-118 | the whole snapshot is in the file, or the call goes on to remove it; the target is as before |
| `Snapshot.Storage.Rename` | src/NativeJSLocalStorage.cpp:121-128 | the only step that changes the target, to the whole snapshot of the call |
| `Snapshot.Storage.Remove` | src/NativeJSLocalStorage.cpp:112-128 | a failed call ends with the target as before, and without its file if that could be removed |
| `Snapshot.Storage.StopProcess` | src/NativeJSLocalStorage.cpp:84-131 | a process may stop anywhere; its files stay and the invariant holds |
| `Snapshot.Storage.TargetIsComplete` | src/NativeJSLocalStorage.cpp:84-131 | at any moment the target is absent or the one complete snapshot installed last |
| `Snapshot.Storage.SaveAlone` | src/NativeJSLocalStorage.cpp:84-131 | `save` returns true iff every step worked, and then the target is its snapshot; otherwise the target is as before; no temporary file is left unless it could not be removed |
| `Snapshot.Storage.LoadAlone` | src/NativeJSLocalStorage.cpp:54-82 | the target's snapshot, an empty object if there is none, or an error |
| `Snapshot.Storage.ReadOpened` | src/NativeJSLocalStorage.cpp:69-78 | a target opened before it was replaced still reads as one complete snapshot |
| `Snapshot.FinishLoad` | src/NativeJSLocalStorage.cpp:54-82 | a `load`, whether its file opened or not, gets a complete snapshot, the empty object only if there was no target, or an error |
| `Snapshot.Execute` | src/NativeJSLocalStorage.cpp:54-131 | over any interleaving of calls, failures and stops every step does what it is for, the target is a complete snapshot, and every `load` gets one, or an error, or the empty object if there was no target when the run began |

## Left out

- Timers.Scheduler.InstallTimeout: tags are natural numbers, so the wrap-around after 2^32 installations is not modelled; intervals are whole milliseconds below 2^32, since the conversion of larger ones is undefined in C++; the clock does not go back.
- Timers.Scheduler.DispatchTimeouts: a callback is a finite list of install and clear calls and a return code; a callback that dispatches, throws, or installs timers due at once for ever is not modelled.
- Timers.MakeHeap: stands for the library's heap functions; only the heap order and the elements are relied on, not the arrangement the library picks.
- Handles.Engine.ConstructProtected: the object is not null, as its callers have it; the fallback lookup through a property of the global object is not modelled, a context is known iff it is in the cache.
- Handles.Engine.Collect: the collector may clear any reference whose object is not protected; what else keeps an object alive is not modelled.
- Handles.Engine.CreatePriv: a context gets its record once; the record's own reference count and its destruction by the collector are not modelled.
- Renderer.NativeJSRenderer.CreateApplication: identifiers are natural numbers, so the wrap-around after 2^32 applications is not modelled; the module settings and the user agent are passed through and left out.
- Renderer.NativeJSRenderer.RunApplicationInternal: downloading and running scripts are steps that change neither the map nor the queue; their outcomes are parameters, and the scripts that set the user agent and the location are not recorded.
- Renderer: the developer console, the renderer's destructor and the engine's own event loop.
- Punycode.EncodeCodePoints: the intended encoder is modelled. As written the cited lines throw: `encode` calls `charCodeAt` on an array (a TypeError), and `ucs2decode` and `adapt` assign the undeclared `counter` and `k` in strict mode (a ReferenceError). The model reads elements where `charCodeAt` is called and takes the two variables as locals. The decoder used as reference computes on unbounded integers.
- Punycode.Adapt: `k` is a local, as said above; `delta` is at most 2^31 - 1, which the overflow guards of `encode` ensure; beyond it the shift would truncate.
- BufferUtf8.Utf8Slice: offsets are natural numbers; the argument handling of `toString` before it is left out.
- BufferInts.WriteIntLE: values are integers and widths are 1 to 6; `noAssert` calls, fixed-width forms and values that are not integers are left out.
- BufferSearch.ArrayIndexOf: single-byte indexing and a non-empty needle; the two-byte branch, whose fractional indices have no integer model, and the normalisation of offsets in `bidirectionalIndexOf` are left out.
- BufferCopy.Copy: arguments are integers or undefined.
- Base64.ToByteArray: the array length is an integer, and units outside the alphabet read as zero as they do under a shift.
- Percent: `utf8PercentEncodeString`, which iterates indices and is no longer called.
- Urlencoded.ParseUrlencodedString: what `TextEncoder` and `TextDecoder` throw is one error; decoder options are left out.
- Urlencoded.StrictlySplitByteSequence: buffers are sequences here, and arrays where they are rewritten in place.
- JsonString.ScanExpression: the search for the message's method and the evaluation of the expression are left out.
- Snapshot.Storage.Rename: a rename is atomic and a process stop loses no written data; power failure and permissions (`chmod`) are not modelled.
- Snapshot: one name space; the hash that makes the target's name from it, and collisions of that hash, are left out.
- `ieee754.read` and `ieee754.write`: floating-point rounding has no counterpart here.
- `URL.js`, `event.js`, network clients, window shims, key input, loggers and settings: glue or tables, which would only add easy members.
