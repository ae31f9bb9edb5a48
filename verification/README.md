# A verified model of a block-chain reader and its libraries

This Dafny project models the parts of a Bitcoin block-chain reader that compute something a caller
depends on, and proves what callers depend on. The reader is C++: its own big-number arithmetic,
hashing, random numbers, sorting, block parsing and console hand-over, and a vendored JSON library.

`dafny verify dfyconfig.toml` checks everything.

## How it is laid out

Code that updates state is a class or a method with loops, proved against functions of the input; the
theorems are lemmas about those functions.

| area | modules | main results |
|---|---|---|
| Base58 (`src/Base58.cpp`) | `LittleEndian`, `BigNumber`, `Base58`, `Base58Codec` | each in-place helper computes its number; decoding undoes encoding and the other way round, exactly when the number is at least 58 or the only, non-zero byte |
| JSON reader (`include/rapidjson/reader.h`) | `JsonGrammar`, `JsonMachine`, `JsonReader`, `JsonLayout`, `JsonStrings`, `JsonNumbers`, `JsonLeaves`, `JsonStops` | the recursive parser and the table-driven machine are the same function of the text, for every handler and with or without trailing commas; they accept exactly the texts of an unambiguous grammar, down to escapes and digits; a handler that stops sees exactly a first part of the events |
| JSON writer and document | `JsonDom`, `JsonWriter`, `JsonWriterCalls`, `JsonDocument`, `JsonRoundTrip`, `JsonShortest`, `JsonEquality`, `JsonDuplicates` | tree to text to tree gives the same tree; no text for a tree is shorter than the one written; when equality is reflexive, symmetric, and possible at all for objects with repeated names |
| JSON Pointer (`include/rapidjson/pointer.h`) | `JsonPointer`, `PointerCreate`, `PointerText`, `PointerGrammar`, `PointerParser` | when `Create` and `Get` agree, which containers `Create` makes and what it leaves alone, a grammar that is exactly what parses, with every error and its place, parsing against printing in both forms, and a name buffer that never overflows |
| Memory pool (`include/rapidjson/allocators.h`) | `PoolAllocator` | blocks stay aligned, inside their chunk and disjoint; when there is memory and where it comes from; growing keeps contents |
| Random numbers (`include/rand.h`) | `Rand`, `RandPool` | full period; every block of draws is a permutation, and which one: blocks correspond one to one to the generator's choices |
| Hashes (`src/SHA256.cpp`, `src/CRC32.cpp`) | `Sha256`, `Sha256Primes`, `Sha256Example`, `Sha256Context`, `Crc32` | streaming equals FIPS 180-4, its constants and its example included; the table loop is polynomial division and detects every burst of 32 bits |
| Block data (`include/CBlockIndex.h`, `src/BlockChain.cpp`) | `Varint`, `BlockIndex`, `ChainBuilder`, `BlockFormat`, `BlockReader`, `BlockRoundTrip`, `BlockDisplay` | a bijective number format, index records read back, the main chain found; blocks are read exactly if they have been written within the limits, and tiled by their transactions |
| Sorting (`include/HeapSort.h`) | `HeapSort` | sorted and a permutation, with 32-bit indices |
| Console (`src/InputLine.cpp`, `src/WakupThread.cpp`) | `Handoff`, `HandoffProgress` | all interleavings of the two threads: no line lost or repeated, when one is overslept, and that every run can go on to the end |
| Shared | `Basics`, `Word`, `Counting`, `TextAt`, `Wrappers` | |

## Where the code does less than one might expect

Each of these has a lemma with an input, and beside it the exact condition under which the code does what
is expected.

- Base58: a number below 58 in more than one byte is encoded with an extra leading character: the bytes 5, 0
  (lowest first) give 116, which stands for 5, 0, 0 (`Base58.SmallNumberGrows`). Exactly when encoding is
  faithful: `Base58.BytesTextBytes`.
- Base58: a single byte below 58 is written without looking at the length limit: the byte 5 is written under a
  limit of 1, which has no room for its terminator, and the byte 0 under a limit of 2
  (`Base58Codec.SmallByteIgnoresLimit`). Exactly when only fitting texts are written:
  `Base58Codec.LimitIsKeptExactly`.
- Base58: a subtraction takes the borrow from one further byte only, so 65536 - 1 comes out as 131071
  (`BigNumber.LostBorrow`). Exactly when it is right: `BigNumber.BigNumber.SubtractBigInt`. Nothing in the
  source calls this helper.
- JSON equality: the comment at include/rapidjson/document.h:930 says that an object with repeated names is
  unequal to every object. `JsonEquality.DuplicatesCanBeEqual` has one that equals itself. Exactly when a value
  equals itself: `JsonDuplicates.EqualToItself`; when it equals anything, so that the comment is wrong about it:
  `JsonDuplicates.EqualToSomething` and, where only the object itself repeats names,
  `JsonDuplicates.RepeatsDecide`; when equality at it is symmetric: `JsonDuplicates.SymmetricExactly`. The code
  is followed.
- JSON equality: the stored numbers -1 and 2^64 - 1 are equal (`JsonEquality.MinusOneEqualsLargest`). Exactly when
  numbers are: `JsonEquality.EqualIntegers`.
- JSON strings: an escape for a low surrogate with no high one before it is let through, and what it becomes is no
  UTF-8. Exactly which escapes give UTF-8: `JsonStrings.LoneSurrogateIsNoUtf8`.
- JSON Pointer: "-" on an empty array adds an element that the same pointer does not find
  (`JsonPointer.DashIsNotFound`). Exactly when `Get` finds what `Create` made: `JsonPointer.GetAfterCreate`.
- JSON Pointer: the overflow check for indices can miss: 5000000000 becomes the index 705032704
  (`JsonPointer.OverflowCheckMisses`). What every number becomes: `JsonPointer.IndexMeaning`; exactly which numbers
  of ten digits the check catches: `JsonPointer.TenDigitsRejected`; exactly when the index is the number:
  `JsonPointer.IndexIsDecimal`.
- Memory pool: a request for 2^64 - 1 bytes is answered without reserving anything
  (`PoolAllocator.HugeRequestTakesNothing`). Exactly when a pointer stands for memory of the size asked for:
  `PoolAllocator.MallocIsExact`.
- Block index numbers: the largest ten-byte number exceeds 64 bits (`Varint.TenBytesCanWrap`). Exactly which
  strings fit: `Varint.FitsUpToLargest`.
- Block lengths: the CompactSize form of 0xFFFF is taken for the beginning of a longer one
  (`BlockRoundTrip.LimitIsMisread`). Exactly which lengths are understood: `BlockRoundTrip.CompactSizeIsRead`.
- Console: the main thread is woken before the line is announced, so it can look too early and go back to sleep
  with a line waiting (`Handoff.OversleptIsReachable`, for every line). Exactly when, for a caller that looks for a
  line between sleeps: if `goToSleep` takes the signal while the reader stands between the signal and the
  announcement (`Handoff.OversleepsExactlyIfEarly`). A caller that sleeps twice without looking can miss a line in
  any case, which is its own doing; `Handoff.OversleptCause` has both causes.

## Model

| member | source | states |
|---|---|---|
| `Rand.Generator.Get` | include/rand.h:47-50 | one call: the state becomes state·214013 + 2531011 cut to a signed 32-bit number, and the low 31 bits of it are returned |
| `Rand.OrbitReturns` | include/rand.h:47-50 | 2^k divides the displacement after n calls in unbounded arithmetic exactly when 2^k divides n, for every k |
| `Rand.FullPeriod` | include/rand.h:47-50 | from any seed, two call counts give the same state exactly when they are congruent modulo 2^32, and the same returned value exactly when congruent modulo 2^31 |
| `Rand.EveryStateReached` | include/rand.h:47-50 | every 32-bit state is reached from every seed within 2^32 calls |
| `RandPool.RandomPool.constructor` | include/rand.h:71-77 | the pool starts with 0..size-1 in order |
| `RandPool.RandomPool.Get` | include/rand.h:88-103 | one draw in place does to the array, mark and generator what the draw on values does |
| `RandPool.PoolStaysPermutation` | include/rand.h:71-103 | after any number of draws the array is a permutation of 0..size-1 |
| `RandPool.EveryBlockIsPermutation` | include/rand.h:71-103 | each block of size consecutive draws is a permutation of 0..size-1 |
| `RandPool.ShuffledExactlyAtBlockStarts` | include/rand.h:88-103 | shuffled is reported on draws size+1, 2·size+1 and so on, and on no others |
| `RandPool.SeedAdvances` | include/rand.h:88-103 | after n draws the generator has made n steps, one for each draw |
| `RandPool.DrawIsPicked` | include/rand.h:92-101 | draw n returns the entry of the array then at the n-th number of the generator, modulo the number of entries still to draw |
| `RandPool.DrawsAreDealt` | include/rand.h:92-101 | from any pool the next draws are dealt by the generator's choices from the entries still to draw |
| `RandPool.BlockIsDealt` | include/rand.h:88-103 | a block is dealt by the choices the generator makes in it, one among size, then among size - 1 and so on |
| `RandPool.DealtIsInjective` | include/rand.h:97-101 | different choices deal different blocks |
| `RandPool.OneListOfChoices` | include/rand.h:97-101 | each order of the entries is dealt by exactly one list of choices |
| `RandPool.FourFromZero` | include/rand.h:41-103 | an example, number by number: size 4 and seed 0 give 3, 0, 1, 2 |
| `BigNumber.BigNumber.CompareTo58` | src/Base58.cpp:131-140 | the comparison of the number with 58, anything of two bytes or more counting as more |
| `BigNumber.BigNumber.CompareToBigInt` | src/Base58.cpp:142-155 | the longer number counts as more; among equal lengths, and among numbers without leading zeros, the comparison is numeric |
| `BigNumber.BigNumber.Add` | src/Base58.cpp:157-185 | the number becomes the sum, carries included |
| `BigNumber.BigNumber.DivideBy58` | src/Base58.cpp:186-202 | the number becomes its quotient by 58, one byte shorter at most |
| `BigNumber.BigNumber.MultiplyBy` | src/Base58.cpp:203-230 | the number becomes the product whenever that fits, and stays free of leading zeros |
| `BigNumber.BigNumber.SubtractBigInt` | src/Base58.cpp:231-246 | the number becomes the difference exactly when no borrow is left at the top; otherwise it is too large by a power of 256 |
| `BigNumber.BigNumber.SubtractByte` | src/Base58.cpp:247-258 | the number becomes the difference, trimmed |
| `Base58Codec.FromPower` | src/Base58.cpp:259-270 | the number becomes any power of any byte that fits |
| `BigNumber.LostBorrow` | src/Base58.cpp:231-246 | an input for the lost borrow: 65536 minus 1 |
| `BigNumber.BigNumber.Modulo58` | src/Base58.cpp:271-285 | the remainder of the number by 58 |
| `BigNumber.BigNumber.Normalise` | src/Base58.cpp:286-291 | leading zero bytes go, all but one |
| `Base58.AlphabetDigits` | src/Base58.cpp:294 | the alphabet and the decoder's branches are inverse to each other, digit by digit |
| `Base58.AlphabetMeaning` | src/Base58.cpp:294 | the characters are the digits and letters but 0, I, O and l |
| `Base58.AlphabetOrder` | src/Base58.cpp:294 | they stand for the digits in the order of their codes |
| `Base58Codec.DecodeBig` | src/Base58.cpp:302-378 | the number of a text: the least bytes for its value and a zero byte for each leading 1 |
| `Base58Codec.ByteOrderMeaning` | src/Base58.cpp:447-464 | highest byte first or last, the bytes are those of the same number |
| `Base58Codec.DecodeBase58` | src/Base58.cpp:468-494 | the bytes go to the output in either order if they fit, otherwise nothing is written |
| `Base58Codec.TakeDigit` | src/Base58.cpp:380-439 | one division step of the encoder: quotient, remainder and trimming |
| `Base58Codec.DigitLoop` | src/Base58.cpp:380-439 | the digits come out lowest first, and the loop stops at the length limit |
| `Base58Codec.EncodeBig` | src/Base58.cpp:380-439 | the text of the number; whether it is written, for every limit; and nothing at or after the limit unless a single byte below 58 does not fit |
| `Base58Codec.LimitIsKeptExactly` | src/Base58.cpp:380-416 | exactly when a text is written only if it fits with its terminator: for numbers that go through the loop, for a limit of 0, and for texts that fit anyway |
| `Base58Codec.SmallByteIgnoresLimit` | src/Base58.cpp:416 | inputs that do not fit and are written: the bytes 5 and 0 |
| `Base58Codec.EncodeBase58` | src/Base58.cpp:441-466 | likewise for bytes in either order |
| `Base58.DecodedNoLonger` | src/Base58.cpp:302-378 | decoding never gives more bytes than there are characters |
| `Base58.EncodedDigitsMeaning` | src/Base58.cpp:133 | what the encoder's loop test makes of a number: its digits from 58 on, and an extra 1 below |
| `Base58.BytesTextBytes` | src/Base58.cpp:302-439 | decoding undoes encoding exactly for numbers of at least 58, and for a single non-zero byte |
| `Base58.SmallNumberGrows` | src/Base58.cpp:133 | an input that does not come back: the bytes 5, 0 |
| `Base58.TextBytesText` | src/Base58.cpp:302-439 | encoding undoes decoding under the same condition |
| `Base58.AddressRoundTrip` | src/Base58.cpp:441-494 | a 25-byte address survives encoding and decoding exactly when its value is at least 58 |
| `JsonReader.Reader.ParseHex4` | include/rapidjson/reader.h:904-921 | four hexadecimal digits of either case, or failure |
| `JsonReader.Reader.ParseUnicodeEscape` | include/rapidjson/reader.h:1016-1032 | an escape, or a surrogate pair of two, becomes the UTF-8 of its code point; a lone high surrogate is refused |
| `JsonReader.Reader.ParseStringToStream` | include/rapidjson/reader.h:989-1054 | the contents of a string literal, or failure |
| `JsonReader.Reader.ParseSmall` | include/rapidjson/reader.h:1470-1505 | the 32-bit stage holds the exact value of the digits and gives up exactly when the next digit would pass its limit |
| `JsonReader.Reader.ParseLarge` | include/rapidjson/reader.h:1530-1559 | the 64-bit stage likewise |
| `JsonReader.Reader.ParseNumber` | include/rapidjson/reader.h:1454-1733 | which handler call a number makes: 32 bits, 64 bits or a double, with sign, fraction and exponent |
| `JsonReader.Reader.ParseObject` | include/rapidjson/reader.h:738-803 | what the grammar says of an object, events and member count included |
| `JsonReader.Reader.ParseArray` | include/rapidjson/reader.h:806-851 | what the grammar says of an array, events and element count included |
| `JsonReader.Reader.ParseValue` | include/rapidjson/reader.h:1736-1755 | what the grammar says of any value |
| `JsonReader.Reader.ParseText` | include/rapidjson/reader.h:557-588 | the whole recursive parse is the grammar's function of the text |
| `JsonReader.Reader.TransitTo` | include/rapidjson/reader.h:1995-2154 | one step of the machine on its real stack |
| `JsonReader.Reader.ParseIteratively` | include/rapidjson/reader.h:2176-2210 | the loop over tokens is the machine's function of the text |
| `JsonMachine.TransitProgress` | include/rapidjson/reader.h:1995-2154 | every step that does not fail reads something and keeps the stack well formed, so the machine stops |
| `JsonMachine.StepKeepsResume` | include/rapidjson/reader.h:1828-2154 | what the recursive parser would still do from a machine state is the same before and after a step |
| `JsonMachine.RunIsResume` | include/rapidjson/reader.h:2176-2210 | running the machine from any well-formed state is finishing the recursive parse from there |
| `JsonMachine.ParsersAgree` | include/rapidjson/reader.h:557-588 | both parsers accept the same texts, stop at the same place and send the same events with the same counts |
| `JsonLayout.TreeIsParsed` | include/rapidjson/reader.h:738-851 | the recursive parser reads every value of the grammar, however it is spaced, to its end, and sends what its tree says |
| `JsonLayout.ParsedHasTree` | include/rapidjson/reader.h:738-851 | whatever the recursive parser reads as a value is a value of the grammar |
| `JsonLayout.ParsersFollowGrammar` | include/rapidjson/reader.h:557-588 | both parsers accept exactly the texts of the grammar and send what their trees say |
| `JsonLayout.TreesSayTheSame` | include/rapidjson/reader.h:557-588 | the grammar is unambiguous |
| `JsonStrings.PairIsRead` | include/rapidjson/reader.h:1020-1031 | every code point from 0x10000 on is read from its surrogate pair, whatever the case of the digits |
| `JsonStrings.UnitIsRead` | include/rapidjson/reader.h:1016-1032 | every four digits that are no high surrogate are read as the UTF-8 of their number |
| `JsonStrings.LetterMeaning` | include/rapidjson/reader.h:992-1003 | the eight one-letter escapes and what they stand for; no other letter is one |
| `JsonStrings.StringsAreSpelled` | include/rapidjson/reader.h:989-1054 | a string is read exactly where it is spelled in plain characters, letter escapes, code points and surrogate pairs, and read as what they stand for |
| `JsonStrings.LoneSurrogateIsNoUtf8` | include/rapidjson/reader.h:1020-1031 | what an escape of four digits becomes is UTF-8 exactly if it is no low surrogate |
| `JsonStrings.BytesSpell` | include/rapidjson/encodings.h:101-119 | the bytes of a scalar value pass the UTF-8 table and add up to it |
| `JsonNumbers.NumbersAreWritten` | include/rapidjson/reader.h:1454-1733 | a number is read exactly where sign, integer, fraction and exponent of section 6 of RFC 8259 stand, and reported in the type its magnitude and sign call for |
| `JsonLeaves.LeavesAreRead` | include/rapidjson/reader.h:853-893 | a value that is no container is read exactly where a literal name, a string or a number stands |
| `JsonStops.HandlerStops` | include/rapidjson/reader.h:557-588 | with any handler, either parser sends what it would send to an indulgent one, up to and including the first event that is refused, and then fails |
| `JsonDom.FlagsDependOnValue` | include/rapidjson/document.h:712-748 | whichever integer constructor builds a number, its type flags depend on its value only |
| `JsonWriter.Writer.Prefix` | include/rapidjson/writer.h:472-490 | the comma or colon before a value, and the counting |
| `JsonWriter.Writer.WriteString` | include/rapidjson/writer.h:376-440 | the quoted text, escapes included |
| `JsonWriter.Writer.Handle` | include/rapidjson/writer.h:181-251 | one handler call on text and level stack |
| `JsonWriter.Accept` | include/rapidjson/document.h:1868-1905 | walking a tree into the writer appends the tree's text after the right separator and changes nothing else |
| `JsonWriter.AcceptArray` | include/rapidjson/document.h:1886-1892 | likewise for an array |
| `JsonWriter.AcceptObject` | include/rapidjson/document.h:1874-1884 | likewise for an object |
| `JsonWriter.WriteValue` | include/rapidjson/writer.h:215-251 | sending a value's events from any state that takes a value appends its text and restores the level stack |
| `JsonWriter.WriterPrints` | include/rapidjson/writer.h:181-251 | from an empty writer the result is the value's text, complete |
| `JsonWriterCalls.WriterTakesValues` | include/rapidjson/writer.h:181-490 | the assertions of the writer hold, and its text is complete, exactly for the calls that make up one value, names and values taking turns in objects |
| `JsonDocument.Document.Handle` | include/rapidjson/document.h:2437-2477 | one handler call on the stack of values |
| `JsonDocument.Document.HandleAll` | include/rapidjson/document.h:2437-2477 | any number of calls |
| `JsonDocument.BothAreFaithful` | include/rapidjson/document.h:2439-2444 | whichever call reports an integer, the document stores the same number and flags |
| `JsonDocument.Rebuild` | include/rapidjson/document.h:2437-2477 | the events of a value put exactly that value on the stack, whatever was there before |
| `JsonRoundTrip.ReadString` | include/rapidjson/reader.h:989-1054 | every escaped string, any bytes, reads back as itself |
| `JsonRoundTrip.ReadNumber` | include/rapidjson/reader.h:1454-1733 | every printed integer reads back as the call for its value |
| `JsonRoundTrip.ReadValue` | include/rapidjson/reader.h:738-851 | reading a value's text inside any text sends the value's events and stops right after it |
| `JsonRoundTrip.ParsePrinted` | include/rapidjson/reader.h:557-588 | either parser reads a printed value to its end |
| `JsonRoundTrip.TreeRoundTrip` | include/rapidjson/document.h:1868-1905 | writing a tree and reading the text rebuilds the same tree, members in order |
| `JsonRoundTrip.TextIsFaithful` | include/rapidjson/writer.h:376-490 | different trees have different texts |
| `JsonShortest.WriterIsShortest` | include/rapidjson/writer.h:181-490 | no text from which the parser gets a tree's events is shorter than the one that is written |
| `JsonRoundTrip.CopyThroughText` | include/rapidjson/document.h:1868-1905 | the same with the writer, reader and document objects at work |
| `JsonDuplicates.EqualToItself` | include/rapidjson/document.h:935-975 | a value equals itself exactly when in every object, at any depth, a repeated name has a value equal to the first one of that name |
| `JsonDuplicates.RepeatsDecide` | include/rapidjson/document.h:928-950 | if only the object itself repeats names: it equals itself exactly when it equals anything, which is exactly when the members of one name have equal values |
| `JsonDuplicates.CommonEqual` | include/rapidjson/document.h:935-975 | values have a common equal exactly when they agree: shapes, items and members, and names that fit one object |
| `JsonDuplicates.EqualToSomething` | include/rapidjson/document.h:928-950 | a value is equal to anything at all exactly when its repeated names agree, at any depth |
| `JsonDuplicates.SymmetricExactly` | include/rapidjson/document.h:935-975 | equality at a value is symmetric exactly when no object in it repeats a name, or nothing equals it |
| `JsonEquality.Transitive` | include/rapidjson/document.h:935-975 | equality is transitive, repeated names or not |
| `JsonEquality.DuplicatesCanBeEqual` | include/rapidjson/document.h:928-950 | an input with repeated names: an object that equals itself, and equality that is one-sided |
| `JsonEquality.MinusOneEqualsLargest` | include/rapidjson/document.h:964-970 | an input: -1 and 2^64 - 1 |
| `JsonEquality.EqualIntegers` | include/rapidjson/document.h:964-970 | stored integers are equal exactly when their values are, or are 2^64 apart |
| `JsonPointer.IndexMeaning` | include/rapidjson/pointer.h:960-977 | the index of a number of any length: its last 32 bits, unless some digit makes the number smaller in 32 bits, which is what the check sees |
| `JsonPointer.IndexIsDecimal` | include/rapidjson/pointer.h:960-977 | the index is the number exactly when that is below 2^32; the largest is the invalid marker |
| `JsonPointer.TenDigitsRejected` | include/rapidjson/pointer.h:966-975 | exactly which numbers of ten digits are rejected, and what the others become |
| `PointerCreate.NumeralIsIndex` | include/rapidjson/pointer.h:955-977 | every number below 2^32 in its usual form is the index it says |
| `PointerCreate.OnlyNumeralsAreIndices` | include/rapidjson/pointer.h:955-977 | no other name has an index: a leading zero, any other character, nothing at all |
| `JsonPointer.OverflowCheckMisses` | include/rapidjson/pointer.h:966-975 | an input that the check misses: 5000000000 |
| `JsonPointer.FindMemberLoop` | include/rapidjson/document.h:1254-1262 | the position of the first member of a name, or none |
| `JsonPointer.PushNulls` | include/rapidjson/pointer.h:483-487 | an array padded with nulls up to an index |
| `JsonPointer.Enter` | include/rapidjson/pointer.h:465-505 | one round of `Create`: change of type, padding or a new member, and whether the place was there |
| `JsonPointer.Tree.CreateValue` | include/rapidjson/pointer.h:461-507 | the loop over the tokens changes the tree as the recursive form says |
| `JsonPointer.Tree.GetValue` | include/rapidjson/pointer.h:539-567 | the path a pointer resolves to, or the first token that does not resolve |
| `JsonPointer.CreatedNode` | include/rapidjson/pointer.h:461-507 | the created node holds what was there before, or a null |
| `JsonPointer.ExistedMeansResolved` | include/rapidjson/pointer.h:461-507 | alreadyExist is true exactly when `Get` resolved beforehand, and then nothing has changed |
| `JsonPointer.GetAfterCreate` | include/rapidjson/pointer.h:461-567 | afterwards `Get` resolves to the created node exactly when no "-" has met an array, and otherwise to nothing |
| `JsonPointer.DashIsNotFound` | include/rapidjson/pointer.h:461-567 | an input for which they disagree: "-" on an empty array |
| `JsonPointer.CreateTwice` | include/rapidjson/pointer.h:461-507 | creating again changes nothing and reports that the value exists |
| `JsonPointer.OthersStay` | include/rapidjson/pointer.h:461-507 | other pointers resolve to the same places, with the same values unless they lie above the new node |
| `JsonPointer.CreateKeepsOthers` | include/rapidjson/pointer.h:461-507 | all other pointers keep resolving exactly when no array with elements is turned into an object |
| `JsonPointer.SetThenGet` | include/rapidjson/pointer.h:670-672 | what has been set is what `Get` finds |
| `JsonPointer.SetKeepsOthers` | include/rapidjson/pointer.h:670-672 | pointers neither above nor below the node keep their values |
| `PointerCreate.DashAppends` | include/rapidjson/pointer.h:466-470 | "-" on an array appends one item |
| `PointerCreate.IndexOnArray` | include/rapidjson/pointer.h:482-490 | an index on an array goes to that item; too short an array is padded with nulls |
| `PointerCreate.NameOnArray` | include/rapidjson/pointer.h:473-476 | a name that is no index replaces an array by an object of one member |
| `PointerCreate.AnyOnObject` | include/rapidjson/pointer.h:491-500 | any token on an object is a member name, the first of that name, or a new member at the end |
| `PointerCreate.AnyOnOther` | include/rapidjson/pointer.h:472-500 | what an index or a name makes of a value that is no container: an array of exactly index + 1 items, all null before the last, or an object of one member |
| `PointerCreate.PathFromNothing` | include/rapidjson/pointer.h:461-507 | along a whole path created from a value that is no container, each token makes exactly the container it asks for, and the last one holds a null |
| `PointerText.ScalarIsSequence` | include/rapidjson/encodings.h:179-220 | the UTF-8 of every scalar value passes the table check |
| `PointerText.SequenceIsScalar` | include/rapidjson/encodings.h:179-220 | whatever passes the table check is the UTF-8 of a scalar value |
| `PointerText.PrintName` | include/rapidjson/pointer.h:1008-1031 | the printed form of a name, or failure |
| `PointerText.ParsePrinted` | include/rapidjson/pointer.h:862-1032 | what has been printed, in either form, parses to the same names |
| `PointerText.PrintParseRoundTrip` | include/rapidjson/pointer.h:862-1032 | printing succeeds for all names as a string, and as a URI fragment exactly for UTF-8 names; parsing undoes it |
| `PointerText.ParsePrintRoundTrip` | include/rapidjson/pointer.h:862-1032 | a pointer in string form is the print of its own names |
| `PointerText.FragmentRoundTrip` | include/rapidjson/pointer.h:862-1032 | the names of a parsed URI fragment are UTF-8; they print as a fragment that parses to the same names |
| `PointerGrammar.PointersAreParsed` | include/rapidjson/pointer.h:862-992 | the texts that parse are exactly those of solidi and names in plain characters, escapes and, in a fragment, percent-encoded scalar values; the names are what these stand for |
| `PointerGrammar.FaultsAreRejected` | include/rapidjson/pointer.h:862-992 | every other text is rejected for its first fault: which error, and at which offset |
| `PointerGrammar.FragmentIsPrinted` | include/rapidjson/pointer.h:1008-1031 | in a fragment exactly the scalar values outside the unreserved characters are percent-encoded, as whole sequences with capital digits |
| `PointerGrammar.StringIsPrinted` | include/rapidjson/pointer.h:1008-1031 | as a string only the tilde and the solidus are escaped |
| `PointerParser.TakePercent` | include/rapidjson/pointer.h:1051-1075 | a percent triplet becomes its byte, or failure |
| `PointerParser.Validate` | include/rapidjson/encodings.h:179-201 | a percent-encoded UTF-8 sequence is copied into the buffer and checked; no more than the buffer holds is written |
| `PointerParser.DecodePiece` | include/rapidjson/pointer.h:905-948 | one round of the loop over a name, with its three errors and their offsets |
| `PointerParser.DecodeName` | include/rapidjson/pointer.h:901-951 | the loop over a name fills the buffer with it |
| `PointerParser.ToIndex` | include/rapidjson/pointer.h:955-977 | the index of the name in the buffer |
| `PointerParser.Pointer.constructor` | include/rapidjson/pointer.h:862-992 | the tokens spell the parsed names in a buffer as long as the source, each ended by a NUL; or the error and its offset |
| `PoolAllocator.MallocKeeps` | include/rapidjson/allocators.h:189-201 | as long as no sum wraps, an allocation hands out an aligned block of at least the size inside its chunk and apart from all others, or changes nothing |
| `PoolAllocator.MallocIsExact` | include/rapidjson/allocators.h:189-201 | a returned pointer stands for memory of the size asked for exactly when no sum has wrapped at 64 bits |
| `PoolAllocator.HugeRequestTakesNothing` | include/rapidjson/allocators.h:189-201 | an input for a sum that wraps: 2^64 - 1 bytes |
| `PoolAllocator.MallocServes` | include/rapidjson/allocators.h:189-201 | there is memory exactly when the head chunk has room or the base allocator has a new chunk; it comes from the head chunk if it can, else from one chunk of the larger of the chunk capacity and the request |
| `PoolAllocator.NothingForNothing` | include/rapidjson/allocators.h:189-209 | 0 bytes: NULL, and nothing changes |
| `PoolAllocator.ReallocServes` | include/rapidjson/allocators.h:211-235 | the same for a reallocation: which of the three ways it goes, and when it ends in NULL |
| `PoolAllocator.ReallocOfNull` | include/rapidjson/allocators.h:205-206 | reallocating NULL is allocating |
| `PoolAllocator.ReallocInPlace` | include/rapidjson/allocators.h:214-225 | growing in place keeps the address; it happens to the last block of the head chunk |
| `PoolAllocator.ReallocElsewhere` | include/rapidjson/allocators.h:227-235 | any other growth hands out a new block and keeps the old one |
| `PoolAllocator.CopyPreserves` | include/rapidjson/allocators.h:228-231 | the old contents come along, and no other block changes |
| `PoolAllocator.AddChunkKeeps` | include/rapidjson/allocators.h:250-262 | a new chunk keeps every block where it is |
| `PoolAllocator.ClearKeeps` | include/rapidjson/allocators.h:158-166 | clearing leaves the user buffer only, empty |
| `PoolAllocator.MemoryPoolAllocator.MallocHere` | include/rapidjson/allocators.h:189-201 | the allocator object after an allocation; if a sum wraps, too |
| `PoolAllocator.MemoryPoolAllocator.ReallocHere` | include/rapidjson/allocators.h:204-235 | the allocator object after a reallocation, contents of all blocks included |
| `PoolAllocator.MemoryPoolAllocator.Resize` | include/rapidjson/allocators.h:204-235 | the same for a block handed out: in place, elsewhere or not at all |
| `PoolAllocator.MemoryPoolAllocator.ClearHere` | include/rapidjson/allocators.h:158-166 | the allocator object after clearing |
| `PoolAllocator.MemoryPoolAllocator.Size` | include/rapidjson/allocators.h:181-186 | the bytes in use are those of the handed-out blocks, rounded up |
| `Sha256.ConstantsAreCubeRoots` | src/SHA256.cpp:89-106 | the round constants are the fractional bits of the cube roots of the listed numbers, as section 4.2.2 of FIPS 180-4 says |
| `Sha256.InitialIsSquareRoots` | src/SHA256.cpp:194-202 | the initial hash holds the fractional bits of the square roots of the first eight listed numbers |
| `Sha256Primes.ListedPrimes` | src/SHA256.cpp:89-106 | the listed numbers are the first 64 primes |
| `Sha256.PaddingMeaning` | src/SHA256.cpp:477-486 | the padding is 0x80, zero bytes and the length in bits modulo 2^64, high byte first |
| `Sha256Example.HashOfAbc` | src/SHA256.cpp:499-505 | the hash of "abc" is the one the standard gives, step by step through all 64 rounds |
| `Sha256.PaddingFits` | src/SHA256.cpp:477-486 | the padding completes a block |
| `Sha256.PaddingIsLeast` | src/SHA256.cpp:477-481 | no fewer zero bytes would |
| `Sha256.DigestConcat` | src/SHA256.cpp:446-456 | blocks can be digested in any portions |
| `Sha256Context.ChIsChoose` | src/SHA256.cpp:69 | the source's choice function is the one of section 4.1.2 |
| `Sha256Context.MajIsMajority` | src/SHA256.cpp:70 | the source's majority function is the one of section 4.1.2 |
| `Sha256Context.LoadSwapped` | src/SHA256.cpp:117-118 | byte-swapping a little-endian load gives the big-endian word |
| `Sha256Context.StoreSwapped` | src/SHA256.cpp:117-118 | storing a byte-swapped word gives its bytes high first |
| `Sha256Context.DoRound` | src/SHA256.cpp:76-87 | one round with the source's functions and assignments is the round of section 6.2.2 |
| `Sha256Context.Schedule` | src/SHA256.cpp:225-244 | the schedule array holds the words of section 6.2.2 |
| `Sha256Context.Context.Guts` | src/SHA256.cpp:216-418 | the hash array becomes the compression of its old value and the block |
| `Sha256Context.Context.Update` | src/SHA256.cpp:420-469 | any bytes, any state of the buffer: the context stands for the message so far |
| `Sha256Context.Context.Finalize` | src/SHA256.cpp:471-496 | the destination gets the hash of everything fed in |
| `Sha256Context.ComputeSha256` | src/SHA256.cpp:499-505 | the one-shot hash, also when input and destination are the same array |
| `Sha256Context.HashAgain` | src/BitcoinAddress.cpp:28 | a hash hashed again in place |
| `Sha256Context.HashPieces` | src/SHA256.cpp:420-496 | however a message is cut into updates, the hash is that of the whole |
| `Crc32.TableIsSteps` | src/CRC32.cpp:6-40 | every table entry is eight reflected steps of the polynomial 0xEDB88320 on its index |
| `Crc32.NextIsRemainder` | src/CRC32.cpp:50 | one table look-up is eight steps of the division, bit by bit |
| `Crc32.CRC32` | src/CRC32.cpp:44-54 | the loop computes the remainder of the buffer's bits |
| `Crc32.CrcConcat` | src/CRC32.cpp:44-54 | the CRC of two parts is that of the second seeded with that of the first |
| `Crc32.CrcLinear` | src/CRC32.cpp:44-54 | the CRC is linear over exclusive or in buffer and seed |
| `Crc32.SeedMatters` | src/CRC32.cpp:44-54 | different seeds give different results |
| `Crc32.BurstChangesRemainder` | src/CRC32.cpp:44-54 | changes within 32 neighbouring bits always change the remainder |
| `Crc32.ChangedBytesDetected` | src/CRC32.cpp:44-54 | changing up to four neighbouring bytes, one for instance, always changes the CRC |
| `Crc32.OwnCrcGivesZero` | src/CRC32.cpp:44-54 | a buffer followed by its own CRC has CRC zero |
| `Crc32.CheckValue` | src/CRC32.cpp:44-54 | the digits 1 to 9, begun with all ones, give the customary check value |
| `Varint.DecodeEncode` | include/CBlockIndex.h:206-229 | reading undoes writing |
| `Varint.EncodeDecode` | include/CBlockIndex.h:206-229 | writing undoes reading: every terminated string is the form of a number, and the only one |
| `Varint.ValueByLength` | include/CBlockIndex.h:206-229 | a string of k bytes stands for a number after all those of shorter strings |
| `Varint.LengthByValue` | include/CBlockIndex.h:206-229 | the strings of k bytes stand for exactly 128^k numbers in a row |
| `Varint.OrderOfValues` | include/CBlockIndex.h:206-229 | numeric order is: shorter first, then lexicographic |
| `Varint.NineBytesFit` | include/CBlockIndex.h:206-229 | up to nine bytes nothing is lost in 64 bits |
| `Varint.FitsUpToLargest` | include/CBlockIndex.h:206-229 | a string fits 64 bits exactly when it does not come after the form of the largest number |
| `Varint.TenBytesCanWrap` | include/CBlockIndex.h:206-229 | an input that does not fit: the largest ten-byte string |
| `Varint.ReadVarint128` | include/CBlockIndex.h:206-229 | the loop ends after the terminating byte with the value modulo 2^64 |
| `BlockIndex.StatusMeaning` | include/CBlockIndex.h:119-121 | which bits of the status say what |
| `BlockIndex.NumbersAreListed` | include/CBlockIndex.h:45-55 | the four layouts: which numbers stand there, and in which order |
| `BlockIndex.CBlockIndex.ReadNumbers` | include/CBlockIndex.h:165-182 | the numbers of a record, three of them only if the status says so |
| `BlockIndex.CBlockIndex.ReadHeader` | include/CBlockIndex.h:183-190 | the eighty bytes of the header |
| `BlockIndex.CBlockIndex.ReadBlockIndex` | include/CBlockIndex.h:155-196 | every record of the documented layout is read back, and the end is its end |
| `ChainBuilder.WalkEnds` | src/BlockChain.cpp:1261-1267 | the walk comes to a missing parent exactly when it does not run into a cycle |
| `ChainBuilder.WalkIsBounded` | src/BlockChain.cpp:1261-1267 | without cycles there are no more ancestors than headers |
| `ChainBuilder.BlockChain.CountBlocks` | src/BlockChain.cpp:1259-1267 | the first walk counts the ancestors |
| `ChainBuilder.BlockChain.Gather` | src/BlockChain.cpp:1270-1281 | the second walk fills the array from its end, every slot and no other |
| `ChainBuilder.BlockChain.BuildBlockChain` | src/BlockChain.cpp:1249-1287 | the array is the chain of the last header, and the count its length; without a scan nothing changes |
| `ChainBuilder.ChainIsAncestry` | src/BlockChain.cpp:1249-1287 | the entries are exactly the last header and its ancestors, oldest first |
| `ChainBuilder.ChainIsDistinct` | src/BlockChain.cpp:1249-1287 | no entry is repeated |
| `ChainBuilder.ChainIsUnique` | src/BlockChain.cpp:1249-1287 | links and ends determine the array |
| `BlockReader.BlockImpl.ReadVariableLengthInteger` | src/BlockChain.cpp:401-433 | a length as the source reads it, or an abort |
| `BlockReader.BlockImpl.ReadInputHere` | src/BlockChain.cpp:445-473 | an input: hash, index, script and sequence number |
| `BlockReader.BlockImpl.ReadOutputHere` | src/BlockChain.cpp:553-575 | an output: value and script; the reward grows by the value in 64 bits |
| `BlockReader.BlockImpl.TakeInputs` | src/BlockChain.cpp:851-880 | the inputs of a transaction stand behind those already in the common array |
| `BlockReader.BlockImpl.TakeOutputs` | src/BlockChain.cpp:882-913 | likewise the outputs |
| `BlockReader.BlockImpl.ReadTransactionHere` | src/BlockChain.cpp:832-940 | one transaction: arrays, totals and record; false without inputs |
| `BlockReader.BlockImpl.ProcessBlockData` | src/BlockChain.cpp:966-1002 | a whole block from zeroed totals: arrays, totals, reward and every record; the records abut in the file, their slices fill the used parts of the arrays |
| `BlockFormat.TransactionsTile` | src/BlockChain.cpp:832-1002 | the transactions occupy consecutive, gap-free byte ranges inside the block |
| `BlockFormat.TransactionsAreRead` | src/BlockChain.cpp:986-999 | each is what is read where it begins |
| `BlockFormat.TransactionLiesInside` | src/BlockChain.cpp:832-940 | hashes and scripts of a transaction lie inside its bytes |
| `BlockFormat.InputsPartition` | src/BlockChain.cpp:858-859 | the input slices of the transactions follow each other in the common array |
| `BlockFormat.OutputsPartition` | src/BlockChain.cpp:889-890 | likewise the output slices |
| `BlockFormat.TotalsAreBounded` | src/BlockChain.cpp:860-895 | the common arrays never overflow |
| `BlockFormat.RewardConcat` | src/BlockChain.cpp:560 | the reward of two lists of outputs is that of one added after the other, in 64 bits |
| `BlockRoundTrip.ReadTransactionBack` | src/BlockChain.cpp:832-940 | a written transaction is read back, and one without inputs refused |
| `BlockRoundTrip.TransactionIsWritten` | src/BlockChain.cpp:832-940 | an accepted transaction is one that is written there, within the limits |
| `BlockRoundTrip.BlockRoundTrips` | src/BlockChain.cpp:966-1002 | a written block is read back: header field by field, every transaction, and exactly to its end |
| `BlockRoundTrip.ReadIsWritten` | src/BlockChain.cpp:832-1002 | data is read as a block exactly if a block within the limits is written at its beginning, lengths in any of their forms |
| `BlockRoundTrip.StoppedIsCutShort` | src/BlockChain.cpp:832-1002 | reading stops early exactly at a transaction without inputs behind others that are written; all else ends in an abort |
| `BlockDisplay.BlockIsDisplayed` | src/BlockChain.cpp:832-1002 | after reading a written block, each record and its slices of the arrays show the transaction written: version, inputs, outputs, lock time, length, places, number and the hash of its bytes |
| `BlockDisplay.RewardIsWorth` | src/BlockChain.cpp:560 | the reward is the value of all outputs written, in 64 bits |
| `BlockRoundTrip.CompactSizeIsRead` | src/BlockChain.cpp:401-433 | lengths in the protocol's CompactSize format are understood exactly below 0xFFFF |
| `BlockRoundTrip.LimitIsMisread` | src/BlockChain.cpp:401-433 | an input that is misread: the length 0xFFFF |
| `HeapSort.LeftChildFits` | include/HeapSort.h:41 | the left child of every index fits 32 bits exactly for sizes up to 2^30 |
| `HeapSort.Sorter.Largest` | include/HeapSort.h:43-56 | the largest of a node and its children |
| `HeapSort.Sorter.SwapDown` | include/HeapSort.h:59-68 | moving the larger child up keeps the heap but for one place |
| `HeapSort.Sorter.ShiftRight` | include/HeapSort.h:38-75 | sifting down makes a heap one node larger and touches nothing else |
| `HeapSort.Sorter.Heapify` | include/HeapSort.h:77-89 | the whole array becomes a heap |
| `HeapSort.Sorter.RootIsMaximum` | include/HeapSort.h:13-15 | the root of a heap is its maximum |
| `HeapSort.Sorter.Extract` | include/HeapSort.h:19-27 | putting the maximum behind the heap puts it in its final place |
| `HeapSort.Sorter.Sort` | include/HeapSort.h:11-31 | sorted, a permutation, and the rest of the array as it was |
| `Handoff.InvAlways` | src/InputLine.cpp:29-89 | who may touch what, and where each line is, in every state of every run |
| `Handoff.NeverWrittenWhileCopied` | src/InputLine.cpp:72-89 | while the main thread copies the buffer, the reader neither writes it nor is about to |
| `Handoff.LinesInOrder` | src/InputLine.cpp:29-89 | the non-empty lines read come out once each and in order, at most one waiting |
| `HandoffProgress.EverythingCanBeReturned` | src/InputLine.cpp:29-89 | every run can go on until each line delivered, and if it is not told to stop each line of the input, has been returned, once and in order |
| `Handoff.WakeupIsNotLost` | src/WakupThread.cpp:23-43 | once `wakeup` has completed, the next `goToSleep` to finish returns true |
| `Handoff.OversleptCause` | src/WakupThread.cpp:23-43 | in every run: if a line waits while the main thread sleeps and no signal is pending or coming, the signal was taken too early or nobody has looked since |
| `Handoff.OversleptWasEarly` | src/InputLine.cpp:41-45 | if the caller looks between sleeps, the signal was last taken while the reader stood between the signal and the announcement of that very line |
| `Handoff.EarlyTakeOversleeps` | src/InputLine.cpp:41-45 | every run that comes to such a taking can go on to oversleep, still looking between sleeps |
| `Handoff.OversleepsExactlyIfEarly` | src/InputLine.cpp:41-45 | a run whose caller looks between sleeps can go on to oversleep after taking a signal exactly when it takes it there |
| `Handoff.OversleptIsReachable` | src/InputLine.cpp:41-45 | an input for that: any non-empty line has a run in which it is overslept |
| `Handoff.OversleptStays` | src/WakupThread.cpp:31-43 | from there only the end of the wait itself helps |

## Left out

- Base58: characters outside the alphabet, texts longer than 255 characters and checksums are not modelled; the decoder takes valid texts of length 1 to 255, which is what its counters and buffer are made for.
- JSON numbers: a double is its lexeme; which doubles are finite is a parameter of the parsers, and so the conversion to and from doubles is not modelled.
- JsonReader.Reader.ParseNumber: a double is reported by its lexeme.
- JsonWriter.Writer.Handle: doubles are not written, since their text comes from `internal/dtoa.h`, which is not part of this model.
- JsonDocument.Document.Handle: doubles are not stored; the trees hold integers only, and so do `JsonDocument.Document.HandleAll` and the round trips.
- JSON reader: comments, NaN and Infinity, numbers as strings, in-situ parsing, encoding validation, SIMD skipping, UTF-16 and UTF-32, error codes and offsets, and parsing one token at a time (`IterativeParseNext`) are not modelled.
- JSON reader: the machine's two stack cells per open container are one pair here.
- JSON document: trees are values here; capacity, ownership and moved-from values are not modelled. The document's calls are made after the parse, not during it.
- JsonPointer.Tree.CreateValue: the cursor into the tree is a path, not an address; array sizes are not bounded by 32 bits.
- JsonPointer.SetThenGet: the overloads of `Set`, `GetWithDefault`, `Swap` and `Erase` would add nothing harder.
- PointerParser.Pointer.constructor: a read of the character after the end of the source, which can only lead to an error, is not modelled.
- PoolAllocator.MallocKeeps: the base allocator is a function of the size that returns aligned memory not in use, or 0; user buffers are aligned.
- PoolAllocator.MemoryPoolAllocator.MallocHere: the chunk list is a sequence and not linked through memory.
- Rand: the floating-point draw `Ranf` is not modelled.
- Sha256Context.Context.Guts: the 64 unrolled rounds are a loop here; the stack burning has no effect on results and is not modelled. The 64-bit total is a number modulo 2^64.
- JsonLayout.ParsersFollowGrammar: the handler never stops the parser; `JsonStops.HandlerStops` is about those that do. Strings and numbers are single words of this grammar; `JsonStrings` and `JsonNumbers` have their parts.
- JsonShortest.WriterIsShortest: for trees of integers, like the round trips; `JsonWriterCalls.WriterTakesValues` is about calls without doubles.
- SHA-256: messages of whole bytes only; `src/RIPEMD160.cpp` repeats the padding argument.
- BlockReader.BlockImpl.ReadOutputHere: the classification of scripts and the addresses made from them are not modelled.
- BlockReader.BlockImpl.ReadTransactionHere: the double hash is a parameter; `Sha256Context.HashAgain` is about computing it.
- BlockReader: `processTransactionData`, printing, logging and the file layer are not modelled; failed assertions and exits are one outcome, an abort.
- ChainBuilder.BlockChain.BuildBlockChain: hash collisions inside the set do not arise, since the set is a map from hash to header.
- HeapSort.Sorter.Heapify: the low index is 0, as in the only call of this private method; for another one it need not make a heap.
- HeapSort.Sorter.Sort: the array holds values and not pointers; the comparison is a total preorder and does not change while sorting.
- Handoff: the destructor, lines longer than the buffer, memory order and the waking of other threads are not modelled; a wait may end at any time, and nothing is claimed about when.
- LevelDB, files, the command line, day statistics and `include/rapidjson/schema.h` are not part of this model.
