# ada::idna, verified

A Dafny model of the algorithms of ada::idna: internationalised domain names to ASCII and back
(UTS #46), with everything they stand on. Each modelled loop of the C++ and Python sources is a method
with the same branches, guards and update order, proved against a function; the functions carry the
theorems. `dafny verify dfyconfig.toml` checks everything.

## Layout

| files | subject |
|---|---|
| `Basics`, `Conversions` | shared vocabulary; bytes and code points as words and as integers |
| `PunycodeIntegers`, `Punycode`, `PunycodeImpl`, `PunycodeEncoder`, `PunycodeStandard` | src/punycode.cpp: codec functions and theorems, 32-bit decoder and verifier loops, encoder loop; the parameters and samples of RFC 3492 |
| `UnicodeData`, `CanonicalOrder`, `Normalization`, `CompositionAlgorithm`, `NormalizationFastPath`, `NormalizationStops`, `HangulStandard` | normalization over abstract character data: ordering, decomposition, composition, quick check, independence on both sides of a dot; section 3.12 of the Unicode Standard in code points |
| `NormalizationTables`, `NormalizationImpl` | the multi-stage tables and the in-place loops of src/normalization.cpp |
| `Bits`, `HuffmanCodes`, `Deflate`, `DeflateEncoding`, `DeflateStream`, `DeflateAccepted`, `DeflateExample` | RFC 1951 as bit strings: codes, a parser, a writer with the tables of the standard as formulas, the theorems that they are inverse in both directions, and a block in literal bytes |
| `BitReading`, `HuffmanImpl`, `InflateImpl` | src/raw_inflate.hpp |
| `Crc`, `TableStore` | src/table_store.hpp: checksum and the lock-free initialisation protocol |
| `Utf8`, `Transcoding`, `TranscodingImpl` | src/unicode_transcoding.cpp against RFC 3629 |
| `Ranges`, `LabelRules`, `ValidityImpl`, `LabelLaws` | src/validity.cpp against RFC 5892 and RFC 5893; label validity in one pass |
| `IdnaStrings`, `IdnaTable`, `IdnaGenerator`, `AsciiMapping`, `Mapping` | src/mapping.cpp and scripts/idna_table.py |
| `Multistage`, `UcdTables`, `CompositionTables`, `GeneratedFacts`, `CompositionExclusions` | scripts/unicode_data_table.py |
| `Domains`, `DomainRoundTrip`, `DomainLaws`, `DomainSizes`, `DomainsImpl` | src/to_ascii.cpp and src/to_unicode.cpp |

## How the model reads

- Strings that the source edits in place (`std::u32string&`) are objects of class `Text` whose
  field the methods reassign; output buffers, Huffman tables and the verifier's four
  slots are arrays; `BitReader` and `Huff` are classes with the source's fields.
- The contents of the Unicode tables are data, so theorems about normalization take the facts they
  need as one hypothesis, `UnicodeData.Facts`. `GeneratedFacts.BuildTables` proves that the tables
  the generator builds have these facts, given facts about the raw fields of the Unicode Character
  Database (`GeneratedFacts.UcdFacts`: acyclic mappings, canonical order of full decompositions,
  unique composites whose second part has no mapping, Hangul characters are starters and stand apart).
  The theorems about domains add facts about the mapping data: `Domains.Lowercases` (mapped text has
  no upper-case ASCII in its decompositions), `DomainRoundTrip.PlainAscii` (lower-case ASCII is valid,
  its characters are starters that do not compose with what is before them, and the dot composes with
  nothing), `DomainLaws.ClosedData` (what mapping keeps or writes decomposes to valid characters,
  and composites of valid characters and Hangul syllables are valid) and `DomainSizes.SmallData` (no mapping or decomposition is longer than 256).
- Canonical equivalence is defined without the algorithm: two strings are equivalent if, for every
  combining class, their decompositions look the same with all other marks blanked out
  (`Normalization.Equivalent`). `CanonicalOrder` proves that exchanges of neighbouring marks keep
  these views and that sorting is a chain of such exchanges.
- Where writer and reader, or method and function, share a constant or a formula, a lemma says what it
  has to be without naming it: `DeflateEncoding` writes with the formulas of RFC 1951 and
  `DeflateExample` reads literal bytes; `HangulStandard` and `PunycodeStandard` hold literals and the
  samples of their standards; `LabelLaws` reads labels with class numbers; `Crc.CheckValue` is the
  check value of the checksum.
- In Punycode the decoder's counters are functions of the output produced so far (`Top`, `Index`,
  `BiasAfter`), which turns both round trips into inductions over the output.
- Concurrency is an interleaving model: `TableStore.Next` is one atomic step of one thread, and the
  theorems quantify over every schedule of any number of threads.
- Fixed-width integers are explicit where they matter: `int32` and `uint32` in the Punycode loops
  (leaving the range would be a verification error), bit vectors in UTF-8, CRC and the
  eight-bytes-at-a-time operations.

## Where the code and its promises part

- Encoding success does not imply decodability: a label of 1999 times U+0080 and one U+1062CD
  encodes and the result is rejected (`Punycode.LongStringNotDecoded`). `Punycode.DecodeEncode`
  gives the exact condition for all strings; `Punycode.ShortRoundTrip` a length that suffices.
- `verify_punycode` is meant to accept what the decoder accepts; it also accepts "-a", because it
  drops a leading delimiter that the decoder rejects. `PunycodeImpl.VerifierAgrees` is exact.
- `is_already_nfc` is sound but does not recognise every string in Normalization Form C
  (`NormalizationFastPath.QuickCheckIncomplete`, U+00E1 U+0316).
  `NormalizationFastPath.QuickCheckExact`: it recognises a normalized string exactly if its canonical
  decomposition needs no reordering.
- The generator of the mapping table does not bound the mixed blocks. `IdnaTable.TwoLevelExact`: the
  lookup is right for every code point exactly if the flat table has at most 512 distinct blocks that
  are not all valid or disallowed; `IdnaTable.CrowdedTableIsWrong` has one with 513.
  `IdnaGenerator.LookupExact` says the same of the lines of the mapping table, and that ignored code
  points above U+E0000 have to form one range, which the generator assumes.
- A code length repeat in a dynamic DEFLATE block may run past the 320 entries of `lens`; the source
  does not check. `DeflateEncoding.OverrunExact`: it does exactly if the transmitted operations spell
  out more than 320 lengths; `DeflateStream.OverrunningStream` is such a stream.
- Inflating rejects neither over-subscribed codes nor a last repeat that reaches past the code lengths
  asked for. Apart from that, `DeflateAccepted.InflateExact`: whatever inflates is a stream of blocks as
  RFC 1951 writes them and yields what they expand to, and every such stream without over-subscribed
  codes inflates.
- `to_unicode` does not show everything that `to_ascii` accepted: `DomainLaws.ToUnicodeOfToAscii` says
  that the mapped and normalized text comes back exactly if the name is within the size limit, no
  label of the text is a decodable ACE label, and every label that is not ASCII can be decoded again.
- `to_ascii` does not accept everything that `to_unicode` makes of a lower-case ASCII domain: it fails
  on "xn--4ca.xn--" (`DomainRoundTrip.MixedDomainFails`). `DomainRoundTrip.RoundTripExact`: the domain
  comes back exactly if no label was replaced, or every ACE label is acceptable and the text is within
  the size limit.

## Model
| member | source | states |
|---|---|---|
| PunycodeIntegers.AdaptBound | src/punycode.cpp:25-38 | For every 31-bit delta and any number of points, the adapted bias is at most 198. |
| PunycodeIntegers.SecondGuardNeverFires | src/punycode.cpp:76-87 | Whenever the digit guard has passed and another digit follows, the weight times 36-t still fits 31 bits: the second overflow guard of the digit loop never rejects. |
| PunycodeIntegers.ReadInRange | src/punycode.cpp:64-88 | Reading an integer never lowers the index and never leaves 31 bits. |
| PunycodeIntegers.DigitsBounded | src/punycode.cpp:64-88 | One integer has at most ten digits, whatever the input: the digit loop is bounded by a constant. |
| PunycodeIntegers.ReadWritten | src/punycode.cpp:64-88 | Reading the digits written for a number gives it back, and what follows, whenever the sum fits 31 bits (section 3.3 of RFC 3492). |
| PunycodeIntegers.WrittenRead | src/punycode.cpp:227-238 | Whatever is read as a number is exactly the digits the encoder writes for it. |
| Punycode.IndexZero | src/punycode.cpp:89 | The decoder index is zero exactly while only basic code points have been produced, so `oldi == 0` marks the first delta as `h == b` does in the encoder. |
| Punycode.InsertState | src/punycode.cpp:89-100 | After any insertion the decoder counters n and i are the largest code point and one past its last position in the output. |
| Punycode.EarlierState | src/punycode.cpp:209-246 | Removing the last insertion from a string gives the counters before it. |
| Punycode.DecodeEncode | src/punycode.cpp:189-248 | For every string that encodes, decoding the result returns it exactly if every step fits 31 bits (`Decodable`) and it does not begin with "xn--"; otherwise decoding fails. |
| Punycode.ShortRoundTrip | src/punycode.cpp:40-109 | Scalar values of length n with n * 0x110000 <= 2^31 always encode, and decode to the same string unless it begins with "xn--". |
| Punycode.LongStringNotDecoded | src/punycode.cpp:76-79 | A concrete string of scalar values whose encoding succeeds and is rejected by the decoder. |
| Punycode.EncodeDecode | src/punycode.cpp:40-109 | Every accepted payload that decodes to scalar values re-encodes to the same bytes. |
| PunycodeImpl.AdaptBias | src/punycode.cpp:25-38 | The 32-bit bias adaptation computes section 6.1 of RFC 3492 and stays within 0 to 198. |
| PunycodeImpl.AddDigit | src/punycode.cpp:76-79 | The division guard accepts exactly the digits whose weighted sum fits 31 bits. |
| PunycodeImpl.ReadDelta | src/punycode.cpp:64-88 | The 32-bit digit loop reads exactly what the unbounded specification reads, or fails exactly when it does. |
| PunycodeImpl.PunycodeToUtf32 | src/punycode.cpp:40-109 | The decoder loop, with all 32-bit arithmetic in range for every input shorter than 2^31-1, accepts exactly what `Punycode.Decode` accepts and yields its result. |
| PunycodeImpl.ShiftIn | src/punycode.cpp:169-178 | Shifting four slots keeps them equal to the first four entries of the list with the insertion made. |
| PunycodeImpl.VerifyPunycode | src/punycode.cpp:111-187 | The four-slot verifier accepts exactly the payloads that decode once a leading delimiter is dropped. |
| PunycodeImpl.VerifierAgrees | src/punycode.cpp:111-187 | Its answer is the decoder answer whenever the last delimiter is not at index 0; if it is, exactly if the payload without it does not decode. |
| PunycodeImpl.LeadingDelimiterRejected | src/punycode.cpp:46-62 | The decoder rejects every payload whose last delimiter is at index 0. |
| PunycodeImpl.VerifierAcceptsMore | src/punycode.cpp:111-133 | The verifier accepts "-a" and the decoder rejects it. |
| PunycodeEncoder.InsertionStep | src/punycode.cpp:220-243 | When the scan meets the current code point, what is written so far is one insertion short of what is written after it, and delta is the distance the decoder will add. |
| PunycodeEncoder.OverflowIsFinal | src/punycode.cpp:215-226 | If the running delta exceeds 31 bits the string has no encoding at all, so giving up is right. |
| PunycodeEncoder.EncodePass | src/punycode.cpp:219-245 | One pass over the input for one code point appends the integers of all its occurrences and keeps the relation between delta, bias, h and the output. |
| PunycodeEncoder.Utf32ToPunycode | src/punycode.cpp:189-248 | The encoder loop succeeds exactly if the string has an encoding and appends it to the output. |
| PunycodeStandard.AdaptStandard | src/punycode.cpp:25-38 | Section 6.1 of RFC 3492 without the loop: d is delta/700 first and delta/2 later, e = d + d/points, j the least number of divisions by 35 that leaves at most 455, and the bias 36 j + 36 (e/35^j) / (e/35^j + 38). |
| PunycodeStandard.ParametersStandard | src/punycode.cpp:13-23 | Thresholds, digits and initial values are those of section 5 of RFC 3492, in numbers. |
| PunycodeStandard.TwoDecodes | src/punycode.cpp:40-109 | "4ca0b" decodes to U+00E4 U+00F6. |
| PunycodeStandard.TwoEncodes | src/punycode.cpp:189-248 | U+00E4 U+00F6 encodes to "4ca0b". |
| PunycodeStandard.SchoolDecodes | src/punycode.cpp:40-109 | Sample L of section 7.1 of RFC 3492, "3B-ww4c5e180e575a65lsy2b", decodes to its eight characters. |
| PunycodeStandard.SchoolEncodes | src/punycode.cpp:189-248 | Sample L encodes to its published form. |
| UnicodeData.HangulRoundTrip | src/normalization.cpp:333-357 | Hangul decomposition followed by composition gives every syllable back. |
| UnicodeData.HangulParts | src/normalization.cpp:82-92 | Composed Hangul syllables decompose to the jamo they were composed from. |
| HangulStandard.Blocks | src/normalization.cpp:11-20 | The syllables are U+AC00 to U+D7A3 and the jamo the three ranges of section 3.12 of the Unicode Standard, in code points. |
| HangulStandard.EverySyllable | src/normalization.cpp:333-357 | Every code point from U+AC00 to U+D7A3 is the syllable of such a triple. |
| HangulStandard.SyllableDecomposes | src/normalization.cpp:82-92 | For l < 19, v < 21, t < 28 the syllable 0xAC00 + (21 l + v) 28 + t decomposes to 0x1100 + l, 0x1161 + v and, if t > 0, 0x11A7 + t. |
| HangulStandard.JamoNormalize | src/normalization.cpp:411-426 | Those jamo, and the syllable itself, normalize to that syllable, and decompose to the jamo. |
| HangulStandard.Examples | src/normalization.cpp:333-357 | U+1111 U+1171 U+11B6 normalizes to U+D4DB and U+1100 U+1161 U+11A8 to U+AC01, and these decompose to them. |
| CanonicalOrder.OrderedUnique | src/normalization.cpp:128-142 | Two strings in canonical order with the same views are equal. |
| CanonicalOrder.SortedUnique | src/normalization.cpp:128-142 | Sorting yields the one string that is in canonical order and has the views of the input. |
| CanonicalOrder.StartersStay | src/normalization.cpp:128-142 | Sorting leaves every starter in its place. |
| CanonicalOrder.SortedPermutes | src/normalization.cpp:128-142 | Sorting permutes the characters. |
| CanonicalOrder.SortedReached | src/normalization.cpp:128-142 | The sorted string is reached by exchanges of neighbouring marks out of order (D108 of the Unicode Standard). |
| CanonicalOrder.ExchangeKeepsViews | src/normalization.cpp:128-142 | No such exchange changes a view, so equivalent strings have the same views. |
| CanonicalOrder.SameViewsIffSameSorted | src/normalization.cpp:128-142 | Two strings have the same views exactly if they sort to the same string. |
| Normalization.NfdOfCompose | src/normalization.cpp:324-409 | Decomposing and reordering the composition of any decomposed, ordered string gives the string back, blocking and Hangul included. |
| Normalization.NfcIdempotent | src/normalization.cpp:411-426 | Normalizing keeps the canonical decomposition, is canonically equivalent to the input, and is idempotent. |
| Normalization.NfcDecidesEquivalence | src/normalization.cpp:411-426 | Two strings are canonically equivalent exactly if they normalize to the same string. |
| CompositionAlgorithm.ComposeIsCanonicalComposition | src/normalization.cpp:324-409 | On every string in canonical order the two-index pass computes what the Canonical Composition Algorithm (D115, D117) computes character by character. |
| NormalizationFastPath.QuickCheckSound | src/normalization.cpp:290-322 | A string that passes the quick check is its own Normalization Form C. |
| NormalizationFastPath.QuickCheckExact | src/normalization.cpp:290-322 | A string passes the quick check if and only if it is its own Normalization Form C and its canonical decomposition is in canonical order without reordering. |
| NormalizationFastPath.MarksInOrderMeans | src/normalization.cpp:298-308 | On text in composed form the second check passes exactly if the decomposition is in canonical order. |
| NormalizationFastPath.ComposedPass | src/normalization.cpp:255-288 | Whatever the composition pass writes is in composed form: no character of it is rejected by the first check. |
| NormalizationFastPath.LastCheckDecides | src/normalization.cpp:310-322 | For a string that passes the first two checks, the third says whether normalization changes it. |
| NormalizationFastPath.QuickCheckIncomplete | src/normalization.cpp:310-319 | A string in Normalization Form C, over data with all the facts, that the quick check does not pass. |
| NormalizationTables.FindSecond | src/normalization.cpp:158-177 | The stride-2 binary search over a sorted pair slice finds the pair exactly if the slice has it. |
| NormalizationImpl.ComputeDecompositionLength | src/normalization.cpp:46-75 | The precomputed growth is exactly that of the full decomposition, and no decomposition is needed only if it changes nothing. |
| NormalizationImpl.Decompose | src/normalization.cpp:77-119 | Backward expansion in place yields the concatenated decompositions; no unread character is overwritten. |
| NormalizationImpl.SortMarks | src/normalization.cpp:128-142 | The in-place insertion sort yields the sorted string. |
| NormalizationImpl.DecomposeNfc | src/normalization.cpp:144-155 | Decomposition and ordering in place yield Normalization Form D. |
| NormalizationImpl.ComposeMarks | src/normalization.cpp:358-403 | The inner composition loop yields what the specification composes onto the open starter, at the write index. |
| NormalizationImpl.ComposeText | src/normalization.cpp:324-409 | The two-index composition in place yields the composition of the text. |
| NormalizationImpl.WouldComposeText | src/normalization.cpp:180-230 | The check says yes exactly if some composition step would apply. |
| NormalizationImpl.DecompositionIsNotNfc | src/normalization.cpp:255-288 | True exactly if the decomposition does not compose back to the character or its first part composes with the character before. |
| NormalizationImpl.IsAlreadyNfc | src/normalization.cpp:290-322 | The three passes compute the quick check; given the facts about the tables, the answer is yes exactly for normalized strings whose decomposition needs no reordering; without tables only the empty string passes. |
| NormalizationImpl.Normalize | src/normalization.cpp:411-426 | With tables the text becomes Normalization Form C whichever path is taken; without, it is unchanged and false is returned. |
| HuffmanCodes.CodesFit | src/raw_inflate.hpp:68-73 | Under the inequality of Kraft the codes of each length fit into that length. |
| HuffmanCodes.CodesInOrder | src/raw_inflate.hpp:68-73 | Codes of one length rise with their symbols, and every code is less than all longer codes cut to its length (section 3.2.2 of RFC 1951). |
| HuffmanCodes.StandardExample | src/raw_inflate.hpp:68-73 | The eight codes of the example of section 3.2.2. |
| HuffmanCodes.ReadCode | src/raw_inflate.hpp:85-99 | Reading the canonical code of a symbol returns the symbol and consumes exactly its length, whatever follows. |
| HuffmanCodes.PrefixFree | src/raw_inflate.hpp:68-73 | No canonical code is a prefix of another. |
| HuffmanCodes.ReadIsCode | src/raw_inflate.hpp:85-99 | For any length table, whatever is read as a symbol is the code of that symbol. |
| Deflate.CopyIsPeriodic | src/raw_inflate.hpp:261-264 | A match repeats the last distance bytes periodically, also when it is longer than the distance. |
| Deflate.InflateWithin | src/raw_inflate.hpp:148-273 | No stream, well-formed or not, yields more than the capacity. |
| DeflateEncoding.LengthTable | src/raw_inflate.hpp:133-138 | The length table is the one of section 3.2.5 of RFC 1951: groups of four codes that double in width, and 258 last. |
| DeflateEncoding.DistanceTable | src/raw_inflate.hpp:139-146 | The distance table is the one of section 3.2.5: pairs of codes that double in width. |
| DeflateEncoding.OrderOfStandard | src/raw_inflate.hpp:192-193 | The transmission order is that of section 3.2.7: the repeats, 0, then from 8 up and from 7 down by turns; the writer uses this formula. |
| DeflateEncoding.EveryMatchHasCodes | src/raw_inflate.hpp:133-146 | Every length from 3 to 258 and distance from 1 to 32768 has a length code and a distance code with extra bits. |
| DeflateEncoding.ParseTokensBits | src/raw_inflate.hpp:232-266 | Parsing the bits of literals and matches yields what they expand to. |
| DeflateEncoding.ParseOps | src/raw_inflate.hpp:203-228 | Parsing the bits of any sequence of code length operations yields what they spell out, or runs past the 320 entries exactly if that is more. |
| DeflateEncoding.OverrunExact | src/raw_inflate.hpp:203-228 | For any bits, reading code lengths runs past the 320 entries if and only if they begin with operations that spell out more than 320 lengths. |
| DeflateEncoding.ParseSent | src/raw_inflate.hpp:182-230 | Any well-formed dynamic header parses to the first lengths it spells out, or runs past the entries exactly if it spells out more than 320. |
| DeflateEncoding.ParseHeaderBits | src/raw_inflate.hpp:182-230 | Parsing the bits of a dynamic header yields its two length tables. |
| DeflateExample.FixedCodes | src/raw_inflate.hpp:104-114 | The fixed literal codes are those of the table of section 3.2.6 of RFC 1951, symbol by symbol. |
| DeflateExample.FixedDistanceCodes | src/raw_inflate.hpp:116-122 | The fixed distance codes are five-bit codes for themselves. |
| DeflateExample.DynamicExample | src/raw_inflate.hpp:182-266 | The dynamic block 0D C0 81 00 00 00 00 80 20 D6 FC 25 3E 0B inflates to "aaaa". |
| DeflateAccepted.TokensAreWritten | src/raw_inflate.hpp:232-266 | Whatever is parsed as literals and matches, with any code lengths, is the bits of tokens in reach that expand to the output. |
| DeflateAccepted.SentIsWritten | src/raw_inflate.hpp:182-230 | Whatever is parsed as a dynamic header, overrunning or not, is the bits of a header of section 3.2.7 and has its outcome. |
| DeflateAccepted.BlockIsWritten | src/raw_inflate.hpp:151-271 | Whatever is parsed as a block is the bits of a stored, fixed or dynamic block that expands to the output. |
| DeflateAccepted.InflateExact | src/raw_inflate.hpp:148-273 | Data that inflates is a list of blocks, the bits behind the final one ignored, and yields what they expand to within the capacity; a list whose codes are not over-subscribed always does. |
| DeflateStream.FixedKraft | src/raw_inflate.hpp:104-122 | The fixed codes fill the code space exactly. |
| DeflateStream.InflateStream | src/raw_inflate.hpp:148-273 | From any bit offset, inflating the bits of a list of stored, fixed and dynamic blocks yields what they expand to, whatever follows. |
| DeflateStream.InflateInverts | src/raw_inflate.hpp:148-273 | Inflating the packed bytes of any list of blocks that fits the capacity yields its LZ77 expansion. |
| DeflateStream.EveryStringHasStream | src/raw_inflate.hpp:148-273 | Every byte string is what some stream inflates to. |
| DeflateStream.OverrunBlock | src/raw_inflate.hpp:182-230 | A dynamic block whose header spells out more than 320 code lengths makes the inflater run past them, wherever it stands. |
| DeflateStream.OverrunningStream | src/raw_inflate.hpp:223-226 | A concrete stream that does. |
| BitReading.BitReader.constructor | src/raw_inflate.hpp:15-16 | A new reader has all bits of the data ahead, each byte least significant bit first. |
| BitReading.BitReader.Ensure | src/raw_inflate.hpp:18-25 | Refilling keeps the unread bits and succeeds exactly if there are enough. |
| BitReading.BitReader.Get | src/raw_inflate.hpp:26-32 | Returns the next bits as a number and leaves the rest, or the failure value and all bits. |
| BitReading.BitReader.AlignByte | src/raw_inflate.hpp:33-36 | Drops the bits up to the next byte boundary. |
| HuffmanImpl.CodesFitInt | src/raw_inflate.hpp:67-73 | For any length table of at most 288 symbols the running code stays below 288 * 2^14, far inside int. |
| HuffmanImpl.Huff.Build | src/raw_inflate.hpp:53-83 | The table arrays describe the canonical codes of the lengths. |
| HuffmanImpl.Huff.Decode | src/raw_inflate.hpp:85-99 | Decoding bit by bit reads the symbol the specification reads, or -1; the running code never falls below the first code. |
| InflateImpl.MakeFixedLitlenHuff | src/raw_inflate.hpp:104-114 | The literal table describes the fixed code of RFC 1951. |
| InflateImpl.MakeFixedDistHuff | src/raw_inflate.hpp:116-122 | The distance table describes the fixed code of RFC 1951. |
| InflateImpl.ReadLengths | src/raw_inflate.hpp:202-228 | The code length loop fills the lengths that the specification parses. |
| InflateImpl.ReadHeader | src/raw_inflate.hpp:182-230 | A dynamic header gives two tables that describe the transmitted lengths. |
| InflateImpl.InflateStored | src/raw_inflate.hpp:156-176 | A stored block is copied behind the output, its length checked against its complement. |
| InflateImpl.CopyBack | src/raw_inflate.hpp:261-264 | The byte-by-byte copy appends the match. |
| InflateImpl.InflateTokens | src/raw_inflate.hpp:232-266 | The token loop appends what the specification parses, and fails exactly when it does. |
| InflateImpl.InflateRaw | src/raw_inflate.hpp:148-273 | The inflater writes exactly what the parser of RFC 1951 yields and returns its length, 0 on failure; every step consumes bits, so it ends. |
| Crc.ByteStepBijective | src/table_store.hpp:277-283 | For each byte the byte step is a bijection of the register. |
| Crc.WindowTheorem | src/table_store.hpp:274-285 | Payloads of one length that agree outside four consecutive bytes have the same checksum exactly if they are equal. |
| Crc.CollisionIsDifference | src/table_store.hpp:274-285 | Two payloads of one length collide exactly if their difference drives a zero register to zero. |
| Crc.Crc32Ieee | src/table_store.hpp:274-285 | The two nested loops compute the checksum. |
| TableStore.StepKeeps | src/table_store.hpp:292-406 | Every step of every thread is defined and keeps the invariant. |
| TableStore.OneWinner | src/table_store.hpp:301-304 | In every run, initialisation is in progress exactly when one thread owns it, and never two do. |
| TableStore.Permanent | src/table_store.hpp:293-299 | From Ready or Failed on, no schedule changes the state word, a pointer or a buffer. |
| TableStore.TrueMeansTables | src/table_store.hpp:292-376 | In every run a call has returned true only if all pointers refer to the one buffer with the unpacked, checksummed blob, and that stays so in every continuation. |
| TableStore.OnlyCorruptionFails | src/table_store.hpp:315-323 | A good blob never reaches Failed; with a corrupt one nothing is ever published and no call returns true. |
| TableStore.FailedAllocationAllowsRetry | src/table_store.hpp:305-313 | A failed allocation publishes nothing, returns false, and the next thread that tries claims the initialisation. |
| TableStore.CallReturns | src/table_store.hpp:378-406 | Whatever the other threads do, a call returns within a fixed number of its own steps: the spin limit, or the work of unpacking and publishing. |
| TableStore.RetrySettles | src/table_store.hpp:292-376 | With memory, a call that finds the tables uninitialised and runs to its end makes them ready and returns true if the blob is good, and fails for good and returns false if it is corrupt, however many calls failed before. |
| TableStore.OutcomeIsReturned | src/table_store.hpp:292-406 | A call that sees the tables ready or failed, on entry or within its thousand million looks while waiting, returns true or false accordingly with that step. |
| TableStore.NoFalseAlarm | src/table_store.hpp:292-406 | With a good blob and memory, no call returns false in any interleaving before its thread has taken a thousand million steps: concurrent callers wait for the one that unpacks. |
| Crc.CheckValue | src/table_store.hpp:274-285 | The checksum of the nine digits "123456789" is 0xCBF43926. |
| Utf8.CheckTwo | src/unicode_transcoding.cpp:36-51 | The checks on a two-byte character amount to the grammar of section 4 of RFC 3629. |
| Utf8.CheckThree | src/unicode_transcoding.cpp:52-73 | The checks on a three-byte character, surrogates and overlong forms included, amount to the grammar. |
| Utf8.CheckFour | src/unicode_transcoding.cpp:74-98 | The checks on a four-byte character amount to the grammar. |
| Utf8.WeightsFour | src/unicode_transcoding.cpp:74-98 | A four-byte character is the sum of its payloads, each byte worth 64 times the next (section 3 of RFC 3629). |
| Utf8.WeightsThree | src/unicode_transcoding.cpp:52-73 | The same for three bytes. |
| Utf8.WeightsTwo | src/unicode_transcoding.cpp:36-51 | The same for two bytes. |
| Utf8.Examples | src/unicode_transcoding.cpp:128-181 | Six characters of the examples of section 7 of RFC 3629 encode to the published bytes. |
| Transcoding.DecodeEncode | src/unicode_transcoding.cpp:9-104 | Decoding the UTF-8 of any scalar values gives them back. |
| Transcoding.EncodeDecode | src/unicode_transcoding.cpp:128-181 | Whatever is well-formed decodes to scalar values whose encoding is the input. |
| Transcoding.LengthFromUtf8 | src/unicode_transcoding.cpp:119-126 | On well-formed input the counted length is exactly the number of code points. |
| Transcoding.LengthFromUtf32 | src/unicode_transcoding.cpp:106-117 | On scalar values the counted length is exactly the number of bytes. |
| TranscodingImpl.SixteenAscii | src/unicode_transcoding.cpp:14-30 | The test of two 64-bit words is true exactly if all sixteen bytes are ASCII. |
| TranscodingImpl.DecodeChar | src/unicode_transcoding.cpp:31-101 | One character is read exactly as the grammar and bit layout say. |
| TranscodingImpl.Utf8ToUtf32 | src/unicode_transcoding.cpp:9-104 | The loop with its fast path accepts exactly well-formed input, writes the code points, and never writes past the computed length even on malformed input. |
| TranscodingImpl.Utf8LengthFromUtf32 | src/unicode_transcoding.cpp:106-117 | The loop of comparisons counts one to four bytes per word. |
| TranscodingImpl.Utf32LengthFromUtf8 | src/unicode_transcoding.cpp:119-126 | The signed comparison counts the bytes that are no continuation bytes. |
| TranscodingImpl.TwoAscii | src/unicode_transcoding.cpp:133-144 | The test of one 64-bit word is true exactly if both code points are ASCII. |
| TranscodingImpl.Utf32ToUtf8 | src/unicode_transcoding.cpp:128-181 | The loop with its fast path writes the encoding, or returns 0 exactly if some word is no scalar value, and never writes past the computed length. |
| Ranges.FindRange | src/validity.cpp:53-65 | The binary search finds the range that holds the code point, or reports that none does. |
| LabelRules.BidiRuleHasBase | src/validity.cpp:227-230 | The six conditions of RFC 5893 leave no label of nonspacing marks only. |
| ValidityImpl.IsContextJValid | src/validity.cpp:83-120 | The scans accept exactly the labels that satisfy Appendices A.1 and A.2 of RFC 5892. |
| ValidityImpl.FindLastNotOfNsm | src/validity.cpp:122-128 | Finds the last character that is no nonspacing mark, or reports that there is none. |
| ValidityImpl.IsRtlLabel | src/validity.cpp:132-141 | True exactly if some character has class R, AL or AN. |
| ValidityImpl.CheckLtr | src/validity.cpp:240-259 | The left-to-right branch accepts exactly the labels that meet the Bidi rule. |
| ValidityImpl.CheckRtl | src/validity.cpp:261-298 | The one-pass right-to-left branch accepts exactly the labels that meet the Bidi rule. |
| ValidityImpl.BidiPartIsRule | src/validity.cpp:227-301 | For a label with R, AL or AN the Bidi part accepts exactly when all six conditions hold, and then the label begins with R or AL. |
| LabelLaws.JoinersInOnePass | src/validity.cpp:83-120 | The joiner rules, which look both ways from every joiner, hold exactly if one left-to-right reading with three flags succeeds. |
| LabelLaws.BidiInOnePass | src/validity.cpp:227-301 | The Bidi part accepts exactly if one reading, with the classes as numbers, finds a character other than NSM and, if it finds R, AL or AN, a good first and last class, no foreign class, and not both EN and AN. |
| LabelLaws.LabelInOnePass | src/validity.cpp:143-302 | A label is valid exactly if it is empty, or its first character is no mark and both readings succeed. |
| LabelLaws.ClassesDoNotMatter | src/validity.cpp:235-235 | For a label without R, AL or AN, replacing the class of every character that is not NSM by L leaves validity unchanged. |
| LabelLaws.DigitFirst | src/validity.cpp:227-259 | A label of classes EN and L without joiners and leading mark is valid, and is not when an R is appended. |
| LabelLaws.RightToLeft | src/validity.cpp:261-298 | Labels R, R EN and R NSM are valid; R L, R EN AN and L R are not. |
| ValidityImpl.IsLabelValid | src/validity.cpp:143-302 | Valid exactly if empty, or no combining mark comes first and the joiner and Bidi rules hold; without tables only the empty label is valid. |
| IdnaStrings.PointThere | src/mapping.cpp:43-62 | Reading undoes the encoding of any code point, wherever it stands. |
| IdnaStrings.StringWritten | scripts/idna_table.py:145-151 | Appending the bytes of a sequence and a terminator puts its string there. |
| IdnaStrings.Utf8CountCodepoints | src/mapping.cpp:65-80 | The count of a stored string is the length of its sequence. |
| IdnaTable.BuildStrings | scripts/idna_table.py:139-151 | The string table is the strings of the mapped sequences in order of appearance, each once, the empty one at offset 0. |
| IdnaTable.FillFlat | scripts/idna_table.py:153-168 | The flat table holds, for every code point, the code of the status that the last covering line gives it. |
| IdnaTable.BuildTwoLevel | scripts/idna_table.py:173-217 | Every block is stored as bits or as a row, once each. |
| IdnaTable.MixedCount | scripts/idna_table.py:209-215 | The mixed part has 64 entries for every distinct block that is not all valid or disallowed. |
| IdnaTable.TwoLevelIsFlat | src/mapping.cpp:22-40 | With at most 512 distinct mixed blocks the two-level lookup gives the flat entry of every code point. |
| IdnaTable.TwoLevelExact | scripts/idna_table.py:173-217 | The lookup is right for every code point if and only if the flat table has at most 512 distinct mixed blocks. |
| IdnaTable.CrowdedTableIsWrong | scripts/idna_table.py:173-217 | A concrete flat table of 513 distinct mixed blocks for which every built table is wrong somewhere. |
| IdnaGenerator.FindHighIgnoredRange | scripts/idna_table.py:97-107 | The smallest range around all ignored lines from U+E0000 on, empty at U+110000 if there is none. |
| IdnaGenerator.ComputeLowRangeEnd | scripts/idna_table.py:109-128 | The first block boundary above every line that allows something below the high range. |
| IdnaGenerator.GenerateIdna | scripts/idna_table.py:265-308 | For lines of code points the generator fails exactly if the string table has 0xFFFD bytes or more; otherwise the tables hold the coded statuses of the lines. |
| IdnaGenerator.SameCount | scripts/idna_table.py:173-217 | There are as many distinct mixed blocks in the flat table as distinct blocks of statuses in the lines. |
| IdnaGenerator.LookupExact | src/mapping.cpp:22-40 | The lookup answers every code point as the lines say if and only if at most 512 distinct blocks hold a mapped or ignored code point and, from the high range on, the ignored code points are exactly those of the range. |
| IdnaGenerator.RightRepresents | src/mapping.cpp:22-40 | Tables with right answers represent the statuses of the lines, as the mapping step requires of them. |
| AsciiMapping.LowerIsCaseBit | src/mapping.cpp:83-106 | Lower case sets the case bit at the 26 letter places of the third quarter of ASCII and changes nothing else. |
| AsciiMapping.FoldIsLower | src/mapping.cpp:99-105 | Folding the word of up to eight ASCII bytes gives the word of their lower case: no carry crosses a lane, the tail word included. |
| AsciiMapping.AsciiMap | src/mapping.cpp:83-106 | ASCII of any length becomes its bytewise lower case. |
| Mapping.Measure | src/mapping.cpp:117-132 | The first pass fails exactly if some code point is disallowed and otherwise counts the exact output length. |
| Mapping.Write | src/mapping.cpp:134-148 | The second pass writes exactly the counted number of code points, the mapping of each character in order. |
| Mapping.MapIsPieces | src/mapping.cpp:110-150 | Mapping fails exactly on a disallowed code point; otherwise the output divides into the pieces of the code points in order. |
| Mapping.Map | src/mapping.cpp:110-150 | Mapping succeeds exactly if no code point is disallowed and yields the concatenated mappings; on failure the output is empty. |
| Multistage.BuildMultistage | scripts/unicode_data_table.py:165-187 | Reading entry k after a code point through index and deduplicated rows gives the original entry, 0 in empty blocks. |
| UcdTables.FullIsFinal | scripts/unicode_data_table.py:123-133 | Nothing in a full canonical decomposition decomposes further. |
| UcdTables.PairDecomposes | scripts/unicode_data_table.py:123-133 | A two-character mapping decomposes to the joined decompositions of its parts. |
| UcdTables.BuildDecomposition | scripts/unicode_data_table.py:190-218 | From each entry to the next, the 257th column included, the data holds what the code point decomposes to, with its flags. |
| UcdTables.CanonicalRead | scripts/unicode_data_table.py:190-218 | The runtime slice is the full canonical decomposition, empty for Hangul syllables and compatibility mappings. |
| UcdTables.BuildCcc | scripts/unicode_data_table.py:221-228 | The class table gives every class back. |
| UcdTables.SortAscends | scripts/unicode_data_table.py:249-250 | Sorting pairs with distinct second characters makes them strictly ascending. |
| CompositionTables.CollectPairs | scripts/unicode_data_table.py:234-243 | The lists hold exactly the pairs that compose: two characters, not excluded, first and composite of class 0. |
| CompositionTables.BuildComposition | scripts/unicode_data_table.py:231-260 | Each slice holds the sorted pairs of its first character. |
| CompositionTables.PairFoundIff | src/normalization.cpp:158-177 | The runtime pair search finds a composite if and only if the pair composes to it. |
| Ranges.BuildRanges | scripts/unicode_data_table.py:263-272 | Merged ranges are separate and hold exactly the code points and values of the map. |
| Ranges.LookupIsMap | scripts/unicode_data_table.py:263-272 | Searching the ranges of a map returns the stored value, or none. |
| Ranges.BuildAndFind | src/validity.cpp:53-65 | Building the ranges of any map and searching them for any code point returns the stored value, or none. |
| GeneratedFacts.FactsHold | scripts/unicode_data_table.py:190-260 | Facts about the raw Unicode fields give the facts the normalization theorems rely on. |
| GeneratedFacts.BuildTables | scripts/unicode_data_table.py:190-260 | The built tables are valid, mean what the raw data says, and have those facts. |
| CompositionExclusions.ExcludedNeverWritten | scripts/unicode_data_table.py:231-243 | No normalized string holds a character with a canonical mapping that is excluded, is not a pair, is no starter, or whose first part is no starter. |
| Domains.NfcLower | src/to_ascii.cpp:132-137 | Normalization brings no upper-case ASCII in if the decompositions of its input have none. |
| Domains.LabelsLower | src/to_ascii.cpp:147-211 | What the label walk writes has no upper case if its input has none. |
| Domains.ToAsciiIdempotent | src/to_ascii.cpp:87-213 | `to_ascii` of its own successful output is that output, for every input, given that mapped text has no upper-case ASCII in its decompositions. |
| DomainLaws.EquivalentInputs | src/to_ascii.cpp:131-137 | Two non-ASCII inputs within the limit whose mapped texts are canonically equivalent have the same `to_ascii` result; given `PlainAscii`. |
| DomainLaws.LabelsOfNormalized | src/to_ascii.cpp:120-137 | Every label of mapped and normalized text is left alone by mapping and by normalization; given `ClosedData`. |
| DomainLaws.ToUnicodeOfToAscii | src/to_ascii.cpp:87-213 | For accepted non-ASCII input `to_unicode` of the result is the UTF-8 of Normalization Form C of the mapped text exactly if the name is within the limit and every label is kept; otherwise the decoded ACE labels and undecodable labels are shown as specified; given `ClosedData`. |
| Domains.EmittedReencodes | src/to_unicode.cpp:37-95 | Where `to_unicode` replaces an ACE label, the emitted UTF-8 holds code points that re-encode to that label; every other label is kept. |
| Domains.AceLabelRoundTrip | src/to_unicode.cpp:37-95 | A replaced ACE label comes back unchanged through `to_ascii` if its text is within the size limit; otherwise `to_ascii` fails. |
| NormalizationStops.NfcStop | src/normalization.cpp:411-426 | Normalization works independently on both sides of a character that composes with nothing. |
| DomainRoundTrip.DomainText | src/to_unicode.cpp:20-105 | What `to_unicode` writes for a lower-case ASCII domain is the UTF-8 of the decoded labels and the kept labels with dots between them. |
| DomainRoundTrip.DomainStable | src/to_ascii.cpp:120-137 | Mapping and normalization leave that text alone. |
| DomainRoundTrip.DomainChecks | src/to_ascii.cpp:142-212 | The label walk of `to_ascii` over that text gives the domain back exactly if every ACE label is acceptable. |
| DomainRoundTrip.RoundTripExact | src/to_ascii.cpp:87-213 | For every lower-case ASCII domain within the size limit, `to_ascii` of `to_unicode` is the domain if no label was replaced, or every ACE label is acceptable and the text is within the limit; otherwise `to_ascii` fails; given `PlainAscii`. |
| DomainRoundTrip.MixedDomainFails | src/to_ascii.cpp:159-187 | A concrete domain with one ACE label replaced and one kept, whose text `to_ascii` rejects. |
| DomainSizes.NormalizedFits | src/to_ascii.cpp:97-137 | For input within the size limit the mapped and normalized text is far shorter than 2^31-1, if nothing maps or decomposes to more than 256 code points. |
| DomainsImpl.AcceptInAscii | src/to_ascii.cpp:176-194 | The check of a decoded label in `to_ascii`, with the quick check in front, accepts exactly what mapping and normalization leave alone and the label rules allow. |
| DomainsImpl.AcceptInUnicode | src/to_unicode.cpp:44-56 | The check in `to_unicode` accepts the same labels. |
| DomainsImpl.AsciiStep | src/to_ascii.cpp:159-207 | One label becomes its ASCII form, or the conversion fails. |
| DomainsImpl.AsciiWalk | src/to_ascii.cpp:142-212 | The pointer scan over labels writes the ASCII form of every label with the dots between them, or fails if one label does. |
| DomainsImpl.ToAsciiDomain | src/to_ascii.cpp:87-213 | `to_ascii` succeeds exactly if the specification does, with its result; without tables only ASCII input succeeds; on failure the output is empty. |
| DomainsImpl.WriteUtf8 | src/to_unicode.cpp:72-82 | The computed size and the written size agree exactly if all code points are scalar values. |
| DomainsImpl.UnicodeStep | src/to_unicode.cpp:37-95 | One label becomes its decoded form or stays as it is. |
| DomainsImpl.ToUnicodeDomain | src/to_unicode.cpp:20-105 | The walk keeps the dots and converts every label; it fails only for input over the limit; without tables it copies the input. |

## Left out

- InflateImpl.InflateRaw: requires that no code length repeat runs past the 320 entries of `lens`, where the source has no defined behaviour; `DeflateEncoding.OverrunExact` says when one does.
- InflateImpl.ReadHeader: the same requirement for one header.
- InflateImpl.ReadLengths: the same requirement for the code lengths of one header.
- InflateImpl.InflateStored: the comparison of a length with its exclusive-or complement is written as a sum of 0xFFFF, which is the same for 16-bit values.
- BitReading.BitReader.Get: `acc` is a mathematical integer of at most 23 bits; `|` of disjoint bits is a sum, masks and shifts are remainder and quotient.
- IdnaStrings.PointThere: bytes and code points are integers here; masks and shifts are remainder and quotient, and a tag bit pattern is a sum.
- PunycodeImpl.PunycodeToUtf32: the output is empty on entry, as all callers in the library make it.
- DomainsImpl.ToAsciiDomain: requires that no code point maps or decomposes to more than 256 code points (Unicode has 18 and 4), so that lengths fit `int32_t`; `ready` is one answer of `ensure_tables` for the whole call (once ready the tables stay ready, and mapping asks first).
- NormalizationImpl.Decompose: guards against offsets outside the data, for a corrupt blob, are not modelled; the tables are valid.
- NormalizationImpl.ComposeMarks: the same for the guard against a corrupt composition row.
- Mapping.Measure: the guard against an offset outside the string table, for a corrupt blob, is not modelled; the tables represent the mapping.
- TableStore.StepKeeps: memory order is that of an interleaving model, one atomic step at a time; byte order conversion for big-endian hosts is not modelled; inflating writes the unpacked bytes one by one, and what a failing inflate leaves in a buffer that is deleted next is not modelled.
- CompositionTables.CollectPairs: the iteration order of Python dictionaries and `sorted` keys are parameters.
- ValidityImpl.IsRtlLabel: the bit mask of directions is a set.
- Contents of the Unicode tables and the blob: data; their facts are hypotheses.
- `valid_name_code_point`, `contains_forbidden_domain_code_point`: membership tests in fixed tables.
- The Bidi rule for a whole domain: the code checks each label alone, and so does the model.
- The simdutf build variant, downloading and text parsing in scripts, C++ text emission, packing, amalgamation, benchmarks.
