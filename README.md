# text_encoding — a Dafny model of the table generators and codecs

`text_encoding` is a Rust library that converts text between UTF-8 and a
handful of legacy encodings. Each conversion is a streaming call: it takes
an input slice and a fixed-size output buffer, fills as much of the buffer
as fits, and returns the bytes written and the input consumed, or an error
that names the offending input range and how much output was written before
it. The multi-byte codecs (Big5 and Shift_JIS in their WHATWG variants) and
the single-byte codecs look characters up in generated tables. Small Python
generators produce those tables, and matching test fixtures, from the index
files of the WHATWG Encoding Standard. The build script `build.rs` holds a
second, Rust copy of the table builders.

This project models the following, with the same branches, constants and
error cases as the source:

- the WHATWG generators `generate_big5.py` and `generate_shiftjis.py`:
  - pointer/byte conversion;
  - loading and sorting an index file;
  - the de-duplication rules;
  - the gap-filled decode table and the sorted encode table;
  - the test-data files;
- the single-byte generators `generate_ascii_ext_tables.py` and
  `generate_tables.py`, including the ASCII-extension check;
- the table-building blocks of `build.rs`:
  - the Big5 code-table reader and its decode and encode tables;
  - the single-byte index reader and its reverse table;
  - the WHATWG-to-Big5 conversion;
  - the de-duplication of the Big5 test rows;
- the codecs in `src/single_byte.rs`, `src/big5_whatwg.rs`,
  `src/shiftjis_whatwg.rs` and `src/utf32_le.rs`.

Each streaming codec has three parts:

- a `method` that writes into an `array<Byte>` with a loop;
- a specification function of the whole run;
- lemmas that give the run its meaning: the output is the UTF-8 or the
  encoding of exactly the consumed input, and the call stops only where
  the source stops.

On top of these sit round trips. Decoding what the encoder produced gives
back the input. For Shift_JIS this holds up to the three characters the
encoder folds. A chunked round trip covers the repository's property tests.

`CodecTables` joins the two halves of the model. It shows that the tables
the WHATWG generators build from a well-formed index file are the tables the
codecs need:

- the decode table holds scalar values;
- the encode table is sorted by character;
- every encode entry decodes back to its character.

Python exceptions and Rust panics are modelled as the `Failure` arm of a
`Result` (`ValueError`, `IndexError`, `NotAsciiExtension`, `Panic`). Files are
modelled as sequences of lines (input) or of values (output).

Two behaviours of the generators differ from the WHATWG Encoding Standard.
The model follows the code and states each one as a lemma:

- Section 5 of the Encoding Standard ("index Big5 pointer") excludes the
  pointers below (0xA1 - 0x81) * 157 = 5024 from encoding. `deduped_table`
  does not exclude them, so the generated Big5 encode table also holds
  entries whose lead byte is below 0xA1. `WhatwgTables.Big5KeepsExcludedPointers`
  exhibits such an entry, and `Big5Index.ExcludedPointersHaveLowLeads` shows
  that these are exactly the pointers with a low lead byte.
- The single-byte generators mean to drop duplicate code points from the
  encode table, as the comment on their `seen` set says, but update the set
  with `seen &= {item[1]}`. An intersection with an empty
  set leaves it empty, so nothing is ever dropped.
  `SingleByteTables.AsciiExtKeepsDuplicates` proves that both rows of a
  duplicated code point reach the encode table, and
  `SingleByteTables.PlainEncodeSpec` states that the plain encode table has
  one entry per row. The codec then finds the first entry of the sorted
  table for a character (see `Lookup.BinarySearchByKey` under "Left out").

## Model

| member | source | states |
|---|---|---|
| Text.Utf8Len | src/single_byte.rs:341-349 | the UTF-8 length of a scalar value is 1 to 4 bytes, and 1 exactly for ASCII |
| Text.Utf8Encode | src/single_byte.rs:341-349 | `encode_utf8` yields `len_utf8` bytes, and an ASCII character encodes as itself |
| Text.Utf8Snoc | src/single_byte.rs:278-308 | the UTF-8 of a text grows by the encoding of each appended character, so byte offsets from `char_indices` add up |
| Text.Utf8SpanLength | src/single_byte.rs:278-308 | the byte span counted character by character equals the length of the UTF-8 of that slice |
| Text.Utf8OfAscii | src/single_byte.rs:321-329 | ASCII text is its own UTF-8 |
| Rows.RowLeIsPreorder | encoding_tables/whatwg/generate_big5.py:58 | the tuple order `table.sort()` uses is a total preorder |
| Rows.SortRowsSpec | encoding_tables/whatwg/generate_big5.py:58 | the sorted table is a permutation of the rows, ordered by index and then by code point |
| Rows.CodepointsSpec | encoding_tables/whatwg/generate_big5.py:31-44 | a code point is among a table's code points iff some row carries it |
| Rows.FirstAndLastRowSpec | encoding_tables/whatwg/generate_big5.py:26-44 | the first and the last row carrying a code point exist, with no earlier (later) row carrying it |
| Parsing.SplitGivesTokens | encoding_tables/whatwg/generate_big5.py:53 | every part `str.split()` returns is non-empty and free of whitespace |
| Parsing.SplitToken | encoding_tables/whatwg/generate_big5.py:53 | a token followed by whitespace splits off as the first part |
| Parsing.TokenLengthSpec | encoding_tables/whatwg/generate_big5.py:53 | the scanned run holds no whitespace and is non-empty when the text starts with a non-space |
| Parsing.TrimSpec | build.rs:147 | `trim()` leaves no whitespace at either end and leaves trimmed text unchanged |
| Parsing.DigitsValueOfBadFirst | encoding_tables/whatwg/generate_big5.py:55-56 | `int()` rejects a token whose first character is not a digit |
| Parsing.DigitChar | encoding_tables/whatwg/generate_big5.py:55-56 | each digit character reads back as its value |
| Parsing.NumeralIsToken | encoding_tables/whatwg/generate_big5.py:53-55 | a written number is one token, not a comment and unsigned |
| Parsing.NumeralRoundTrip | encoding_tables/whatwg/generate_big5.py:55-56 | reading a number written in base 2 to 16 gives the number back |
| Parsing.HexLiteralIsToken | build.rs:152-154 | a `0x` literal is a single whitespace-free token |
| Parsing.PyIntOfNumeral | encoding_tables/whatwg/generate_big5.py:55-56 | `int(t)` and `int(t, 16)` read back decimal and `0x` hexadecimal numerals |
| Sorting.InsertBySorted | build.rs:167 | inserting into a sorted sequence keeps it sorted |
| Sorting.SortBySorted | build.rs:167 | `sort_by_key` yields a sequence sorted by the key |
| Sorting.SortByPermutes | build.rs:167 | `sort_by_key` yields a permutation of its input |
| Sorting.SortByStable | build.rs:167 | `sort_by_key` is stable: elements with equal keys keep their order |
| Sorting.SortBySortedInput | build.rs:298 | sorting an already sorted sequence leaves it unchanged |
| Lookup.FindFirstSpec | src/single_byte.rs:286 | the lookup finds the first entry with the character, and finds none iff no entry has it |
| Lookup.KeyLookupSpec | src/big5_whatwg.rs:27 | the table lookup succeeds iff an entry has the character, and returns that entry's bytes |
| Lookup.BinarySearchByKey | src/shiftjis_whatwg.rs:56 | binary search over a table sorted by character returns the first entry with the character, or none |
| Stream.Put | src/single_byte.rs:283 | writing one output byte appends it to the written prefix and changes nothing after it |
| Stream.CopyInto | src/big5_whatwg.rs:156 | `copy_from_slice` appends the slice to the written prefix and changes nothing after it |
| Big5Index.IndexToBytes | encoding_tables/whatwg/generate_big5.py:4-10 | a pointer's lead byte is at least 0x81 iff the pointer is non-negative, and its trail byte is a Big5 trail byte |
| Big5Index.IndexRoundTrip | encoding_tables/whatwg/generate_big5.py:4-17 | `bytes_to_index(index_to_bytes(i)) == i` for every pointer |
| Big5Index.BytesRoundTrip | encoding_tables/whatwg/generate_big5.py:4-17 | `index_to_bytes(bytes_to_index(lead, trail)) == (lead, trail)` for every trail byte |
| Big5Index.LeadIsByte | encoding_tables/whatwg/generate_big5.py:7 | the lead byte stays at most 0xFE exactly for pointers below 126 * 157 |
| Big5Index.ExcludedPointersHaveLowLeads | encoding_tables/whatwg/generate_big5.py:7 | the pointers below 5024, which the Encoding Standard excludes from encoding, are exactly those with a lead byte below 0xA1 |
| ShiftJisIndex.IndexToBytes | encoding_tables/whatwg/generate_shiftjis.py:4-11 | a pointer gives a Shift_JIS lead byte iff it is non-negative, always a trail byte, and a lead in 0x81..0x9F exactly for rows below 0x1F |
| ShiftJisIndex.IndexRoundTrip | encoding_tables/whatwg/generate_shiftjis.py:4-19 | `bytes_to_index(index_to_bytes(i)) == i` for every pointer |
| ShiftJisIndex.BytesRoundTrip | encoding_tables/whatwg/generate_shiftjis.py:4-19 | every lead/trail pair has a non-negative pointer that maps back to the same pair |
| ShiftJisIndex.EudcPointer | src/shiftjis_whatwg.rs:44 | a private-use character U+E000..U+E757 maps to a pointer in 8836..10715 |
| ShiftJisIndex.EudcChar | src/shiftjis_whatwg.rs:151 | a pointer in 8836..10715 decodes to a private-use character in U+E000..U+E757 |
| ShiftJisIndex.EudcRoundTrip | src/shiftjis_whatwg.rs:39-49 | the encoder's private-use bytes have lead 0xF0..0xF9, and the decoder's pointer arithmetic gives back the character |
| Dedup.ReverseSpec | encoding_tables/whatwg/generate_big5.py:28 | `reverse()` keeps the length and mirrors the positions |
| Dedup.FirstWinsSpec | encoding_tables/whatwg/generate_big5.py:38-44 | the first-wins loop keeps one row per code point, the first, as an order-preserving subsequence of the unseen code points |
| Dedup.LastSpecialsSpec | encoding_tables/whatwg/generate_big5.py:26-36 | the reverse pass keeps every code point, keeps the last row of the six special code points, and does not change the first row of the others |
| Dedup.DedupBig5 | encoding_tables/whatwg/generate_big5.py:20-46 | the two loops of `deduped_table` compute the Big5 de-duplication |
| Dedup.FirstWinsLoop | encoding_tables/whatwg/generate_big5.py:39-44 | the `seen` loop computes the first-wins de-duplication |
| Dedup.Big5DedupedSpec | encoding_tables/whatwg/generate_big5.py:20-46 | one row per code point, all code points kept, the last row for U+2550, U+255E, U+2561, U+256A, U+5341 and U+5345, the first for the rest, in table order |
| Dedup.OutsideDroppedRangeSpec | encoding_tables/whatwg/generate_shiftjis.py:27 | the filter keeps exactly the rows whose pointer is outside 8272..8835, in order |
| Dedup.DedupShiftJis | encoding_tables/whatwg/generate_shiftjis.py:22-37 | the loops of `deduped_table` compute the Shift_JIS de-duplication |
| Dedup.ShiftJisDedupedSpec | encoding_tables/whatwg/generate_shiftjis.py:22-37 | only rows outside 8272..8835 remain, with one row per code point, the first, in table order |
| IndexFiles.LoadTableFile | encoding_tables/whatwg/generate_big5.py:49-59 | the loop over the file's lines computes the loaded, sorted table or the parse error |
| IndexFiles.FailurePersists | encoding_tables/whatwg/generate_big5.py:55-56 | once a line raises `ValueError`, the whole load raises it |
| IndexFiles.ParsedRowsFailure | encoding_tables/whatwg/generate_big5.py:52-57 | loading fails iff some line is rejected, and then with `ValueError` |
| IndexFiles.CommentLineSkipped | encoding_tables/whatwg/generate_big5.py:54 | a line whose first token starts with `#` is skipped |
| IndexFiles.IndexTokenParses | encoding_tables/single_byte/generate_ascii_ext_tables.py:12 | the index column, written in each layout's base, reads back as the index |
| IndexFiles.IndexLineParses | encoding_tables/whatwg/generate_big5.py:53-57 | an index-file line with a trailing comment parses to its row |
| IndexFiles.IndexFileRoundTrip | encoding_tables/whatwg/generate_big5.py:52-57 | the lines of an index file parse back to its rows, in order |
| IndexFiles.IndexFileLoads | encoding_tables/whatwg/generate_big5.py:49-59 | loading an index file gives its rows sorted |
| WhatwgTables.EntryLeIsPreorder | encoding_tables/whatwg/generate_big5.py:77 | the tuple order `enc_table.sort()` uses is a total preorder |
| WhatwgTables.GenerateTables | encoding_tables/whatwg/generate_big5.py:62-77 | the loops build exactly the decode and encode tables of the specification, or the load error |
| WhatwgTables.GenerateBig5Tables | encoding_tables/whatwg/generate_big5.py:62-77 | `generate_big5_tables` builds the Big5 tables |
| WhatwgTables.GenerateShiftJisTables | encoding_tables/whatwg/generate_shiftjis.py:53-68 | `generate_shiftjis_tables` builds the Shift_JIS tables |
| WhatwgTables.DecodeTableSpec | encoding_tables/whatwg/generate_big5.py:66-73 | the decode table runs up to the last pointer, holds each row's code point at its pointer, and `None` elsewhere |
| WhatwgTables.EncodeTableSpec | encoding_tables/whatwg/generate_big5.py:76-77 | the encode table is sorted and is a permutation of the (code point, bytes) entries of the de-duplicated rows |
| WhatwgTables.Big5KeepsExcludedPointers | encoding_tables/whatwg/generate_big5.py:20-46 | a row at pointer 942 (< 5024) reaches the encode table as bytes 0x87 0x40 |
| DecodeTables.GapFill | encoding_tables/whatwg/generate_big5.py:66-73 | the `while i < index` loop computes the gap-filled table |
| DecodeTables.GapFilledPlaces | encoding_tables/whatwg/generate_big5.py:66-73 | for strictly increasing slots: length is the last slot plus one, each value sits at its slot, and every other place holds the hole |
| DecodeTables.GapFilledLength | encoding_tables/whatwg/generate_big5.py:66-73 | the gap-filled table ends just after the last slot |
| DecodeTables.GapFilledValue | encoding_tables/whatwg/generate_big5.py:66-73 | each slot's value is at its slot |
| DecodeTables.GapFilledHole | encoding_tables/whatwg/generate_big5.py:66-73 | a place that is no slot holds the hole |
| DecodeTables.PadTo | encoding_tables/single_byte/generate_ascii_ext_tables.py:39-40 | the padding loop computes the padded table |
| DecodeTables.PaddedSpec | encoding_tables/single_byte/generate_ascii_ext_tables.py:39-40 | padding keeps the table as a prefix, reaches the target length, and fills with the hole |
| DecodeTables.SortedSlotsIncrease | encoding_tables/whatwg/generate_big5.py:58-73 | a sorted table with distinct indices gives strictly increasing slots |
| DecodeTables.RowsGapFilled | encoding_tables/whatwg/generate_big5.py:66-73 | the gap-filled table of a table's rows places each code point at its shifted index |
| SingleByteTables.CheckAsciiExtension | encoding_tables/single_byte/generate_ascii_ext_tables.py:22-24 | the verification loop computes the ASCII-extension test's outcome |
| SingleByteTables.AsciiCheckFromSpec | encoding_tables/single_byte/generate_ascii_ext_tables.py:22-24 | from position i: passes iff rows i..127 are (k, k); `IndexError` iff the table ends early with all rows so far matching; otherwise names the first mismatch |
| SingleByteTables.AsciiCheckSpec | encoding_tables/single_byte/generate_ascii_ext_tables.py:22-24 | the table passes iff its first 128 rows map each byte to the same code point; `IndexError` and the first mismatching code point otherwise |
| SingleByteTables.BuildEncodeEntries | encoding_tables/single_byte/generate_ascii_ext_tables.py:43-48 | the encode loop computes the (code point, byte) entries |
| SingleByteTables.GenerateAsciiExtEncoding | encoding_tables/single_byte/generate_ascii_ext_tables.py:3-49 | the generator computes the ASCII-extension tables or its error |
| SingleByteTables.GeneratePlainEncoding | encoding_tables/single_byte/generate_tables.py:3-36 | the generator computes the plain single-byte tables or its error |
| SingleByteTables.ByteDecodeSpec | encoding_tables/single_byte/generate_ascii_ext_tables.py:31-40 | the 128-entry decode table holds each row's code point at its shifted byte |
| SingleByteTables.ByteDecodeLength | encoding_tables/single_byte/generate_ascii_ext_tables.py:31-40 | the decode table has exactly 128 entries |
| SingleByteTables.ByteDecodeValue | encoding_tables/single_byte/generate_ascii_ext_tables.py:31-40 | each row's code point is at its byte minus 128 |
| SingleByteTables.ByteDecodeHole | encoding_tables/single_byte/generate_ascii_ext_tables.py:31-40 | a byte without a row decodes to `None` |
| SingleByteTables.AsciiExtLoaded | encoding_tables/single_byte/generate_ascii_ext_tables.py:8-24 | a successful run loaded a sorted table whose first 128 rows are ASCII and whose other rows have bytes of at least 127 |
| SingleByteTables.AsciiExtTablesOf | encoding_tables/single_byte/generate_ascii_ext_tables.py:27-49 | once the ASCII prefix is verified, both tables are built from the rows past the first 128 |
| SingleByteTables.AsciiExtFailure | encoding_tables/single_byte/generate_ascii_ext_tables.py:9-24 | the generator fails iff a line is rejected or the table is not an ASCII extension, with `ValueError` for a rejected line |
| SingleByteTables.AsciiExtRest | encoding_tables/single_byte/generate_ascii_ext_tables.py:27-38 | with distinct bytes, the rows past the first 128 have bytes from 128 upward in increasing order |
| SingleByteTables.AsciiExtDecodeSpec | encoding_tables/single_byte/generate_ascii_ext_tables.py:30-40 | the decode table has 128 entries and holds each high row's code point at its byte minus 128 |
| SingleByteTables.AsciiExtEncodeSpec | encoding_tables/single_byte/generate_ascii_ext_tables.py:42-49 | the encode table is sorted, is a permutation of all high rows as (code point, byte), and keeps one entry per row |
| SingleByteTables.AsciiExtKeepsDuplicates | encoding_tables/single_byte/generate_ascii_ext_tables.py:44-48 | two rows with the same code point both reach the encode table (`seen &=` never fills `seen`) |
| SingleByteTables.SortedKeepsEntry | encoding_tables/single_byte/generate_ascii_ext_tables.py:49 | sorting keeps every entry |
| SingleByteTables.AsciiExtSecondRowFor7F | encoding_tables/single_byte/generate_ascii_ext_tables.py:22-28 | a second row for byte 0x7F passes the ASCII-extension test and lands at decode slot 0 and in the encode table with byte 127 |
| SingleByteTables.UndefinedCodepointLine | encoding_tables/single_byte/generate_ascii_ext_tables.py:13-14 | a line whose code-point column is a comment is skipped by the ASCII-extension generator but rejected by the plain one |
| SingleByteTables.NotDigitsValue | encoding_tables/single_byte/generate_tables.py:13 | `int(t, 16)` rejects a token that starts with `#` |
| SingleByteTables.PlainFailure | encoding_tables/single_byte/generate_tables.py:8-15 | the plain generator fails iff some line is rejected, with `ValueError` |
| SingleByteTables.PlainDecodeSpec | encoding_tables/single_byte/generate_tables.py:17-27 | the decode table has 128 entries and holds each row's code point at its byte |
| SingleByteTables.PlainEncodeSpec | encoding_tables/single_byte/generate_tables.py:29-36 | the encode table is sorted, is a permutation of all rows as (code point, byte + 128), and has one entry per row |
| Fixtures.AsciiLoop | encoding_tables/whatwg/generate_big5.py:114-120 | the ASCII loop writes the cases 1..last |
| Fixtures.RowLoop | encoding_tables/whatwg/generate_big5.py:121-127 | the row loop fails iff some row cannot be written, and otherwise writes one case per row |
| Fixtures.GenerateTestData | encoding_tables/whatwg/generate_big5.py:108-158 | the generator writes exactly the specified decode and encode cases, or raises |
| Fixtures.RowCaseReadsBack | encoding_tables/whatwg/generate_big5.py:121-127 | a row's case holds two bytes whose pointer is the row's index, and the row's code point |
| Fixtures.GraphemeCasesSpec | encoding_tables/whatwg/generate_big5.py:128-140 | the four grapheme cases hold the bytes of pointers 1133, 1135, 1164, 1166 and their two-character texts |
| Fixtures.DecodeCasesSpec | encoding_tables/whatwg/generate_big5.py:111-140 | the decode cases are the ASCII identity cases, then one case per table row reading back to it, then (Big5 only) the grapheme cases |
| Fixtures.EncodeCasesSpec | encoding_tables/whatwg/generate_big5.py:142-158 | the encode cases are the ASCII identity cases, then one case per de-duplicated row |
| Fixtures.AsciiCasesIdentity | encoding_tables/whatwg/generate_shiftjis.py:105-111 | each ASCII case maps a byte to the character of the same value |
| Fixtures.EncodeCasesParts | encoding_tables/whatwg/generate_shiftjis.py:120-136 | the encode file is the ASCII cases followed by the cases of the de-duplicated rows, all of them writable |
| Fixtures.DedupedCasesSpec | encoding_tables/whatwg/generate_big5.py:152-158 | the de-duplicated rows' cases cover each encodable code point once |
| Fixtures.DedupedFacts | encoding_tables/whatwg/generate_shiftjis.py:130-136 | the de-duplicated rows come from the table, have distinct code points and cover the encodable code points |
| Fixtures.WritableRows | encoding_tables/whatwg/generate_big5.py:121-127 | a table whose pointers give byte pairs and whose code points are scalar values yields test data without error |
| BuildReader.RustLine | build.rs:145-159 | a parsed line gives a first column within `u32` (or `usize`) and a scalar value |
| BuildReader.ReadTable | build.rs:142-162 | the reading loop computes the table or the panic |
| BuildReader.PanicPersists | build.rs:154-157 | once a line panics, reading the whole file panics |
| BuildReader.RustRowsFailure | build.rs:145-160 | reading panics iff some line panics |
| BuildReader.RustRowsFromLines | build.rs:145-160 | every row read comes from some line of the file |
| BuildReader.HexLiteralReads | build.rs:154 | `u32::from_str_radix(&t[2..], 16)` reads back a `0x` literal of a `u32` |
| BuildReader.CodeLineReads | build.rs:146-158 | a code-table line `0xCODE 0xCP` reads back to its row |
| BuildReader.IndexLineReads | build.rs:271-285 | a WHATWG index line with a comment reads back to its row |
| BuildReader.LineOfTwoValues | build.rs:148-158 | a trimmed line with two readable columns reads as that row |
| BuildBig5.CodePointerOfCode | build.rs:172-178 | for a Big5 code the pointer computation does not underflow, and gives the WHATWG pointer, below 126 * 157 |
| BuildBig5.PointerIncreasing | build.rs:172-178 | pointers increase with Big5 codes |
| BuildBig5.CodeBytesOfPointer | build.rs:196 | splitting a Big5 code into two bytes gives `index_to_bytes` of its pointer |
| BuildBig5.DecodeSlotsPanicPersists | build.rs:172-178 | once a row's pointer computation panics, building the decode table panics |
| BuildBig5.BuildDecodeTable | build.rs:165-187 | the loop computes the decode table or the panic |
| BuildBig5.DecodeSlotsOfCodes | build.rs:171-178 | rows of Big5 codes never panic |
| BuildBig5.DedupedCodes | build.rs:166-168 | after `sort_by_key` and `dedup_by_key`, the rows keep every code, the first row of each, with strictly increasing pointers |
| BuildBig5.RowPlaced | build.rs:165-187 | every code's first row sets the character at its pointer |
| BuildBig5.HolePlaced | build.rs:179-182 | a pointer that no row has holds U+FFFD |
| BuildBig5.DecodeTableSpec | build.rs:165-187 | the decode table succeeds, holds the first row of each code at its pointer, is empty iff the table is, and ends at some row's pointer |
| BuildBig5.DecodeTableSucceeds | build.rs:165-187 | the decode table is the gap fill of the de-duplicated rows' strictly increasing pointers |
| BuildBig5.DecodeTablePlaces | build.rs:165-187 | each code's first row is placed at its pointer |
| BuildBig5.DecodeTableEnds | build.rs:179-185 | the table is empty iff there are no rows, and otherwise ends at some row's pointer |
| BuildBig5.BuildEncodeTable | build.rs:190-200 | the loop computes the encode table |
| BuildBig5.EncodeTableSpec | build.rs:190-200 | the encode table is strictly sorted by character, covers exactly the table's characters, and gives each the bytes of its first row |
| BuildBig5.TablesRoundTrip | build.rs:165-200 | with distinct codes, every encode entry's bytes decode through the decode table to its character |
| BuildBig5.EntryRoundTrip | build.rs:165-200 | a single encode entry decodes back to its character |
| BuildBig5.PointerBytesAgree | build.rs:404-410 | the conversion's byte split equals `index_to_bytes` wherever the lead still fits a byte |
| BuildBig5.PointerBytesWrap | build.rs:406-409 | at pointer 127 * 157 the `as u8` cast wraps the lead 0x100 to 0x00 |
| BuildBig5.ConvertWhatwgTable | build.rs:375-415 | the conversion loop computes the converted code table or the panic |
| BuildBig5.ConvertedCodes | build.rs:404-411 | every converted row is a Big5 code whose pointer is the original index |
| BuildBig5.ConvertedDecodeTable | build.rs:375-415 | reading the converted table back gives a decode table holding each index's character at that index |
| BuildBig5.TestRowsSpec | build.rs:471-474 | the test rows are sorted by code, have distinct characters, cover every character and keep each character's first row |
| BuildSingleByte.IndexTable | build.rs:269-288 | a collected table has exactly 128 entries |
| BuildSingleByte.IndexTablePanicPersists | build.rs:280-283 | once a line panics, collecting the table panics |
| BuildSingleByte.CollectTable | build.rs:269-288 | the loop computes the collected table or the panic |
| BuildSingleByte.IndexTableFailure | build.rs:279-285 | collecting panics iff some line panics or has an index above 127 |
| BuildSingleByte.IndexTableSlot | build.rs:284 | each slot holds the last row for that index, or U+FFFD when no row has it |
| BuildSingleByte.GenerateFromIndex | build.rs:262-300 | the generator computes the collected and reverse tables or the panic |
| BuildSingleByte.RevEntriesSpec | build.rs:291-297 | the reverse entries are exactly the defined slots as (character, 128 + i), in byte order |
| BuildSingleByte.RevTableMembers | build.rs:291-300 | the reverse table holds exactly the defined slots |
| BuildSingleByte.RevTableDistinct | build.rs:293-297 | the reverse table has distinct bytes |
| BuildSingleByte.RevTableSpec | build.rs:291-300 | the reverse table is sorted by character, stably, and holds exactly the defined slots |
| KeyedRows.KeyOrderIsPreorder | build.rs:167 | comparing by one field is a total preorder |
| KeyedRows.KeysSpec | build.rs:166-168 | a key is among the keys iff some row carries it |
| KeyedRows.FirstWithKeySpec | build.rs:166-168 | the first row with a key exists, carries the key, and no earlier row does |
| KeyedRows.SortKeepsFirstWithKey | build.rs:167 | a stable sort keeps which row comes first for each key |
| KeyedRows.DedupByKeySpec | build.rs:168 | `dedup_by_key` keeps the keys and the last key and only drops rows |
| KeyedRows.DedupKeepsFirstWithKey | build.rs:168 | `dedup_by_key` keeps the first row of each key |
| KeyedRows.DedupSortedIncreases | build.rs:168 | de-duplicating a sorted sequence makes its keys strictly increase |
| KeyedRows.SortDedupSpec | build.rs:191-193 | sort-then-dedup keeps every key once, strictly increasing, with the first row of each key |
| SingleByte.EncodedBytesSpec | src/single_byte.rs:278-297 | a text is encodable iff each character is, and then encodes character by character to one byte each |
| SingleByte.LookupChar | src/single_byte.rs:282-289 | a character maps to itself if ASCII, else to the first table byte for it |
| SingleByte.EncodeFromStr | src/single_byte.rs:270-309 | the output buffer holds the run's bytes, nothing else changes, and the result is the run's bytes and input offset or its error |
| SingleByte.EncodeFromBounds | src/single_byte.rs:278-297 | a run consumes characters in order, writes one byte each, and fails only before the end |
| SingleByte.EncodeFromMeaning | src/single_byte.rs:278-297 | the output is the encoding of exactly the consumed characters; a failure names an unencodable character and its UTF-8 width; otherwise input or room ran out |
| SingleByte.EncodeRunMeaning | src/single_byte.rs:270-309 | a whole call's output encodes the consumed prefix, its offset is that prefix's UTF-8 length, and it stops only at an error, the end, or a full buffer |
| SingleByte.EncodeRunComplete | src/single_byte.rs:270-309 | an encodable text with enough room is consumed completely without error |
| SingleByte.DecodedTextSpec | src/single_byte.rs:321-351 | bytes decode iff each byte does, one character per byte |
| SingleByte.DecodeToStr | src/single_byte.rs:314-357 | the output buffer holds the run's UTF-8, nothing else changes, and the result is the run's text and bytes consumed or its error |
| SingleByte.DecodeFromBounds | src/single_byte.rs:321-351 | a failure is an undefined byte with a one-byte range; a stop before the end means the next character did not fit |
| SingleByte.DecodeFromMeaning | src/single_byte.rs:321-351 | the output is the UTF-8 of the text of exactly the consumed bytes |
| SingleByte.DecodeRunMeaning | src/single_byte.rs:314-357 | a whole call's output is the UTF-8 of the consumed prefix, and it stops only at an undefined byte, the end, or a full buffer |
| SingleByte.DecodeFromComplete | src/single_byte.rs:321-351 | decodable bytes whose text fits are consumed completely |
| SingleByte.DecodeRunComplete | src/single_byte.rs:314-357 | decodable bytes whose text fits are consumed completely without error |
| SingleByte.AsciiEncodeFromStr | src/single_byte.rs:12-14 | the ASCII encoder is the shared encoder with an empty table |
| SingleByte.AsciiDecodeToStr | src/single_byte.rs:16-18 | the ASCII decoder is the shared decoder with an all-undefined table |
| SingleByte.AsciiTablesAcceptOnlyAscii | src/single_byte.rs:12-18 | ASCII encodes exactly the texts below U+0080, unchanged, and decodes exactly the bytes below 0x80 |
| SingleByte.Latin1RoundTrip | tests/property_tests.rs:250-278 | Latin-1 decodes every byte string to the characters of the same values, which encode back to the bytes |
| SingleByte.Latin1StreamRoundTrip | tests/property_tests.rs:250-278 | with room, a decode call and an encode call each consume everything, and the round trip returns the input bytes |
| Big5.MapGraphemeSpec | src/big5_whatwg.rs:76-84 | `map_grapheme` is defined exactly for the four grapheme pairs, giving the bytes of their pointers |
| Big5.EncodeStepAt | src/big5_whatwg.rs:18-61 | an emitting step consumes 1 or 2 characters and writes 1 or 2 bytes |
| Big5.CharStep | src/big5_whatwg.rs:19-61 | one step of the encoder loop computes the specified step |
| Big5.UnmappableSpec | src/big5_whatwg.rs:22-61 | a character is unmappable iff it is above 127 and not in the encode table |
| Big5.EncodeFromStr | src/big5_whatwg.rs:9-74 | the output buffer holds the run's bytes, nothing else changes, and the result is the run's bytes and input offset or its error |
| Big5.EncodeFromStops | src/big5_whatwg.rs:20-53 | the run stops without error at the end, on a full buffer, when a grapheme waits for more input, or when a pair does not fit |
| Big5.EncodeFromFails | src/big5_whatwg.rs:55-61 | an unmappable character fails with its UTF-8 width, after what was written |
| Big5.EncodeFromBounds | src/big5_whatwg.rs:18-62 | a failure names an unmappable character; a stop before the end means full buffer, a pair that does not fit, or a waiting grapheme |
| Big5.EncodeFromMeaning | src/big5_whatwg.rs:18-62 | the output is the encoding of exactly the consumed characters and the offset their UTF-8 length |
| Big5.EncodeRunMeaning | src/big5_whatwg.rs:9-74 | a whole call's output encodes the consumed prefix; a failure names an unmappable character; otherwise it stops only at the end, a full buffer, a pair that does not fit, or a waiting grapheme |
| Big5.EncodeFromComplete | src/big5_whatwg.rs:18-62 | an encodable text whose bytes fit is consumed completely at end of input |
| Big5.EncodeRunComplete | src/big5_whatwg.rs:9-74 | an encodable text whose bytes fit is consumed completely without error |
| Big5.DecodeStepAt | src/big5_whatwg.rs:93-172 | a decoding step consumes bytes within the input, and an error span lies within the input |
| Big5.ByteStep | src/big5_whatwg.rs:93-150 | one step of the decoder loop computes the specified step |
| Big5.DecodeToStr | src/big5_whatwg.rs:86-179 | the output buffer holds the run's UTF-8, nothing else changes, and the result is the run's text and bytes consumed or its error |
| Big5.DecodeFromStops | src/big5_whatwg.rs:93-172 | the run stops without error at the end, on a full buffer, or at a lead byte without trail when more input may follow |
| Big5.DecodeFromOverflows | src/big5_whatwg.rs:152-155 | characters that do not fit stop the run without error |
| Big5.DecodeFromFails | src/big5_whatwg.rs:101-171 | an invalid lead, an invalid trail, an undefined pointer or a truncated end fails with the step's error span |
| Big5.DecodeFromBounds | src/big5_whatwg.rs:93-173 | a failure is the step's error; a stop before the end means full buffer, characters that do not fit, or a truncated lead |
| Big5.DecodeFromMeaning | src/big5_whatwg.rs:93-173 | the output is the UTF-8 of the text of exactly the consumed bytes |
| Big5.DecodeRunMeaning | src/big5_whatwg.rs:86-179 | a whole call's output is the UTF-8 of the consumed prefix, and it stops only at an error, the end, a full buffer, or a truncated lead |
| Big5.DecodeFromComplete | src/big5_whatwg.rs:93-173 | decodable bytes whose text fits are consumed completely at end of input |
| Big5.DecodeRunComplete | src/big5_whatwg.rs:86-179 | decodable bytes whose text fits are consumed completely without error |
| Big5.StepRoundTrip | src/big5_whatwg.rs:18-150 | with consistent tables, the bytes of one encoder step decode to the characters of that step |
| Big5.RoundTrip | src/big5_whatwg.rs:9-179 | with consistent tables, decoding the encoding of a text gives the text back |
| Big5.StreamRoundTrip | tests/big5.rs:14-32 | with enough room, one encode call and one decode call consume everything and return the text's UTF-8 |
| Big5.GraphemePointersDecode | src/big5_whatwg.rs:129-135 | the four grapheme pointers decode to their two-character texts, which `map_grapheme` encodes back |
| Big5.PairDecodes | src/big5_whatwg.rs:107-150 | a lead/trail pair whose pointer has text decodes to it |
| ShiftJis.EncodeChar | src/shiftjis_whatwg.rs:13-74 | an emitted character takes the byte count it needs, and single-byte and private-use characters always emit |
| ShiftJis.CharStep | src/shiftjis_whatwg.rs:14-65 | one step of the encoder loop computes the specified step |
| ShiftJis.UnmappableSpec | src/shiftjis_whatwg.rs:17-65 | a character is unmappable iff it is not single-byte, not private-use, and its table key (U+2212 as U+FF0D) is not in the table |
| ShiftJis.EncodeFromStr | src/shiftjis_whatwg.rs:9-87 | the output buffer holds the run's bytes, nothing else changes, and the result is the run's bytes and input offset or its error |
| ShiftJis.EncodeFromAdvance | src/shiftjis_whatwg.rs:67-70 | an emitted character advances the run by one character and its bytes |
| ShiftJis.EncodeFromStops | src/shiftjis_whatwg.rs:15-16 | the run stops without error at the end or where the next character's bytes do not fit |
| ShiftJis.EncodeFromFails | src/shiftjis_whatwg.rs:59-63 | an unmappable character with room for two bytes fails with its UTF-8 width |
| ShiftJis.EncodeFromBounds | src/shiftjis_whatwg.rs:13-75 | a failure names an unmappable character with two bytes of room; a stop before the end means the next character does not fit |
| ShiftJis.EncodeFromMeaning | src/shiftjis_whatwg.rs:13-75 | the output is the encoding of exactly the consumed characters and the offset their UTF-8 length |
| ShiftJis.EncodeRunMeaning | src/shiftjis_whatwg.rs:9-87 | a whole call's output encodes the consumed prefix; a failure names an unmappable character; otherwise it stops only at the end or where the next character does not fit |
| ShiftJis.EncodeFromComplete | src/shiftjis_whatwg.rs:13-75 | an encodable text whose bytes fit is consumed completely |
| ShiftJis.EncodeRunComplete | src/shiftjis_whatwg.rs:9-87 | an encodable text whose bytes fit is consumed completely without error |
| ShiftJis.DecodeStepAt | src/shiftjis_whatwg.rs:96-182 | a decoding step consumes bytes within the input, and an error span lies within the input |
| ShiftJis.ByteStep | src/shiftjis_whatwg.rs:96-182 | one step of the decoder loop computes the specified step |
| ShiftJis.DecodeToStr | src/shiftjis_whatwg.rs:89-201 | the output buffer holds the run's UTF-8, nothing else changes, and the result is the run's text and bytes consumed or its error |
| ShiftJis.DecodeFromAdvance | src/shiftjis_whatwg.rs:184-193 | a decoded step that fits advances the run by its bytes and its UTF-8 |
| ShiftJis.DecodeFromStops | src/shiftjis_whatwg.rs:96-182 | the run stops without error at the end, on a full buffer, or at a lead byte without trail when more input may follow |
| ShiftJis.DecodeFromOverflows | src/shiftjis_whatwg.rs:185-188 | characters that do not fit stop the run without error |
| ShiftJis.DecodeFromFails | src/shiftjis_whatwg.rs:124-181 | an invalid lead, an invalid trail, an undefined pointer or a truncated end fails with the step's error span |
| ShiftJis.DecodeFromBounds | src/shiftjis_whatwg.rs:96-195 | a failure is the step's error; a stop before the end means full buffer, characters that do not fit, or a truncated lead |
| ShiftJis.DecodeFromMeaning | src/shiftjis_whatwg.rs:96-195 | the output is the UTF-8 of the text of exactly the consumed bytes |
| ShiftJis.DecodeRunMeaning | src/shiftjis_whatwg.rs:89-201 | a whole call's output is the UTF-8 of the consumed prefix, and it stops only at an error, the end, a full buffer, or a truncated lead |
| ShiftJis.DecodeFromComplete | src/shiftjis_whatwg.rs:96-195 | decodable bytes whose text fits are consumed completely at end of input |
| ShiftJis.DecodeRunComplete | src/shiftjis_whatwg.rs:89-201 | decodable bytes whose text fits are consumed completely without error |
| ShiftJis.CanonicalTextSpec | src/shiftjis_whatwg.rs:22-54 | a text is canonical iff it has no U+00A5, U+203E or U+2212, and canonicalising is idempotent |
| ShiftJis.StepRoundTrip | src/shiftjis_whatwg.rs:13-182 | with consistent tables, an encoded character's bytes decode to its canonical form |
| ShiftJis.RoundTrip | src/shiftjis_whatwg.rs:9-201 | with consistent tables, decoding the encoding of a text gives its canonical form |
| ShiftJis.StreamRoundTrip | src/shiftjis_whatwg.rs:9-201 | with enough room, one encode call and one decode call consume everything and return the canonical text's UTF-8 |
| Utf32Le.LeBytes | src/utf32_le.rs:12 | `to_le_bytes` gives four bytes |
| Utf32Le.LeBytesRoundTrip | src/utf32_le.rs:57 | `from_le_bytes` inverts `to_le_bytes`, and every four bytes holding a scalar value are its `to_le_bytes` |
| Utf32Le.Encoded | src/utf32_le.rs:10-18 | a text encodes to four bytes per character |
| Utf32Le.EncodedAppend | src/utf32_le.rs:10-18 | encoding distributes over concatenation |
| Utf32Le.EncodedSplit | src/utf32_le.rs:10-18 | splitting the encoding at 4m bytes splits the text at m characters |
| Utf32Le.EncodeRunSpec | src/utf32_le.rs:6-34 | a call never fails, writes the encoding of the first whole characters that fit, stops only with fewer than four bytes of room, and reports their UTF-8 length |
| Utf32Le.EncodeFromStr | src/utf32_le.rs:6-34 | the output buffer holds the run's bytes, nothing else changes, and the result is the run's bytes and input offset |
| Utf32Le.DecodeStepAt | src/utf32_le.rs:41-77 | an error span lies within the input and a character consumes four bytes |
| Utf32Le.DecodeToStr | src/utf32_le.rs:36-84 | the output buffer holds the run's UTF-8, nothing else changes, and the result is the run's text and bytes consumed or its error |
| Utf32Le.DecodeFromSpec | src/utf32_le.rs:41-78 | a run from a chunk boundary decodes exactly the consumed chunks and stops only where the source stops |
| Utf32Le.DecodeFromAdvance | src/utf32_le.rs:59-69 | a decoded chunk that fits advances the run by four bytes and its UTF-8 |
| Utf32Le.DecodeRunMeaning | src/utf32_le.rs:36-84 | the output is the UTF-8 of whole consumed chunks; a failure is a non-scalar chunk (span 4) or a partial chunk at the end; otherwise it stops at a partial chunk mid-stream or a full buffer |
| Utf32Le.TrailingPartialChunk | src/utf32_le.rs:42-53 | a partial last chunk stops the run, as an error spanning the rest only at end of input |
| Utf32Le.EncodedDecodes | src/utf32_le.rs:6-84 | decoding the encoding of a text gives the text |
| Utf32Le.DecodesEncoded | src/utf32_le.rs:36-84 | encoding the text of decodable bytes gives the bytes |
| Utf32Le.DecodeFromEncoded | src/utf32_le.rs:41-78 | with room, a run over an encoded text consumes everything and writes its UTF-8 |
| Utf32Le.StreamRoundTrip | src/utf32_le.rs:6-84 | with room, one encode call and one decode call consume everything and return the text's UTF-8 |
| Utf32Le.EncodeChunksWhole | tests/property_tests.rs:208-217 | the property test's encode loop, with a buffer of at least four bytes, produces the whole encoding |
| Utf32Le.DecodeCallOnEncoded | tests/property_tests.rs:219-228 | each decode call on encoded text makes progress, consumes whole characters and writes their UTF-8 |
| Utf32Le.DecodeChunksOfEncoded | tests/property_tests.rs:219-228 | the property test's decode loop turns an encoding back into the text's UTF-8 |
| Utf32Le.ChunkedRoundTrip | tests/property_tests.rs:203-231 | the chunked encode loop followed by the chunked decode loop gives back the text |
| CodecTables.EntryFromRow | encoding_tables/whatwg/generate_big5.py:76 | every generated encode entry is (code point, `index_to_bytes(index)`) of some loaded row |
| CodecTables.RowInDecodeTable | encoding_tables/whatwg/generate_big5.py:66-73 | each row's code point sits in the decode table at its pointer |
| CodecTables.DefinedFromRow | encoding_tables/whatwg/generate_big5.py:66-73 | every defined decode entry comes from a row |
| CodecTables.DecodeTableWritable | encoding_tables/whatwg/generate_big5.py:89-96 | when every row's code point is a scalar value, the decode table can be written as `char`s |
| CodecTables.SortedEntriesByKey | encoding_tables/whatwg/generate_big5.py:77 | the sorted encode table is sorted by character, as `binary_search_by_key` requires |
| CodecTables.GeneratedFacts | encoding_tables/whatwg/generate_big5.py:62-77 | the generated decode table places every row and holds only scalar values, and the encode table is sorted |
| CodecTables.Big5RowAgrees | encoding_tables/whatwg/generate_big5.py:4-17 | a well-formed Big5 row's bytes decode through the decode table to its code point |
| CodecTables.Big5GraphemesUndefined | src/big5_whatwg.rs:129-135 | a table of well-formed rows leaves the four grapheme pointers undefined, so the decoder's special case applies |
| CodecTables.Big5TablesAgree | encoding_tables/whatwg/generate_big5.py:62-105 | the generated Big5 tables are writable, sorted by character and consistent, so the Big5 round trips hold for them |
| CodecTables.ShiftJisRowAgrees | encoding_tables/whatwg/generate_shiftjis.py:4-19 | a well-formed Shift_JIS row's bytes decode through the decode table to its code point |
| CodecTables.ShiftJisTablesAgree | encoding_tables/whatwg/generate_shiftjis.py:53-96 | the generated Shift_JIS tables are writable, sorted by character and consistent, so the Shift_JIS round trips hold for them |

## Left out

- Lookup.BinarySearchByKey: returns the first entry with the character. Rust's `binary_search_by_key` may return any of several equal entries. A generated single-byte table can hold duplicates (see `SingleByteTables.AsciiExtKeepsDuplicates`), so the byte the real encoder picks is left unspecified.
- SingleByte.EncodeFromStr: for a character that has several table entries, the model writes the first entry's byte. The source may write the byte of any of them.
- Parsing.IsSpace: recognises ASCII whitespace only. Python's `str.split()` and Rust's `split_whitespace`/`trim` also split on the other Unicode White_Space characters, such as U+0085 and U+3000.
- Parsing.PyInt: rejects underscores between digits and surrounding whitespace, both of which Python's `int()` accepts. The index files use neither.
- BuildBig5.CodePointer: a `u32` subtraction that goes below zero is modelled as a panic, which is what a debug build does. A release build would wrap instead.
- Reading and writing files are not modelled:
  - `open`, `lines()`, `write`/`write_all`;
  - the Rust source text the generators print (`{:X}`, `{:02X}` formatting, line breaks every 3, 4 or 8 entries);
  - the `__main__` drivers and `main()` of `build.rs`.

  Input files are sequences of lines; output tables and test files are sequences of values.
- `build.rs`'s `generate_big5_test_files` is modelled only up to its row de-duplication (`BuildBig5.TestRowsSpec`). Its byte-writing loops (ASCII `1..127u8`, rows, newlines) are output formatting.
- The newline written after each test-data line is not modelled. Each line is one `Case`.
- `usize` is modelled as 64 bits (`UsizeMax`).
- The `cause` field of `DecodeError` is not modelled. Every decoding error in these codecs is invalid data; only the error range and the output written are kept.
- The generated single-byte modules pass `is_end` as a fourth argument to `ascii_ext_encode_from_str`/`ascii_ext_decode_to_str`, which take three, while the ASCII wrappers (`src/single_byte.rs:12-18`) call them with three. The model follows the three-argument functions.
- The encoding registry in `src/lib.rs` and the repository's `wrapper.rs` example are not part of this model. The UTF-8, UTF-16 and UTF-32 BE codecs are not part of this model either.
- The round trips `Big5.RoundTrip` and `ShiftJis.RoundTrip` assume consistent tables. `CodecTables` proves consistency for the tables generated from index files whose rows are well formed (Big5: pointer below 126 * 157 and not a grapheme pointer; Shift_JIS: pointer below 60 * 188 and outside 8836..10715; both: a scalar value other than U+FFFD, distinct pointers). The actual WHATWG index files are not part of this model.
- ShiftJis.RoundTrip: holds only up to `CanonicalText`. U+00A5, U+203E and U+2212 encode to the bytes of U+005C, U+007E and U+FF0D, and decode as those.
- Utf32Le.DecodeChunks: a decode call that makes no progress ends the property test's loop with `None`. The Rust test would loop forever; the `DecodeCallOnEncoded` lemma shows this never happens on encoded text.
- Python's `bytes()` and `chr()` raising on out-of-range values are modelled as `ValueError` from the fixture generators (`Fixtures.Writable`). Other exception types are not distinguished.
