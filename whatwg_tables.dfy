/** The Big5 and Shift_JIS table generators: `load_table_file` reads the
    WHATWG index file into sorted `(pointer, code point)` rows,
    `generate_big5_tables` / `generate_shiftjis_tables` turn the rows into a
    dense decode table (indexed by pointer, `None` where the index has no
    entry) and an encode table of `(code point, (lead, trail))` entries
    sorted ascending. The two generators differ only in their
    `deduped_table` and `index_to_bytes`. */
module WhatwgTables {
  import opened Wrappers
  import opened Parsing
  import opened Sorting
  import opened Rows
  import opened Dedup
  import opened DecodeTables
  import opened IndexFiles
  import Big5Index
  import ShiftJisIndex

  // ---------------------------------------------------------------------
  // The tables

  /** `(code point, (lead, trail))`, compared as Python compares tuples. */
  type EncodeEntry = (int, (int, int))

  predicate EntryLe(a: EncodeEntry, b: EncodeEntry) {
    a.0 < b.0 || (a.0 == b.0 && (a.1.0 < b.1.0 || (a.1.0 == b.1.0 && a.1.1 <= b.1.1)))
  }

  lemma EntryLeIsPreorder()
    ensures Preorder(EntryLe)
  {
  }

  /** The generated tables: `dec_table` and `enc_table`. */
  datatype Tables = Tables(decode: seq<Option<int>>, encode: seq<EncodeEntry>)

  /** The two encodings whose generators share this code. */
  datatype Encoding = Big5 | ShiftJis

  /** Each generator's `index_to_bytes`. */
  function PointerBytes(enc: Encoding, i: int): (int, int) {
    match enc
    case Big5 => Big5Index.IndexToBytes(i)
    case ShiftJis => ShiftJisIndex.IndexToBytes(i)
  }

  /** Each generator's `deduped_table`. */
  function Deduped(enc: Encoding, rows: seq<Row>): seq<Row> {
    match enc
    case Big5 => Big5Deduped(rows)
    case ShiftJis => ShiftJisDeduped(rows)
  }

  /** `[(codepoint, index_to_bytes(index)) for (index, codepoint) in deduped]`. */
  function EncodeEntries(enc: Encoding, rows: seq<Row>): seq<EncodeEntry> {
    seq(|rows|, k requires 0 <= k < |rows| => (rows[k].1, PointerBytes(enc, rows[k].0)))
  }

  /** What a generator produces from the index file's lines. */
  function GeneratedTables(enc: Encoding, lines: seq<string>): Result<Tables, GenError> {
    match LoadedTable(Whatwg, lines)
    case Failure(e) => Failure(e)
    case Success(table) =>
      Success(Tables(GapFilled(Slots(table, 0), None), SortBy(EncodeEntries(enc, Deduped(enc, table)), EntryLe)))
  }

  /** The body shared by `generate_big5_tables` and
      `generate_shiftjis_tables`, up to writing the file. */
  method GenerateTables(enc: Encoding, lines: seq<string>) returns (r: Result<Tables, GenError>)
    ensures r == GeneratedTables(enc, lines)
  {
    var loaded := LoadTableFile(Whatwg, lines);
    if loaded.Failure? {
      return Failure(loaded.error);
    }
    var table := loaded.value;
    var decTable := GapFill(Slots(table, 0), None);
    var deduped;
    if enc == Big5 {
      deduped := DedupBig5(table);
    } else {
      deduped := DedupShiftJis(table);
    }
    var encTable := EncodeEntries(enc, deduped);
    encTable := SortBy(encTable, EntryLe);
    r := Success(Tables(decTable, encTable));
  }

  /** `generate_big5_tables`. */
  method GenerateBig5Tables(lines: seq<string>) returns (r: Result<Tables, GenError>)
    ensures r == GeneratedTables(Big5, lines)
  {
    r := GenerateTables(Big5, lines);
  }

  /** `generate_shiftjis_tables`. */
  method GenerateShiftJisTables(lines: seq<string>) returns (r: Result<Tables, GenError>)
    ensures r == GeneratedTables(ShiftJis, lines)
  {
    r := GenerateTables(ShiftJis, lines);
  }

  /** When the loaded rows' pointers are distinct and non-negative, the
      decode table ends at the largest pointer, holds each code point at its
      pointer and `None` everywhere else. */
  lemma DecodeTableSpec(enc: Encoding, lines: seq<string>)
    requires LoadedTable(Whatwg, lines).Success?
    requires var table := LoadedTable(Whatwg, lines).value;
      DistinctIndices(table) && forall k :: 0 <= k < |table| ==> table[k].0 >= 0
    ensures var table := LoadedTable(Whatwg, lines).value;
      var dec := GeneratedTables(enc, lines).value.decode;
      && |dec| == (if table == [] then 0 else table[|table| - 1].0 + 1)
      && PlacedAt(table, 0, dec)
  {
    var table := LoadedTable(Whatwg, lines).value;
    assert StrictlyIncreasing(Slots(table, 0)) by {
      SortRowsSpec(ParsedRows(Whatwg, lines).value);
      SortedSlotsIncrease(table, 0);
    }
    assert GeneratedTables(enc, lines).value.decode == GapFilled(Slots(table, 0), None);
    RowsGapFilled(table, 0);
  }

  /** The encode table is sorted ascending, and it holds exactly one entry
      `(code point, index_to_bytes(pointer))` per row of `deduped_table`. */
  lemma EncodeTableSpec(enc: Encoding, lines: seq<string>)
    requires LoadedTable(Whatwg, lines).Success?
    ensures var table := LoadedTable(Whatwg, lines).value;
      var e := GeneratedTables(enc, lines).value.encode;
      && SortedBy(e, EntryLe)
      && multiset(e) == multiset(EncodeEntries(enc, Deduped(enc, table)))
  {
    var table := LoadedTable(Whatwg, lines).value;
    EntryLeIsPreorder();
    SortBySorted(EncodeEntries(enc, Deduped(enc, table)), EntryLe);
    SortByPermutes(EncodeEntries(enc, Deduped(enc, table)), EntryLe);
  }

  /** The Big5 generator keeps pointers that the standard's "index Big5
      pointer" excludes: an index file whose only line maps pointer 942
      (below (0xA1 - 0x81) * 157 = 5024) to U+43F0 yields an encode table
      entry for U+43F0 with lead byte 0x87, a byte the standard's Big5
      encoder never emits as a lead. */
  lemma Big5KeepsExcludedPointers()
    ensures 942 < Big5Index.StandardFirstPointer
    ensures GeneratedTables(Big5, [IndexLine(Whatwg, (942, 0x43F0), "")]).Success?
    ensures GeneratedTables(Big5, [IndexLine(Whatwg, (942, 0x43F0), "")]).value.encode == [(0x43F0, (0x87, 0x40))]
  {
    var rows: seq<Row> := [(942, 0x43F0)];
    IndexFileRoundTrip(Whatwg, rows);
    assert IndexFile(Whatwg, rows) == [IndexLine(Whatwg, (942, 0x43F0), "")];
    assert SortRows(rows) == rows;
    assert LastSpecials(rows) == rows;
    assert FirstWins(rows, {}) == rows;
    assert EncodeEntries(Big5, rows) == [(0x43F0, (0x87, 0x40))];
  }
}
