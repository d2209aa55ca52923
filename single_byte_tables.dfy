/** The single-byte table generators. `generate_ascii_ext_tables.py` reads a
    Unicode mapping file (byte and code point in hex), checks that bytes
    0x00-0x7F map to themselves and builds the tables of bytes 0x80-0xFF
    from the remaining rows. `generate_tables.py` reads a WHATWG
    single-byte index (pointer in decimal, code point in hex) whose pointer
    0 is byte 0x80. Both build a decode table of at least 128 entries and a
    sorted `(code point, byte)` encode table. */
module SingleByteTables {
  import opened Wrappers
  import opened Parsing
  import opened Sorting
  import opened Rows
  import opened DecodeTables
  import opened IndexFiles

  /** `dec_table` (the code point of byte `0x80 + j` at `j`, `None` for an
      unmapped byte) and `enc_table` (`(code point, byte)` entries). */
  datatype ByteTables = ByteTables(decode: seq<Option<int>>, encode: seq<Row>)

  // ---------------------------------------------------------------------
  // The ASCII check

  /** The loop `for i in range(0, 128)` from `i` on: the first position that
      is past the end of the table (`IndexError`) or does not hold `(i, i)`
      (the explicit `raise`). */
  function AsciiCheckFrom(table: seq<Row>, i: nat): Option<GenError>
    requires i <= 128
    decreases 128 - i
  {
    if i == 128 then None
    else if i >= |table| then Some(IndexError)
    else if table[i].0 != i || table[i].1 != i then Some(NotAsciiExtension(i))
    else AsciiCheckFrom(table, i + 1)
  }

  /** The ASCII-extension loop of `generate_ascii_ext_encoding`. */
  method CheckAsciiExtension(table: seq<Row>) returns (err: Option<GenError>)
    ensures err == AsciiCheckFrom(table, 0)
  {
    for i := 0 to 128
      invariant AsciiCheckFrom(table, i) == AsciiCheckFrom(table, 0)
    {
      if i >= |table| {
        return Some(IndexError);
      }
      if table[i].0 != i || table[i].1 != i {
        return Some(NotAsciiExtension(i));
      }
    }
    return None;
  }

  /** The first 128 rows map each byte 0x00-0x7F to the same code point. */
  predicate AsciiPrefix(table: seq<Row>) {
    |table| >= 128 && forall i :: 0 <= i < 128 ==> table[i] == (i, i)
  }

  /** The ASCII test passes exactly on an ASCII prefix; it reports `IndexError`
      exactly when the table is shorter than 128 rows that all map a byte
      to itself, and otherwise names the first byte that does not. */
  lemma {:induction false} AsciiCheckFromSpec(table: seq<Row>, i: nat)
    requires i <= 128 && i <= |table|
    ensures var r := AsciiCheckFrom(table, i);
      && (r.None? <==> |table| >= 128 && forall k :: i <= k < 128 ==> table[k] == (k, k))
      && (r == Some(IndexError) <==> |table| < 128 && forall k :: i <= k < |table| ==> table[k] == (k, k))
      && (r.Some? ==> r.value.IndexError? || r.value.NotAsciiExtension?)
      && (r.Some? && r.value.NotAsciiExtension? ==>
            var c := r.value.codepoint;
            i <= c < 128 && c < |table| && table[c] != (c, c) &&
            forall k :: i <= k < c ==> table[k] == (k, k))
    decreases 128 - i
  {
    if i < 128 && i < |table| && table[i] == (i, i) {
      AsciiCheckFromSpec(table, i + 1);
    }
  }

  /** `AsciiCheckFromSpec` from the start of the table. */
  lemma AsciiCheckSpec(table: seq<Row>)
    ensures AsciiCheckFrom(table, 0).None? <==> AsciiPrefix(table)
    ensures AsciiCheckFrom(table, 0) == Some(IndexError) <==>
            |table| < 128 && forall k :: 0 <= k < |table| ==> table[k] == (k, k)
    ensures AsciiCheckFrom(table, 0).Some? && AsciiCheckFrom(table, 0).value.NotAsciiExtension? ==>
            var c := AsciiCheckFrom(table, 0).value.codepoint;
            0 <= c < 128 && c < |table| && table[c] != (c, c) &&
            forall k :: 0 <= k < c ==> table[k] == (k, k)
  {
    AsciiCheckFromSpec(table, 0);
  }

  // ---------------------------------------------------------------------
  // The tables

  /** `(codepoint, index + offset)` for every row, in row order. */
  function EncodeEntries(rows: seq<Row>, offset: int): seq<Row> {
    seq(|rows|, k requires 0 <= k < |rows| => (rows[k].1, rows[k].0 + offset))
  }

  /** The encode-table loop. Its `seen &= {codepoint}` intersects an empty
      set, so `seen` stays empty, the membership test always passes, and
      every row gives an entry: no duplicate code point is dropped. */
  method BuildEncodeEntries(rows: seq<Row>, offset: int) returns (enc: seq<Row>)
    ensures enc == EncodeEntries(rows, offset)
  {
    enc := [];
    var seen: set<int> := {};
    for k := 0 to |rows|
      invariant seen == {}
      invariant |enc| == k
      invariant forall j :: 0 <= j < k ==> enc[j] == (rows[j].1, rows[j].0 + offset)
    {
      if rows[k].1 !in seen {
        seen := seen * {rows[k].1};
        enc := enc + [(rows[k].1, rows[k].0 + offset)];
      }
    }
  }

  /** The decode table of rows placed at their index less `shift`, padded
      with `None` to 128 entries. */
  function ByteDecodeTable(rows: seq<Row>, shift: int): seq<Option<int>> {
    Padded(GapFilled(Slots(rows, shift), None), 128, None)
  }

  /** `generate_ascii_ext_encoding` up to writing the file. */
  function AsciiExtTables(lines: seq<string>): Result<ByteTables, GenError> {
    match LoadedTable(AsciiExt, lines)
    case Failure(e) => Failure(e)
    case Success(table) =>
      match AsciiCheckFrom(table, 0)
      case Some(e) => Failure(e)
      case None =>
        AsciiCheckSpec(table);
        var rest := table[128..];
        Success(ByteTables(ByteDecodeTable(rest, 128), SortRows(EncodeEntries(rest, 0))))
  }

  /** The generator's loops: load, check, truncate to the non-ASCII rows,
      gap-fill, pad, build and sort the encode entries. */
  method GenerateAsciiExtEncoding(lines: seq<string>) returns (r: Result<ByteTables, GenError>)
    ensures r == AsciiExtTables(lines)
  {
    var loaded := LoadTableFile(AsciiExt, lines);
    if loaded.Failure? {
      return Failure(loaded.error);
    }
    var table := loaded.value;
    var err := CheckAsciiExtension(table);
    if err.Some? {
      return Failure(err.value);
    }
    AsciiCheckSpec(table);
    table := table[128..];
    var decTable := GapFill(Slots(table, 128), None);
    decTable := PadTo(decTable, 128, None);
    var encTable := BuildEncodeEntries(table, 0);
    encTable := SortBy(encTable, RowLe);
    r := Success(ByteTables(decTable, encTable));
  }

  /** `generate_ascii_ext_encoding` of generate_tables.py, up to writing the
      file: no ASCII check, pointer `p` is byte `p + 128`. */
  function PlainTables(lines: seq<string>): Result<ByteTables, GenError> {
    match LoadedTable(Plain, lines)
    case Failure(e) => Failure(e)
    case Success(table) =>
      Success(ByteTables(ByteDecodeTable(table, 0), SortRows(EncodeEntries(table, 128))))
  }

  /** The loops of generate_tables.py. */
  method GeneratePlainEncoding(lines: seq<string>) returns (r: Result<ByteTables, GenError>)
    ensures r == PlainTables(lines)
  {
    var loaded := LoadTableFile(Plain, lines);
    if loaded.Failure? {
      return Failure(loaded.error);
    }
    var table := loaded.value;
    var decTable := GapFill(Slots(table, 0), None);
    decTable := PadTo(decTable, 128, None);
    var encTable := BuildEncodeEntries(table, 128);
    encTable := SortBy(encTable, RowLe);
    r := Success(ByteTables(decTable, encTable));
  }

  // ---------------------------------------------------------------------
  // The decode table, position by position

  /** Rows whose shifted indices increase strictly from 0 and stay below
      128 give a table of exactly 128 entries that places every row. */
  lemma ByteDecodeSpec(rows: seq<Row>, shift: int)
    requires StrictlyIncreasing(Slots(rows, shift))
    requires rows != [] ==> rows[|rows| - 1].0 - shift < 128
    ensures |ByteDecodeTable(rows, shift)| == 128
    ensures PlacedAt(rows, shift, ByteDecodeTable(rows, shift))
  {
    var dec := ByteDecodeTable(rows, shift);
    ByteDecodeLength(rows, shift);
    forall k | 0 <= k < |rows|
      ensures 0 <= rows[k].0 - shift < |dec| && dec[rows[k].0 - shift] == Some(rows[k].1)
    {
      ByteDecodeValue(rows, shift, k);
    }
    forall j | 0 <= j < |dec| && (forall k :: 0 <= k < |rows| ==> rows[k].0 - shift != j)
      ensures dec[j] == None
    {
      ByteDecodeHole(rows, shift, j);
    }
  }

  /** Rows with increasing shifted indices below 128 fill exactly 128
      entries. */
  lemma ByteDecodeLength(rows: seq<Row>, shift: int)
    requires StrictlyIncreasing(Slots(rows, shift))
    requires rows != [] ==> rows[|rows| - 1].0 - shift < 128
    ensures |ByteDecodeTable(rows, shift)| == 128
    ensures |GapFilled(Slots(rows, shift), None)| <= 128
  {
    var slots := Slots(rows, shift);
    GapFilledLength(slots, None);
    if rows != [] {
      assert slots[|slots| - 1].0 == rows[|rows| - 1].0 - shift;
    }
  }

  /** Each row's code point sits at its shifted index. */
  lemma ByteDecodeValue(rows: seq<Row>, shift: int, k: int)
    requires StrictlyIncreasing(Slots(rows, shift))
    requires rows != [] ==> rows[|rows| - 1].0 - shift < 128
    requires 0 <= k < |rows|
    ensures 0 <= rows[k].0 - shift < 128
    ensures ByteDecodeTable(rows, shift)[rows[k].0 - shift] == Some(rows[k].1)
  {
    var slots := Slots(rows, shift);
    ByteDecodeLength(rows, shift);
    GapFilledValue(slots, None, k);
    PaddedSpec(GapFilled(slots, None), 128, None);
    var g := GapFilled(slots, None);
    assert ByteDecodeTable(rows, shift)[..|g|] == g;
    assert ByteDecodeTable(rows, shift)[rows[k].0 - shift] == ByteDecodeTable(rows, shift)[..|g|][rows[k].0 - shift];
  }

  /** A position no row's shifted index names is `None`. */
  lemma ByteDecodeHole(rows: seq<Row>, shift: int, j: int)
    requires StrictlyIncreasing(Slots(rows, shift))
    requires rows != [] ==> rows[|rows| - 1].0 - shift < 128
    requires 0 <= j < 128
    requires forall k :: 0 <= k < |rows| ==> rows[k].0 - shift != j
    ensures ByteDecodeTable(rows, shift)[j] == None
  {
    var slots := Slots(rows, shift);
    var g := GapFilled(slots, None);
    ByteDecodeLength(rows, shift);
    PaddedSpec(g, 128, None);
    if j < |g| {
      GapFilledHole(slots, None, j);
      assert ByteDecodeTable(rows, shift)[..|g|] == g;
      assert ByteDecodeTable(rows, shift)[j] == ByteDecodeTable(rows, shift)[..|g|][j];
    }
  }

  // ---------------------------------------------------------------------
  // Properties of generate_ascii_ext_tables.py

  /** The loaded table is sorted; when the ASCII test passes, it starts with the
      128 ASCII rows, so every later row's byte is at least 0x7F. */
  lemma AsciiExtLoaded(lines: seq<string>)
    requires AsciiExtTables(lines).Success?
    ensures var table := LoadedTable(AsciiExt, lines).value;
      && AsciiPrefix(table)
      && (forall i, j :: 0 <= i < j < |table| ==> table[i].0 <= table[j].0)
      && (forall k :: 128 <= k < |table| ==> table[k].0 >= 127)
  {
    var table := LoadedTable(AsciiExt, lines).value;
    SortRowsSpec(ParsedRows(AsciiExt, lines).value);
    AsciiCheckSpec(table);
    forall k | 128 <= k < |table|
      ensures table[k].0 >= 127
    {
      assert table[127] == (127, 127);
    }
  }

  /** With a loaded table that passes the ASCII test, the tables are built from
      the rows after the first 128. */
  lemma AsciiExtTablesOf(lines: seq<string>)
    requires LoadedTable(AsciiExt, lines).Success?
    requires AsciiPrefix(LoadedTable(AsciiExt, lines).value)
    ensures var rest := LoadedTable(AsciiExt, lines).value[128..];
      AsciiExtTables(lines) == Success(ByteTables(ByteDecodeTable(rest, 128), SortRows(EncodeEntries(rest, 0))))
  {
    AsciiCheckSpec(LoadedTable(AsciiExt, lines).value);
  }

  /** Generation fails exactly when a line has a token `int()` rejects
      (`ValueError`) or the loaded rows do not start with the 128 ASCII
      rows (`IndexError` or the explicit `raise`). */
  lemma AsciiExtFailure(lines: seq<string>)
    ensures AsciiExtTables(lines).Failure? <==>
            SomeLineRejected(AsciiExt, lines) ||
            (LoadedTable(AsciiExt, lines).Success? && !AsciiPrefix(LoadedTable(AsciiExt, lines).value))
    ensures SomeLineRejected(AsciiExt, lines) ==> AsciiExtTables(lines) == Failure(ValueError)
  {
    ParsedRowsFailure(AsciiExt, lines);
    if LoadedTable(AsciiExt, lines).Success? {
      AsciiCheckSpec(LoadedTable(AsciiExt, lines).value);
    }
  }

  /** With distinct bytes, the rows after the ASCII ones have bytes above
      0x7F, in increasing order. */
  lemma AsciiExtRest(lines: seq<string>)
    requires AsciiExtTables(lines).Success?
    requires DistinctIndices(LoadedTable(AsciiExt, lines).value)
    ensures var table := LoadedTable(AsciiExt, lines).value;
      && AsciiPrefix(table)
      && (forall k :: 128 <= k < |table| ==> table[k].0 >= 128)
      && StrictlyIncreasing(Slots(table[128..], 128))
  {
    var table := LoadedTable(AsciiExt, lines).value;
    AsciiExtLoaded(lines);
    var rest := table[128..];
    forall k | 128 <= k < |table|
      ensures table[k].0 >= 128
    {
      assert table[127] == (127, 127);
    }
    SortedSlotsIncrease(rest, 128);
  }

  /** For a mapping file whose bytes are distinct and below 0x100, the
      non-ASCII rows have bytes 0x80-0xFF, the decode table has exactly 128
      entries, byte `b` of every non-ASCII row has its code point at
      `b - 128`, and every other entry is `None`. */
  lemma AsciiExtDecodeSpec(lines: seq<string>)
    requires AsciiExtTables(lines).Success?
    requires var table := LoadedTable(AsciiExt, lines).value;
      DistinctIndices(table) && forall k :: 0 <= k < |table| ==> table[k].0 < 256
    ensures var table := LoadedTable(AsciiExt, lines).value;
      var dec := AsciiExtTables(lines).value.decode;
      && |table| >= 128
      && (forall k :: 128 <= k < |table| ==> 128 <= table[k].0 < 256)
      && |dec| == 128
      && PlacedAt(table[128..], 128, dec)
  {
    var table := LoadedTable(AsciiExt, lines).value;
    AsciiExtRest(lines);
    var rest := table[128..];
    AsciiExtTablesOf(lines);
    if rest != [] {
      assert rest[|rest| - 1] == table[|table| - 1];
    }
    ByteDecodeSpec(rest, 128);
  }

  /** The encode table is sorted by `(code point, byte)`, holds one
      `(code point, byte)` entry for every non-ASCII row (none is dropped,
      however many rows share a code point) and nothing else, and every
      byte in it is at least 0x7F (at least 0x80 when the bytes are
      distinct). */
  lemma AsciiExtEncodeSpec(lines: seq<string>)
    requires AsciiExtTables(lines).Success?
    ensures var table := LoadedTable(AsciiExt, lines).value;
      var enc := AsciiExtTables(lines).value.encode;
      && SortedBy(enc, RowLe)
      && |table| >= 128
      && multiset(enc) == multiset(EncodeEntries(table[128..], 0))
      && |enc| == |table| - 128
      && (forall j :: 0 <= j < |enc| ==> enc[j].1 >= 127)
      && (DistinctIndices(table) ==> forall j :: 0 <= j < |enc| ==> enc[j].1 >= 128)
  {
    var table := LoadedTable(AsciiExt, lines).value;
    AsciiExtLoaded(lines);
    var rest := table[128..];
    var entries := EncodeEntries(rest, 0);
    var enc := AsciiExtTables(lines).value.encode;
    assert enc == SortRows(entries);
    RowLeIsPreorder();
    SortBySorted(entries, RowLe);
    SortByPermutes(entries, RowLe);
    assert |enc| == |multiset(enc)| == |multiset(entries)| == |entries|;
    forall j | 0 <= j < |enc|
      ensures enc[j].1 >= 127 && (DistinctIndices(table) ==> enc[j].1 >= 128)
    {
      assert enc[j] in multiset(entries);
      var k :| 0 <= k < |entries| && entries[k] == enc[j];
      assert rest[k] == table[128 + k];
      if DistinctIndices(table) {
        assert table[127] == (127, 127);
      }
    }
  }

  /** The `seen &=` no-op: two non-ASCII rows with the same code point both
      reach the encode table. */
  lemma AsciiExtKeepsDuplicates(lines: seq<string>, i: int, j: int)
    requires AsciiExtTables(lines).Success?
    requires var table := LoadedTable(AsciiExt, lines).value;
      128 <= i < j < |table| && table[i].1 == table[j].1
    ensures var table := LoadedTable(AsciiExt, lines).value;
      var enc := AsciiExtTables(lines).value.encode;
      && (table[i].1, table[i].0) in enc
      && (table[j].1, table[j].0) in enc
  {
    var table := LoadedTable(AsciiExt, lines).value;
    assert AsciiPrefix(table) by {
      AsciiCheckSpec(table);
    }
    AsciiExtTablesOf(lines);
    var entries := EncodeEntries(table[128..], 0);
    assert entries[i - 128] == (table[i].1, table[i].0);
    assert entries[j - 128] == (table[j].1, table[j].0);
    SortedKeepsEntry(entries, i - 128);
    SortedKeepsEntry(entries, j - 128);
  }

  /** Sorting keeps every entry. */
  lemma SortedKeepsEntry(entries: seq<Row>, k: int)
    requires 0 <= k < |entries|
    ensures entries[k] in SortRows(entries)
  {
    SortByPermutes(entries, RowLe);
    assert entries[k] in multiset(entries);
  }

  /** A second row for byte 0x7F passes the ASCII test, which only looks at the
      first 128 rows: the file of the 128 ASCII rows followed by byte 0x7F
      mapped to U+01F4 yields an encode entry with byte 0x7F, and the decode
      table gives U+01F4 for byte 0x80. */
  lemma AsciiExtSecondRowFor7F()
    ensures var rows := seq(128, i => (i, i)) + [(127, 0x1F4)];
      && AsciiExtTables(IndexFile(AsciiExt, rows)).Success?
      && AsciiExtTables(IndexFile(AsciiExt, rows)).value.encode == [(0x1F4, 127)]
      && AsciiExtTables(IndexFile(AsciiExt, rows)).value.decode[0] == Some(0x1F4)
  {
    var rows := seq(128, i => (i, i)) + [(127, 0x1F4)];
    var lines := IndexFile(AsciiExt, rows);
    assert LoadedTable(AsciiExt, lines) == Success(rows) by {
      IndexFileLoads(AsciiExt, rows);
      assert SortedBy(rows, RowLe);
      SortBySortedInput(rows, RowLe);
    }
    assert AsciiPrefix(rows);
    AsciiExtTablesOf(lines);
    var rest := rows[128..];
    assert rest == [(127, 0x1F4)];
    assert EncodeEntries(rest, 0) == [(0x1F4, 127)];
    assert SortRows([(0x1F4, 127)]) == [(0x1F4, 127)];
    assert GapFilled(Slots(rest, 128), None) == [Some(0x1F4)];
  }

  /** A line whose code point token starts with `#` (an undefined byte in
      a Unicode mapping file) is skipped by this generator, and rejected by
      generate_tables.py, which reads the token with `int()`. */
  lemma UndefinedCodepointLine(index: nat, note: string)
    ensures ParseLine(AsciiExt, IndexToken(AsciiExt, index) + ("\t#" + note)) == Skipped
    ensures ParseLine(Plain, IndexToken(Plain, index) + ("\t#" + note)) == Rejected
  {
    var tail := "#" + note;
    assert ("\t#" + note)[1..] == tail;
    assert ("\t#" + note) == "\t" + tail;
    TokenLengthSpec(tail);
    var t := tail[..TokenLength(tail)];
    assert Split(tail)[0] == t;
    assert t[..1] == "#";
    NotDigitsValue(t);
    IndexTokenParses(AsciiExt, index);
    SplitToken(IndexToken(AsciiExt, index), "\t" + tail);
    IndexTokenParses(Plain, index);
    SplitToken(IndexToken(Plain, index), "\t" + tail);
  }

  /** A token starting with `#` is not a numeral. */
  lemma NotDigitsValue(t: string)
    requires t != [] && t[0] == '#'
    ensures PyInt(t, 16) == None
  {
    DigitsValueOfBadFirst(t, 16);
  }

  // ---------------------------------------------------------------------
  // Properties of generate_tables.py

  /** Reading never fails on the ASCII check (there is none): generation
      fails exactly when a token is not an integer. */
  lemma PlainFailure(lines: seq<string>)
    ensures PlainTables(lines).Failure? <==> SomeLineRejected(Plain, lines)
    ensures PlainTables(lines).Failure? ==> PlainTables(lines) == Failure(ValueError)
  {
    ParsedRowsFailure(Plain, lines);
  }

  /** For an index whose pointers are distinct and in 0..127, the decode
      table has exactly 128 entries, each row's code point at its pointer,
      and `None` elsewhere. */
  lemma PlainDecodeSpec(lines: seq<string>)
    requires PlainTables(lines).Success?
    requires var table := LoadedTable(Plain, lines).value;
      DistinctIndices(table) && forall k :: 0 <= k < |table| ==> 0 <= table[k].0 < 128
    ensures var dec := PlainTables(lines).value.decode;
      |dec| == 128 && PlacedAt(LoadedTable(Plain, lines).value, 0, dec)
  {
    var table := LoadedTable(Plain, lines).value;
    assert StrictlyIncreasing(Slots(table, 0)) by {
      SortRowsSpec(ParsedRows(Plain, lines).value);
      SortedSlotsIncrease(table, 0);
    }
    assert PlainTables(lines).value.decode == ByteDecodeTable(table, 0);
    ByteDecodeSpec(table, 0);
  }

  /** The encode table is sorted by `(code point, byte)` and holds exactly
      one `(code point, pointer + 128)` entry per row, duplicates
      included; with non-negative pointers every byte is at least 0x80. */
  lemma PlainEncodeSpec(lines: seq<string>)
    requires PlainTables(lines).Success?
    ensures var table := LoadedTable(Plain, lines).value;
      var enc := PlainTables(lines).value.encode;
      && SortedBy(enc, RowLe)
      && multiset(enc) == multiset(EncodeEntries(table, 128))
      && |enc| == |table|
      && ((forall k :: 0 <= k < |table| ==> table[k].0 >= 0) ==> forall j :: 0 <= j < |enc| ==> enc[j].1 >= 128)
  {
    var table := LoadedTable(Plain, lines).value;
    var entries := EncodeEntries(table, 128);
    var enc := PlainTables(lines).value.encode;
    RowLeIsPreorder();
    SortBySorted(entries, RowLe);
    SortByPermutes(entries, RowLe);
    assert |enc| == |multiset(enc)| == |multiset(entries)| == |entries|;
    if forall k :: 0 <= k < |table| ==> table[k].0 >= 0 {
      forall j | 0 <= j < |enc|
        ensures enc[j].1 >= 128
      {
        assert enc[j] in multiset(entries);
        var k :| 0 <= k < |entries| && entries[k] == enc[j];
      }
    }
  }
}
