/** `generate_big5_test_data` and `generate_shiftjis_test_data`: the
    selection of test cases the two WHATWG generators write. A decode case
    pairs the bytes of one line of the decode input file with the
    characters of the same line of the decode output file; an encode case
    pairs the characters of a line of the encode input file with the bytes
    of the same line of the encode output file. Both files are modelled as
    the sequence of their cases; the newline written after each line and
    the file handles are not. */
module Fixtures {
  import opened Wrappers
  import opened Parsing
  import opened Text
  import opened Rows
  import opened Dedup
  import opened IndexFiles
  import opened WhatwgTables
  import Big5Index
  import ShiftJisIndex

  /** One line of a pair of test files: the bytes and the characters. */
  datatype Case = Case(bytes: seq<int>, text: seq<int>)

  /** The two pairs of files one generator writes. */
  datatype TestData = TestData(decode: seq<Case>, encode: seq<Case>)

  /** The last ASCII byte each generator lists: `range(1, 128)` for Big5,
      `range(1, 129)` for Shift_JIS, which also lists 0x80 (written out as
      the UTF-8 of U+0080). */
  function AsciiLast(enc: Encoding): int {
    if enc == Big5 then 127 else 128
  }

  /** Each generator's `bytes_to_index`. */
  function BytesPointer(enc: Encoding, lead: int, trail: int): int {
    match enc
    case Big5 => Big5Index.BytesToIndex(lead, trail)
    case ShiftJis => ShiftJisIndex.BytesToIndex(lead, trail)
  }

  /** The cases `1..last`, each a byte and the character of the same value. */
  function AsciiCases(last: nat): seq<Case> {
    seq(last, k => Case([k + 1], [k + 1]))
  }

  /** The line of a table row: `bytes(index_to_bytes(index))` and
      `chr(codepoint)`. */
  function RowCase(enc: Encoding, r: Row): Case {
    var p := PointerBytes(enc, r.0);
    Case([p.0, p.1], [r.1])
  }

  /** A row whose line can be written: `bytes()` accepts both values of
      `index_to_bytes` and `chr(...).encode('utf-8')` accepts the code point
      (a surrogate or a value outside the code space raises `ValueError`). */
  predicate Writable(enc: Encoding, r: Row) {
    var p := PointerBytes(enc, r.0);
    0 <= p.0 < 0x100 && 0 <= p.1 < 0x100 && IsScalar(r.1)
  }

  /** The lines of `rows`, in order. */
  function RowCases(enc: Encoding, rows: seq<Row>): seq<Case> {
    seq(|rows|, k requires 0 <= k < |rows| => RowCase(enc, rows[k]))
  }

  /** The lines of the Big5 grapheme pointers. */
  function GraphemeCases(): seq<Case> {
    seq(4, k requires 0 <= k < 4 =>
      var p := Big5Index.IndexToBytes(Big5Index.Graphemes[k].0);
      Case([p.0, p.1], [Big5Index.Graphemes[k].1.0, Big5Index.Graphemes[k].1.1]))
  }

  /** The cases a generator writes from the index file's lines, or the error
      it raises: loading errors first, then `ValueError` from the first row
      that cannot be written (every row of the encode files is a row of the
      table, so only the decode loop can raise). */
  function TestDataOf(enc: Encoding, lines: seq<string>): Result<TestData, GenError> {
    match LoadedTable(Whatwg, lines)
    case Failure(e) => Failure(e)
    case Success(table) =>
      if exists k :: 0 <= k < |table| && !Writable(enc, table[k]) then Failure(ValueError)
      else
        var graphemes := if enc == Big5 then GraphemeCases() else [];
        Success(TestData(AsciiCases(AsciiLast(enc)) + RowCases(enc, table) + graphemes,
                         AsciiCases(AsciiLast(enc)) + RowCases(enc, Deduped(enc, table))))
  }

  /** The ASCII loop of both files of a pair. */
  method AsciiLoop(last: nat) returns (cases: seq<Case>)
    ensures cases == AsciiCases(last)
  {
    cases := [];
    for b := 1 to last + 1
      invariant cases == AsciiCases(b - 1)
    {
      cases := cases + [Case([b], [b])];
    }
  }

  /** A loop over table rows, raising `ValueError` at the first row that
      cannot be written. */
  method RowLoop(enc: Encoding, rows: seq<Row>) returns (r: Option<seq<Case>>)
    ensures r.None? <==> exists k :: 0 <= k < |rows| && !Writable(enc, rows[k])
    ensures r.Some? ==> r.value == RowCases(enc, rows)
  {
    var cases: seq<Case> := [];
    for k := 0 to |rows|
      invariant cases == RowCases(enc, rows[..k])
      invariant forall j :: 0 <= j < k ==> Writable(enc, rows[j])
    {
      if !Writable(enc, rows[k]) {
        return None;
      }
      cases := cases + [RowCase(enc, rows[k])];
    }
    assert rows[..|rows|] == rows;
    r := Some(cases);
  }

  /** `generate_big5_test_data` / `generate_shiftjis_test_data`. */
  method GenerateTestData(enc: Encoding, lines: seq<string>) returns (r: Result<TestData, GenError>)
    ensures r == TestDataOf(enc, lines)
  {
    var loaded := LoadTableFile(Whatwg, lines);
    if loaded.Failure? {
      return Failure(loaded.error);
    }
    var table := loaded.value;
    var ascii := AsciiLoop(AsciiLast(enc));
    var rowCases := RowLoop(enc, table);
    if rowCases.None? {
      return Failure(ValueError);
    }
    var decode := ascii + rowCases.value;
    assert decode == ascii + rowCases.value + [];
    if enc == Big5 {
      for k := 0 to 4
        invariant decode == ascii + rowCases.value + GraphemeCases()[..k]
      {
        var p := Big5Index.IndexToBytes(Big5Index.Graphemes[k].0);
        decode := decode + [Case([p.0, p.1], [Big5Index.Graphemes[k].1.0, Big5Index.Graphemes[k].1.1])];
      }
      assert GraphemeCases()[..4] == GraphemeCases();
    }
    var deduped;
    if enc == Big5 {
      deduped := DedupBig5(table);
    } else {
      deduped := DedupShiftJis(table);
    }
    assert forall k :: 0 <= k < |deduped| ==> Writable(enc, deduped[k]) by {
      forall k | 0 <= k < |deduped|
        ensures Writable(enc, deduped[k])
      {
        DedupedRowInTable(enc, table, deduped[k]);
        var j :| 0 <= j < |table| && table[j] == deduped[k];
      }
    }
    var encodeRows := RowLoop(enc, deduped);
    r := Success(TestData(decode, ascii + encodeRows.value));
  }

  /** Every row of `deduped_table` is a row of the table. */
  lemma DedupedRowInTable(enc: Encoding, table: seq<Row>, r: Row)
    requires r in Deduped(enc, table)
    ensures r in table
  {
    if enc == Big5 {
      Big5DedupedSpec(table);
      SubseqMembers(Big5Deduped(table), table, r);
    } else {
      ShiftJisDedupedSpec(table);
    }
  }

  // ---------------------------------------------------------------------
  // What the files contain

  /** A line holds two bytes, both in range, that `bytes_to_index` reads
      back as the row's pointer, and the row's code point as its text. */
  predicate ReadsBack(enc: Encoding, c: Case, r: Row) {
    && |c.bytes| == 2 && 0 <= c.bytes[0] < 0x100 && 0 <= c.bytes[1] < 0x100
    && BytesPointer(enc, c.bytes[0], c.bytes[1]) == r.0
    && c.text == [r.1]
  }

  /** The line of a writable row reads back as the row. */
  lemma RowCaseReadsBack(enc: Encoding, r: Row)
    requires Writable(enc, r)
    ensures ReadsBack(enc, RowCase(enc, r), r)
  {
    if enc == Big5 {
      Big5Index.IndexRoundTrip(r.0);
    } else {
      ShiftJisIndex.IndexRoundTrip(r.0);
    }
  }

  /** The ASCII lines are each byte with the character of the same value. */
  predicate AsciiIdentity(cases: seq<Case>) {
    forall k :: 0 <= k < |cases| ==> cases[k].bytes == [k + 1] && cases[k].text == [k + 1]
  }

  /** The Big5 grapheme lines: the bytes of pointers 1133, 1135, 1164 and
      1166, each with its base character and combining mark. */
  lemma GraphemeCasesSpec()
    ensures forall k :: 0 <= k < 4 ==>
      var c := GraphemeCases()[k];
      && |c.bytes| == 2 && 0 <= c.bytes[0] < 0x100 && 0 <= c.bytes[1] < 0x100
      && Big5Index.BytesToIndex(c.bytes[0], c.bytes[1]) == Big5Index.Graphemes[k].0
      && c.text == [Big5Index.Graphemes[k].1.0, Big5Index.Graphemes[k].1.1]
  {
    forall k | 0 <= k < 4
      ensures Big5Index.BytesToIndex(GraphemeCases()[k].bytes[0], GraphemeCases()[k].bytes[1]) == Big5Index.Graphemes[k].0
    {
      Big5Index.IndexRoundTrip(Big5Index.Graphemes[k].0);
    }
  }

  /** The decode files hold the bytes `1..last` as themselves, then one
      line per table row, in table order, that reads back as that row, then
      (Big5 only) the four grapheme lines. */
  lemma DecodeCasesSpec(enc: Encoding, lines: seq<string>)
    requires TestDataOf(enc, lines).Success?
    ensures var table := LoadedTable(Whatwg, lines).value;
      var d := TestDataOf(enc, lines).value.decode;
      var a := AsciiLast(enc);
      && |d| == a + |table| + (if enc == Big5 then 4 else 0)
      && AsciiIdentity(d[..a])
      && (forall k :: 0 <= k < |table| ==> ReadsBack(enc, d[a..a + |table|][k], table[k]))
      && (enc == Big5 ==> d[a + |table|..] == GraphemeCases())
  {
    var table := LoadedTable(Whatwg, lines).value;
    var d := TestDataOf(enc, lines).value.decode;
    var a := AsciiLast(enc);
    var rows := d[a..a + |table|];
    assert rows == RowCases(enc, table);
    forall k | 0 <= k < |table|
      ensures ReadsBack(enc, rows[k], table[k])
    {
      assert Writable(enc, table[k]);
      RowCaseReadsBack(enc, table[k]);
    }
    assert d[..a] == AsciiCases(a);
  }

  /** The code points a generator's encode files cover: for Big5 every code
      point of the table; for Shift_JIS those of the rows outside pointers
      8272..8835. */
  function EncodedCodepoints(enc: Encoding, table: seq<Row>): set<int> {
    if enc == Big5 then Codepoints(table) else Codepoints(OutsideDroppedRange(table))
  }

  /** The lines of the rows of `deduped_table`: there is one per row, each
      reads back as its row, which is a row of the table; no code point has
      two lines, and the lines cover exactly the code points the encoding
      keeps. */
  ghost predicate RowLines(enc: Encoding, table: seq<Row>, rows: seq<Case>) {
    && |rows| == |Deduped(enc, table)|
    && (forall k :: 0 <= k < |rows| ==> Deduped(enc, table)[k] in table && ReadsBack(enc, rows[k], Deduped(enc, table)[k]))
    && (forall i, j :: 0 <= i < j < |rows| ==> rows[i].text != rows[j].text)
    && (forall c :: c in EncodedCodepoints(enc, table) <==> exists k :: 0 <= k < |rows| && rows[k].text == [c])
  }

  /** The encode files hold the characters `1..last` as themselves, then
      the lines of the rows of `deduped_table`, in its order. */
  lemma EncodeCasesSpec(enc: Encoding, lines: seq<string>)
    requires TestDataOf(enc, lines).Success?
    ensures var e := TestDataOf(enc, lines).value.encode;
      var a := AsciiLast(enc);
      && a <= |e|
      && AsciiIdentity(e[..a])
      && RowLines(enc, LoadedTable(Whatwg, lines).value, e[a..])
  {
    EncodeCasesParts(enc, lines);
    var table := LoadedTable(Whatwg, lines).value;
    var e := TestDataOf(enc, lines).value.encode;
    var a := AsciiLast(enc);
    var x, y := AsciiCases(a), RowCases(enc, Deduped(enc, table));
    SplitAt(x, y, e);
    assert AsciiIdentity(e[..a]) by {
      AsciiCasesIdentity(a);
    }
    DedupedCasesSpec(enc, table);
  }

  lemma AsciiCasesIdentity(last: nat)
    ensures AsciiIdentity(AsciiCases(last))
  {
  }

  /** The encode file is the ASCII lines followed by the deduplicated
      table's lines, and every row of the table can be written. */
  lemma EncodeCasesParts(enc: Encoding, lines: seq<string>)
    requires TestDataOf(enc, lines).Success?
    ensures var table := LoadedTable(Whatwg, lines).value;
      && TestDataOf(enc, lines).value.encode == AsciiCases(AsciiLast(enc)) + RowCases(enc, Deduped(enc, table))
      && forall k :: 0 <= k < |table| ==> Writable(enc, table[k])
  {
  }

  /** The two parts of a concatenation. */
  lemma SplitAt(x: seq<Case>, y: seq<Case>, e: seq<Case>)
    requires e == x + y
    ensures |e| == |x| + |y| && e[..|x|] == x && e[|x|..] == y
  {
  }

  /** The encode lines of a table whose rows can all be written. */
  lemma DedupedCasesSpec(enc: Encoding, table: seq<Row>)
    requires forall k :: 0 <= k < |table| ==> Writable(enc, table[k])
    ensures RowLines(enc, table, RowCases(enc, Deduped(enc, table)))
  {
    var d := Deduped(enc, table);
    var rows := RowCases(enc, d);
    DedupedFacts(enc, table);
    forall k | 0 <= k < |rows|
      ensures d[k] in table && ReadsBack(enc, rows[k], d[k])
    {
      assert d[k] in d;
      assert Writable(enc, d[k]) by {
        var j :| 0 <= j < |table| && table[j] == d[k];
      }
      RowCaseReadsBack(enc, d[k]);
    }
    forall c
      ensures c in EncodedCodepoints(enc, table) <==> exists k :: 0 <= k < |rows| && rows[k].text == [c]
    {
      CodepointsSpec(d, c);
      if c in Codepoints(d) {
        var k :| 0 <= k < |d| && d[k].1 == c;
        assert rows[k] == RowCase(enc, d[k]);
      }
    }
  }

  /** What the encode files rely on from `deduped_table`: its rows are rows
      of the table, with distinct code points, covering the code points the
      encoding keeps. */
  lemma DedupedFacts(enc: Encoding, table: seq<Row>)
    ensures var d := Deduped(enc, table);
      && (forall r :: r in d ==> r in table)
      && (forall i, j :: 0 <= i < j < |d| ==> d[i].1 != d[j].1)
      && Codepoints(d) == EncodedCodepoints(enc, table)
  {
    if enc == Big5 {
      Big5DedupedSpec(table);
      forall r | r in Big5Deduped(table)
        ensures r in table
      {
        SubseqMembers(Big5Deduped(table), table, r);
      }
    } else {
      ShiftJisDedupedSpec(table);
    }
  }

  /** The WHATWG indexes fit: a row with a pointer the encoding's bytes can
      express (below 126 * 157 for Big5, below 63 * 188 for Shift_JIS) and a
      scalar value can be written, so a generator fed such rows raises no
      error after loading. */
  lemma WritableRows(enc: Encoding, lines: seq<string>)
    requires LoadedTable(Whatwg, lines).Success?
    requires var table := LoadedTable(Whatwg, lines).value;
      forall k :: 0 <= k < |table| ==>
        0 <= table[k].0 < (if enc == Big5 then 126 * 157 else 63 * 188) && IsScalar(table[k].1)
    ensures TestDataOf(enc, lines).Success?
  {
    var table := LoadedTable(Whatwg, lines).value;
    forall k | 0 <= k < |table|
      ensures Writable(enc, table[k])
    {
      if enc == Big5 {
        Big5Index.LeadIsByte(table[k].0);
      }
    }
  }
}
