/** The Big5 table building of the build script: `generate_big5_tables`
    reads `(code, code point)` rows, where a code is the two Big5 bytes as
    one number `lead * 256 + trail`, and builds
    - a decode table indexed by Big5 pointer, after a stable sort on the
      code and the removal of repeated codes, with U+FFFD in every gap;
    - an encode table of `(code point, [lead, trail])` entries, after a
      stable sort on the code point and the removal of repeated code
      points.
    Also here: the pointer-to-bytes step of `whatwg_table_to_big5_table`,
    and the deduplication that `generate_big5_test_files` applies before
    it writes the encoder's test data. */
module BuildBig5 {
  import opened Wrappers
  import opened Parsing
  import opened Sorting
  import opened Rows
  import opened KeyedRows
  import opened DecodeTables
  import opened BuildReader
  import Big5Index

  /** The decode table's filler, `'\u{FFFD}'`. */
  const Hole: int := 0xFFFD

  // ---------------------------------------------------------------------
  // Codes and pointers

  /** A two-byte Big5 code: a lead byte in 0x81..0xFE and a trail byte the
      pointer grid holds. */
  predicate IsBig5Code(code: int) {
    0x81 <= code / 256 <= 0xFE && Big5Index.IsTrail(code % 256)
  }

  /** The pointer of a code: the grid position of its two bytes. */
  function Pointer(code: int): int {
    Big5Index.BytesToIndex(code / 256, code % 256)
  }

  /** The decode loop's pointer computation in `u32` arithmetic:
      `byte_1 = code >> 8`, `byte_2 = code & 0xFF`, then
      `(byte_1 - 0x81) * 157 + byte_2 - offset`. `None` where a subtraction
      goes below zero, which panics (the multiplication cannot overflow,
      as `byte_1` is at most 0xFF_FFFF). */
  function CodePointer(code: int): Option<int> {
    var byte1 := code / 256;
    var byte2 := code % 256;
    if byte1 < 0x81 then None
    else
      var lead := (byte1 - 0x81) * 157;
      var offset := if byte2 < 0x7F then 0x40 else 0x62;
      if lead + byte2 < offset then None else Some(lead + byte2 - offset)
  }

  /** For a Big5 code the loop's computation succeeds and agrees with the
      pointer arithmetic of the WHATWG Encoding Standard. */
  lemma CodePointerOfCode(code: int)
    requires IsBig5Code(code)
    ensures CodePointer(code) == Some(Pointer(code))
    ensures 0 <= Pointer(code) < (0xFE - 0x81 + 1) * 157
  {
  }

  /** Pointers increase with the code, so sorting by code sorts by
      pointer. */
  lemma PointerIncreasing(c1: int, c2: int)
    requires IsBig5Code(c1) && IsBig5Code(c2) && c1 < c2
    ensures Pointer(c1) < Pointer(c2)
  {
    var l1, t1, l2, t2 := c1 / 256, c1 % 256, c2 / 256, c2 % 256;
    assert c1 == l1 * 256 + t1 && c2 == l2 * 256 + t2;
    if l1 < l2 {
      assert (l2 - 0x81) * 157 == (l1 - 0x81) * 157 + (l2 - l1) * 157;
    }
  }

  /** `[(big5_code >> 8) as u8, (big5_code & 0xFF) as u8]`. */
  function CodeBytes(code: int): (int, int) {
    ((code / 256) % 256, code % 256)
  }

  /** For a Big5 code the stored bytes are the lead and trail byte of its
      pointer. */
  lemma CodeBytesOfPointer(code: int)
    requires IsBig5Code(code)
    ensures CodeBytes(code) == Big5Index.IndexToBytes(Pointer(code))
    ensures CodeBytes(code).0 * 256 + CodeBytes(code).1 == code
  {
    Big5Index.BytesRoundTrip(code / 256, code % 256);
  }

  // ---------------------------------------------------------------------
  // The decode table

  /** The `(pointer, code point)` slots the decode loop fills in, or
      `None` when the pointer computation of some row panics. */
  function DecodeSlots(rows: seq<Row>): Option<seq<(int, int)>> {
    if rows == [] then Some([])
    else match DecodeSlots(rows[..|rows| - 1])
      case None => None
      case Some(slots) =>
        var last := rows[|rows| - 1];
        match CodePointer(last.0)
        case None => None
        case Some(p) => Some(slots + [(p, last.1)])
  }

  /** The decode table `generate_big5_tables` builds from its rows. */
  function DecodeTable(table: seq<Row>): Result<seq<int>, GenError> {
    match DecodeSlots(SortDedup(table, Left))
    case None => Failure(Panic)
    case Some(slots) => Success(GapFilled(slots, Hole))
  }

  /** Once the slots of a prefix panic, those of the whole sequence do. */
  lemma {:induction false} DecodeSlotsPanicPersists(rows: seq<Row>, k: nat)
    requires k <= |rows| && DecodeSlots(rows[..k]) == None
    ensures DecodeSlots(rows) == None
  {
    if k < |rows| {
      var init := rows[..|rows| - 1];
      assert init[..k] == rows[..k];
      DecodeSlotsPanicPersists(init, k);
    } else {
      assert rows[..k] == rows;
    }
  }

  /** The decode table block: `sort_by_key(|v| v.0)`, `dedup_by_key(|v|
      v.0)`, then a loop that pushes U+FFFD up to each row's pointer and
      the row's code point at it. */
  method BuildDecodeTable(table: seq<Row>) returns (r: Result<seq<int>, GenError>)
    ensures r == DecodeTable(table)
  {
    var rows := SortByKey(table, Left);
    rows := DedupByKey(rows, Left);
    var i := 0;
    var dec: seq<int> := [];
    ghost var slots: seq<(int, int)> := [];
    for k := 0 to |rows|
      invariant DecodeSlots(rows[..k]) == Some(slots)
      invariant dec == GapFilled(slots, Hole) && i == |dec|
    {
      assert rows[..k + 1][..k] == rows[..k];
      var (code, unicode) := rows[k];
      var index := CodePointer(code);
      if index.None? {
        DecodeSlotsPanicPersists(rows, k + 1);
        return Failure(Panic);
      }
      ghost var before := dec;
      while i < index.value
        invariant |before| <= i == |dec|
        invariant i == |before| || i <= index.value
        invariant dec == before + seq(i - |before|, _ => Hole)
        decreases index.value - i
      {
        dec := dec + [Hole];
        i := i + 1;
      }
      assert dec + [unicode] == Place(before, index.value, unicode, Hole);
      dec := dec + [unicode];
      i := i + 1;
      assert (slots + [(index.value, unicode)])[..|slots|] == slots;
      slots := slots + [(index.value, unicode)];
    }
    assert rows[..|rows|] == rows;
    r := Success(dec);
  }

  /** Every row's code is a Big5 code. */
  predicate AllBig5Codes(table: seq<Row>) {
    forall k :: 0 <= k < |table| ==> IsBig5Code(table[k].0)
  }

  /** Each row's code point sits at its code's pointer, or, for a code that
      several rows share, the code point of the first of them in file
      order; U+FFFD sits at every position no row's code points to. */
  predicate FirstRowsPlaced(table: seq<Row>, dec: seq<int>) {
    && (forall k :: 0 <= k < |table| ==>
          && 0 <= Pointer(table[k].0) < |dec|
          && table[k].0 in Keys(table, Left)
          && dec[Pointer(table[k].0)] == FirstWithKey(table, Left, table[k].0).1)
    && (forall j :: 0 <= j < |dec| && (forall k :: 0 <= k < |table| ==> Pointer(table[k].0) != j) ==> dec[j] == Hole)
  }

  /** The slots of rows of Big5 codes: each code point at its pointer. */
  function CodeSlots(rows: seq<Row>): seq<(int, int)> {
    seq(|rows|, k requires 0 <= k < |rows| => (Pointer(rows[k].0), rows[k].1))
  }

  lemma {:induction false} DecodeSlotsOfCodes(rows: seq<Row>)
    requires AllBig5Codes(rows)
    ensures DecodeSlots(rows) == Some(CodeSlots(rows))
  {
    if rows != [] {
      var init, last := rows[..|rows| - 1], rows[|rows| - 1];
      DecodeSlotsOfCodes(init);
      CodePointerOfCode(last.0);
      assert CodeSlots(rows) == CodeSlots(init) + [(Pointer(last.0), last.1)];
    }
  }

  /** The rows the decode loop sees: Big5 codes in increasing order, the
      same codes as the file, each row the first of its code in the file. */
  lemma DedupedCodes(table: seq<Row>)
    requires AllBig5Codes(table)
    ensures var d := SortDedup(table, Left);
      && AllBig5Codes(d)
      && StrictlyIncreasing(CodeSlots(d))
      && Keys(d, Left) == Keys(table, Left)
      && (forall i :: 0 <= i < |d| ==> d[i].0 in Keys(table, Left) && d[i] == FirstWithKey(table, Left, d[i].0))
  {
    var d := SortDedup(table, Left);
    SortDedupSpec(table, Left);
    forall i | 0 <= i < |d|
      ensures IsBig5Code(d[i].0)
    {
      KeysSpec(table, Left, d[i].0);
    }
    var slots := CodeSlots(d);
    forall i | 0 < i < |slots|
      ensures slots[i - 1].0 < slots[i].0
    {
      PointerIncreasing(d[i - 1].0, d[i].0);
    }
    if d != [] {
      CodePointerOfCode(d[0].0);
    }
  }

  /** A row of the file: its code's pointer holds the code point of the
      first row with that code. */
  lemma RowPlaced(table: seq<Row>, k: int)
    requires AllBig5Codes(table) && 0 <= k < |table|
    ensures DecodeTable(table).Success?
    ensures var dec := DecodeTable(table).value;
      && 0 <= Pointer(table[k].0) < |dec|
      && table[k].0 in Keys(table, Left)
      && dec[Pointer(table[k].0)] == FirstWithKey(table, Left, table[k].0).1
  {
    var d := SortDedup(table, Left);
    var c := table[k].0;
    DedupedCodes(table);
    DecodeSlotsOfCodes(d);
    KeysSpec(table, Left, c);
    KeysSpec(d, Left, c);
    var i :| 0 <= i < |d| && Key(Left, d[i]) == c;
    GapFilledValue(CodeSlots(d), Hole, i);
  }

  /** A position no row's code points to holds U+FFFD. */
  lemma HolePlaced(table: seq<Row>, j: int)
    requires AllBig5Codes(table)
    requires DecodeTable(table).Success? && 0 <= j < |DecodeTable(table).value|
    requires forall k :: 0 <= k < |table| ==> Pointer(table[k].0) != j
    ensures DecodeTable(table).value[j] == Hole
  {
    var d := SortDedup(table, Left);
    DedupedCodes(table);
    DecodeSlotsOfCodes(d);
    var slots := CodeSlots(d);
    forall i | 0 <= i < |slots|
      ensures slots[i].0 != j
    {
      KeysSpec(table, Left, d[i].0);
    }
    GapFilledHole(slots, Hole, j);
  }

  /** For a file of Big5 codes the decode table is built without a panic,
      holds at each code's pointer the code point of the first row with
      that code, U+FFFD everywhere else, and ends at the largest pointer. */
  lemma DecodeTableSpec(table: seq<Row>)
    requires AllBig5Codes(table)
    ensures DecodeTable(table).Success?
    ensures var dec := DecodeTable(table).value;
      && FirstRowsPlaced(table, dec)
      && (dec == [] <==> table == [])
      && (dec != [] ==> exists k :: 0 <= k < |table| && Pointer(table[k].0) == |dec| - 1)
  {
    DecodeTablePlaces(table);
    DecodeTableEnds(table);
  }

  /** For a file of Big5 codes every pointer is in range: no panic. */
  lemma DecodeTableSucceeds(table: seq<Row>)
    requires AllBig5Codes(table)
    ensures DecodeTable(table).Success?
    ensures DecodeTable(table).value == GapFilled(CodeSlots(SortDedup(table, Left)), Hole)
    ensures StrictlyIncreasing(CodeSlots(SortDedup(table, Left)))
  {
    DedupedCodes(table);
    DecodeSlotsOfCodes(SortDedup(table, Left));
  }

  /** The placement half of `DecodeTableSpec`. */
  lemma DecodeTablePlaces(table: seq<Row>)
    requires AllBig5Codes(table)
    ensures DecodeTable(table).Success? && FirstRowsPlaced(table, DecodeTable(table).value)
  {
    DecodeTableSucceeds(table);
    var dec := DecodeTable(table).value;
    forall k | 0 <= k < |table|
      ensures && 0 <= Pointer(table[k].0) < |dec|
              && table[k].0 in Keys(table, Left)
              && dec[Pointer(table[k].0)] == FirstWithKey(table, Left, table[k].0).1
    {
      RowPlaced(table, k);
    }
    forall j | 0 <= j < |dec| && (forall k :: 0 <= k < |table| ==> Pointer(table[k].0) != j)
      ensures dec[j] == Hole
    {
      HolePlaced(table, j);
    }
  }

  /** The length half of `DecodeTableSpec`: the table is empty exactly for
      an empty file, and otherwise ends at some row's pointer. */
  lemma DecodeTableEnds(table: seq<Row>)
    requires AllBig5Codes(table)
    ensures DecodeTable(table).Success?
    ensures var dec := DecodeTable(table).value;
      && (dec == [] <==> table == [])
      && (dec != [] ==> exists k :: 0 <= k < |table| && Pointer(table[k].0) == |dec| - 1)
  {
    DecodeTableSucceeds(table);
    var d := SortDedup(table, Left);
    var slots := CodeSlots(d);
    GapFilledLength(slots, Hole);
    assert d == [] <==> table == [] by {
      DedupedCodes(table);
      if table != [] {
        KeysSpec(table, Left, table[0].0);
        KeysSpec(d, Left, table[0].0);
      }
    }
    if d != [] {
      var c := d[|d| - 1].0;
      assert |DecodeTable(table).value| - 1 == Pointer(c);
      assert exists k :: 0 <= k < |table| && table[k].0 == c by {
        DedupedCodes(table);
        KeysSpec(table, Left, c);
      }
    }
  }

  // ---------------------------------------------------------------------
  // The encode table

  /** `(char, [u8; 2])`. */
  type EncodeEntry = (int, (int, int))

  /** Each row as `(unicode, big5_bytes)`. */
  function EncodeEntries(rows: seq<Row>): seq<EncodeEntry> {
    seq(|rows|, k requires 0 <= k < |rows| => (rows[k].1, CodeBytes(rows[k].0)))
  }

  /** The encode table `generate_big5_tables` builds from its rows. */
  function EncodeTable(table: seq<Row>): seq<EncodeEntry> {
    EncodeEntries(SortDedup(table, Right))
  }

  /** The encode table block: `sort_by_key(|v| v.1)`, `dedup_by_key(|v|
      v.1)`, then a loop that pushes each row's entry. */
  method BuildEncodeTable(table: seq<Row>) returns (enc: seq<EncodeEntry>)
    ensures enc == EncodeTable(table)
  {
    var rows := SortByKey(table, Right);
    rows := DedupByKey(rows, Right);
    enc := [];
    for k := 0 to |rows|
      invariant |enc| == k
      invariant forall j :: 0 <= j < k ==> enc[j] == (rows[j].1, CodeBytes(rows[j].0))
    {
      var (code, unicode) := rows[k];
      enc := enc + [(unicode, CodeBytes(code))];
    }
  }

  /** The encode table lists code points in strictly increasing order, so
      each once; it lists every code point of the file; and each entry
      holds the bytes of the first row in file order with its code
      point. */
  lemma EncodeTableSpec(table: seq<Row>)
    ensures var enc := EncodeTable(table);
      && (forall k :: 0 < k < |enc| ==> enc[k - 1].0 < enc[k].0)
      && (forall c :: c in Keys(table, Right) <==> exists k :: 0 <= k < |enc| && enc[k].0 == c)
      && (forall k :: 0 <= k < |enc| ==>
            enc[k].0 in Keys(table, Right) && enc[k].1 == CodeBytes(FirstWithKey(table, Right, enc[k].0).0))
  {
    var d := SortDedup(table, Right);
    var enc := EncodeTable(table);
    assert forall k :: 0 < k < |enc| ==> enc[k - 1].0 < enc[k].0 by {
      SortDedupSpec(table, Right);
    }
    assert forall k :: 0 <= k < |enc| ==>
        enc[k].0 in Keys(table, Right) && enc[k].1 == CodeBytes(FirstWithKey(table, Right, enc[k].0).0) by {
      SortDedupSpec(table, Right);
    }
    forall c
      ensures c in Keys(table, Right) <==> exists k :: 0 <= k < |enc| && enc[k].0 == c
    {
      SortDedupSpec(table, Right);
      KeysSpec(d, Right, c);
      if c in Keys(table, Right) {
        var k :| 0 <= k < |d| && Key(Right, d[k]) == c;
        assert enc[k].0 == c;
      }
    }
  }

  /** When no two rows share a code, the decode table maps the bytes of
      every encode table entry back to the entry's code point. */
  lemma TablesRoundTrip(table: seq<Row>)
    requires AllBig5Codes(table) && DistinctKeys(table, Left)
    ensures DecodeTable(table).Success?
    ensures var dec := DecodeTable(table).value;
      var enc := EncodeTable(table);
      forall k :: 0 <= k < |enc| ==>
        && 0 <= Big5Index.BytesToIndex(enc[k].1.0, enc[k].1.1) < |dec|
        && dec[Big5Index.BytesToIndex(enc[k].1.0, enc[k].1.1)] == enc[k].0
  {
    DecodeTableSpec(table);
    var enc := EncodeTable(table);
    forall k | 0 <= k < |enc|
      ensures var dec := DecodeTable(table).value;
        && 0 <= Big5Index.BytesToIndex(enc[k].1.0, enc[k].1.1) < |dec|
        && dec[Big5Index.BytesToIndex(enc[k].1.0, enc[k].1.1)] == enc[k].0
    {
      EntryRoundTrip(table, k);
    }
  }

  lemma EntryRoundTrip(table: seq<Row>, k: int)
    requires AllBig5Codes(table) && DistinctKeys(table, Left)
    requires 0 <= k < |EncodeTable(table)|
    ensures DecodeTable(table).Success?
    ensures var dec := DecodeTable(table).value;
      var e := EncodeTable(table)[k];
      && 0 <= Big5Index.BytesToIndex(e.1.0, e.1.1) < |dec|
      && dec[Big5Index.BytesToIndex(e.1.0, e.1.1)] == e.0
  {
    var e := EncodeTable(table)[k];
    EncodeTableSpec(table);
    var c := e.0;
    var r := FirstWithKey(table, Right, c);
    FirstWithKeySpec(table, Right, c);
    var i :| 0 <= i < |table| && table[i] == r && (forall j :: 0 <= j < i ==> Key(Right, table[j]) != c);
    CodeBytesOfPointer(r.0);
    Big5Index.IndexRoundTrip(Pointer(r.0));
    RowPlaced(table, i);
    FirstWithKeyAt(table, Left, i);
  }

  // ---------------------------------------------------------------------
  // whatwg_table_to_big5_table

  /** The conversion's bytes of pointer `i`: lead `i / 157 + 0x81`, trail
      `i % 157` plus its offset, each cast `as u8`, which keeps the low
      eight bits. */
  function PointerBytes(i: int): (int, int) {
    var lead := i / 157 + 0x81;
    var trail := i % 157;
    var offset := if trail < 0x3F then 0x40 else 0x62;
    (lead % 256, (trail + offset) % 256)
  }

  /** For every pointer whose lead byte fits in a byte the conversion uses
      the same arithmetic as the generator's `index_to_bytes`. */
  lemma PointerBytesAgree(i: int)
    requires 0 <= i < (0xFF - 0x81 + 1) * 157
    ensures PointerBytes(i) == Big5Index.IndexToBytes(i)
  {
  }

  /** From pointer 127 * 157 on, the lead byte wraps around: the generator
      gives lead 0x100 where the conversion writes 0x00. */
  lemma PointerBytesWrap()
    ensures Big5Index.IndexToBytes(127 * 157) == (0x100, 0x40)
    ensures PointerBytes(127 * 157) == (0x00, 0x40)
  {
  }

  /** The rows the conversion writes, as `0x{lead}{trail} 0x{code point}`
      lines: the code of each pointer's bytes, and the code point. */
  function Converted(rows: seq<Row>): seq<Row> {
    seq(|rows|, k requires 0 <= k < |rows| =>
      (PointerBytes(rows[k].0).0 * 256 + PointerBytes(rows[k].0).1, rows[k].1))
  }

  /** What `whatwg_table_to_big5_table` makes of the WHATWG index file:
      its rows sorted by pointer, converted. */
  function ConvertedTable(lines: seq<string>): Result<seq<Row>, GenError> {
    match RustRows(DecimalIndex, lines)
    case Failure(e) => Failure(e)
    case Success(rows) => Success(Converted(SortByKey(rows, Left)))
  }

  /** `whatwg_table_to_big5_table`, with the output file as its rows. */
  method ConvertWhatwgTable(lines: seq<string>) returns (r: Result<seq<Row>, GenError>)
    ensures r == ConvertedTable(lines)
  {
    var read := ReadTable(DecimalIndex, lines);
    if read.Failure? {
      return Failure(read.error);
    }
    var table := SortByKey(read.value, Left);
    var out: seq<Row> := [];
    for k := 0 to |table|
      invariant |out| == k
      invariant forall j :: 0 <= j < k ==> out[j] == Converted(table)[j]
    {
      var (i, c) := table[k];
      var (lead, trail) := PointerBytes(i);
      out := out + [(lead * 256 + trail, c)];
    }
    assert out == Converted(table);
    r := Success(out);
  }

  /** Pointers whose lead byte is at most 0xFE convert to Big5 codes whose
      pointer is the original one. */
  lemma ConvertedCodes(rows: seq<Row>)
    requires forall k :: 0 <= k < |rows| ==> 0 <= rows[k].0 < (0xFE - 0x81 + 1) * 157
    ensures var t := Converted(rows);
      forall k :: 0 <= k < |t| ==> IsBig5Code(t[k].0) && Pointer(t[k].0) == rows[k].0
  {
    var t := Converted(rows);
    forall k | 0 <= k < |t|
      ensures IsBig5Code(t[k].0) && Pointer(t[k].0) == rows[k].0
    {
      var i := rows[k].0;
      PointerBytesAgree(i);
      var (lead, trail) := Big5Index.IndexToBytes(i);
      assert t[k].0 == lead * 256 + trail;
      Big5Index.IndexRoundTrip(i);
    }
  }

  /** The conversion feeds the decode table builder: from WHATWG rows with
      distinct pointers whose lead byte is at most 0xFE, the decode table
      built from the converted rows holds every code point at its original
      pointer. */
  lemma ConvertedDecodeTable(rows: seq<Row>)
    requires forall k :: 0 <= k < |rows| ==> 0 <= rows[k].0 < (0xFE - 0x81 + 1) * 157
    requires DistinctKeys(rows, Left)
    ensures DecodeTable(Converted(rows)).Success?
    ensures var dec := DecodeTable(Converted(rows)).value;
      forall k :: 0 <= k < |rows| ==> 0 <= rows[k].0 < |dec| && dec[rows[k].0] == rows[k].1
  {
    var t := Converted(rows);
    ConvertedCodes(rows);
    assert DistinctKeys(t, Left) by {
      forall i, j | 0 <= i < j < |t|
        ensures t[i].0 != t[j].0
      {
        assert Pointer(t[i].0) == rows[i].0 && Pointer(t[j].0) == rows[j].0;
      }
    }
    DecodeTableSpec(t);
    forall k | 0 <= k < |rows|
      ensures var dec := DecodeTable(t).value;
        0 <= rows[k].0 < |dec| && dec[rows[k].0] == rows[k].1
    {
      FirstWithKeyAt(t, Left, k);
    }
  }

  // ---------------------------------------------------------------------
  // generate_big5_test_files

  /** The rows the encoder's test data is written from: `sort_by_key(|v|
      v.1)`, `dedup_by_key(|v| v.1)`, `sort_by_key(|v| v.0)`. */
  function TestRows(table: seq<Row>): seq<Row> {
    SortByKey(SortDedup(table, Right), Left)
  }

  /** The test rows are sorted by code, hold each code point of the file
      exactly once, and for each the first row in file order with it. */
  lemma TestRowsSpec(table: seq<Row>)
    ensures var t := TestRows(table);
      && (forall i, j :: 0 <= i < j < |t| ==> t[i].0 <= t[j].0)
      && DistinctKeys(t, Right)
      && Keys(t, Right) == Keys(table, Right)
      && (forall i :: 0 <= i < |t| ==> t[i].1 in Keys(table, Right) && t[i] == FirstWithKey(table, Right, t[i].1))
  {
    var d := SortDedup(table, Right);
    var t := TestRows(table);
    SortDedupSpec(table, Right);
    IncreasingDistinct(d, Right);
    SortByPermutes(d, KeyOrder(Left));
    DistinctKeysPermutation(t, d, Right);
    KeysOfPermutation(t, d, Right);
    assert forall i, j :: 0 <= i < j < |t| ==> t[i].0 <= t[j].0 by {
      KeyOrderIsPreorder(Left);
      SortBySorted(d, KeyOrder(Left));
    }
    forall i | 0 <= i < |t|
      ensures t[i].1 in Keys(table, Right) && t[i] == FirstWithKey(table, Right, t[i].1)
    {
      assert t[i] in multiset(d);
    }
  }
}
