/** `generate_single_byte_encoding_from_index` of the build script: a table
    of 128 code points, U+FFFD in every slot at first, is overwritten row by
    row from a WHATWG single-byte index (an index above 127 aborts the
    build); the reverse table then lists `(code point, 128 + index)` for
    every slot that is not U+FFFD, stably sorted by code point. */
module BuildSingleByte {
  import opened Wrappers
  import opened Parsing
  import opened Sorting
  import opened Rows
  import opened KeyedRows
  import opened IndexFiles
  import opened BuildReader

  /** The initial content of every slot, `'\u{FFFD}'`. */
  const Undefined: int := 0xFFFD

  // ---------------------------------------------------------------------
  // The table

  /** The table after reading `lines`, or the panic of the first line that
      cannot be read or names an index above 127. */
  function IndexTable(lines: seq<string>): (r: Result<seq<int>, GenError>)
    ensures r.Success? ==> |r.value| == 128
  {
    if lines == [] then Success(seq(128, _ => Undefined))
    else match IndexTable(lines[..|lines| - 1])
      case Failure(e) => Failure(e)
      case Success(t) =>
        match RustLine(DecimalIndex, lines[|lines| - 1])
        case Skipped => Success(t)
        case Rejected => Failure(Panic)
        case Parsed(row) => if row.0 > 127 then Failure(Panic) else Success(t[row.0 := row.1])
  }

  /** Once a prefix of the file aborts the build, the whole file does. */
  lemma {:induction false} IndexTablePanicPersists(lines: seq<string>, k: nat)
    requires k <= |lines| && IndexTable(lines[..k]) == Failure(Panic)
    ensures IndexTable(lines) == Failure(Panic)
  {
    if k < |lines| {
      var init := lines[..|lines| - 1];
      assert init[..k] == lines[..k];
      IndexTablePanicPersists(init, k);
    } else {
      assert lines[..k] == lines;
    }
  }

  /** The table block: `let mut table = ['\u{FFFD}'; 128]`, then for each
      line that gives a row, `assert!(index <= 127)` and
      `table[index] = code`. */
  method CollectTable(lines: seq<string>) returns (r: Result<seq<int>, GenError>)
    ensures r == IndexTable(lines)
  {
    var table := new int[128](_ => Undefined);
    assert table[..] == seq(128, _ => Undefined);
    assert lines[..0] == [];
    for k := 0 to |lines|
      invariant IndexTable(lines[..k]) == Success(table[..])
    {
      assert lines[..k + 1][..k] == lines[..k];
      var line := Trim(lines[k]);
      if StartsWith(line, "#") || line == [] {
        continue;
      }
      var elements := Split(line);
      if |elements| >= 2 {
        var index := FirstValue(DecimalIndex, elements[0]);
        if index.None? || index.value > 127 {
          IndexTablePanicPersists(lines, k + 1);
          return Failure(Panic);
        }
        var code := HexChar(elements[1]);
        if code.None? {
          IndexTablePanicPersists(lines, k + 1);
          return Failure(Panic);
        }
        table[index.value] := code.value;
      }
    }
    assert lines[..|lines|] == lines;
    r := Success(table[..]);
  }

  /** A line that aborts the build: it cannot be read, or names an index
      above 127. */
  predicate Aborts(line: string) {
    var o := RustLine(DecimalIndex, line);
    o == Rejected || (o.Parsed? && o.row.0 > 127)
  }

  /** The build fails exactly when some line aborts it; otherwise the file
      reads without error and every index is at most 127. */
  lemma {:induction false} IndexTableFailure(lines: seq<string>)
    ensures IndexTable(lines).Failure? <==> exists k :: 0 <= k < |lines| && Aborts(lines[k])
    ensures IndexTable(lines).Failure? ==> IndexTable(lines).error == Panic
    ensures IndexTable(lines).Success? ==>
      && RustRows(DecimalIndex, lines).Success?
      && forall k :: 0 <= k < |RustRows(DecimalIndex, lines).value| ==> RustRows(DecimalIndex, lines).value[k].0 <= 127
  {
    if lines != [] {
      var init, last := lines[..|lines| - 1], lines[|lines| - 1];
      IndexTableFailure(init);
      assert lines == init + [last];
      if exists k :: 0 <= k < |init| && Aborts(init[k]) {
        var k :| 0 <= k < |init| && Aborts(init[k]);
        assert lines[k] == init[k];
      }
      if exists k :: 0 <= k < |lines| && Aborts(lines[k]) {
        var k :| 0 <= k < |lines| && Aborts(lines[k]);
        if k < |init| {
          assert init[k] == lines[k];
        }
      }
    }
  }

  /** A later row for the same index overwrites an earlier one: slot `j`
      holds U+FFFD when no row names index `j`, and otherwise the code
      point of the last row that names it. */
  lemma {:induction false} IndexTableSlot(lines: seq<string>, j: int)
    requires IndexTable(lines).Success? && 0 <= j < 128
    ensures RustRows(DecimalIndex, lines).Success?
    ensures var rows := RustRows(DecimalIndex, lines).value;
      var t := IndexTable(lines).value;
      && (j !in Keys(rows, Left) ==> t[j] == Undefined)
      && (j in Keys(rows, Left) ==>
            exists k :: 0 <= k < |rows| && rows[k] == (j, t[j]) && forall k2 :: k < k2 < |rows| ==> rows[k2].0 != j)
  {
    IndexTableFailure(lines);
    if lines != [] {
      var init := lines[..|lines| - 1];
      IndexTableSlot(init, j);
      var before := RustRows(DecimalIndex, init).value;
      var rows := RustRows(DecimalIndex, lines).value;
      var t := IndexTable(lines).value;
      var o := RustLine(DecimalIndex, lines[|lines| - 1]);
      if o.Parsed? {
        assert rows == before + [o.row];
        KeysAppend(before, [o.row], Left);
        if o.row.0 == j {
          assert rows[|before|] == (j, t[j]);
        } else if j in Keys(before, Left) {
          var k :| 0 <= k < |before| && before[k] == (j, IndexTable(init).value[j]) &&
                   forall k2 :: k < k2 < |before| ==> before[k2].0 != j;
          assert rows[k] == (j, t[j]);
          assert forall k2 :: k < k2 < |rows| ==> rows[k2].0 != j;
        }
      }
    }
  }

  // ---------------------------------------------------------------------
  // The reverse table

  /** `(c, 128 + i)` for every slot `i` of `t` that is not U+FFFD, in slot
      order. */
  function RevEntries(t: seq<int>): seq<Row> {
    if t == [] then []
    else RevEntries(t[..|t| - 1]) + (if t[|t| - 1] != Undefined then [(t[|t| - 1], 128 + |t| - 1)] else [])
  }

  /** The reverse table: `rev_table.sort_by_key(|x| x.0)`. */
  function RevTable(t: seq<int>): seq<Row> {
    SortByKey(RevEntries(t), Left)
  }

  /** The tables the generator writes: the 128 decode slots and the
      reverse (encode) table. */
  datatype IndexTables = IndexTables(decode: seq<int>, encode: seq<Row>)

  /** What `generate_single_byte_encoding_from_index` builds from the index
      file's lines. */
  function SingleByteFromIndex(lines: seq<string>): Result<IndexTables, GenError> {
    match IndexTable(lines)
    case Failure(e) => Failure(e)
    case Success(t) => Success(IndexTables(t, RevTable(t)))
  }

  /** The generator up to writing the file: the table block, then the
      reverse table block, which walks the slots and pushes `(c, 128 + i)`
      for every slot that is not U+FFFD before sorting. */
  method GenerateFromIndex(lines: seq<string>) returns (r: Result<IndexTables, GenError>)
    ensures r == SingleByteFromIndex(lines)
  {
    var collected := CollectTable(lines);
    if collected.Failure? {
      return Failure(collected.error);
    }
    var table := collected.value;
    var rev: seq<Row> := [];
    for i := 0 to |table|
      invariant rev == RevEntries(table[..i])
    {
      assert table[..i + 1][..i] == table[..i];
      if table[i] != Undefined {
        rev := rev + [(table[i], 128 + i)];
      }
    }
    assert table[..|table|] == table;
    rev := SortByKey(rev, Left);
    r := Success(IndexTables(table, rev));
  }

  /** A pair is an entry exactly when it is a defined slot's code point and
      128 plus the slot; entries come in slot order. */
  lemma {:induction false} RevEntriesSpec(t: seq<int>)
    ensures var e := RevEntries(t);
      && (forall r :: r in e <==> 128 <= r.1 < 128 + |t| && t[r.1 - 128] == r.0 && r.0 != Undefined)
      && (forall k :: 0 < k < |e| ==> e[k - 1].1 < e[k].1)
  {
    if t != [] {
      var init := t[..|t| - 1];
      RevEntriesSpec(init);
      var e := RevEntries(t);
      var before := RevEntries(init);
      forall r
        ensures r in e <==> 128 <= r.1 < 128 + |t| && t[r.1 - 128] == r.0 && r.0 != Undefined
      {
        if 128 <= r.1 < 128 + |init| {
          assert init[r.1 - 128] == t[r.1 - 128];
        }
      }
      if t[|t| - 1] != Undefined && before != [] {
        assert before[|before| - 1] in before;
      }
    }
  }

  /** The reverse table holds exactly the pairs of defined slots. */
  lemma RevTableMembers(t: seq<int>)
    ensures forall r :: r in RevTable(t) <==> 128 <= r.1 < 128 + |t| && t[r.1 - 128] == r.0 && r.0 != Undefined
  {
    var e := RevEntries(t);
    var rev := RevTable(t);
    RevEntriesSpec(t);
    SortByPermutes(e, KeyOrder(Left));
    forall r
      ensures r in rev <==> r in e
    {
      assert r in rev <==> r in multiset(rev);
      assert r in e <==> r in multiset(e);
    }
  }

  /** No two entries of the reverse table share a byte. */
  lemma RevTableDistinct(t: seq<int>)
    ensures DistinctKeys(RevTable(t), Right)
  {
    var e := RevEntries(t);
    RevEntriesSpec(t);
    SortByPermutes(e, KeyOrder(Left));
    IncreasingDistinct(e, Right);
    DistinctKeysPermutation(RevTable(t), e, Right);
  }

  /** The reverse table is sorted by code point, sorted stably (the entries
      of each code point keep their slot order), holds exactly one entry
      `(c, 128 + i)` per slot `i` whose code point `c` is not U+FFFD, and
      drops no repeated code point. */
  lemma RevTableSpec(t: seq<int>)
    ensures var rev := RevTable(t);
      && (forall i, j :: 0 <= i < j < |rev| ==> rev[i].0 <= rev[j].0)
      && (forall x :: Equivalents(rev, KeyOrder(Left), x) == Equivalents(RevEntries(t), KeyOrder(Left), x))
      && (forall r :: r in rev <==> 128 <= r.1 < 128 + |t| && t[r.1 - 128] == r.0 && r.0 != Undefined)
      && DistinctKeys(rev, Right)
  {
    var e := RevEntries(t);
    var rev := RevTable(t);
    KeyOrderIsPreorder(Left);
    assert forall i, j :: 0 <= i < j < |rev| ==> rev[i].0 <= rev[j].0 by {
      SortBySorted(e, KeyOrder(Left));
    }
    forall x
      ensures Equivalents(rev, KeyOrder(Left), x) == Equivalents(e, KeyOrder(Left), x)
    {
      SortByStable(e, KeyOrder(Left), x);
    }
    RevTableMembers(t);
    RevTableDistinct(t);
  }
}
