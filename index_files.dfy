/** Reading mapping files into `(index, code point)` rows, as the Python
    generators do: the WHATWG `load_table_file` of the Big5 and Shift_JIS
    generators, and the inline loading loops of the two single-byte
    generators. Each reads every line, keeps the lines with at least two
    tokens whose first token does not start with `#`, converts the tokens
    with `int()`, and sorts the rows; a token `int()` rejects stops the
    generator. */
module IndexFiles {
  import opened Wrappers
  import opened Parsing
  import opened Rows

  /** The three line layouts. */
  datatype Layout =
    | Whatwg    // pointer in decimal, code point in hex
    | AsciiExt  // byte in hex, code point in hex; a `#` code point token skips the line
    | Plain     // index in decimal, code point in hex

  /** What the loading loop makes of one line. */
  datatype LineOutcome = Skipped | Parsed(row: Row) | Rejected

  /** One line: too few tokens or a `#` first token skips it; otherwise the
      first token is read (as hex for `AsciiExt`, else decimal), then, for
      `AsciiExt` only, a `#` second token skips the line, and the second
      token is read as hex. A token that is not an integer rejects the
      line. */
  function ParseLine(layout: Layout, line: string): LineOutcome {
    var parts := Split(line);
    if |parts| >= 2 && !StartsWith(parts[0], "#") then
      var index := PyInt(parts[0], if layout == AsciiExt then 16 else 10);
      if index.None? then Rejected
      else if layout == AsciiExt && StartsWith(parts[1], "#") then Skipped
      else match PyInt(parts[1], 16)
        case None => Rejected
        case Some(cp) => Parsed((index.value, cp))
    else Skipped
  }

  /** The rows of `lines` in file order, or the error of the first line
      that cannot be read. */
  function ParsedRows(layout: Layout, lines: seq<string>): Result<seq<Row>, GenError> {
    if lines == [] then Success([])
    else match ParsedRows(layout, lines[..|lines| - 1])
      case Failure(e) => Failure(e)
      case Success(t) =>
        match ParseLine(layout, lines[|lines| - 1])
        case Skipped => Success(t)
        case Parsed(r) => Success(t + [r])
        case Rejected => Failure(ValueError)
  }

  /** The loaded table: the rows, sorted (`table.sort()`). */
  function LoadedTable(layout: Layout, lines: seq<string>): Result<seq<Row>, GenError> {
    match ParsedRows(layout, lines)
    case Success(t) => Success(SortRows(t))
    case Failure(e) => Failure(e)
  }

  /** The loading loop, with the file given as its lines. */
  method LoadTableFile(layout: Layout, lines: seq<string>) returns (r: Result<seq<Row>, GenError>)
    ensures r == LoadedTable(layout, lines)
  {
    var table: seq<Row> := [];
    for k := 0 to |lines|
      invariant ParsedRows(layout, lines[..k]) == Success(table)
    {
      var parts := Split(lines[k]);
      assert lines[..k + 1][..k] == lines[..k];
      if |parts| >= 2 && !StartsWith(parts[0], "#") {
        var index := PyInt(parts[0], if layout == AsciiExt then 16 else 10);
        if index.None? {
          FailurePersists(layout, lines, k + 1);
          return Failure(ValueError);
        }
        if layout == AsciiExt && StartsWith(parts[1], "#") {
          continue;
        }
        var unicode := PyInt(parts[1], 16);
        if unicode.None? {
          FailurePersists(layout, lines, k + 1);
          return Failure(ValueError);
        }
        table := table + [(index.value, unicode.value)];
      }
    }
    assert lines[..|lines|] == lines;
    r := Success(SortRows(table));
  }

  /** Once a prefix of the file fails, the whole file does. */
  lemma {:induction false} FailurePersists(layout: Layout, lines: seq<string>, k: nat)
    requires k <= |lines| && ParsedRows(layout, lines[..k]) == Failure(ValueError)
    ensures ParsedRows(layout, lines) == Failure(ValueError)
  {
    if k < |lines| {
      var init := lines[..|lines| - 1];
      assert init[..k] == lines[..k];
      FailurePersists(layout, init, k);
    } else {
      assert lines[..k] == lines;
    }
  }

  /** Some line of `lines` cannot be read. */
  predicate SomeLineRejected(layout: Layout, lines: seq<string>) {
    exists k :: 0 <= k < |lines| && ParseLine(layout, lines[k]) == Rejected
  }

  /** The file is rejected exactly when one of its lines is, and then with
      the `ValueError` of `int()`. */
  lemma {:induction false} ParsedRowsFailure(layout: Layout, lines: seq<string>)
    ensures ParsedRows(layout, lines).Failure? <==> SomeLineRejected(layout, lines)
    ensures ParsedRows(layout, lines).Failure? ==> ParsedRows(layout, lines).error == ValueError
  {
    if lines != [] {
      var init := lines[..|lines| - 1];
      ParsedRowsFailure(layout, init);
      SomeLineRejectedSnoc(layout, init, lines[|lines| - 1]);
      assert init + [lines[|lines| - 1]] == lines;
    }
  }

  lemma SomeLineRejectedSnoc(layout: Layout, init: seq<string>, line: string)
    ensures SomeLineRejected(layout, init + [line]) <==>
            SomeLineRejected(layout, init) || ParseLine(layout, line) == Rejected
  {
    var lines := init + [line];
    if SomeLineRejected(layout, init) {
      var k :| 0 <= k < |init| && ParseLine(layout, init[k]) == Rejected;
      assert lines[k] == init[k];
    }
    if ParseLine(layout, line) == Rejected {
      assert lines[|init|] == line;
    }
    if SomeLineRejected(layout, lines) {
      var k :| 0 <= k < |lines| && ParseLine(layout, lines[k]) == Rejected;
      if k < |init| {
        assert init[k] == lines[k];
      }
    }
  }

  /** A comment line is skipped, whatever follows the `#`. */
  lemma CommentLineSkipped(layout: Layout, text: string)
    ensures ParseLine(layout, "#" + text) == Skipped
  {
    var line := "#" + text;
    TokenLengthSpec(line);
    var parts := Split(line);
    assert parts[0] == line[..TokenLength(line)];
    assert parts[0][..1] == "#";
  }

  /** The first token of a line in each layout: the index in decimal, or
      for `AsciiExt` the byte as `0x` and hex digits. */
  function IndexToken(layout: Layout, index: nat): string {
    if layout == AsciiExt then "0x" + Numeral(index, 16) else Numeral(index, 10)
  }

  /** A line of a mapping file: the index, a tab, the code point as `0x`
      and upper-case hex digits, a tab, and a note (for the WHATWG files the
      character and its name, for the Unicode mapping files a `#` comment). */
  function IndexLine(layout: Layout, r: Row, note: string): string
    requires r.0 >= 0 && r.1 >= 0
  {
    IndexToken(layout, r.0) + ("\t" + (("0x" + Numeral(r.1, 16)) + ("\t" + note)))
  }

  /** The first token reads back as the index and is not a comment. */
  lemma IndexTokenParses(layout: Layout, index: nat)
    ensures IsToken(IndexToken(layout, index))
    ensures !StartsWith(IndexToken(layout, index), "#")
    ensures PyInt(IndexToken(layout, index), if layout == AsciiExt then 16 else 10) == Some(index)
  {
    PyIntOfNumeral(index);
    if layout == AsciiExt {
      HexLiteralIsToken(index);
      var t := IndexToken(layout, index);
      assert t[..1] == "0";
    } else {
      NumeralIsToken(index, 10);
    }
  }

  /** Reading a line gives back its row: the parser inverts the file
      layout. */
  lemma IndexLineParses(layout: Layout, r: Row, note: string)
    requires r.0 >= 0 && r.1 >= 0
    ensures ParseLine(layout, IndexLine(layout, r, note)) == Parsed(r)
  {
    var a := IndexToken(layout, r.0);
    var b := "0x" + Numeral(r.1, 16);
    IndexTokenParses(layout, r.0);
    HexLiteralIsToken(r.1);
    PyIntOfNumeral(r.1);
    assert b[..1] == "0";
    var tail := "\t" + note;
    var mid := b + tail;
    SplitToken(a, "\t" + mid);
    assert ("\t" + mid)[1..] == mid;
    SplitToken(b, tail);
    var parts := Split(IndexLine(layout, r, note));
    assert parts == [a] + ([b] + Split(tail));
    assert parts[0] == a && parts[1] == b;
  }

  /** The file of some rows, one line each, notes left empty. */
  function IndexFile(layout: Layout, rows: seq<Row>): seq<string>
    requires forall k :: 0 <= k < |rows| ==> rows[k].0 >= 0 && rows[k].1 >= 0
  {
    seq(|rows|, k requires 0 <= k < |rows| => IndexLine(layout, rows[k], ""))
  }

  /** Reading a file gives back its rows in file order. */
  lemma {:induction false} IndexFileRoundTrip(layout: Layout, rows: seq<Row>)
    requires forall k :: 0 <= k < |rows| ==> rows[k].0 >= 0 && rows[k].1 >= 0
    ensures ParsedRows(layout, IndexFile(layout, rows)) == Success(rows)
  {
    if rows != [] {
      var init, last := rows[..|rows| - 1], rows[|rows| - 1];
      var lines := IndexFile(layout, rows);
      assert lines[..|lines| - 1] == IndexFile(layout, init);
      assert ParsedRows(layout, IndexFile(layout, init)) == Success(init) by {
        IndexFileRoundTrip(layout, init);
      }
      assert ParseLine(layout, lines[|lines| - 1]) == Parsed(last) by {
        IndexLineParses(layout, last, "");
      }
      LastSplit(rows);
    }
  }

  /** A non-empty sequence is its front followed by its last element. */
  lemma LastSplit<T>(s: seq<T>)
    requires s != []
    ensures s[..|s| - 1] + [s[|s| - 1]] == s
  {
  }

  /** Loading a file gives its rows sorted. */
  lemma IndexFileLoads(layout: Layout, rows: seq<Row>)
    requires forall k :: 0 <= k < |rows| ==> rows[k].0 >= 0 && rows[k].1 >= 0
    ensures LoadedTable(layout, IndexFile(layout, rows)) == Success(SortRows(rows))
  {
    IndexFileRoundTrip(layout, rows);
  }
}
