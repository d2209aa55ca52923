/** The line reader the build script repeats in each of its table
    functions: every line is trimmed, a blank line or one starting with `#`
    is skipped, the rest is split on whitespace, and a line with at least
    two elements gives a row. The first element is a Big5 code written as
    `0x` and hex digits (`u32::from_str_radix(&e[2..], 16)`) or a decimal
    index (`parse::<usize>()`); the second is a code point written as `0x`
    and hex digits that must be a Unicode scalar value
    (`char::from_u32`). Every conversion is `unwrap`ped, so a bad element
    panics and the build fails. */
module BuildReader {
  import opened Wrappers
  import opened Parsing
  import opened Text
  import opened Rows
  import opened IndexFiles

  /** How the first element of a line is read. */
  datatype FirstColumn =
    | HexCode       // `u32::from_str_radix(&elements[0][2..], 16)`
    | DecimalIndex  // `elements[0].parse::<usize>()`

  /** `u32::from_str_radix(&token[2..], 16)`: the two leading bytes are
      dropped unread, the rest must be hex digits (after an optional `+`)
      whose value fits in 32 bits. `None` where the `unwrap` panics. */
  function HexU32(tok: string): Option<nat> {
    match DropTwoBytes(tok)
    case None => None
    case Some(digits) => RustUnsigned(digits, 16, U32Max)
  }

  /** `char::from_u32(...).unwrap()` of a hex token. */
  function HexChar(tok: string): Option<int> {
    match HexU32(tok)
    case None => None
    case Some(v) => if IsScalar(v) then Some(v) else None
  }

  /** The first element, read as the column says. */
  function FirstValue(col: FirstColumn, tok: string): Option<nat> {
    if col == HexCode then HexU32(tok) else RustUnsigned(tok, 10, UsizeMax)
  }

  /** What the reading loop makes of one line; `Rejected` is a panic. A
      row holds a key within its integer type and a Unicode scalar
      value. */
  function RustLine(col: FirstColumn, line: string): (o: LineOutcome)
    ensures o.Parsed? ==> 0 <= o.row.0 <= (if col == HexCode then U32Max else UsizeMax) && IsScalar(o.row.1)
  {
    var t := Trim(line);
    if StartsWith(t, "#") || t == [] then Skipped
    else
      var elements := Split(t);
      if |elements| >= 2 then
        match FirstValue(col, elements[0])
        case None => Rejected
        case Some(key) =>
          match HexChar(elements[1])
          case None => Rejected
          case Some(cp) => Parsed((key, cp))
      else Skipped
  }

  /** The rows of `lines` in file order, or the panic of the first line
      that cannot be read. */
  function RustRows(col: FirstColumn, lines: seq<string>): Result<seq<Row>, GenError> {
    if lines == [] then Success([])
    else match RustRows(col, lines[..|lines| - 1])
      case Failure(e) => Failure(e)
      case Success(t) =>
        match RustLine(col, lines[|lines| - 1])
        case Skipped => Success(t)
        case Parsed(r) => Success(t + [r])
        case Rejected => Failure(Panic)
  }

  /** The reading loop: `table.push((big5, unicode))` for every line that
      gives a row. */
  method ReadTable(col: FirstColumn, lines: seq<string>) returns (r: Result<seq<Row>, GenError>)
    ensures r == RustRows(col, lines)
  {
    var table: seq<Row> := [];
    for k := 0 to |lines|
      invariant RustRows(col, lines[..k]) == Success(table)
    {
      assert lines[..k + 1][..k] == lines[..k];
      var line := Trim(lines[k]);
      if StartsWith(line, "#") || line == [] {
        continue;
      }
      var elements := Split(line);
      if |elements| >= 2 {
        var key := FirstValue(col, elements[0]);
        if key.None? {
          PanicPersists(col, lines, k + 1);
          return Failure(Panic);
        }
        var unicode := HexChar(elements[1]);
        if unicode.None? {
          PanicPersists(col, lines, k + 1);
          return Failure(Panic);
        }
        table := table + [(key.value, unicode.value)];
      }
    }
    assert lines[..|lines|] == lines;
    r := Success(table);
  }

  /** Once a prefix of the file panics, the whole file does. */
  lemma {:induction false} PanicPersists(col: FirstColumn, lines: seq<string>, k: nat)
    requires k <= |lines| && RustRows(col, lines[..k]) == Failure(Panic)
    ensures RustRows(col, lines) == Failure(Panic)
  {
    if k < |lines| {
      var init := lines[..|lines| - 1];
      assert init[..k] == lines[..k];
      PanicPersists(col, init, k);
    } else {
      assert lines[..k] == lines;
    }
  }

  /** Some line of `lines` makes the reader panic. */
  predicate SomeLinePanics(col: FirstColumn, lines: seq<string>) {
    exists k :: 0 <= k < |lines| && RustLine(col, lines[k]) == Rejected
  }

  /** The build fails exactly when one of the lines cannot be read. */
  lemma {:induction false} RustRowsFailure(col: FirstColumn, lines: seq<string>)
    ensures RustRows(col, lines).Failure? <==> SomeLinePanics(col, lines)
    ensures RustRows(col, lines).Failure? ==> RustRows(col, lines).error == Panic
  {
    if lines != [] {
      var init, last := lines[..|lines| - 1], lines[|lines| - 1];
      RustRowsFailure(col, init);
      assert SomeLinePanics(col, lines) <==> SomeLinePanics(col, init) || RustLine(col, last) == Rejected by {
        if SomeLinePanics(col, init) {
          var k :| 0 <= k < |init| && RustLine(col, init[k]) == Rejected;
          assert lines[k] == init[k];
        }
        if SomeLinePanics(col, lines) {
          var k :| 0 <= k < |lines| && RustLine(col, lines[k]) == Rejected;
          if k < |init| {
            assert init[k] == lines[k];
          }
        }
      }
    }
  }

  /** The rows the reader gives are read from lines of the file: each one
      is the row some line parses to. */
  lemma {:induction false} RustRowsFromLines(col: FirstColumn, lines: seq<string>)
    requires RustRows(col, lines).Success?
    ensures var rows := RustRows(col, lines).value;
      forall i :: 0 <= i < |rows| ==> exists k :: 0 <= k < |lines| && RustLine(col, lines[k]) == Parsed(rows[i])
  {
    if lines != [] {
      var init, last := lines[..|lines| - 1], lines[|lines| - 1];
      RustRowsFromLines(col, init);
      var rows := RustRows(col, lines).value;
      var before := RustRows(col, init).value;
      forall i | 0 <= i < |rows|
        ensures exists k :: 0 <= k < |lines| && RustLine(col, lines[k]) == Parsed(rows[i])
      {
        if i < |before| {
          assert rows[i] == before[i];
          var k :| 0 <= k < |init| && RustLine(col, init[k]) == Parsed(before[i]);
          assert lines[k] == init[k];
        } else {
          assert RustLine(col, lines[|lines| - 1]) == Parsed(rows[i]);
        }
      }
    }
  }

  // ---------------------------------------------------------------------
  // Reading formatted lines back

  /** `0x` and upper-case hex digits, as the build script's own output
      writes codes and code points. */
  function HexLiteral(n: nat): string {
    "0x" + Numeral(n, 16)
  }

  /** A line of the Big5 table format: the code, a space, the code point. */
  function CodeLine(code: nat, cp: nat): string {
    HexLiteral(code) + (" " + HexLiteral(cp))
  }

  /** A hex literal is read back by `u32::from_str_radix(&e[2..], 16)`. */
  lemma HexLiteralReads(n: nat)
    requires n <= U32Max
    ensures HexU32(HexLiteral(n)) == Some(n)
  {
    var h := Numeral(n, 16);
    NumeralIsToken(n, 16);
    NumeralRoundTrip(n, 16);
    assert HexLiteral(n)[2..] == h;
  }

  /** Reading a line of the Big5 table format gives back its code and code
      point. */
  lemma CodeLineReads(code: nat, cp: nat)
    requires code <= U32Max && IsScalar(cp)
    ensures RustLine(HexCode, CodeLine(code, cp)) == Parsed((code, cp))
  {
    var a, b := HexLiteral(code), HexLiteral(cp);
    var line := CodeLine(code, cp);
    HexLiteralIsToken(code);
    HexLiteralIsToken(cp);
    assert Trim(line) == line && !StartsWith(line, "#") && line != [] by {
      assert line[0] == '0';
      assert line[|line| - 1] == b[|b| - 1];
      TrimSpec(line);
      assert line[..1] == "0";
    }
    assert Split(line) == [a, b] by {
      SplitToken(b, []);
      assert b + [] == b;
      SplitToken(a, " " + b);
      assert (" " + b)[1..] == b;
    }
    HexLiteralReads(code);
    HexLiteralReads(cp);
    assert [a, b] == [a] + ([b] + []);
    LineOfTwoValues(HexCode, line, a, b, [], (code, cp));
  }

  /** Reading a line of a WHATWG index file (the pointer, a tab, the code
      point, a tab, a note that ends in a non-space character) gives back
      its pointer and code point. */
  lemma IndexLineReads(r: Row, note: string)
    requires 0 <= r.0 <= UsizeMax && 0 <= r.1 <= U32Max && IsScalar(r.1)
    requires note != [] && !IsSpace(note[|note| - 1])
    ensures RustLine(DecimalIndex, IndexLine(Whatwg, r, note)) == Parsed(r)
  {
    var a := Numeral(r.0, 10);
    var b := HexLiteral(r.1);
    var tail := "\t" + note;
    var mid := b + tail;
    var line := IndexLine(Whatwg, r, note);
    assert line == a + ("\t" + mid);
    NumeralIsToken(r.0, 10);
    HexLiteralIsToken(r.1);
    assert Trim(line) == line by {
      assert line[0] == a[0];
      assert line[|line| - 1] == note[|note| - 1];
      TrimSpec(line);
    }
    assert !StartsWith(line, "#") by {
      assert line[..1] == a[..1];
    }
    assert Split(line) == [a] + ([b] + Split(tail)) by {
      SplitToken(a, "\t" + mid);
      assert ("\t" + mid)[1..] == mid;
      SplitToken(b, tail);
    }
    assert FirstValue(DecimalIndex, a) == Some(r.0) by {
      NumeralRoundTrip(r.0, 10);
    }
    assert HexChar(b) == Some(r.1) by {
      HexLiteralReads(r.1);
    }
    LineOfTwoValues(DecimalIndex, line, a, b, Split(tail), r);
  }

  /** A trimmed, non-comment line whose first two elements read as a key
      and a scalar value gives that row. */
  lemma LineOfTwoValues(col: FirstColumn, line: string, a: string, b: string, more: seq<string>, r: Row)
    requires Trim(line) == line && line != [] && !StartsWith(line, "#")
    requires Split(line) == [a] + ([b] + more)
    requires FirstValue(col, a) == Some(r.0) && HexChar(b) == Some(r.1)
    ensures RustLine(col, line) == Parsed(r)
  {
  }
}
