/** The generators' `deduped_table`: which row survives for a code point
    that several pointers map to. The WHATWG encoders look a code point up
    by its first pointer, except for six Big5 code points that use their
    last one, and except that Shift_JIS skips pointers 8272..8835. */
module Dedup {
  import opened Rows

  /** The Big5 code points whose last pointer wins. */
  const Big5Specials: set<int> := {0x2550, 0x255E, 0x2561, 0x256A, 0x5341, 0x5345}

  /** The Shift_JIS pointers `deduped_table` removes first. */
  const ShiftJisDroppedFirst: int := 8272
  const ShiftJisDroppedLast: int := 8835

  /** `list.reverse()`. */
  function Reverse(s: seq<Row>): seq<Row> {
    if s == [] then [] else Reverse(s[1..]) + [s[0]]
  }

  /** The reversal puts element `k` at position `|s| - 1 - k`. */
  lemma {:induction false} ReverseSpec(s: seq<Row>)
    ensures |Reverse(s)| == |s|
    ensures forall k :: 0 <= k < |s| ==> Reverse(s)[k] == s[|s| - 1 - k]
  {
    if s != [] {
      ReverseSpec(s[1..]);
    }
  }

  // ---------------------------------------------------------------------
  // First occurrence wins

  /** The loop `for (index, codepoint) in rows: if codepoint not in seen:
      seen.add(codepoint); new_table += [(index, codepoint)]`. */
  function FirstWins(rows: seq<Row>, seen: set<int>): seq<Row> {
    if rows == [] then []
    else if rows[0].1 in seen then FirstWins(rows[1..], seen)
    else [rows[0]] + FirstWins(rows[1..], seen + {rows[0].1})
  }

  /** The loop keeps, in order, the first row of each code point not
      already seen, and nothing else. */
  lemma {:induction false} FirstWinsSpec(rows: seq<Row>, seen: set<int>)
    ensures var out := FirstWins(rows, seen);
      && (forall i, j :: 0 <= i < j < |out| ==> out[i].1 != out[j].1)
      && Codepoints(out) == Codepoints(rows) - seen
      && (forall r :: r in out ==> r.1 in Codepoints(rows) && r == FirstRowWith(rows, r.1))
      && Subseq(out, rows)
  {
    if rows == [] {
    } else if rows[0].1 in seen {
      var out := FirstWins(rows[1..], seen);
      FirstWinsSpec(rows[1..], seen);
      forall r | r in out
        ensures r.1 in Codepoints(rows) && r == FirstRowWith(rows, r.1)
      {
        CodepointInOutput(out, r);
      }
      SubseqSkip(out, rows[1..], rows[0]);
      assert rows == [rows[0]] + rows[1..];
    } else {
      var seen' := seen + {rows[0].1};
      var tail := FirstWins(rows[1..], seen');
      FirstWinsSpec(rows[1..], seen');
      var out := [rows[0]] + tail;
      assert out[1..] == tail;
      forall i, j | 0 <= i < j < |out|
        ensures out[i].1 != out[j].1
      {
        if i == 0 {
          assert out[j] == tail[j - 1];
          CodepointInOutput(tail, out[j]);
        } else {
          assert out[i] == tail[i - 1] && out[j] == tail[j - 1];
        }
      }
      forall r | r in out
        ensures r.1 in Codepoints(rows) && r == FirstRowWith(rows, r.1)
      {
        if r != rows[0] {
          assert r in tail;
          CodepointInOutput(tail, r);
        }
      }
      SubseqCons(rows[0], tail, rows[1..]);
      assert rows == [rows[0]] + rows[1..];
    }
  }

  /** The code points of the rows a first-wins loop keeps, read off its
      output. */
  lemma CodepointInOutput(out: seq<Row>, r: Row)
    requires r in out
    ensures r.1 in Codepoints(out)
  {
    CodepointsSpec(out, r.1);
  }

  // ---------------------------------------------------------------------
  // Big5: the last occurrence wins for six code points

  /** What the reversed first loop of the Big5 `deduped_table` leaves,
      written on the rows in their own order: a row of a special code point
      survives only when no later row has the same code point. */
  function LastSpecials(rows: seq<Row>): seq<Row> {
    if rows == [] then []
    else (if rows[0].1 in Big5Specials && rows[0].1 in Codepoints(rows[1..]) then [] else [rows[0]])
         + LastSpecials(rows[1..])
  }

  /** The special code points among those of `rows`. */
  function SpecialsIn(rows: seq<Row>): set<int> {
    Codepoints(rows) * Big5Specials
  }

  /** The first pass loses no code point, keeps the first row of every
      other code point and only the last row of a special one, in order. */
  lemma {:induction false} LastSpecialsSpec(rows: seq<Row>)
    ensures Codepoints(LastSpecials(rows)) == Codepoints(rows)
    ensures forall cp :: cp in Codepoints(rows) && cp !in Big5Specials ==>
      FirstRowWith(LastSpecials(rows), cp) == FirstRowWith(rows, cp)
    ensures forall cp :: cp in Codepoints(rows) && cp in Big5Specials ==>
      FirstRowWith(LastSpecials(rows), cp) == LastRowWith(rows, cp)
    ensures Subseq(LastSpecials(rows), rows)
  {
    if rows != [] {
      var tail := LastSpecials(rows[1..]);
      LastSpecialsSpec(rows[1..]);
      var x := rows[0];
      if x.1 in Big5Specials && x.1 in Codepoints(rows[1..]) {
        assert LastSpecials(rows) == [] + tail;
        assert [] + tail == tail;
        SubseqSkip(tail, rows[1..], x);
      } else {
        assert LastSpecials(rows) == [x] + tail;
        assert ([x] + tail)[1..] == tail;
        SubseqCons(x, tail, rows[1..]);
      }
      assert rows == [x] + rows[1..];
    }
  }

  /** `deduped_table` of generate_big5.py, as the function its loops
      compute. */
  function Big5Deduped(rows: seq<Row>): seq<Row> {
    FirstWins(LastSpecials(rows), {})
  }

  /** `deduped_table` of generate_big5.py: reverse, keep the first row of
      each special code point, reverse back, then keep the first row of
      every code point. */
  method DedupBig5(table: seq<Row>) returns (newTable: seq<Row>)
    ensures newTable == Big5Deduped(table)
  {
    var n := |table|;
    var tmp1 := Reverse(table);
    ReverseSpec(table);
    var tmp2: seq<Row> := [];
    var seen: set<int> := {};
    for k := 0 to n
      invariant tmp2 == Reverse(LastSpecials(table[n - k..]))
      invariant seen == SpecialsIn(table[n - k..])
    {
      var row := tmp1[k];
      assert table[n - k - 1..] == [row] + table[n - k..];
      LastSpecialsStep(row, table[n - k..]);
      if row.1 !in seen {
        if row.1 in Big5Specials {
          seen := seen + {row.1};
        }
        tmp2 := tmp2 + [row];
      }
    }
    assert table[n - n..] == table;
    tmp2 := Reverse(tmp2);
    ReverseTwice(LastSpecials(table));
    newTable := FirstWinsLoop(tmp2);
  }

  /** One step of the reversed loop: the row in front of `rest` is kept
      exactly when its code point is not a special one already seen. */
  lemma LastSpecialsStep(row: Row, rest: seq<Row>)
    ensures Reverse(LastSpecials([row] + rest))
         == Reverse(LastSpecials(rest)) + (if row.1 in SpecialsIn(rest) then [] else [row])
    ensures SpecialsIn([row] + rest) == SpecialsIn(rest) + (if row.1 in Big5Specials then {row.1} else {})
  {
    assert ([row] + rest)[1..] == rest;
    var keep := if row.1 in Big5Specials && row.1 in Codepoints(rest) then [] else [row];
    assert LastSpecials([row] + rest) == keep + LastSpecials(rest);
    ReverseAppend(keep, LastSpecials(rest));
    assert Reverse(keep) == keep;
  }

  lemma {:induction false} ReverseTwice(s: seq<Row>)
    ensures Reverse(Reverse(s)) == s
  {
    if s != [] {
      ReverseTwice(s[1..]);
      ReverseAppend(Reverse(s[1..]), [s[0]]);
      assert Reverse([s[0]]) == [s[0]];
    }
  }

  lemma {:induction false} ReverseAppend(a: seq<Row>, b: seq<Row>)
    ensures Reverse(a + b) == Reverse(b) + Reverse(a)
  {
    if a == [] {
      assert a + b == b;
    } else {
      assert (a + b)[1..] == a[1..] + b;
      ReverseAppend(a[1..], b);
    }
  }

  /** The second loop of `deduped_table` (and the only loop of the
      Shift_JIS one): keep the first row of each code point. */
  method FirstWinsLoop(rows: seq<Row>) returns (newTable: seq<Row>)
    ensures newTable == FirstWins(rows, {})
  {
    newTable := [];
    var seen: set<int> := {};
    for k := 0 to |rows|
      invariant newTable + FirstWins(rows[k..], seen) == FirstWins(rows, {})
    {
      assert rows[k..][1..] == rows[k + 1..];
      if rows[k].1 !in seen {
        seen := seen + {rows[k].1};
        newTable := newTable + [rows[k]];
      }
    }
  }

  /** The Big5 deduplication: each code point once, none lost, the last row
      for the six special code points and the first for every other, in
      input order. */
  lemma Big5DedupedSpec(rows: seq<Row>)
    ensures var out := Big5Deduped(rows);
      && (forall i, j :: 0 <= i < j < |out| ==> out[i].1 != out[j].1)
      && Codepoints(out) == Codepoints(rows)
      && (forall r :: r in out && r.1 in Big5Specials ==>
            r.1 in Codepoints(rows) && r == LastRowWith(rows, r.1))
      && (forall r :: r in out && r.1 !in Big5Specials ==>
            r.1 in Codepoints(rows) && r == FirstRowWith(rows, r.1))
      && Subseq(out, rows)
  {
    LastSpecialsSpec(rows);
    FirstWinsSpec(LastSpecials(rows), {});
    SubseqTrans(Big5Deduped(rows), LastSpecials(rows), rows);
  }

  // ---------------------------------------------------------------------
  // Shift_JIS: a pointer range is skipped, then the first occurrence wins

  /** `[(i, c) for (i, c) in table if i < 8272 or i > 8835]`. */
  function OutsideDroppedRange(rows: seq<Row>): seq<Row> {
    if rows == [] then []
    else (if rows[0].0 < ShiftJisDroppedFirst || rows[0].0 > ShiftJisDroppedLast then [rows[0]] else [])
         + OutsideDroppedRange(rows[1..])
  }

  /** The filter keeps, in order, exactly the rows outside 8272..8835. */
  lemma {:induction false} OutsideDroppedRangeSpec(rows: seq<Row>)
    ensures forall r :: r in OutsideDroppedRange(rows) <==>
      r in rows && (r.0 < ShiftJisDroppedFirst || r.0 > ShiftJisDroppedLast)
    ensures Subseq(OutsideDroppedRange(rows), rows)
  {
    if rows != [] {
      var tail := OutsideDroppedRange(rows[1..]);
      OutsideDroppedRangeSpec(rows[1..]);
      var x := rows[0];
      assert rows == [x] + rows[1..];
      if x.0 < ShiftJisDroppedFirst || x.0 > ShiftJisDroppedLast {
        assert OutsideDroppedRange(rows) == [x] + tail;
        SubseqCons(x, tail, rows[1..]);
      } else {
        assert OutsideDroppedRange(rows) == [] + tail;
        assert [] + tail == tail;
        SubseqSkip(tail, rows[1..], x);
      }
    }
  }

  /** `deduped_table` of generate_shiftjis.py, as a function. */
  function ShiftJisDeduped(rows: seq<Row>): seq<Row> {
    FirstWins(OutsideDroppedRange(rows), {})
  }

  /** `deduped_table` of generate_shiftjis.py. */
  method DedupShiftJis(table: seq<Row>) returns (newTable: seq<Row>)
    ensures newTable == ShiftJisDeduped(table)
  {
    var tmp1 := OutsideDroppedRange(table);
    newTable := FirstWinsLoop(tmp1);
  }

  /** The Shift_JIS deduplication: no row from pointers 8272..8835, each
      code point once, the first remaining row of each code point, none of
      the remaining code points lost, in input order. */
  lemma ShiftJisDedupedSpec(rows: seq<Row>)
    ensures var out := ShiftJisDeduped(rows);
      && (forall r :: r in out ==> r in rows && (r.0 < ShiftJisDroppedFirst || r.0 > ShiftJisDroppedLast))
      && (forall i, j :: 0 <= i < j < |out| ==> out[i].1 != out[j].1)
      && Codepoints(out) == Codepoints(OutsideDroppedRange(rows))
      && (forall r :: r in out ==>
            r.1 in Codepoints(OutsideDroppedRange(rows)) && r == FirstRowWith(OutsideDroppedRange(rows), r.1))
      && Subseq(out, rows)
  {
    var kept := OutsideDroppedRange(rows);
    OutsideDroppedRangeSpec(rows);
    FirstWinsSpec(kept, {});
    SubseqTrans(ShiftJisDeduped(rows), kept, rows);
    forall r | r in ShiftJisDeduped(rows)
      ensures r in kept
    {
      SubseqMembers(ShiftJisDeduped(rows), kept, r);
    }
  }

  /** Members of a subsequence are members of the sequence. */
  lemma {:induction false} SubseqMembers(a: seq<Row>, b: seq<Row>, r: Row)
    requires Subseq(a, b) && r in a
    ensures r in b
    decreases |b|
  {
    if a[0] == b[0] {
      if r != a[0] {
        assert r in a[1..];
        SubseqMembers(a[1..], b[1..], r);
      }
    } else {
      SubseqMembers(a, b[1..], r);
    }
  }
}
