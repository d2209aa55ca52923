/** Mapping rows as the Python generators hold them: `(index, codepoint)`
    tuples, compared in Python's lexicographic tuple order, and the
    sequence facts the deduplication steps are stated with. */
module Rows {
  import opened Sorting

  /** `(index, codepoint)`: a pointer or byte, and the code point it maps
      to. Python integers are unbounded, so both are `int`. */
  type Row = (int, int)

  /** Python's `<=` on two-element tuples. */
  predicate RowLe(a: Row, b: Row) {
    a.0 < b.0 || (a.0 == b.0 && a.1 <= b.1)
  }

  /** Python's tuple order is a total preorder (in fact a total order). */
  lemma RowLeIsPreorder()
    ensures Preorder(RowLe)
  {
  }

  /** `table.sort()` on a list of rows. */
  function SortRows(rows: seq<Row>): seq<Row> {
    SortBy(rows, RowLe)
  }

  /** `table.sort()` leaves the rows ordered by index and, for equal
      indices, by code point, and loses or adds none. */
  lemma SortRowsSpec(rows: seq<Row>)
    ensures var s := SortRows(rows);
      && multiset(s) == multiset(rows)
      && forall i, j :: 0 <= i < j < |s| ==> s[i].0 <= s[j].0 && (s[i].0 == s[j].0 ==> s[i].1 <= s[j].1)
  {
    RowLeIsPreorder();
    SortBySorted(rows, RowLe);
    SortByPermutes(rows, RowLe);
  }

  /** The code points that occur in `rows`. */
  function Codepoints(rows: seq<Row>): set<int> {
    if rows == [] then {} else {rows[0].1} + Codepoints(rows[1..])
  }

  lemma {:induction false} CodepointsAppend(a: seq<Row>, b: seq<Row>)
    ensures Codepoints(a + b) == Codepoints(a) + Codepoints(b)
  {
    if a == [] {
      assert a + b == b;
    } else {
      assert (a + b)[1..] == a[1..] + b;
      CodepointsAppend(a[1..], b);
    }
  }

  /** `cp` occurs in `rows` exactly when some row carries it. */
  lemma {:induction false} CodepointsSpec(rows: seq<Row>, cp: int)
    ensures cp in Codepoints(rows) <==> exists k :: 0 <= k < |rows| && rows[k].1 == cp
  {
    if rows != [] {
      CodepointsSpec(rows[1..], cp);
      if cp in Codepoints(rows[1..]) {
        var k :| 0 <= k < |rows[1..]| && rows[1..][k].1 == cp;
        assert rows[k + 1].1 == cp;
      }
      if exists k :: 0 <= k < |rows| && rows[k].1 == cp {
        var k :| 0 <= k < |rows| && rows[k].1 == cp;
        if k > 0 {
          assert rows[1..][k - 1].1 == cp;
        }
      }
    }
  }

  /** The first row carrying `cp`. */
  function FirstRowWith(rows: seq<Row>, cp: int): Row
    requires cp in Codepoints(rows)
  {
    if rows[0].1 == cp then rows[0] else FirstRowWith(rows[1..], cp)
  }

  /** The last row carrying `cp`. */
  function LastRowWith(rows: seq<Row>, cp: int): Row
    requires cp in Codepoints(rows)
  {
    if rows[0].1 == cp && cp !in Codepoints(rows[1..]) then rows[0] else LastRowWith(rows[1..], cp)
  }

  /** The first and last rows carrying `cp` carry it, and no row before the
      first or after the last does. */
  lemma {:induction false} FirstAndLastRowSpec(rows: seq<Row>, cp: int)
    requires cp in Codepoints(rows)
    ensures exists k :: 0 <= k < |rows| && rows[k] == FirstRowWith(rows, cp)
                        && cp !in Codepoints(rows[..k])
    ensures exists k :: 0 <= k < |rows| && rows[k] == LastRowWith(rows, cp)
                        && cp !in Codepoints(rows[k + 1..])
  {
    if rows[0].1 == cp {
      assert rows[..0] == [];
    } else {
      FirstAndLastRowSpec(rows[1..], cp);
      var k :| 0 <= k < |rows[1..]| && rows[1..][k] == FirstRowWith(rows[1..], cp)
               && cp !in Codepoints(rows[1..][..k]);
      assert rows[..k + 1] == [rows[0]] + rows[1..][..k];
      assert rows[k + 1] == FirstRowWith(rows, cp);
    }
    if rows[0].1 == cp && cp !in Codepoints(rows[1..]) {
      assert rows[0] == LastRowWith(rows, cp);
    } else {
      FirstAndLastRowSpec(rows[1..], cp);
      var k :| 0 <= k < |rows[1..]| && rows[1..][k] == LastRowWith(rows[1..], cp)
               && cp !in Codepoints(rows[1..][k + 1..]);
      assert rows[1..][k + 1..] == rows[k + 2..];
      assert rows[k + 1] == LastRowWith(rows, cp);
    }
  }

  /** `a` is an order-preserving subsequence of `b` (matched greedily). */
  predicate Subseq(a: seq<Row>, b: seq<Row>)
    decreases |b|
  {
    if a == [] then true
    else if b == [] then false
    else if a[0] == b[0] then Subseq(a[1..], b[1..])
    else Subseq(a, b[1..])
  }

  lemma {:induction false} SubseqRefl(a: seq<Row>)
    ensures Subseq(a, a)
  {
    if a != [] {
      SubseqRefl(a[1..]);
    }
  }

  lemma {:induction false} SubseqDropHead(a: seq<Row>, b: seq<Row>)
    requires a != [] && Subseq(a, b)
    ensures Subseq(a[1..], b)
    decreases |b|, 0
  {
    if a[0] == b[0] {
      SubseqSkip(a[1..], b[1..], b[0]);
    } else {
      SubseqDropHead(a, b[1..]);
      SubseqSkip(a[1..], b[1..], b[0]);
    }
  }

  lemma {:induction false} SubseqSkip(a: seq<Row>, b: seq<Row>, x: Row)
    requires Subseq(a, b)
    ensures Subseq(a, [x] + b)
    decreases |b|, 1
  {
    assert ([x] + b)[1..] == b;
    if a != [] && a[0] == x {
      SubseqDropHead(a, b);
    }
  }

  /** A subsequence of a subsequence is a subsequence. */
  lemma {:induction false} SubseqTrans(a: seq<Row>, b: seq<Row>, c: seq<Row>)
    requires Subseq(a, b) && Subseq(b, c)
    ensures Subseq(a, c)
    decreases |c|
  {
    if a != [] {
      if b[0] == c[0] {
        if a[0] == b[0] {
          SubseqTrans(a[1..], b[1..], c[1..]);
        } else {
          SubseqTrans(a, b[1..], c[1..]);
        }
      } else {
        SubseqTrans(a, b, c[1..]);
        if a[0] == c[0] {
          SubseqDropHead(a, c[1..]);
        }
      }
    }
  }

  /** Keeping or dropping each element of `b` in turn gives a subsequence. */
  lemma SubseqCons(x: Row, a: seq<Row>, b: seq<Row>)
    requires Subseq(a, b)
    ensures Subseq([x] + a, [x] + b)
  {
    assert ([x] + a)[1..] == a && ([x] + b)[1..] == b;
  }
}
