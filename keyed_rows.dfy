/** Rust's `sort_by_key` and `dedup_by_key` on rows, as the build script
    uses them: a stable sort on one field of the row, then the removal of
    every row whose key equals the key of the row kept before it. Together
    they keep, for each key, the first row of the input that carries it. */
module KeyedRows {
  import opened Sorting
  import opened Rows

  /** Which field of a row is the key: `v.0` or `v.1`. */
  datatype Field = Left | Right

  function Key(f: Field, r: Row): int {
    if f == Left then r.0 else r.1
  }

  predicate LeftLe(a: Row, b: Row) {
    a.0 <= b.0
  }

  predicate RightLe(a: Row, b: Row) {
    a.1 <= b.1
  }

  /** The order `sort_by_key(|v| v.0)` or `sort_by_key(|v| v.1)` sorts by. */
  function KeyOrder(f: Field): (Row, Row) -> bool {
    if f == Left then LeftLe else RightLe
  }

  lemma KeyOrderIsPreorder(f: Field)
    ensures Preorder(KeyOrder(f))
    ensures forall a, b :: KeyOrder(f)(a, b) <==> Key(f, a) <= Key(f, b)
  {
  }

  /** `sort_by_key`: Rust's stable sort, on the key. */
  function SortByKey(s: seq<Row>, f: Field): seq<Row> {
    SortBy(s, KeyOrder(f))
  }

  /** `dedup_by_key`: every row whose key equals that of the row before it
      is removed, so each run of equal keys keeps its first row. */
  function DedupByKey(s: seq<Row>, f: Field): seq<Row>
    decreases |s|
  {
    if |s| <= 1 then s
    else
      var kept := DedupByKey(s[..|s| - 1], f);
      if Key(f, s[|s| - 2]) == Key(f, s[|s| - 1]) then kept else kept + [s[|s| - 1]]
  }

  /** The keys that occur in `s`. */
  function Keys(s: seq<Row>, f: Field): set<int> {
    if s == [] then {} else {Key(f, s[0])} + Keys(s[1..], f)
  }

  /** The first row of `s` whose key is `k`. */
  function FirstWithKey(s: seq<Row>, f: Field, k: int): Row
    requires k in Keys(s, f)
  {
    if Key(f, s[0]) == k then s[0] else FirstWithKey(s[1..], f, k)
  }

  // ---------------------------------------------------------------------
  // Keys

  lemma {:induction false} KeysSpec(s: seq<Row>, f: Field, k: int)
    ensures k in Keys(s, f) <==> exists i :: 0 <= i < |s| && Key(f, s[i]) == k
  {
    if s != [] {
      KeysSpec(s[1..], f, k);
      if k in Keys(s[1..], f) {
        var i :| 0 <= i < |s[1..]| && Key(f, s[1..][i]) == k;
        assert Key(f, s[i + 1]) == k;
      }
      if exists i :: 0 <= i < |s| && Key(f, s[i]) == k {
        var i :| 0 <= i < |s| && Key(f, s[i]) == k;
        if i > 0 {
          assert Key(f, s[1..][i - 1]) == k;
        }
      }
    }
  }

  lemma {:induction false} KeysAppend(a: seq<Row>, b: seq<Row>, f: Field)
    ensures Keys(a + b, f) == Keys(a, f) + Keys(b, f)
  {
    if a == [] {
      assert a + b == b;
    } else {
      assert (a + b)[1..] == a[1..] + b;
      KeysAppend(a[1..], b, f);
    }
  }

  /** The first row with a key carries the key and is a row of `s`. */
  lemma {:induction false} FirstWithKeySpec(s: seq<Row>, f: Field, k: int)
    requires k in Keys(s, f)
    ensures exists i :: 0 <= i < |s| && s[i] == FirstWithKey(s, f, k) &&
                        (forall j :: 0 <= j < i ==> Key(f, s[j]) != k)
    ensures Key(f, FirstWithKey(s, f, k)) == k
  {
    if Key(f, s[0]) != k {
      FirstWithKeySpec(s[1..], f, k);
      var i :| 0 <= i < |s[1..]| && s[1..][i] == FirstWithKey(s[1..], f, k) &&
               (forall j :: 0 <= j < i ==> Key(f, s[1..][j]) != k);
      forall j | 0 <= j < i + 1
        ensures Key(f, s[j]) != k
      {
        if j > 0 {
          assert s[j] == s[1..][j - 1];
        }
      }
      assert s[i + 1] == FirstWithKey(s, f, k);
    }
  }

  /** In a concatenation, the first row with a key is in the first part
      when the key occurs there. */
  lemma {:induction false} FirstWithKeyAppend(a: seq<Row>, b: seq<Row>, f: Field, k: int)
    requires k in Keys(a, f) || k in Keys(b, f)
    ensures Keys(a + b, f) == Keys(a, f) + Keys(b, f)
    ensures FirstWithKey(a + b, f, k) == if k in Keys(a, f) then FirstWithKey(a, f, k) else FirstWithKey(b, f, k)
  {
    KeysAppend(a, b, f);
    if a == [] {
      assert a + b == b;
    } else {
      assert (a + b)[1..] == a[1..] + b;
      if Key(f, a[0]) != k {
        FirstWithKeyAppend(a[1..], b, f, k);
      }
    }
  }

  /** A row is the first with its key when no earlier row has the key. */
  lemma FirstWithKeyAt(s: seq<Row>, f: Field, i: int)
    requires 0 <= i < |s|
    requires forall j :: 0 <= j < i ==> Key(f, s[j]) != Key(f, s[i])
    ensures Key(f, s[i]) in Keys(s, f)
    ensures FirstWithKey(s, f, Key(f, s[i])) == s[i]
  {
    KeysSpec(s, f, Key(f, s[i]));
    FirstWithKeySpec(s, f, Key(f, s[i]));
  }

  /** Permuting the rows keeps the set of keys. */
  lemma KeysOfPermutation(a: seq<Row>, b: seq<Row>, f: Field)
    requires multiset(a) == multiset(b)
    ensures Keys(a, f) == Keys(b, f)
  {
    forall k | k in Keys(a, f)
      ensures k in Keys(b, f)
    {
      KeysSpec(a, f, k);
      KeysSpec(b, f, k);
      var i :| 0 <= i < |a| && Key(f, a[i]) == k;
      assert a[i] in multiset(b);
    }
    forall k | k in Keys(b, f)
      ensures k in Keys(a, f)
    {
      KeysSpec(a, f, k);
      KeysSpec(b, f, k);
      var i :| 0 <= i < |b| && Key(f, b[i]) == k;
      assert b[i] in multiset(a);
    }
  }

  // ---------------------------------------------------------------------
  // Stability

  /** The rows equivalent to `x` under the key order are those with its
      key, so the first of them is the first row with that key. */
  lemma {:induction false} EquivalentsHead(s: seq<Row>, f: Field, x: Row)
    requires Key(f, x) in Keys(s, f)
    ensures Equivalents(s, KeyOrder(f), x) != []
    ensures Equivalents(s, KeyOrder(f), x)[0] == FirstWithKey(s, f, Key(f, x))
  {
    KeyOrderIsPreorder(f);
    if Key(f, s[0]) != Key(f, x) {
      EquivalentsHead(s[1..], f, x);
    }
  }

  /** The stable sort leaves the first row of each key first among the rows
      with that key. */
  lemma SortKeepsFirstWithKey(s: seq<Row>, f: Field, k: int)
    requires k in Keys(s, f)
    ensures k in Keys(SortByKey(s, f), f)
    ensures FirstWithKey(SortByKey(s, f), f, k) == FirstWithKey(s, f, k)
  {
    SortByPermutes(s, KeyOrder(f));
    KeysOfPermutation(SortByKey(s, f), s, f);
    KeyOrderIsPreorder(f);
    var x := FirstWithKey(s, f, k);
    FirstWithKeySpec(s, f, k);
    SortByStable(s, KeyOrder(f), x);
    EquivalentsHead(s, f, x);
    EquivalentsHead(SortByKey(s, f), f, x);
  }

  // ---------------------------------------------------------------------
  // Deduplication

  /** `dedup_by_key` keeps the set of keys, keeps the first row of each key,
      ends with a row of the input's last key and keeps only rows of the
      input. */
  lemma {:induction false} DedupByKeySpec(s: seq<Row>, f: Field)
    ensures var d := DedupByKey(s, f);
      && Keys(d, f) == Keys(s, f)
      && (s != [] ==> d != [] && Key(f, d[|d| - 1]) == Key(f, s[|s| - 1]))
      && (forall i :: 0 <= i < |d| ==> d[i] in s)
    decreases |s|
  {
    if |s| > 1 {
      var init, last := s[..|s| - 1], s[|s| - 1];
      var kept := DedupByKey(init, f);
      DedupByKeySpec(init, f);
      assert s == init + [last];
      KeysAppend(init, [last], f);
      KeysAppend(kept, [last], f);
      assert init[|init| - 1] == s[|s| - 2];
      var d := DedupByKey(s, f);
      forall i | 0 <= i < |d|
        ensures d[i] in s
      {
        if i < |kept| {
          assert d[i] == kept[i];
          assert kept[i] in init;
        }
      }
      if Key(f, s[|s| - 2]) == Key(f, last) {
        assert Keys([last], f) == {Key(f, last)};
        KeysSpec(init, f, Key(f, last));
        assert Key(f, init[|init| - 1]) == Key(f, last);
      }
    }
  }

  /** `dedup_by_key` keeps, for every key, the first row with that key. */
  lemma {:induction false} DedupKeepsFirstWithKey(s: seq<Row>, f: Field, k: int)
    requires k in Keys(s, f)
    ensures k in Keys(DedupByKey(s, f), f)
    ensures FirstWithKey(DedupByKey(s, f), f, k) == FirstWithKey(s, f, k)
    decreases |s|
  {
    DedupByKeySpec(s, f);
    if |s| > 1 {
      var init, last := s[..|s| - 1], s[|s| - 1];
      var kept := DedupByKey(init, f);
      DedupByKeySpec(init, f);
      assert s == init + [last];
      assert init[|init| - 1] == s[|s| - 2];
      KeysAppend(init, [last], f);
      if k in Keys(init, f) {
        DedupKeepsFirstWithKey(init, f, k);
        FirstWithKeyAppend(init, [last], f, k);
        if Key(f, s[|s| - 2]) != Key(f, last) {
          FirstWithKeyAppend(kept, [last], f, k);
        }
      } else {
        assert k == Key(f, last);
        FirstWithKeyAppend(init, [last], f, k);
        assert Key(f, s[|s| - 2]) != Key(f, last);
        FirstWithKeyAppend(kept, [last], f, k);
      }
    }
  }

  /** After a sort on the key, `dedup_by_key` leaves strictly increasing
      keys. */
  lemma {:induction false} DedupSortedIncreases(s: seq<Row>, f: Field)
    requires forall i, j :: 0 <= i < j < |s| ==> Key(f, s[i]) <= Key(f, s[j])
    ensures var d := DedupByKey(s, f);
      forall i :: 0 < i < |d| ==> Key(f, d[i - 1]) < Key(f, d[i])
    decreases |s|
  {
    if |s| > 1 {
      var init, last := s[..|s| - 1], s[|s| - 1];
      var kept := DedupByKey(init, f);
      DedupSortedIncreases(init, f);
      DedupByKeySpec(init, f);
      assert init[|init| - 1] == s[|s| - 2];
    }
  }

  // ---------------------------------------------------------------------
  // Sort, then deduplicate

  /** `sort_by_key` followed by `dedup_by_key` on the same key. */
  function SortDedup(s: seq<Row>, f: Field): seq<Row> {
    DedupByKey(SortByKey(s, f), f)
  }

  /** Sorting then deduplicating gives strictly increasing keys, the same
      keys as the input, and for each key the row that comes first in the
      input. */
  lemma SortDedupSpec(s: seq<Row>, f: Field)
    ensures var d := SortDedup(s, f);
      && (forall i :: 0 < i < |d| ==> Key(f, d[i - 1]) < Key(f, d[i]))
      && Keys(d, f) == Keys(s, f)
      && (forall i :: 0 <= i < |d| ==> Key(f, d[i]) in Keys(s, f) && d[i] == FirstWithKey(s, f, Key(f, d[i])))
  {
    var sorted := SortByKey(s, f);
    var d := SortDedup(s, f);
    assert Keys(d, f) == Keys(s, f) by {
      SortByPermutes(s, KeyOrder(f));
      KeysOfPermutation(sorted, s, f);
      DedupByKeySpec(sorted, f);
    }
    assert forall i :: 0 < i < |d| ==> Key(f, d[i - 1]) < Key(f, d[i]) by {
      assert forall i, j :: 0 <= i < j < |sorted| ==> Key(f, sorted[i]) <= Key(f, sorted[j]) by {
        KeyOrderIsPreorder(f);
        SortBySorted(s, KeyOrder(f));
      }
      DedupSortedIncreases(sorted, f);
      assert d == DedupByKey(sorted, f);
    }
    forall i | 0 <= i < |d|
      ensures Key(f, d[i]) in Keys(s, f) && d[i] == FirstWithKey(s, f, Key(f, d[i]))
    {
      var k := Key(f, d[i]);
      KeysSpec(d, f, k);
      IncreasingFirst(d, f, i);
      SortKeepsFirstWithKey(s, f, k);
      DedupKeepsFirstWithKey(sorted, f, k);
    }
  }

  /** With strictly increasing keys, each row is the first with its key. */
  lemma IncreasingFirst(d: seq<Row>, f: Field, i: int)
    requires forall j :: 0 < j < |d| ==> Key(f, d[j - 1]) < Key(f, d[j])
    requires 0 <= i < |d|
    ensures Key(f, d[i]) in Keys(d, f)
    ensures FirstWithKey(d, f, Key(f, d[i])) == d[i]
  {
    IncreasingBelow(d, f, i);
    FirstWithKeyAt(d, f, i);
  }

  /** Strictly increasing keys: every earlier key is smaller. */
  lemma {:induction false} IncreasingBelow(d: seq<Row>, f: Field, i: int)
    requires forall j :: 0 < j < |d| ==> Key(f, d[j - 1]) < Key(f, d[j])
    requires 0 <= i < |d|
    ensures forall j :: 0 <= j < i ==> Key(f, d[j]) < Key(f, d[i])
    decreases i
  {
    if i > 0 {
      IncreasingBelow(d, f, i - 1);
    }
  }

  /** No two rows share a key. */
  predicate DistinctKeys(s: seq<Row>, f: Field) {
    forall i, j :: 0 <= i < j < |s| ==> Key(f, s[i]) != Key(f, s[j])
  }

  /** Strictly increasing keys are distinct. */
  lemma IncreasingDistinct(d: seq<Row>, f: Field)
    requires forall j :: 0 < j < |d| ==> Key(f, d[j - 1]) < Key(f, d[j])
    ensures DistinctKeys(d, f)
  {
    forall i, j | 0 <= i < j < |d|
      ensures Key(f, d[i]) != Key(f, d[j])
    {
      IncreasingBelow(d, f, j);
    }
  }

  /** Reordering rows keeps their keys distinct. */
  lemma {:induction false} DistinctKeysPermutation(a: seq<Row>, b: seq<Row>, f: Field)
    requires multiset(a) == multiset(b) && DistinctKeys(b, f)
    ensures DistinctKeys(a, f)
    decreases |a|
  {
    if a != [] {
      var n := |a| - 1;
      var x := a[n];
      assert x in multiset(b) by {
        assert a == a[..n] + [x];
      }
      var p :| 0 <= p < |b| && b[p] == x;
      RemoveLast(a, b, p);
      DistinctWithout(b, p, f);
      DistinctKeysPermutation(a[..n], b[..p] + b[p + 1..], f);
      LastKeyFresh(a, b, p, f);
      DistinctSnoc(a[..n], x, f);
      assert a == a[..n] + [x];
    }
  }

  /** Dropping a row keeps the keys distinct. */
  lemma DistinctWithout(b: seq<Row>, p: int, f: Field)
    requires 0 <= p < |b| && DistinctKeys(b, f)
    ensures DistinctKeys(b[..p] + b[p + 1..], f)
  {
    var rest := b[..p] + b[p + 1..];
    forall i, j | 0 <= i < j < |rest|
      ensures Key(f, rest[i]) != Key(f, rest[j])
    {
      var i', j' := if i < p then i else i + 1, if j < p then j else j + 1;
      assert rest[i] == b[i'] && rest[j] == b[j'];
    }
  }

  /** The last row of `a`, found at `b[p]`, has a key no other row of `a`
      has: the other rows are the rest of `b`. */
  lemma LastKeyFresh(a: seq<Row>, b: seq<Row>, p: int, f: Field)
    requires a != [] && 0 <= p < |b| && b[p] == a[|a| - 1] && DistinctKeys(b, f)
    requires multiset(a[..|a| - 1]) == multiset(b[..p] + b[p + 1..])
    ensures forall i :: 0 <= i < |a| - 1 ==> Key(f, a[i]) != Key(f, a[|a| - 1])
  {
    var n := |a| - 1;
    var rest := b[..p] + b[p + 1..];
    forall i | 0 <= i < n
      ensures Key(f, a[i]) != Key(f, a[n])
    {
      assert a[i] == a[..n][i];
      assert a[i] in multiset(rest);
      var q :| 0 <= q < |rest| && rest[q] == a[i];
      var q' := if q < p then q else q + 1;
      assert b[q'] == a[i];
    }
  }

  /** A row whose key no row of `s` has keeps the keys distinct. */
  lemma DistinctSnoc(s: seq<Row>, x: Row, f: Field)
    requires DistinctKeys(s, f) && forall i :: 0 <= i < |s| ==> Key(f, s[i]) != Key(f, x)
    ensures DistinctKeys(s + [x], f)
  {
    var t := s + [x];
    forall i, j | 0 <= i < j < |t|
      ensures Key(f, t[i]) != Key(f, t[j])
    {
      assert t[i] == s[i];
      if j < |s| {
        assert t[j] == s[j];
      }
    }
  }

  /** Taking the last row from one side of a permutation and the same row
      from the other side leaves a permutation. */
  lemma RemoveLast(a: seq<Row>, b: seq<Row>, p: int)
    requires multiset(a) == multiset(b) && a != []
    requires 0 <= p < |b| && b[p] == a[|a| - 1]
    ensures multiset(a[..|a| - 1]) == multiset(b[..p] + b[p + 1..])
  {
    var n := |a| - 1;
    assert a == a[..n] + [a[n]];
    assert b == b[..p] + [b[p]] + b[p + 1..];
    var x := a[n];
    assert multiset(a) == multiset(a[..n]) + multiset{x};
    assert multiset(b) == multiset(b[..p]) + multiset{x} + multiset(b[p + 1..]);
    assert multiset(b[..p] + b[p + 1..]) == multiset(b[..p]) + multiset(b[p + 1..]);
    assert multiset(a[..n]) == multiset(a) - multiset{x};
    assert multiset(b[..p] + b[p + 1..]) == multiset(b) - multiset{x};
  }
}
