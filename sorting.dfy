/** The sorts the generators call: Python's `list.sort()` (on tuples, in
    their natural lexicographic order) and Rust's `sort_by_key` (by one
    component). Both are stable sorts by a total preorder; one insertion
    sort models them, and three lemmas give it the properties the callers
    rely on: the result is sorted, it is a permutation of the input, and
    elements that compare equal keep their input order. */
module Sorting {

  /** Any two elements compare. */
  ghost predicate Total<T(!new)>(le: (T, T) -> bool) {
    forall a, b :: le(a, b) || le(b, a)
  }

  /** Comparison chains. */
  ghost predicate Transitive<T(!new)>(le: (T, T) -> bool) {
    forall a, b, c :: le(a, b) && le(b, c) ==> le(a, c)
  }

  /** A total preorder: what a sort key induces. */
  ghost predicate Preorder<T(!new)>(le: (T, T) -> bool) {
    Total(le) && Transitive(le)
  }

  /** Every element is at most every later one. */
  predicate SortedBy<T>(s: seq<T>, le: (T, T) -> bool) {
    forall i, j :: 0 <= i < j < |s| ==> le(s[i], s[j])
  }

  /** `x` inserted after every element that is at most `x`. */
  function InsertBy<T>(x: T, s: seq<T>, le: (T, T) -> bool): seq<T> {
    if s == [] || !le(s[0], x) then [x] + s
    else [s[0]] + InsertBy(x, s[1..], le)
  }

  /** The stable sort: each element, in input order, inserted after the
      elements already placed that are at most it. */
  function SortBy<T>(s: seq<T>, le: (T, T) -> bool): seq<T> {
    if s == [] then []
    else InsertBy(s[|s| - 1], SortBy(s[..|s| - 1], le), le)
  }

  /** The elements of `s` equivalent to `x` (each at most the other), in
      their order in `s`. */
  function Equivalents<T>(s: seq<T>, le: (T, T) -> bool, x: T): seq<T> {
    if s == [] then []
    else (if le(s[0], x) && le(x, s[0]) then [s[0]] else []) + Equivalents(s[1..], le, x)
  }

  lemma {:induction false} InsertByPermutes<T>(x: T, s: seq<T>, le: (T, T) -> bool)
    ensures multiset(InsertBy(x, s, le)) == multiset(s) + multiset{x}
  {
    if s != [] && le(s[0], x) {
      InsertByPermutes(x, s[1..], le);
      calc {
        multiset(InsertBy(x, s, le));
        multiset([s[0]]) + multiset(InsertBy(x, s[1..], le));
        multiset([s[0]]) + multiset(s[1..]) + multiset{x};
        { assert s == [s[0]] + s[1..]; }
        multiset(s) + multiset{x};
      }
    }
  }

  lemma {:induction false} InsertBySorted<T(!new)>(x: T, s: seq<T>, le: (T, T) -> bool)
    requires Preorder(le) && SortedBy(s, le)
    ensures SortedBy(InsertBy(x, s, le), le)
  {
    if s != [] && le(s[0], x) {
      InsertBySorted(x, s[1..], le);
      InsertByPermutes(x, s[1..], le);
      var t := InsertBy(x, s[1..], le);
      forall j | 0 <= j < |t|
        ensures le(s[0], t[j])
      {
        assert t[j] in multiset(s[1..]) + multiset{x};
        if t[j] != x {
          var k :| 0 <= k < |s[1..]| && s[1..][k] == t[j];
          assert s[k + 1] == t[j];
        }
      }
    }
  }

  /** The sort's result is sorted. */
  lemma {:induction false} SortBySorted<T(!new)>(s: seq<T>, le: (T, T) -> bool)
    requires Preorder(le)
    ensures SortedBy(SortBy(s, le), le)
  {
    if s != [] {
      SortBySorted(s[..|s| - 1], le);
      InsertBySorted(s[|s| - 1], SortBy(s[..|s| - 1], le), le);
    }
  }

  /** The sort's result is a permutation of its input. */
  lemma {:induction false} SortByPermutes<T(!new)>(s: seq<T>, le: (T, T) -> bool)
    ensures multiset(SortBy(s, le)) == multiset(s)
  {
    if s != [] {
      SortByPermutes(s[..|s| - 1], le);
      InsertByPermutes(s[|s| - 1], SortBy(s[..|s| - 1], le), le);
      assert s == s[..|s| - 1] + [s[|s| - 1]];
    }
  }

  lemma {:induction false} EquivalentsAppend<T(!new)>(a: seq<T>, b: seq<T>, le: (T, T) -> bool, x: T)
    ensures Equivalents(a + b, le, x) == Equivalents(a, le, x) + Equivalents(b, le, x)
  {
    if a == [] {
      assert a + b == b;
    } else {
      assert (a + b)[1..] == a[1..] + b;
      EquivalentsAppend(a[1..], b, le, x);
    }
  }

  /** A sorted sequence whose first element is above `y` has no element
      equivalent to anything equivalent to `y`. */
  lemma {:induction false} NoEquivalentsAbove<T(!new)>(s: seq<T>, le: (T, T) -> bool, y: T, x: T)
    requires Preorder(le) && SortedBy(s, le)
    requires s != [] ==> !le(s[0], y)
    requires le(x, y) && le(y, x)
    ensures Equivalents(s, le, x) == []
  {
    if s != [] {
      var h := s[0];
      assert !(le(h, x) && le(x, h));
      if s[1..] != [] {
        assert s[1..][0] == s[1];
        assert le(s[0], s[1]);
      }
      NoEquivalentsAbove(s[1..], le, y, x);
    }
  }

  /** Inserting adds the new element at the end of its equivalence class. */
  lemma {:induction false} InsertByStable<T(!new)>(y: T, s: seq<T>, le: (T, T) -> bool, x: T)
    requires Preorder(le) && SortedBy(s, le)
    ensures Equivalents(InsertBy(y, s, le), le, x)
         == Equivalents(s, le, x) + (if le(y, x) && le(x, y) then [y] else [])
  {
    if s == [] || !le(s[0], y) {
      assert InsertBy(y, s, le) == [y] + s;
      assert ([y] + s)[1..] == s;
      if le(y, x) && le(x, y) {
        NoEquivalentsAbove(s, le, y, x);
      }
    } else {
      InsertByStable(y, s[1..], le, x);
      assert (InsertBy(y, s, le))[1..] == InsertBy(y, s[1..], le);
    }
  }

  /** The sort is stable: the elements equivalent to any `x` come out in
      their input order. */
  lemma {:induction false} SortByStable<T(!new)>(s: seq<T>, le: (T, T) -> bool, x: T)
    requires Preorder(le)
    ensures Equivalents(SortBy(s, le), le, x) == Equivalents(s, le, x)
  {
    if s != [] {
      var init := s[..|s| - 1];
      SortByStable(init, le, x);
      SortBySorted(init, le);
      InsertByStable(s[|s| - 1], SortBy(init, le), le, x);
      assert s == init + [s[|s| - 1]];
      EquivalentsAppend(init, [s[|s| - 1]], le, x);
    }
  }

  /** Inserting an element no smaller than any other appends it. */
  lemma {:induction false} InsertByLast<T>(x: T, s: seq<T>, le: (T, T) -> bool)
    requires forall k :: 0 <= k < |s| ==> le(s[k], x)
    ensures InsertBy(x, s, le) == s + [x]
  {
    if s != [] {
      InsertByLast(x, s[1..], le);
      assert [s[0]] + (s[1..] + [x]) == s + [x];
    }
  }

  /** Sorting input that is already in order leaves it unchanged. */
  lemma {:induction false} SortBySortedInput<T>(s: seq<T>, le: (T, T) -> bool)
    requires SortedBy(s, le)
    ensures SortBy(s, le) == s
  {
    if s != [] {
      var init := s[..|s| - 1];
      SortBySortedInput(init, le);
      InsertByLast(s[|s| - 1], init, le);
      assert init + [s[|s| - 1]] == s;
    }
  }
}
