/** `binary_search_by_key` on a generated `ENCODE_TABLE`, which is sorted by
    code point. */
module Lookup {
  import opened Wrappers
  import opened Text

  /** An encode table: code point first, encoded form second. */
  predicate SortedByKey<V>(t: seq<(Scalar, V)>) {
    forall i, j :: 0 <= i < j < |t| ==> t[i].0 <= t[j].0
  }

  /** The position of the first entry whose key is `c`. */
  function FindFirst<V>(t: seq<(Scalar, V)>, c: Scalar): (r: Option<nat>)
    ensures r.Some? ==> r.value < |t|
  {
    if t == [] then None
    else if t[0].0 == c then Some(0)
    else match FindFirst(t[1..], c)
      case Some(i) => Some(i + 1)
      case None => None
  }

  /** `FindFirst` finds the first entry with key `c`, and finds nothing
      exactly when there is no such entry. */
  lemma {:induction false} FindFirstSpec<V>(t: seq<(Scalar, V)>, c: Scalar)
    ensures var r := FindFirst(t, c);
      && (r.Some? ==> r.value < |t| && t[r.value].0 == c && forall j :: 0 <= j < r.value ==> t[j].0 != c)
      && (r.None? <==> forall j :: 0 <= j < |t| ==> t[j].0 != c)
  {
    if t != [] && t[0].0 != c {
      FindFirstSpec(t[1..], c);
      assert forall j :: 1 <= j < |t| ==> t[j] == t[1..][j - 1];
    }
  }

  /** The value stored for `c` in the first entry with that key. */
  function KeyLookup<V>(t: seq<(Scalar, V)>, c: Scalar): Option<V> {
    match FindFirst(t, c)
    case Some(i) => Some(t[i].1)
    case None => None
  }

  /** `KeyLookup` finds a value exactly when some entry has key `c`, and the
      value it finds is stored with `c`. */
  lemma KeyLookupSpec<V>(t: seq<(Scalar, V)>, c: Scalar)
    ensures KeyLookup(t, c).Some? <==> exists j :: 0 <= j < |t| && t[j].0 == c
    ensures KeyLookup(t, c).Some? ==> exists j :: 0 <= j < |t| && t[j] == (c, KeyLookup(t, c).value)
  {
    FindFirstSpec(t, c);
    if FindFirst(t, c).Some? {
      var i := FindFirst(t, c).value;
      assert t[i] == (c, KeyLookup(t, c).value);
    }
  }

  /** Binary search for the lowest position whose key is not below `c`
      (a "partition point"), then a test whether the key there is `c`. */
  method BinarySearchByKey<V>(t: seq<(Scalar, V)>, c: Scalar) returns (r: Option<nat>)
    requires SortedByKey(t)
    ensures r == FindFirst(t, c)
  {
    var lo, hi := 0, |t|;
    while lo < hi
      invariant 0 <= lo <= hi <= |t|
      invariant forall j :: 0 <= j < lo ==> t[j].0 < c
      invariant forall j :: hi <= j < |t| ==> c <= t[j].0
      decreases hi - lo
    {
      var mid := lo + (hi - lo) / 2;
      if t[mid].0 < c {
        lo := mid + 1;
      } else {
        hi := mid;
      }
    }
    FindFirstSpec(t, c);
    if lo < |t| && t[lo].0 == c {
      r := Some(lo);
    } else {
      r := None;
    }
  }
}
