/** The dense decode tables the generators build from sorted rows: every
    row's value at its index, a hole value (`None`, or U+FFFD in the build
    script) in every gap, and padding to a minimum length. */
module DecodeTables {
  import opened Wrappers
  import opened Rows

  /** One row placed after the table built so far: holes up to `index`,
      then the value. A row whose index is already behind the end (an
      out-of-order or repeated index) is appended at the end. */
  function Place<T>(dec: seq<T>, index: int, v: T, hole: T): seq<T> {
    (if |dec| < index then dec + seq(index - |dec|, _ => hole) else dec) + [v]
  }

  /** The table the gap-filling loop builds from `slots`. */
  function GapFilled<T>(slots: seq<(int, T)>, hole: T): seq<T>
    decreases |slots|
  {
    if slots == [] then []
    else
      var last := slots[|slots| - 1];
      Place(GapFilled(slots[..|slots| - 1], hole), last.0, last.1, hole)
  }

  /** The gap-filling loop:
      `for (index, v) in slots: while i < index: dec += [hole]; i += 1`,
      then `dec += [v]; i += 1`. */
  method GapFill<T>(slots: seq<(int, T)>, hole: T) returns (dec: seq<T>)
    ensures dec == GapFilled(slots, hole)
  {
    dec := [];
    var i := 0;
    for k := 0 to |slots|
      invariant i == |dec|
      invariant dec == GapFilled(slots[..k], hole)
    {
      var (index, v) := slots[k];
      ghost var before := dec;
      while i < index
        invariant |before| <= i == |dec|
        invariant i == |before| || i <= index
        invariant dec == before + seq(i - |before|, _ => hole)
        decreases index - i
      {
        dec := dec + [hole];
        i := i + 1;
      }
      assert dec + [v] == Place(before, index, v, hole);
      dec := dec + [v];
      i := i + 1;
      assert slots[..k + 1][..k] == slots[..k];
    }
    assert slots[..|slots|] == slots;
  }

  /** Indices strictly increasing from a non-negative first one. */
  predicate StrictlyIncreasing<T>(slots: seq<(int, T)>) {
    (|slots| > 0 ==> slots[0].0 >= 0) &&
    forall k :: 0 < k < |slots| ==> slots[k - 1].0 < slots[k].0
  }

  /** With strictly increasing indices, the table ends at the last index,
      holds every row's value at its index and the hole everywhere else. */
  lemma GapFilledPlaces<T>(slots: seq<(int, T)>, hole: T)
    requires StrictlyIncreasing(slots)
    ensures var dec := GapFilled(slots, hole);
      && |dec| == (if slots == [] then 0 else slots[|slots| - 1].0 + 1)
      && (forall k :: 0 <= k < |slots| ==> 0 <= slots[k].0 < |dec| && dec[slots[k].0] == slots[k].1)
      && (forall j :: 0 <= j < |dec| && (forall k :: 0 <= k < |slots| ==> slots[k].0 != j) ==> dec[j] == hole)
  {
    GapFilledLength(slots, hole);
    var dec := GapFilled(slots, hole);
    forall k | 0 <= k < |slots|
      ensures 0 <= slots[k].0 < |dec| && dec[slots[k].0] == slots[k].1
    {
      GapFilledValue(slots, hole, k);
    }
    forall j | 0 <= j < |dec| && (forall k :: 0 <= k < |slots| ==> slots[k].0 != j)
      ensures dec[j] == hole
    {
      GapFilledHole(slots, hole, j);
    }
  }

  /** Dropping the last slot keeps the indices increasing. */
  lemma InitIncreasing<T>(slots: seq<(int, T)>)
    requires StrictlyIncreasing(slots) && slots != []
    ensures StrictlyIncreasing(slots[..|slots| - 1])
  {
    var init := slots[..|slots| - 1];
    forall k | 0 < k < |init|
      ensures init[k - 1].0 < init[k].0
    {
      assert init[k - 1] == slots[k - 1] && init[k] == slots[k];
    }
  }

  /** The table ends at the last index. */
  lemma {:induction false} GapFilledLength<T>(slots: seq<(int, T)>, hole: T)
    requires StrictlyIncreasing(slots)
    ensures |GapFilled(slots, hole)| == if slots == [] then 0 else slots[|slots| - 1].0 + 1
  {
    if slots != [] {
      var init := slots[..|slots| - 1];
      InitIncreasing(slots);
      GapFilledLength(init, hole);
      if init != [] {
        assert init[|init| - 1] == slots[|slots| - 2];
      }
    }
  }

  /** The value of slot `k` sits at its index. */
  lemma {:induction false} GapFilledValue<T>(slots: seq<(int, T)>, hole: T, k: int)
    requires StrictlyIncreasing(slots) && 0 <= k < |slots|
    ensures 0 <= slots[k].0 < |GapFilled(slots, hole)|
    ensures GapFilled(slots, hole)[slots[k].0] == slots[k].1
  {
    var init := slots[..|slots| - 1];
    InitIncreasing(slots);
    GapFilledLength(slots, hole);
    GapFilledLength(init, hole);
    if k < |slots| - 1 {
      GapFilledValue(init, hole, k);
      assert init[k] == slots[k];
      assert init[|init| - 1] == slots[|slots| - 2];
    }
  }

  /** A position no slot names holds the hole. */
  lemma {:induction false} GapFilledHole<T>(slots: seq<(int, T)>, hole: T, j: int)
    requires StrictlyIncreasing(slots) && 0 <= j < |GapFilled(slots, hole)|
    requires forall k :: 0 <= k < |slots| ==> slots[k].0 != j
    ensures GapFilled(slots, hole)[j] == hole
  {
    var init := slots[..|slots| - 1];
    var last := slots[|slots| - 1];
    InitIncreasing(slots);
    GapFilledLength(slots, hole);
    GapFilledLength(init, hole);
    var prev := GapFilled(init, hole);
    if init != [] {
      assert init[|init| - 1] == slots[|slots| - 2];
    }
    if j < |prev| {
      forall k | 0 <= k < |init|
        ensures init[k].0 != j
      {
        assert init[k] == slots[k];
      }
      GapFilledHole(init, hole, j);
    } else {
      assert j != last.0;
    }
  }

  /** The table padded with holes to at least `n` entries. */
  function Padded<T>(dec: seq<T>, n: nat, hole: T): seq<T> {
    if |dec| < n then dec + seq(n - |dec|, _ => hole) else dec
  }

  /** `while len(dec) < n: dec += [hole]`. */
  method PadTo<T>(dec: seq<T>, n: nat, hole: T) returns (r: seq<T>)
    ensures r == Padded(dec, n, hole)
  {
    r := dec;
    while |r| < n
      invariant |dec| <= |r| && (|dec| < n ==> |r| <= n) && (|dec| >= n ==> |r| == |dec|)
      invariant r == dec + seq(|r| - |dec|, _ => hole)
      decreases n - |r|
    {
      r := r + [hole];
    }
  }

  /** Padding reaches `n` entries, keeps the table as a prefix and adds
      only holes. */
  lemma PaddedSpec<T>(dec: seq<T>, n: nat, hole: T)
    ensures var r := Padded(dec, n, hole);
      && |r| == (if |dec| < n then n else |dec|)
      && r[..|dec|] == dec
      && (forall j :: |dec| <= j < |r| ==> r[j] == hole)
  {
  }

  /** The rows as gap-fill slots: each code point at its index less
      `shift` (0 for the WHATWG tables, 128 for the ASCII extensions, whose
      table starts at byte 0x80). */
  function Slots(rows: seq<Row>, shift: int): seq<(int, Option<int>)> {
    seq(|rows|, k requires 0 <= k < |rows| => (rows[k].0 - shift, Some(rows[k].1)))
  }

  /** No two rows share an index. */
  predicate DistinctIndices(rows: seq<Row>) {
    forall i, j :: 0 <= i < j < |rows| ==> rows[i].0 != rows[j].0
  }

  /** Sorted rows with distinct indices at least `shift` give strictly
      increasing slots. */
  lemma SortedSlotsIncrease(table: seq<Row>, shift: int)
    requires forall i, j :: 0 <= i < j < |table| ==> table[i].0 <= table[j].0
    requires DistinctIndices(table)
    requires forall k :: 0 <= k < |table| ==> table[k].0 >= shift
    ensures StrictlyIncreasing(Slots(table, shift))
  {
    var slots := Slots(table, shift);
    forall k | 0 < k < |slots|
      ensures slots[k - 1].0 < slots[k].0
    {
      assert table[k - 1].0 <= table[k].0 && table[k - 1].0 != table[k].0;
    }
  }

  /** Each row's code point sits at its index less `shift`, and every
      position no row's index names holds `None`. */
  predicate PlacedAt(rows: seq<Row>, shift: int, dec: seq<Option<int>>) {
    && (forall k :: 0 <= k < |rows| ==> 0 <= rows[k].0 - shift < |dec| && dec[rows[k].0 - shift] == Some(rows[k].1))
    && (forall j :: 0 <= j < |dec| && (forall k :: 0 <= k < |rows| ==> rows[k].0 - shift != j) ==> dec[j] == None)
  }

  /** For rows whose indices less `shift` increase strictly from 0 or more
      (as sorted rows with distinct indices at least `shift` do), the
      decode table ends at the last index and places every row. */
  lemma RowsGapFilled(table: seq<Row>, shift: int)
    requires StrictlyIncreasing(Slots(table, shift))
    ensures var dec := GapFilled(Slots(table, shift), None);
      && |dec| == (if table == [] then 0 else table[|table| - 1].0 - shift + 1)
      && PlacedAt(table, shift, dec)
  {
    var slots := Slots(table, shift);
    GapFilledLength(slots, None);
    var dec := GapFilled(slots, None);
    if table != [] {
      assert slots[|slots| - 1].0 == table[|table| - 1].0 - shift;
    }
    forall k | 0 <= k < |table|
      ensures 0 <= table[k].0 - shift < |dec| && dec[table[k].0 - shift] == Some(table[k].1)
    {
      GapFilledValue(slots, None, k);
    }
    forall j | 0 <= j < |dec| && (forall k :: 0 <= k < |table| ==> table[k].0 - shift != j)
      ensures dec[j] == None
    {
      GapFilledHole(slots, None, j);
    }
  }
}
