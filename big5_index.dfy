/** The Big5 pointer arithmetic of the WHATWG Encoding Standard (section 5,
    "index Big5 pointer", and section 11.1): a pointer is a position in a
    grid of 157 trail bytes per lead byte, the lead bytes starting at 0x81
    and the trail bytes running over 0x40..0x7E and 0xA1..0xFE.

    The same arithmetic is written out four times in the source: the
    generator's `index_to_bytes` and `bytes_to_index`, the decoder's
    pointer computation, the build script's pointer computation, and the
    build script's `whatwg_table_to_big5_table`. Here it is defined once. */
module Big5Index {

  /** Number of trail bytes per lead byte. */
  const TrailCount: int := 157

  /** The standard's exclusion bound: "index Big5 pointer" ignores every
      pointer below (0xA1 - 0x81) * 157 when it looks a code point up. */
  const StandardFirstPointer: int := (0xA1 - 0x81) * 157

  /** A trail byte the grid can hold. */
  predicate IsTrail(b: int) {
    0x40 <= b <= 0x7E || 0xA1 <= b <= 0xFE
  }

  /** The four pointers the index leaves unassigned that Big5 decoders turn
      into a base character followed by a combining mark, with those two
      code points. */
  const Graphemes: seq<(int, (int, int))> :=
    [(1133, (0xCA, 0x304)), (1135, (0xCA, 0x30C)), (1164, (0xEA, 0x304)), (1166, (0xEA, 0x30C))]

  /** `index_to_bytes`: the lead and trail byte of pointer `i`. Python's
      `//` and `%` floor; with the positive divisor 157 they agree with
      Dafny's division, so the function is total over all integers. */
  function IndexToBytes(i: int): (p: (int, int))
    ensures p.0 >= 0x81 <==> i >= 0
    ensures IsTrail(p.1)
  {
    var lead := i / TrailCount + 0x81;
    var trail := i % TrailCount;
    var offset := if trail < 0x3F then 0x40 else 0x62;
    (lead, trail + offset)
  }

  /** `bytes_to_index`: the pointer of a lead and trail byte. */
  function BytesToIndex(lead: int, trail: int): int {
    var offset := if trail < 0x7F then 0x40 else 0x62;
    (lead - 0x81) * TrailCount + (trail - offset)
  }

  /** Every pointer comes back from its bytes. */
  lemma IndexRoundTrip(i: int)
    ensures BytesToIndex(IndexToBytes(i).0, IndexToBytes(i).1) == i
  {
  }

  /** Every lead byte and grid trail byte comes back from its pointer, so the
      two functions are inverse bijections between the integers and the
      grid. */
  lemma BytesRoundTrip(lead: int, trail: int)
    requires IsTrail(trail)
    ensures IndexToBytes(BytesToIndex(lead, trail)) == (lead, trail)
  {
  }

  /** The lead byte is a byte (at most 0xFE) exactly for the pointers below
      126 * 157. */
  lemma LeadIsByte(i: int)
    requires i >= 0
    ensures IndexToBytes(i).0 <= 0xFE <==> i < (0xFE - 0x81 + 1) * TrailCount
  {
  }

  /** The pointers the standard's encoder excludes are exactly those whose
      lead byte is below 0xA1. */
  lemma ExcludedPointersHaveLowLeads(i: int)
    requires i >= 0
    ensures i < StandardFirstPointer <==> IndexToBytes(i).0 < 0xA1
  {
  }
}
