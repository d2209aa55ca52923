/** The Shift_JIS pointer arithmetic of the WHATWG Encoding Standard
    (section 5, "index Shift_JIS pointer", and section 12.3): a pointer is a
    position in a grid of 188 trail bytes per lead byte, the lead bytes
    running over 0x81..0x9F and then from 0xE0 on, the trail bytes over
    0x40..0x7E and 0x80..0xFC.

    The generator's `index_to_bytes` / `bytes_to_index`, the encoder's
    end-user-defined (EUDC) branch and the decoder's pointer computation all
    use this arithmetic; here it is defined once. */
module ShiftJisIndex {

  /** Number of trail bytes per lead byte. */
  const TrailCount: int := 188

  /** The first pointer of the end-user-defined area and the first code
      point of the Private Use Area it maps to. */
  const EudcFirstPointer: int := 8836
  const EudcLastPointer: int := 10715
  const EudcFirstChar: int := 0xE000
  const EudcLastChar: int := 0xE757

  /** A lead byte the grid can hold (the upper run is open-ended in the
      arithmetic). */
  predicate IsLead(b: int) {
    0x81 <= b <= 0x9F || 0xE0 <= b
  }

  /** A trail byte the grid can hold. */
  predicate IsTrail(b: int) {
    0x40 <= b <= 0x7E || 0x80 <= b <= 0xFC
  }

  /** `index_to_bytes`: the lead and trail byte of pointer `i`. Python's
      `//` and `%` floor; with the positive divisor 188 they agree with
      Dafny's division, so the function is total over all integers, and only
      non-negative pointers give a lead byte the grid holds. */
  function IndexToBytes(i: int): (p: (int, int))
    ensures IsLead(p.0) <==> i >= 0
    ensures IsTrail(p.1)
    ensures p.0 <= 0x9F <==> i / TrailCount < 0x1F
  {
    var lead := i / TrailCount;
    var leadOffset := if lead < 0x1F then 0x81 else 0xC1;
    var trail := i % TrailCount;
    var trailOffset := if trail < 0x3F then 0x40 else 0x41;
    (lead + leadOffset, trail + trailOffset)
  }

  /** `bytes_to_index`: the pointer of a lead and trail byte. */
  function BytesToIndex(lead: int, trail: int): int {
    var leadOffset := if lead < 0xA0 then 0x81 else 0xC1;
    var trailOffset := if trail < 0x7F then 0x40 else 0x41;
    (lead - leadOffset) * TrailCount + trail - trailOffset
  }

  /** Every pointer comes back from its bytes: the forward threshold
      (`i / 188 < 0x1F`) and the inverse one (lead byte below 0xA0) agree. */
  lemma IndexRoundTrip(i: int)
    ensures BytesToIndex(IndexToBytes(i).0, IndexToBytes(i).1) == i
  {
  }

  /** Every grid position comes back from its pointer. */
  lemma BytesRoundTrip(lead: int, trail: int)
    requires IsLead(lead) && IsTrail(trail)
    ensures BytesToIndex(lead, trail) >= 0
    ensures IndexToBytes(BytesToIndex(lead, trail)) == (lead, trail)
  {
  }

  /** The pointer the encoder gives an end-user-defined character
      (U+E000..U+E757). */
  function EudcPointer(c: int): (p: int)
    requires EudcFirstChar <= c <= EudcLastChar
    ensures EudcFirstPointer <= p <= EudcLastPointer
  {
    c - EudcFirstChar + EudcFirstPointer
  }

  /** The character the decoder gives an end-user-defined pointer
      (8836..10715). */
  function EudcChar(p: int): (c: int)
    requires EudcFirstPointer <= p <= EudcLastPointer
    ensures EudcFirstChar <= c <= EudcLastChar
  {
    p + EudcFirstChar - EudcFirstPointer
  }

  /** The EUDC mapping is a bijection between U+E000..U+E757 and the
      pointers 8836..10715, and the bytes of those pointers are two-byte
      codes whose lead lies in 0xF0..0xF9. */
  lemma EudcRoundTrip(c: int)
    requires EudcFirstChar <= c <= EudcLastChar
    ensures EudcChar(EudcPointer(c)) == c
    ensures 0xF0 <= IndexToBytes(EudcPointer(c)).0 <= 0xF9
    ensures BytesToIndex(IndexToBytes(EudcPointer(c)).0, IndexToBytes(EudcPointer(c)).1) == EudcPointer(c)
  {
    IndexRoundTrip(EudcPointer(c));
  }
}
