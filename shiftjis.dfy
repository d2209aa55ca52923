/** The WHATWG variant of Shift_JIS (`shiftjis_whatwg`): `encode_from_str`
    and `decode_to_str`. The generated `ENCODE_TABLE` and `DECODE_TABLE` are
    parameters. A character is one byte when it is ASCII, U+0080, U+00A5,
    U+203E or a half-width katakana (U+FF61..U+FF9F), and otherwise two
    bytes: a lead in 0x81..0x9F or 0xE0..0xFC and a trail in 0x40..0x7E or
    0x80..0xFC, whose pointer (section 5 of the WHATWG Encoding Standard)
    indexes the decode table. The end-user-defined characters
    U+E000..U+E757 are computed from their pointers 8836..10715 instead of
    being looked up, in both directions, and U+2212 is encoded as U+FF0D. */
module ShiftJis {
  import opened Wrappers
  import opened Text
  import opened Results
  import opened Stream
  import opened Lookup
  import ShiftJisIndex

  /** `ENCODE_TABLE: [(char, [u8; 2]); N]`, sorted by code point. */
  type EncodeTable = seq<(Scalar, (Byte, Byte))>

  /** `DECODE_TABLE: [char; N]`: the character of each pointer, U+FFFD where
      the pointer is undefined. */
  type DecodeTable = seq<Scalar>

  /** The characters the encoder writes as a single byte. */
  predicate IsSingleByteChar(c: Scalar) {
    c <= 128 || c == 0xA5 || c == 0x203E || 0xFF61 <= c <= 0xFF9F
  }

  /** The room the encoder asks for before it handles a character: one
      byte for the single-byte characters, two for every other, checked
      before the table lookup. */
  function Needs(c: Scalar): nat {
    if IsSingleByteChar(c) then 1 else 2
  }

  /** An end-user-defined character. */
  predicate IsEudcChar(c: Scalar) {
    ShiftJisIndex.EudcFirstChar <= c <= ShiftJisIndex.EudcLastChar
  }

  /** The code point the encoder looks up: U+2212 MINUS SIGN is looked up
      as U+FF0D FULLWIDTH HYPHEN-MINUS. */
  function TableKey(c: Scalar): Scalar {
    if c == 0x2212 then 0xFF0D else c
  }

  // ---------------------------------------------------------------------
  // Encoding

  /** What the encoder makes of one character, before looking at the room
      left: its bytes, or an unencodable character. */
  datatype EncodeStep = Emit(bytes: seq<Byte>) | Unmappable

  function EncodeChar(table: EncodeTable, c: Scalar): (st: EncodeStep)
    ensures st.Emit? ==> |st.bytes| == Needs(c)
    ensures IsSingleByteChar(c) || IsEudcChar(c) ==> st.Emit?
  {
    if c <= 128 then Emit([c as Byte])
    else if c == 0xA5 then Emit([0x5C])
    else if c == 0x203E then Emit([0x7E])
    else if 0xFF61 <= c <= 0xFF9F then Emit([c - 0xFF61 + 0xA1])
    else if IsEudcChar(c) then
      var p := ShiftJisIndex.IndexToBytes(ShiftJisIndex.EudcPointer(c));
      ShiftJisIndex.EudcRoundTrip(c);
      Emit([p.0, p.1])
    else match KeyLookup(table, TableKey(c))
      case Some(b) => Emit([b.0, b.1])
      case None => Unmappable
  }

  /** A whole string encoded in one go; `None` if any character is
      unencodable. */
  function Encoded(table: EncodeTable, s: seq<Scalar>): Option<seq<Byte>>
    decreases |s|, 1
  {
    if s == [] then Some([]) else EncodedAfter(table, s, EncodeChar(table, s[0]))
  }

  /** The rest of `Encoded` once the first character is classified. */
  function EncodedAfter(table: EncodeTable, s: seq<Scalar>, st: EncodeStep): Option<seq<Byte>>
    requires 0 < |s| && st == EncodeChar(table, s[0])
    decreases |s|, 0
  {
    match st
    case Emit(b) =>
      (match Encoded(table, s[1..])
       case Some(rest) => Some(b + rest)
       case None => None)
    case Unmappable => None
  }

  /** What `encode_from_str` does from `s[k]` on, at byte offset `offset`,
      with `room` bytes of output left and `done` written so far: it stops
      when the output is full or the next character needs more room than
      is left, and fails on an unencodable character only when two bytes
      of room are left. */
  function EncodeFrom(table: EncodeTable, s: seq<Scalar>, k: nat, offset: nat, room: nat, done: seq<Byte>): CharRun
    requires k <= |s|
    decreases |s| - k, 1
  {
    if k == |s| || room == 0 then CharRun(done, k, offset, None)
    else EncodeAfter(table, s, k, offset, room, done, EncodeChar(table, s[k]))
  }

  /** The rest of `EncodeFrom` once `s[k]` is classified. */
  function EncodeAfter(table: EncodeTable, s: seq<Scalar>, k: nat, offset: nat, room: nat, done: seq<Byte>, st: EncodeStep): CharRun
    requires k < |s| && st == EncodeChar(table, s[k])
    decreases |s| - k, 0
  {
    if Needs(s[k]) > room then CharRun(done, k, offset, None)
    else match st
      case Unmappable => CharRun(done, k, offset, Some(Utf8Len(s[k])))
      case Emit(b) => EncodeFrom(table, s, k + 1, offset + Utf8Len(s[k]), room - |b|, done + b)
  }

  /** What a call does with an output buffer of `room` bytes. */
  function EncodeRun(table: EncodeTable, s: seq<Scalar>, room: nat): CharRun {
    EncodeFrom(table, s, 0, 0, room, [])
  }

  /** `encode_from_str`: encodes `input` into `output` until the input
      ends, the output is full, or a character cannot be encoded. */
  method EncodeFromStr(table: EncodeTable, input: seq<Scalar>, output: array<Byte>) returns (r: EncodeResult)
    requires SortedByKey(table)
    modifies output
    ensures var run := EncodeRun(table, input, output.Length);
      && (run.failure.Some? ==> run.chars < |input|)
      && |run.out| <= output.Length
      && output[..|run.out|] == run.out
      && (forall j :: |run.out| <= j < output.Length ==> output[j] == old(output[j]))
      && r == EncodeResultOf(input, run)
  {
    ghost var whole := EncodeRun(table, input, output.Length);
    var k := 0;            // position in `char_indices`
    var offset: nat := 0;  // byte offset of `input[k]`
    var outputI := 0;
    ghost var done: seq<Byte> := [];
    while k < |input|
      invariant 0 <= k <= |input| && 0 <= outputI <= output.Length
      invariant output[..outputI] == done
      invariant whole == EncodeFrom(table, input, k, offset, output.Length - outputI, done)
      invariant forall j :: outputI <= j < output.Length ==> output[j] == old(output[j])
    {
      var next;
      next, k, offset, outputI, done := EncodeNext(table, input, output, k, offset, outputI, done, whole);
      if next == Fail {
        r := EncodeErr(EncodeError(input[k], (offset, offset + Utf8Len(input[k])), outputI));
        return;
      } else if next == Stop {
        break;
      }
    }
    if k == |input| {
      EncodeFromStops(table, input, k, offset, output.Length - outputI, done);
    }
    r := EncodeOk(output[..outputI], offset);
  }

  /** One pass of the loop body of `encode_from_str`, at `input[k]` with
      `outputI` bytes written: it breaks when the output is full or a
      two-byte character finds fewer than two bytes of room; it fails at an
      unencodable character; otherwise it writes the bytes and moves on.
      Either way the run from the new state is the same run. */
  method EncodeNext(table: EncodeTable, input: seq<Scalar>, output: array<Byte>, k: nat, offset: nat, outputI: nat,
                    ghost done: seq<Byte>, ghost whole: CharRun)
    returns (next: Next, k': nat, offset': nat, outputI': nat, ghost done': seq<Byte>)
    requires SortedByKey(table) && k < |input| && outputI <= output.Length
    requires output[..outputI] == done
    requires whole == EncodeFrom(table, input, k, offset, output.Length - outputI, done)
    modifies output
    ensures k <= k' <= |input| && outputI <= outputI' <= output.Length
    ensures output[..outputI'] == done'
    ensures forall j :: outputI' <= j < output.Length ==> output[j] == old(output[j])
    ensures next == Continue ==> k < k' && whole == EncodeFrom(table, input, k', offset', output.Length - outputI', done')
    ensures next == Stop ==> whole == CharRun(done', k', offset', None)
    ensures next == Fail ==> k' < |input| && whole == CharRun(done', k', offset', Some(Utf8Len(input[k'])))
  {
    k', offset', outputI', done' := k, offset, outputI, done;
    var room := output.Length - outputI;
    if room == 0 || Needs(input[k]) > room {
      EncodeFromStops(table, input, k, offset, room, done);
      return Stop, k', offset', outputI', done';
    }
    var st := CharStep(table, input[k]);
    if st.Unmappable? {
      EncodeFromFails(table, input, k, offset, room, done);
      return Fail, k', offset', outputI', done';
    }
    CopyInto(output, outputI, st.bytes);
    outputI' := outputI + |st.bytes|;
    offset' := offset + Utf8Len(input[k]);
    k' := k + 1;
    done' := done + st.bytes;
    EncodeFromAdvance(table, input, k, offset, room, done, st, k', offset', output.Length - outputI', done');
    next := Continue;
  }

  /** A character whose bytes fit: the run goes on after it. */
  lemma EncodeFromAdvance(table: EncodeTable, s: seq<Scalar>, k: nat, offset: nat, room: nat, done: seq<Byte>,
                          st: EncodeStep, k': nat, offset': nat, room': nat, done': seq<Byte>)
    requires k < |s| && 0 < room && st == EncodeChar(table, s[k]) && st.Emit? && |st.bytes| <= room
    requires k' == k + 1 && offset' == offset + Utf8Len(s[k])
    requires room' == room - |st.bytes| && done' == done + st.bytes
    ensures EncodeFrom(table, s, k, offset, room, done) == EncodeFrom(table, s, k', offset', room', done')
  {
  }

  /** A run stops where the input ends, the output is full, or the next
      character needs more room than is left. */
  lemma EncodeFromStops(table: EncodeTable, s: seq<Scalar>, k: nat, offset: nat, room: nat, done: seq<Byte>)
    requires k <= |s|
    requires k == |s| || room == 0 || Needs(s[k]) > room
    ensures EncodeFrom(table, s, k, offset, room, done) == CharRun(done, k, offset, None)
  {
  }

  /** A run fails at an unencodable character when two bytes of room are
      left. */
  lemma EncodeFromFails(table: EncodeTable, s: seq<Scalar>, k: nat, offset: nat, room: nat, done: seq<Byte>)
    requires k < |s| && room >= 2 && EncodeChar(table, s[k]) == Unmappable
    ensures EncodeFrom(table, s, k, offset, room, done) == CharRun(done, k, offset, Some(Utf8Len(s[k])))
  {
  }

  /** How the loop body of `encode_from_str` classifies a character: the
      single-byte characters by arithmetic, an end-user-defined character
      by its pointer, and every other one (U+2212 as U+FF0D) by
      `binary_search_by_key` in the table. */
  method CharStep(table: EncodeTable, c: Scalar) returns (st: EncodeStep)
    requires SortedByKey(table)
    ensures st == EncodeChar(table, c)
  {
    if c <= 128 {
      // Ascii
      return Emit([c]);
    } else if c == 0xA5 {
      return Emit([0x5C]);
    } else if c == 0x203E {
      return Emit([0x7E]);
    } else if c >= 0xFF61 && c <= 0xFF9F {
      return Emit([c - 0xFF61 + 0xA1]);
    } else if c >= 0xE000 && c <= 0xE757 {
      var jisPtr := c - 0xE000 + 8836;
      var lead := jisPtr / 188;
      var leadOffset := if lead < 0x1F then 0x81 else 0xC1;
      var trail := jisPtr % 188;
      var trailOffset := if trail < 0x3F then 0x40 else 0x41;
      ShiftJisIndex.EudcRoundTrip(c);
      assert (lead + leadOffset, trail + trailOffset) == ShiftJisIndex.IndexToBytes(ShiftJisIndex.EudcPointer(c));
      return Emit([lead + leadOffset, trail + trailOffset]);
    }
    var code := if c == 0x2212 then 0xFF0D else c;
    var found := BinarySearchByKey(table, code);
    if found.None? {
      return Unmappable;
    }
    var bytes := table[found.value].1;
    st := Emit([bytes.0, bytes.1]);
  }

  /** The encoder cannot encode a character exactly when it is not a
      single-byte or end-user-defined character and the table has no entry
      for its lookup key. */
  lemma UnmappableSpec(table: EncodeTable, c: Scalar)
    ensures EncodeChar(table, c) == Unmappable <==>
      !IsSingleByteChar(c) && !IsEudcChar(c) && forall j :: 0 <= j < |table| ==> table[j].0 != TableKey(c)
  {
    KeyLookupSpec(table, TableKey(c));
  }

  /** Where a run stops: within the input, having written within the room
      it has; a failing run stops at an unencodable character with two
      bytes of room left and reports that character's UTF-8 length; a
      succeeding run has consumed everything or stops at a character that
      needs more room than is left. */
  lemma {:induction false} EncodeFromBounds(table: EncodeTable, s: seq<Scalar>, k: nat, offset: nat, room: nat, done: seq<Byte>)
    requires k <= |s|
    ensures var r := EncodeFrom(table, s, k, offset, room, done);
      && k <= r.chars <= |s| && |done| <= |r.out| <= |done| + room
      && (r.failure.Some? ==>
            && r.chars < |s| && |r.out| + 2 <= |done| + room
            && EncodeChar(table, s[r.chars]) == Unmappable
            && r.failure == Some(Utf8Len(s[r.chars])))
      && (r.failure.None? && r.chars < |s| ==> |r.out| + Needs(s[r.chars]) > |done| + room)
    decreases |s| - k, 1
  {
    if k == |s| || room == 0 || Needs(s[k]) > room || EncodeChar(table, s[k]) == Unmappable {
      if k < |s| && room > 0 && Needs(s[k]) <= room {
        EncodeFromFails(table, s, k, offset, room, done);
      } else {
        EncodeFromStops(table, s, k, offset, room, done);
      }
    } else {
      BoundsAdvance(table, s, k, offset, room, done);
    }
  }

  /** `EncodeFromBounds` where the run encodes `s[k]`. */
  lemma {:induction false} BoundsAdvance(table: EncodeTable, s: seq<Scalar>, k: nat, offset: nat, room: nat, done: seq<Byte>)
    requires k < |s| && 0 < room && Needs(s[k]) <= room && EncodeChar(table, s[k]).Emit?
    ensures var r := EncodeFrom(table, s, k, offset, room, done);
      && k <= r.chars <= |s| && |done| <= |r.out| <= |done| + room
      && (r.failure.Some? ==>
            && r.chars < |s| && |r.out| + 2 <= |done| + room
            && EncodeChar(table, s[r.chars]) == Unmappable
            && r.failure == Some(Utf8Len(s[r.chars])))
      && (r.failure.None? && r.chars < |s| ==> |r.out| + Needs(s[r.chars]) > |done| + room)
    decreases |s| - k, 0
  {
    var st := EncodeChar(table, s[k]);
    var k', offset', room', done' := k + 1, offset + Utf8Len(s[k]), room - |st.bytes|, done + st.bytes;
    EncodeFromAdvance(table, s, k, offset, room, done, st, k', offset', room', done');
    EncodeFromBounds(table, s, k', offset', room', done');
  }

  /** What a run from `s[k]` produces: the bytes after `done` are the
      one-go encoding of the characters consumed, and the offset moves
      past their UTF-8 form. */
  lemma {:induction false} EncodeFromMeaning(table: EncodeTable, s: seq<Scalar>, k: nat, offset: nat, room: nat, done: seq<Byte>)
    requires k <= |s|
    ensures var r := EncodeFrom(table, s, k, offset, room, done);
      && k <= r.chars <= |s|
      && Encoded(table, s[k..r.chars]).Some?
      && r.out == done + Encoded(table, s[k..r.chars]).value
      && r.offset == offset + Utf8Span(s, k, r.chars)
    decreases |s| - k, 1
  {
    if k == |s| || room == 0 || Needs(s[k]) > room || EncodeChar(table, s[k]) == Unmappable {
      if k < |s| && room > 0 && Needs(s[k]) <= room {
        EncodeFromFails(table, s, k, offset, room, done);
      } else {
        EncodeFromStops(table, s, k, offset, room, done);
      }
      assert s[k..k] == [];
      assert Encoded(table, s[k..k]) == Some([]);
      assert done + [] == done;
    } else {
      MeaningAdvance(table, s, k, offset, room, done);
    }
  }

  /** `EncodeFromMeaning` where the run encodes `s[k]`. */
  lemma {:induction false} MeaningAdvance(table: EncodeTable, s: seq<Scalar>, k: nat, offset: nat, room: nat, done: seq<Byte>)
    requires k < |s| && 0 < room && Needs(s[k]) <= room && EncodeChar(table, s[k]).Emit?
    ensures var r := EncodeFrom(table, s, k, offset, room, done);
      && k <= r.chars <= |s|
      && Encoded(table, s[k..r.chars]).Some?
      && r.out == done + Encoded(table, s[k..r.chars]).value
      && r.offset == offset + Utf8Span(s, k, r.chars)
    decreases |s| - k, 0
  {
    var st := EncodeChar(table, s[k]);
    var k', offset', room', done' := k + 1, offset + Utf8Len(s[k]), room - |st.bytes|, done + st.bytes;
    EncodeFromAdvance(table, s, k, offset, room, done, st, k', offset', room', done');
    EncodeFromMeaning(table, s, k', offset', room', done');
    var r1 := EncodeFrom(table, s, k', offset', room', done');
    EncodedPrefix(table, s, k, r1.chars);
    AppendParts(done, st.bytes, Encoded(table, s[k'..r1.chars]).value, Encoded(table, s[k..r1.chars]).value, r1.out);
  }

  /** The encoding of `s[k]` followed by the one-go encoding of the rest of
      a slice up to `j` is the one-go encoding of the slice. */
  lemma EncodedPrefix(table: EncodeTable, s: seq<Scalar>, k: nat, j: nat)
    requires k < j <= |s| && EncodeChar(table, s[k]).Emit?
    requires Encoded(table, s[k + 1..j]).Some?
    ensures Encoded(table, s[k..j]) == Some(EncodeChar(table, s[k]).bytes + Encoded(table, s[k + 1..j]).value)
  {
    var t := s[k..j];
    assert t[0] == s[k];
    assert t[1..] == s[k + 1..j];
    EncodedCons(table, t, EncodeChar(table, s[k]).bytes);
  }

  /** One step of the one-go encoder. */
  lemma EncodedCons(table: EncodeTable, t: seq<Scalar>, b: seq<Byte>)
    requires t != [] && EncodeChar(table, t[0]) == Emit(b)
    requires Encoded(table, t[1..]).Some?
    ensures Encoded(table, t) == Some(b + Encoded(table, t[1..]).value)
  {
  }

  /** Output written after `done` in two parts is `done` followed by
      both. */
  lemma AppendParts(done: seq<Byte>, a: seq<Byte>, b: seq<Byte>, ab: seq<Byte>, out: seq<Byte>)
    requires ab == a + b && out == (done + a) + b
    ensures out == done + ab
  {
    assert (done + a) + b == done + (a + b);
  }

  /** What a whole call produces: the bytes written are the one-go encoding
      of the characters consumed and the consumed count is the length of
      their UTF-8 form; a failing call stops, with two bytes of room left,
      at a character that is neither a single-byte nor an end-user-defined
      one and whose lookup key the table lacks, and reports its UTF-8
      length; a succeeding call has consumed everything or stops at a
      character that needs more room than is left. */
  lemma EncodeRunMeaning(table: EncodeTable, s: seq<Scalar>, room: nat)
    ensures var r := EncodeRun(table, s, room);
      && r.chars <= |s| && |r.out| <= room
      && Encoded(table, s[..r.chars]) == Some(r.out)
      && r.offset == |Utf8(s[..r.chars])|
      && (r.failure.Some? ==>
            && r.chars < |s| && |r.out| + 2 <= room
            && !IsSingleByteChar(s[r.chars]) && !IsEudcChar(s[r.chars])
            && (forall j :: 0 <= j < |table| ==> table[j].0 != TableKey(s[r.chars]))
            && r.failure == Some(Utf8Len(s[r.chars])))
      && (r.failure.None? && r.chars < |s| ==> |r.out| + Needs(s[r.chars]) > room)
  {
    EncodeFromMeaning(table, s, 0, 0, room, []);
    EncodeFromBounds(table, s, 0, 0, room, []);
    var r := EncodeRun(table, s, room);
    assert s[0..r.chars] == s[..r.chars];
    Utf8SpanLength(s, 0, r.chars);
    var e := Encoded(table, s[..r.chars]);
    assert e.Some? && [] + e.value == e.value;
    if r.failure.Some? {
      UnmappableSpec(table, s[r.chars]);
    }
  }

  /** From `s[k]` on, with room for all of it, an encodable rest is encoded
      completely. */
  lemma {:induction false} EncodeFromComplete(table: EncodeTable, s: seq<Scalar>, k: nat, offset: nat, room: nat, done: seq<Byte>)
    requires k <= |s|
    requires Encoded(table, s[k..]).Some? && |Encoded(table, s[k..]).value| <= room
    ensures EncodeFrom(table, s, k, offset, room, done) ==
            CharRun(done + Encoded(table, s[k..]).value, |s|, offset + Utf8Span(s, k, |s|), None)
    decreases |s| - k
  {
    if k == |s| {
      assert s[k..] == [];
      assert Encoded(table, s[k..]) == Some([]);
      assert done + [] == done;
    } else {
      var st := EncodeChar(table, s[k]);
      CompleteStep(table, s, k);
      var rest := Encoded(table, s[k + 1..]).value;
      var k', offset', room', done' := k + 1, offset + Utf8Len(s[k]), room - |st.bytes|, done + st.bytes;
      assert EncodeFrom(table, s, k, offset, room, done) == CharRun(done' + rest, |s|, offset' + Utf8Span(s, k', |s|), None) by {
        EncodeFromAdvance(table, s, k, offset, room, done, st, k', offset', room', done');
        EncodeFromComplete(table, s, k', offset', room', done');
      }
      AppendParts(done, st.bytes, rest, Encoded(table, s[k..]).value, done' + rest);
    }
  }

  /** An encodable rest `s[k..]` starts with an encodable character whose
      rest is encodable too, and needs room for that character's bytes. */
  lemma CompleteStep(table: EncodeTable, s: seq<Scalar>, k: nat)
    requires k < |s| && Encoded(table, s[k..]).Some?
    ensures var st := EncodeChar(table, s[k]);
      && st.Emit? && Encoded(table, s[k + 1..]).Some?
      && Encoded(table, s[k..]).value == st.bytes + Encoded(table, s[k + 1..]).value
  {
    var t := s[k..];
    assert t[0] == s[k];
    assert t[1..] == s[k + 1..];
  }

  /** With room for all of it, an encodable string is encoded completely,
      and the whole of its UTF-8 form is reported consumed. */
  lemma EncodeRunComplete(table: EncodeTable, s: seq<Scalar>, room: nat)
    requires Encoded(table, s).Some? && |Encoded(table, s).value| <= room
    ensures EncodeRun(table, s, room) == CharRun(Encoded(table, s).value, |s|, |Utf8(s)|, None)
  {
    assert s[0..] == s;
    EncodeFromComplete(table, s, 0, 0, room, []);
    Utf8SpanLength(s, 0, |s|);
    assert s[0..|s|] == s;
  }

  // ---------------------------------------------------------------------
  // Decoding

  /** What the decoder makes of the bytes at `s[i]`, before looking at the
      room left: some characters for the next one or two bytes, invalid
      data with the length of its error range, or (for a lead byte at the
      end of an input that is not the end) a wait for more input. */
  datatype DecodeStep = Chars(text: seq<Scalar>, count: nat) | Invalid(span: nat) | Truncated

  /** The character of a pointer: the end-user-defined character of a
      pointer in 8836..10715, otherwise the table's character where it
      defines one. */
  function PointerChar(table: DecodeTable, p: int): Option<Scalar> {
    if ShiftJisIndex.EudcFirstPointer <= p <= ShiftJisIndex.EudcLastPointer then Some(ShiftJisIndex.EudcChar(p))
    else if 0 <= p < |table| && table[p] != Replacement then Some(table[p])
    else None
  }

  function DecodeStepAt(table: DecodeTable, s: seq<Byte>, i: nat, isEnd: bool): (st: DecodeStep)
    requires i < |s|
    ensures st.Chars? ==> 1 <= st.count <= |s| - i
    ensures st.Invalid? ==> 1 <= st.span <= |s| - i
  {
    var b1 := s[i];
    if b1 <= 127 then Chars([b1], 1)
    else if b1 == 0x80 then Chars([0x80], 1)
    else if 0xA1 <= b1 <= 0xDF then Chars([b1 as int + 0xFF61 - 0xA1], 1)
    else if 0x9F < b1 < 0xE0 || b1 > 0xFC then Invalid(1)
    else if i + 1 == |s| then (if isEnd then Invalid(1) else Truncated)
    else
      var b2 := s[i + 1];
      // An ASCII trail byte stays in the stream, outside the error.
      var span := if b2 <= 127 then 1 else 2;
      if !ShiftJisIndex.IsTrail(b2) then Invalid(span)
      else match PointerChar(table, ShiftJisIndex.BytesToIndex(b1, b2))
        case None => Invalid(span)
        case Some(c) => Chars([c], 2)
  }

  /** Bytes decoded in one go, as the end of the input; `None` at the first
      invalid sequence. */
  function Decoded(table: DecodeTable, s: seq<Byte>): Option<seq<Scalar>>
    decreases |s|, 1
  {
    if s == [] then Some([]) else DecodedAfter(table, s, DecodeStepAt(table, s, 0, true))
  }

  /** The rest of `Decoded` once the first bytes are classified. */
  function DecodedAfter(table: DecodeTable, s: seq<Byte>, st: DecodeStep): Option<seq<Scalar>>
    requires 0 < |s| && st == DecodeStepAt(table, s, 0, true)
    decreases |s|, 0
  {
    match st
    case Chars(t, n) =>
      (match Decoded(table, s[n..])
       case Some(rest) => Some(t + rest)
       case None => None)
    case _ => None
  }

  /** What `decode_to_str` does from `s[i]` on, with `room` bytes of output
      left and `done` written so far: it stops when the output is full or
      the next character's UTF-8 form does not fit, and never writes part
      of a character. */
  function DecodeFrom(table: DecodeTable, s: seq<Byte>, i: nat, room: nat, isEnd: bool, done: seq<Byte>): Run
    requires i <= |s|
    decreases |s| - i, 1
  {
    if i == |s| || room == 0 then Run(done, i, None)
    else DecodeAfter(table, s, i, room, isEnd, done, DecodeStepAt(table, s, i, isEnd))
  }

  /** The rest of `DecodeFrom` once the bytes at `s[i]` are classified. */
  function DecodeAfter(table: DecodeTable, s: seq<Byte>, i: nat, room: nat, isEnd: bool, done: seq<Byte>, st: DecodeStep): Run
    requires i < |s| && st == DecodeStepAt(table, s, i, isEnd)
    decreases |s| - i, 0
  {
    match st
    case Invalid(span) => Run(done, i, Some(span))
    case Truncated => Run(done, i, None)
    case Chars(t, n) =>
      if |Utf8(t)| > room then Run(done, i, None)
      else DecodeFrom(table, s, i + n, room - |Utf8(t)|, isEnd, done + Utf8(t))
  }

  /** What a call does with an output buffer of `room` bytes. */
  function DecodeRun(table: DecodeTable, s: seq<Byte>, room: nat, isEnd: bool): Run {
    DecodeFrom(table, s, 0, room, isEnd, [])
  }

  /** `decode_to_str`: decodes `input` into UTF-8 in `output`. */
  method DecodeToStr(table: DecodeTable, input: seq<Byte>, output: array<Byte>, isEnd: bool) returns (r: DecodeResult)
    modifies output
    ensures var run := DecodeRun(table, input, output.Length, isEnd);
      && |run.out| <= output.Length
      && output[..|run.out|] == run.out
      && (forall j :: |run.out| <= j < output.Length ==> output[j] == old(output[j]))
      && r == DecodeResultOf(run)
  {
    ghost var whole := DecodeRun(table, input, output.Length, isEnd);
    var inputI := 0;
    var outputI := 0;
    ghost var done: seq<Byte> := [];
    while inputI < |input|
      invariant 0 <= inputI <= |input| && 0 <= outputI <= output.Length
      invariant output[..outputI] == done
      invariant whole == DecodeFrom(table, input, inputI, output.Length - outputI, isEnd, done)
      invariant forall j :: outputI <= j < output.Length ==> output[j] == old(output[j])
    {
      var next, span;
      next, span, inputI, outputI, done := DecodeNext(table, input, output, inputI, outputI, isEnd, done, whole);
      if next == Fail {
        r := DecodeErr(DecodeError((inputI, inputI + span), outputI));
        assert r == DecodeResultOf(whole);
        return;
      } else if next == Stop {
        break;
      }
    }
    if inputI == |input| {
      DecodeFromStops(table, input, inputI, output.Length - outputI, isEnd, done);
    }
    r := DecodeOk(output[..outputI], inputI);
  }

  /** One pass of the loop body of `decode_to_str`, at `input[i]` with
      `outputI` bytes written: it breaks when the output is full, a lead
      byte waits for its trail or the next character does not fit; it
      fails at malformed or undefined bytes, spanning `span` of them;
      otherwise it writes the character's UTF-8 form and moves on. Either
      way the run from the new state is the same run. */
  method DecodeNext(table: DecodeTable, input: seq<Byte>, output: array<Byte>, i: nat, outputI: nat, isEnd: bool,
                    ghost done: seq<Byte>, ghost whole: Run)
    returns (next: Next, span: nat, i': nat, outputI': nat, ghost done': seq<Byte>)
    requires i < |input| && outputI <= output.Length
    requires output[..outputI] == done
    requires whole == DecodeFrom(table, input, i, output.Length - outputI, isEnd, done)
    modifies output
    ensures i <= i' <= |input| && outputI <= outputI' <= output.Length
    ensures output[..outputI'] == done'
    ensures forall j :: outputI' <= j < output.Length ==> output[j] == old(output[j])
    ensures next == Continue ==> i < i' && whole == DecodeFrom(table, input, i', output.Length - outputI', isEnd, done')
    ensures next == Stop ==> whole == Run(done', i', None)
    ensures next == Fail ==> whole == Run(done', i', Some(span))
  {
    i', outputI', done', span := i, outputI, done, 0;
    var room := output.Length - outputI;
    if room == 0 {
      DecodeFromStops(table, input, i, room, isEnd, done);
      return Stop, span, i', outputI', done';
    }
    var st := ByteStep(table, input, i, isEnd);
    if st.Invalid? {
      DecodeFromFails(table, input, i, room, isEnd, done);
      return Fail, st.span, i', outputI', done';
    } else if st.Truncated? {
      // No trailing byte available and not the end of the input.
      DecodeFromStops(table, input, i, room, isEnd, done);
      return Stop, span, i', outputI', done';
    }
    var encoded := Utf8(st.text);
    if |encoded| > room {
      // Not enough space in the output buffer.
      DecodeFromOverflows(table, input, i, room, isEnd, done, st, encoded);
      return Stop, span, i', outputI', done';
    }
    CopyInto(output, outputI, encoded);
    i' := i + st.count;
    outputI' := outputI + |encoded|;
    done' := done + encoded;
    DecodeFromAdvance(table, input, i, room, isEnd, done, st, encoded, i', output.Length - outputI', done');
    next := Continue;
  }

  /** How the loop body of `decode_to_str` classifies the bytes at
      `input[i]`: an ASCII byte and 0x80 are their own characters; 0xA1..0xDF
      are half-width katakana; 0xA0 and 0xFD..0xFF are invalid leads; a lead
      without a trail waits, or is an error at the end; a trail outside
      0x40..0x7E and 0x80..0xFC is an error, and so is a pointer outside the
      end-user-defined range that the table does not define. An ASCII trail
      is not part of the error range. */
  method ByteStep(table: DecodeTable, input: seq<Byte>, i: nat, isEnd: bool) returns (st: DecodeStep)
    requires i < |input|
    ensures st == DecodeStepAt(table, input, i, isEnd)
  {
    var byte1 := input[i];
    if byte1 <= 127 {
      // Ascii
      return Chars([byte1 as Scalar], 1);
    } else if byte1 == 128 {
      // Edge case, close to ascii.
      return Chars([0x80], 1);
    } else if byte1 >= 0xA1 && byte1 <= 0xDF {
      return Chars([byte1 as int + 0xFF61 - 0xA1], 1);
    } else if (byte1 > 0x9F && byte1 < 0xE0) || byte1 > 0xFC {
      // Error: invalid leading byte.
      return Invalid(1);
    } else if i + 1 < |input| {
      var byte2 := input[i + 1];
      var span := if byte2 <= 127 then 1 else 2;
      if byte2 < 0x40 || byte2 == 0x7F || byte2 > 0xFC {
        // Error: invalid trailing byte.
        return Invalid(span);
      }
      var leadOffset: int := if byte1 < 0xA0 then 0x81 else 0xC1;
      var trailOffset: int := if byte2 < 0x7F then 0x40 else 0x41;
      var jisPtr := (byte1 as int - leadOffset) * 188 + byte2 as int - trailOffset;
      assert jisPtr == ShiftJisIndex.BytesToIndex(byte1, byte2);
      if jisPtr >= 8836 && jisPtr <= 10715 {
        st := Chars([jisPtr + 0xE000 - 8836], 2);
      } else if jisPtr >= |table| || table[jisPtr] == Replacement {
        // Error: correctly formed but undefined code.
        st := Invalid(span);
      } else {
        st := Chars([table[jisPtr]], 2);
      }
    } else if !isEnd {
      // No trailing byte available: wait for more input.
      return Truncated;
    } else {
      return Invalid(1);
    }
  }

  /** A step whose characters fit: the run goes on after it. */
  lemma DecodeFromAdvance(table: DecodeTable, s: seq<Byte>, i: nat, room: nat, isEnd: bool, done: seq<Byte>,
                          st: DecodeStep, encoded: seq<Byte>, i': nat, room': nat, done': seq<Byte>)
    requires i < |s| && 0 < room && st == DecodeStepAt(table, s, i, isEnd) && st.Chars? && encoded == Utf8(st.text)
    requires |encoded| <= room && i' == i + st.count && room' == room - |encoded| && done' == done + encoded
    ensures i' <= |s| && DecodeFrom(table, s, i, room, isEnd, done) == DecodeFrom(table, s, i', room', isEnd, done')
  {
  }

  /** A run stops where the input ends, the output is full, or a lead byte
      waits for its trail. */
  lemma DecodeFromStops(table: DecodeTable, s: seq<Byte>, i: nat, room: nat, isEnd: bool, done: seq<Byte>)
    requires i <= |s|
    requires i == |s| || room == 0 || DecodeStepAt(table, s, i, isEnd) == Truncated
    ensures DecodeFrom(table, s, i, room, isEnd, done) == Run(done, i, None)
  {
  }

  /** A run also stops where the next character's UTF-8 form does not
      fit. */
  lemma DecodeFromOverflows(table: DecodeTable, s: seq<Byte>, i: nat, room: nat, isEnd: bool, done: seq<Byte>,
                            st: DecodeStep, encoded: seq<Byte>)
    requires i < |s| && st == DecodeStepAt(table, s, i, isEnd) && st.Chars? && encoded == Utf8(st.text)
    requires |encoded| > room
    ensures DecodeFrom(table, s, i, room, isEnd, done) == Run(done, i, None)
  {
  }

  /** A run fails at invalid data, even with no room for a character. */
  lemma DecodeFromFails(table: DecodeTable, s: seq<Byte>, i: nat, room: nat, isEnd: bool, done: seq<Byte>)
    requires i < |s| && room > 0 && DecodeStepAt(table, s, i, isEnd).Invalid?
    ensures DecodeFrom(table, s, i, room, isEnd, done) == Run(done, i, Some(DecodeStepAt(table, s, i, isEnd).span))
  {
  }

  /** Where a run stops: within the input, having written within the room
      it has; a failing run stops at invalid data, with room left, and
      reports its error range; a succeeding run has consumed everything,
      or the output is full, or the next character does not fit, or it
      waits for the trail byte of a lead byte at the end of an input that
      is not the end. */
  lemma {:induction false} DecodeFromBounds(table: DecodeTable, s: seq<Byte>, i: nat, room: nat, isEnd: bool, done: seq<Byte>)
    requires i <= |s|
    ensures var r := DecodeFrom(table, s, i, room, isEnd, done);
      && i <= r.width <= |s| && |done| <= |r.out| <= |done| + room
      && (r.failure.Some? ==>
            r.width < |s| && |r.out| < |done| + room &&
            DecodeStepAt(table, s, r.width, isEnd) == Invalid(r.failure.value))
      && (r.failure.None? && r.width < |s| ==>
            || |r.out| == |done| + room
            || (DecodeStepAt(table, s, r.width, isEnd).Chars? &&
                |r.out| + |Utf8(DecodeStepAt(table, s, r.width, isEnd).text)| > |done| + room)
            || DecodeStepAt(table, s, r.width, isEnd) == Truncated)
    decreases |s| - i, 1
  {
    if i == |s| || room == 0 || !DecodeStepAt(table, s, i, isEnd).Chars? || |Utf8(DecodeStepAt(table, s, i, isEnd).text)| > room {
      if i < |s| && room > 0 && DecodeStepAt(table, s, i, isEnd).Invalid? {
        DecodeFromFails(table, s, i, room, isEnd, done);
      } else if i < |s| && room > 0 && DecodeStepAt(table, s, i, isEnd).Chars? {
        var st := DecodeStepAt(table, s, i, isEnd);
        DecodeFromOverflows(table, s, i, room, isEnd, done, st, Utf8(st.text));
      } else {
        DecodeFromStops(table, s, i, room, isEnd, done);
      }
    } else {
      DecodeBoundsAdvance(table, s, i, room, isEnd, done);
    }
  }

  /** `DecodeFromBounds` where the run takes a step at `s[i]`. */
  lemma {:induction false} DecodeBoundsAdvance(table: DecodeTable, s: seq<Byte>, i: nat, room: nat, isEnd: bool, done: seq<Byte>)
    requires i < |s| && 0 < room
    requires DecodeStepAt(table, s, i, isEnd).Chars? && |Utf8(DecodeStepAt(table, s, i, isEnd).text)| <= room
    ensures var r := DecodeFrom(table, s, i, room, isEnd, done);
      && i <= r.width <= |s| && |done| <= |r.out| <= |done| + room
      && (r.failure.Some? ==>
            r.width < |s| && |r.out| < |done| + room &&
            DecodeStepAt(table, s, r.width, isEnd) == Invalid(r.failure.value))
      && (r.failure.None? && r.width < |s| ==>
            || |r.out| == |done| + room
            || (DecodeStepAt(table, s, r.width, isEnd).Chars? &&
                |r.out| + |Utf8(DecodeStepAt(table, s, r.width, isEnd).text)| > |done| + room)
            || DecodeStepAt(table, s, r.width, isEnd) == Truncated)
    decreases |s| - i, 0
  {
    var st := DecodeStepAt(table, s, i, isEnd);
    var i', room', done' := i + st.count, room - |Utf8(st.text)|, done + Utf8(st.text);
    DecodeFromAdvance(table, s, i, room, isEnd, done, st, Utf8(st.text), i', room', done');
    DecodeFromBounds(table, s, i', room', isEnd, done');
  }

  /** The decoder's step at `s[i]` reads at most the byte after it, so in a
      slice that keeps the bytes it reads it is the one-go decoder's step. */
  lemma DecodeStepOfSlice(table: DecodeTable, s: seq<Byte>, i: nat, j: nat, isEnd: bool)
    requires i < j <= |s|
    requires DecodeStepAt(table, s, i, isEnd).Chars?
    requires i + DecodeStepAt(table, s, i, isEnd).count <= j
    ensures DecodeStepAt(table, s[i..j], 0, true) == DecodeStepAt(table, s, i, isEnd)
  {
    var t := s[i..j];
    assert t[0] == s[i];
    if i + 1 < j {
      assert t[1] == s[i + 1];
    }
  }

  /** What a run from `s[i]` produces: the bytes after `done` are the UTF-8
      form of the one-go decoding of the bytes consumed. */
  lemma {:induction false} DecodeFromMeaning(table: DecodeTable, s: seq<Byte>, i: nat, room: nat, isEnd: bool, done: seq<Byte>)
    requires i <= |s|
    ensures var r := DecodeFrom(table, s, i, room, isEnd, done);
      && i <= r.width <= |s|
      && Decoded(table, s[i..r.width]).Some?
      && r.out == done + Utf8(Decoded(table, s[i..r.width]).value)
    decreases |s| - i, 1
  {
    if i == |s| || room == 0 || !DecodeStepAt(table, s, i, isEnd).Chars? || |Utf8(DecodeStepAt(table, s, i, isEnd).text)| > room {
      if i < |s| && room > 0 && DecodeStepAt(table, s, i, isEnd).Invalid? {
        DecodeFromFails(table, s, i, room, isEnd, done);
      } else if i < |s| && room > 0 && DecodeStepAt(table, s, i, isEnd).Chars? {
        var st := DecodeStepAt(table, s, i, isEnd);
        DecodeFromOverflows(table, s, i, room, isEnd, done, st, Utf8(st.text));
      } else {
        DecodeFromStops(table, s, i, room, isEnd, done);
      }
      assert s[i..i] == [];
      assert Decoded(table, s[i..i]) == Some([]);
      assert done + Utf8([]) == done;
    } else {
      DecodeMeaningAdvance(table, s, i, room, isEnd, done);
    }
  }

  /** `DecodeFromMeaning` where the run takes a step at `s[i]`. */
  lemma {:induction false} DecodeMeaningAdvance(table: DecodeTable, s: seq<Byte>, i: nat, room: nat, isEnd: bool, done: seq<Byte>)
    requires i < |s| && 0 < room
    requires DecodeStepAt(table, s, i, isEnd).Chars? && |Utf8(DecodeStepAt(table, s, i, isEnd).text)| <= room
    ensures var r := DecodeFrom(table, s, i, room, isEnd, done);
      && i <= r.width <= |s|
      && Decoded(table, s[i..r.width]).Some?
      && r.out == done + Utf8(Decoded(table, s[i..r.width]).value)
    decreases |s| - i, 0
  {
    var st := DecodeStepAt(table, s, i, isEnd);
    var i', room', done' := i + st.count, room - |Utf8(st.text)|, done + Utf8(st.text);
    DecodeFromAdvance(table, s, i, room, isEnd, done, st, Utf8(st.text), i', room', done');
    DecodeFromMeaning(table, s, i', room', isEnd, done');
    var r1 := DecodeFrom(table, s, i', room', isEnd, done');
    DecodedPrefix(table, s, i, r1.width, isEnd);
    var rest := Decoded(table, s[i'..r1.width]).value;
    Utf8Append(st.text, rest);
    AppendParts(done, Utf8(st.text), Utf8(rest), Utf8(Decoded(table, s[i..r1.width]).value), r1.out);
  }

  /** A step that the decoder takes at `s[i]`, followed by the one-go
      decoding of the rest of a slice up to `j`, is the one-go decoding of
      the slice. */
  lemma DecodedPrefix(table: DecodeTable, s: seq<Byte>, i: nat, j: nat, isEnd: bool)
    requires i < |s| && DecodeStepAt(table, s, i, isEnd).Chars?
    requires i + DecodeStepAt(table, s, i, isEnd).count <= j <= |s|
    requires Decoded(table, s[i + DecodeStepAt(table, s, i, isEnd).count..j]).Some?
    ensures var st := DecodeStepAt(table, s, i, isEnd);
      Decoded(table, s[i..j]) == Some(st.text + Decoded(table, s[i + st.count..j]).value)
  {
    var st := DecodeStepAt(table, s, i, isEnd);
    var u := s[i..j];
    DecodeStepOfSlice(table, s, i, j, isEnd);
    assert u[st.count..] == s[i + st.count..j];
    DecodedCons(table, u, st.text, st.count);
  }

  /** One step of the one-go decoder. */
  lemma DecodedCons(table: DecodeTable, u: seq<Byte>, t: seq<Scalar>, n: nat)
    requires u != [] && DecodeStepAt(table, u, 0, true) == Chars(t, n)
    requires Decoded(table, u[n..]).Some?
    ensures Decoded(table, u) == Some(t + Decoded(table, u[n..]).value)
  {
  }

  /** What a whole call produces (the run from the start). */
  lemma DecodeRunMeaning(table: DecodeTable, s: seq<Byte>, room: nat, isEnd: bool)
    ensures var r := DecodeRun(table, s, room, isEnd);
      && r.width <= |s| && |r.out| <= room
      && Decoded(table, s[..r.width]).Some?
      && r.out == Utf8(Decoded(table, s[..r.width]).value)
      && (r.failure.Some? ==>
            r.width < |s| && |r.out| < room &&
            DecodeStepAt(table, s, r.width, isEnd) == Invalid(r.failure.value))
      && (r.failure.None? && r.width < |s| ==>
            || |r.out| == room
            || (DecodeStepAt(table, s, r.width, isEnd).Chars? &&
                |r.out| + |Utf8(DecodeStepAt(table, s, r.width, isEnd).text)| > room)
            || DecodeStepAt(table, s, r.width, isEnd) == Truncated)
  {
    DecodeFromMeaning(table, s, 0, room, isEnd, []);
    DecodeFromBounds(table, s, 0, room, isEnd, []);
    var r := DecodeRun(table, s, room, isEnd);
    assert s[0..r.width] == s[..r.width];
  }

  /** From `s[i]` on, as the end of the input and with room for all of it,
      valid input is decoded completely. */
  lemma {:induction false} DecodeFromComplete(table: DecodeTable, s: seq<Byte>, i: nat, room: nat, done: seq<Byte>)
    requires i <= |s|
    requires Decoded(table, s[i..]).Some? && |Utf8(Decoded(table, s[i..]).value)| <= room
    ensures DecodeFrom(table, s, i, room, true, done) == Run(done + Utf8(Decoded(table, s[i..]).value), |s|, None)
    decreases |s| - i
  {
    if i == |s| {
      assert s[i..] == [];
      assert Decoded(table, s[i..]) == Some([]);
      assert done + Utf8([]) == done;
      DecodeFromStops(table, s, i, room, true, done);
    } else {
      var st := DecodeStepAt(table, s, i, true);
      DecodeCompleteStep(table, s, i);
      var text, rest := Decoded(table, s[i..]).value, Decoded(table, s[i + st.count..]).value;
      var encoded := Utf8(st.text);
      Utf8Fits(st.text, rest, text, room);
      var i', room', done' := i + st.count, room - |encoded|, done + encoded;
      assert DecodeFrom(table, s, i, room, true, done) == Run(done' + Utf8(rest), |s|, None) by {
        DecodeFromAdvance(table, s, i, room, true, done, st, encoded, i', room', done');
        DecodeFromComplete(table, s, i', room', done');
      }
      AppendParts(done, encoded, Utf8(rest), Utf8(text), done' + Utf8(rest));
    }
  }

  /** Where the UTF-8 form of `t + rest` fits, that of `t` does, and that
      of `rest` fits in what is left. */
  lemma Utf8Fits(t: seq<Scalar>, rest: seq<Scalar>, text: seq<Scalar>, room: nat)
    requires text == t + rest && |Utf8(text)| <= room
    ensures Utf8(text) == Utf8(t) + Utf8(rest)
    ensures |Utf8(t)| <= room && |Utf8(rest)| <= room - |Utf8(t)|
  {
    Utf8Append(t, rest);
  }

  /** Valid input `s[i..]` starts with a step giving characters, and its
      rest is valid too. */
  lemma DecodeCompleteStep(table: DecodeTable, s: seq<Byte>, i: nat)
    requires i < |s| && Decoded(table, s[i..]).Some?
    ensures var st := DecodeStepAt(table, s, i, true);
      && st.Chars? && Decoded(table, s[i + st.count..]).Some?
      && Decoded(table, s[i..]).value == st.text + Decoded(table, s[i + st.count..]).value
  {
    var u := s[i..];
    var st := DecodeStepAt(table, u, 0, true);
    assert st.Chars?;
    DecodeStepOfSlice(table, s, i, |s|, true);
    assert s[i..|s|] == u;
    assert u[st.count..] == s[i + st.count..];
  }

  /** As the end of the input and with room for all of it, valid input is
      decoded completely. */
  lemma DecodeRunComplete(table: DecodeTable, s: seq<Byte>, room: nat)
    requires Decoded(table, s).Some? && |Utf8(Decoded(table, s).value)| <= room
    ensures DecodeRun(table, s, room, true) == Run(Utf8(Decoded(table, s).value), |s|, None)
  {
    assert s[0..] == s;
    DecodeFromComplete(table, s, 0, room, []);
  }

  // ---------------------------------------------------------------------
  // Encoding, then decoding

  /** The character a character comes back as after encoding and decoding:
      U+00A5 YEN SIGN and U+203E OVERLINE are written as the bytes of
      U+005C and U+007E, and U+2212 as the bytes of U+FF0D. */
  function Canonical(c: Scalar): Scalar {
    if c == 0xA5 then 0x5C
    else if c == 0x203E then 0x7E
    else TableKey(c)
  }

  /** `Canonical` applied to every character of a string. */
  function CanonicalText(s: seq<Scalar>): (t: seq<Scalar>)
    ensures |t| == |s|
  {
    if s == [] then [] else [Canonical(s[0])] + CanonicalText(s[1..])
  }

  /** Only U+00A5, U+203E and U+2212 change: a string without them is its
      own canonical form, and a canonical form is its own. */
  lemma {:induction false} CanonicalTextSpec(s: seq<Scalar>)
    ensures (forall k :: 0 <= k < |s| ==> s[k] != 0xA5 && s[k] != 0x203E && s[k] != 0x2212) <==> CanonicalText(s) == s
    ensures CanonicalText(CanonicalText(s)) == CanonicalText(s)
  {
    if s != [] {
      CanonicalTextSpec(s[1..]);
      var t := CanonicalText(s);
      assert t[0] == Canonical(s[0]) && t[1..] == CanonicalText(s[1..]);
      if CanonicalText(s) == s {
        forall k | 0 <= k < |s|
          ensures s[k] != 0xA5 && s[k] != 0x203E && s[k] != 0x2212
        {
          if k > 0 {
            assert s[1..][k - 1] == s[k];
          }
        }
      }
      if forall k :: 0 <= k < |s| ==> s[k] != 0xA5 && s[k] != 0x203E && s[k] != 0x2212 {
        assert forall k :: 0 <= k < |s[1..]| ==> s[1..][k] == s[k + 1];
        assert s == [s[0]] + s[1..];
      }
    }
  }

  /** An encode table entry that the decode table reads back: its bytes are
      a lead and trail byte whose pointer decodes to the entry's
      character. */
  predicate EntryDecodes(dec: DecodeTable, e: (Scalar, (Byte, Byte))) {
    && (0x81 <= e.1.0 <= 0x9F || 0xE0 <= e.1.0 <= 0xFC) && ShiftJisIndex.IsTrail(e.1.1)
    && PointerChar(dec, ShiftJisIndex.BytesToIndex(e.1.0, e.1.1)) == Some(e.0)
  }

  /** Tables that agree: every encode entry decodes back. */
  predicate Consistent(enc: EncodeTable, dec: DecodeTable) {
    forall j :: 0 <= j < |enc| ==> EntryDecodes(dec, enc[j])
  }

  /** The bytes of an encodable character decode, as the start of any
      longer input, to its canonical form. */
  lemma StepRoundTrip(enc: EncodeTable, dec: DecodeTable, c: Scalar, rest: seq<Byte>)
    requires Consistent(enc, dec) && EncodeChar(enc, c).Emit?
    ensures var b := EncodeChar(enc, c).bytes;
      DecodeStepAt(dec, b + rest, 0, true) == Chars([Canonical(c)], |b|)
  {
    var b := EncodeChar(enc, c).bytes;
    var u := b + rest;
    assert u[0] == b[0];
    if IsSingleByteChar(c) {
    } else if IsEudcChar(c) {
      ShiftJisIndex.EudcRoundTrip(c);
      assert u[1] == b[1];
    } else {
      KeyLookupSpec(enc, TableKey(c));
      var j :| 0 <= j < |enc| && enc[j] == (TableKey(c), KeyLookup(enc, TableKey(c)).value);
      assert EntryDecodes(dec, enc[j]);
      assert u[1] == b[1];
    }
  }

  /** With tables that agree, whatever the encoder produces decodes back to
      the canonical form of the text it came from, which is the text itself
      when it holds none of U+00A5, U+203E and U+2212. */
  lemma {:induction false} RoundTrip(enc: EncodeTable, dec: DecodeTable, s: seq<Scalar>)
    requires Consistent(enc, dec) && Encoded(enc, s).Some?
    ensures Decoded(dec, Encoded(enc, s).value) == Some(CanonicalText(s))
    decreases |s|
  {
    if s != [] {
      var b := EncodeChar(enc, s[0]).bytes;
      assert Encoded(enc, s[1..]).Some?;
      var rest := Encoded(enc, s[1..]).value;
      var u := b + rest;
      assert Encoded(enc, s).value == u;
      assert Decoded(dec, u) == Some([Canonical(s[0])] + CanonicalText(s[1..])) by {
        RoundTrip(enc, dec, s[1..]);
        StepRoundTrip(enc, dec, s[0], rest);
        assert u[|b|..] == rest;
        DecodedCons(dec, u, [Canonical(s[0])], |b|);
      }
    }
  }

  /** The streaming round trip: with tables that agree and buffers large
      enough, a call to the encoder consumes all of an encodable text, and
      a call to the decoder on its output gives back the UTF-8 form of the
      text's canonical form. */
  lemma StreamRoundTrip(enc: EncodeTable, dec: DecodeTable, s: seq<Scalar>, encodeRoom: nat, decodeRoom: nat)
    requires Consistent(enc, dec) && Encoded(enc, s).Some?
    requires |Encoded(enc, s).value| <= encodeRoom && |Utf8(CanonicalText(s))| <= decodeRoom
    ensures var b := EncodeRun(enc, s, encodeRoom).out;
      && EncodeRun(enc, s, encodeRoom) == CharRun(b, |s|, |Utf8(s)|, None)
      && DecodeRun(dec, b, decodeRoom, true) == Run(Utf8(CanonicalText(s)), |b|, None)
  {
    EncodeRunComplete(enc, s, encodeRoom);
    RoundTrip(enc, dec, s);
    DecodeRunComplete(dec, Encoded(enc, s).value, decodeRoom);
  }
}
