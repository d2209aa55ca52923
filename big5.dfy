/** The WHATWG variant of Big5 (`big5_whatwg`): `encode_from_str`,
    `map_grapheme` and `decode_to_str`. The generated `ENCODE_TABLE` and
    `DECODE_TABLE` are parameters. A character is one byte when it is
    ASCII and otherwise two bytes, a lead in 0x81..0xFE and a trail in
    0x40..0x7E or 0xA1..0xFE, whose pointer (section 5 of the WHATWG
    Encoding Standard) indexes the decode table. Four pointers the table
    leaves undefined decode to a base character followed by a combining
    mark, and the encoder turns those pairs back into them. */
module Big5 {
  import opened Wrappers
  import opened Text
  import opened Results
  import opened Stream
  import opened Lookup
  import Big5Index

  /** `ENCODE_TABLE: [(char, [u8; 2]); N]`, sorted by code point. */
  type EncodeTable = seq<(Scalar, (Byte, Byte))>

  /** `DECODE_TABLE: [char; N]`: the character of each pointer, U+FFFD where
      the pointer is undefined. */
  type DecodeTable = seq<Scalar>

  /** `map_grapheme`: the bytes of a base character followed by a combining
      mark. */
  function MapGrapheme(a: int, b: int): Option<(Byte, Byte)> {
    if a == 0xCA && b == 0x304 then Some((0x88, 0x62))
    else if a == 0xCA && b == 0x30C then Some((0x88, 0x64))
    else if a == 0xEA && b == 0x304 then Some((0x88, 0xA3))
    else if a == 0xEA && b == 0x30C then Some((0x88, 0xA5))
    else None
  }

  /** The pairs `map_grapheme` knows are exactly the four grapheme pointers'
      pairs, and their bytes are those pointers' bytes. */
  lemma MapGraphemeSpec(a: int, b: int)
    ensures MapGrapheme(a, b).Some? <==> exists k :: 0 <= k < 4 && Big5Index.Graphemes[k].1 == (a, b)
    ensures forall k :: 0 <= k < 4 && Big5Index.Graphemes[k].1 == (a, b) ==>
      MapGrapheme(a, b) == Some(Big5Index.IndexToBytes(Big5Index.Graphemes[k].0))
  {
    if MapGrapheme(a, b).Some? {
      var k := if a == 0xCA then (if b == 0x304 then 0 else 1) else (if b == 0x304 then 2 else 3);
      assert Big5Index.Graphemes[k].1 == (a, b);
    }
  }

  // ---------------------------------------------------------------------
  // Encoding

  /** What the encoder makes of the characters at `s[k]`, before looking at
      the room left: some bytes for the next one or two characters, an
      unencodable character, or (for U+00CA or U+00EA as the last character
      of an input that is not the end) a wait for more input. */
  datatype EncodeStep = Emit(bytes: seq<Byte>, count: nat) | Unmappable | Wait

  function EncodeStepAt(table: EncodeTable, s: seq<Scalar>, k: nat, isEnd: bool): (st: EncodeStep)
    requires k < |s|
    ensures st.Emit? ==> 1 <= st.count <= |s| - k && 1 <= |st.bytes| <= 2
  {
    var c := s[k];
    if c <= 127 then Emit([c as Byte], 1)
    else match KeyLookup(table, c)
      case None => Unmappable
      case Some(b) =>
        if k + 1 < |s| && MapGrapheme(c, s[k + 1]).Some? then
          var g := MapGrapheme(c, s[k + 1]).value;
          Emit([g.0, g.1], 2)
        else if (c == 0xCA || c == 0xEA) && k + 1 == |s| && !isEnd then Wait
        else Emit([b.0, b.1], 1)
  }

  /** A whole string encoded in one go, as the end of the input; `None` if
      any character is unencodable. */
  function Encoded(table: EncodeTable, s: seq<Scalar>): Option<seq<Byte>>
    decreases |s|, 1
  {
    if s == [] then Some([]) else EncodedAfter(table, s, EncodeStepAt(table, s, 0, true))
  }

  /** The rest of `Encoded` once the first characters are classified. */
  function EncodedAfter(table: EncodeTable, s: seq<Scalar>, st: EncodeStep): Option<seq<Byte>>
    requires 0 < |s| && st == EncodeStepAt(table, s, 0, true)
    decreases |s|, 0
  {
    match st
    case Emit(b, n) =>
      (match Encoded(table, s[n..])
       case Some(rest) => Some(b + rest)
       case None => None)
    case _ => None
  }

  /** What `encode_from_str` does from `s[k]` on, at byte offset `offset`,
      with `room` bytes of output left and `done` written so far: it stops
      when the output is full or the next character's bytes do not fit,
      and fails on an unencodable character even with one byte of room. */
  function EncodeFrom(table: EncodeTable, s: seq<Scalar>, k: nat, offset: nat, room: nat, isEnd: bool, done: seq<Byte>): CharRun
    requires k <= |s|
    decreases |s| - k, 1
  {
    if k == |s| || room == 0 then CharRun(done, k, offset, None)
    else EncodeAfter(table, s, k, offset, room, isEnd, done, EncodeStepAt(table, s, k, isEnd))
  }

  /** The rest of `EncodeFrom` once the characters at `s[k]` are classified. */
  function EncodeAfter(table: EncodeTable, s: seq<Scalar>, k: nat, offset: nat, room: nat, isEnd: bool, done: seq<Byte>,
                       st: EncodeStep): CharRun
    requires k < |s| && st == EncodeStepAt(table, s, k, isEnd)
    decreases |s| - k, 0
  {
    match st
    case Unmappable => CharRun(done, k, offset, Some(Utf8Len(s[k])))
    case Wait => CharRun(done, k, offset, None)
    case Emit(b, n) =>
      if |b| > room then CharRun(done, k, offset, None)
      else EncodeFrom(table, s, k + n, offset + CharsWidth(s, k, n), room - |b|, isEnd, done + b)
  }

  /** The bytes of UTF-8 input that `n` characters from `s[k]` take up:
      the encoder sets `input_i` one past the last one's offset and rounds
      it up to the next character boundary. */
  function CharsWidth(s: seq<Scalar>, k: nat, n: nat): nat
    requires 1 <= n <= 2 && k + n <= |s|
  {
    Utf8Len(s[k]) + (if n == 2 then Utf8Len(s[k + 1]) else 0)
  }

  /** What a call does with an output buffer of `room` bytes. */
  function EncodeRun(table: EncodeTable, s: seq<Scalar>, room: nat, isEnd: bool): CharRun {
    EncodeFrom(table, s, 0, 0, room, isEnd, [])
  }

  /** `encode_from_str`: encodes `input` into `output` until the input
      ends, the output is full, or a character cannot be encoded. */
  method EncodeFromStr(table: EncodeTable, input: seq<Scalar>, output: array<Byte>, isEnd: bool) returns (r: EncodeResult)
    requires SortedByKey(table)
    modifies output
    ensures var run := EncodeRun(table, input, output.Length, isEnd);
      && (run.failure.Some? ==> run.chars < |input|)
      && |run.out| <= output.Length
      && output[..|run.out|] == run.out
      && (forall j :: |run.out| <= j < output.Length ==> output[j] == old(output[j]))
      && r == EncodeResultOf(input, run)
  {
    ghost var whole := EncodeRun(table, input, output.Length, isEnd);
    var k := 0;            // position in `char_indices`
    var offset: nat := 0;  // byte offset of `input[k]`
    var outputI := 0;
    ghost var done: seq<Byte> := [];
    while k < |input|
      invariant 0 <= k <= |input| && 0 <= outputI <= output.Length
      invariant output[..outputI] == done
      invariant whole == EncodeFrom(table, input, k, offset, output.Length - outputI, isEnd, done)
      invariant forall j :: outputI <= j < output.Length ==> output[j] == old(output[j])
    {
      var next;
      next, k, offset, outputI, done := EncodeNext(table, input, output, k, offset, outputI, isEnd, done, whole);
      if next == Fail {
        r := EncodeErr(EncodeError(input[k], (offset, offset + Utf8Len(input[k])), outputI));
        return;
      } else if next == Stop {
        break;
      }
    }
    if k == |input| {
      EncodeFromStops(table, input, k, offset, output.Length - outputI, isEnd, done);
    }
    r := EncodeOk(output[..outputI], offset);
  }

  /** One pass of the loop body of `encode_from_str`, at `input[k]` with
      `outputI` bytes written: it breaks when the output is full, the next
      bytes do not fit or it waits for the next character; it fails at an
      unencodable character; otherwise it writes the bytes and moves on.
      Either way the run from the new state is the same run. */
  method EncodeNext(table: EncodeTable, input: seq<Scalar>, output: array<Byte>, k: nat, offset: nat, outputI: nat, isEnd: bool,
                    ghost done: seq<Byte>, ghost whole: CharRun)
    returns (next: Next, k': nat, offset': nat, outputI': nat, ghost done': seq<Byte>)
    requires SortedByKey(table) && k < |input| && outputI <= output.Length
    requires output[..outputI] == done
    requires whole == EncodeFrom(table, input, k, offset, output.Length - outputI, isEnd, done)
    modifies output
    ensures k <= k' <= |input| && outputI <= outputI' <= output.Length
    ensures output[..outputI'] == done'
    ensures forall j :: outputI' <= j < output.Length ==> output[j] == old(output[j])
    ensures next == Continue ==> k < k' && whole == EncodeFrom(table, input, k', offset', output.Length - outputI', isEnd, done')
    ensures next == Stop ==> whole == CharRun(done', k', offset', None)
    ensures next == Fail ==> k' < |input| && whole == CharRun(done', k', offset', Some(Utf8Len(input[k'])))
  {
    k', offset', outputI', done' := k, offset, outputI, done;
    var room := output.Length - outputI;
    if room == 0 {
      EncodeFromStops(table, input, k, offset, room, isEnd, done);
      return Stop, k', offset', outputI', done';
    }
    var st := CharStep(table, input, k, isEnd);
    if st.Unmappable? {
      EncodeFromFails(table, input, k, offset, room, isEnd, done);
      return Fail, k', offset', outputI', done';
    } else if st.Wait? || |st.bytes| > room {
      EncodeFromStops(table, input, k, offset, room, isEnd, done);
      return Stop, k', offset', outputI', done';
    }
    CopyInto(output, outputI, st.bytes);
    outputI' := outputI + |st.bytes|;
    offset' := offset + CharsWidth(input, k, st.count);
    k' := k + st.count;
    done' := done + st.bytes;
    EncodeFromAdvance(table, input, k, offset, room, isEnd, done, st, k', offset', output.Length - outputI', done');
    next := Continue;
  }

  /** A step whose bytes fit: the run goes on after it. */
  lemma EncodeFromAdvance(table: EncodeTable, s: seq<Scalar>, k: nat, offset: nat, room: nat, isEnd: bool, done: seq<Byte>,
                          st: EncodeStep, k': nat, offset': nat, room': nat, done': seq<Byte>)
    requires k < |s| && 0 < room && st == EncodeStepAt(table, s, k, isEnd) && st.Emit? && |st.bytes| <= room
    requires k' == k + st.count && offset' == offset + CharsWidth(s, k, st.count)
    requires room' == room - |st.bytes| && done' == done + st.bytes
    ensures k' <= |s| && EncodeFrom(table, s, k, offset, room, isEnd, done) == EncodeFrom(table, s, k', offset', room', isEnd, done')
  {
  }

  /** A run stops where the input ends, the output is full, or the step
      waits or its bytes do not fit. */
  lemma EncodeFromStops(table: EncodeTable, s: seq<Scalar>, k: nat, offset: nat, room: nat, isEnd: bool, done: seq<Byte>)
    requires k <= |s|
    requires k == |s| || room == 0 || EncodeStepAt(table, s, k, isEnd) == Wait ||
             (EncodeStepAt(table, s, k, isEnd).Emit? && |EncodeStepAt(table, s, k, isEnd).bytes| > room)
    ensures EncodeFrom(table, s, k, offset, room, isEnd, done) == CharRun(done, k, offset, None)
  {
  }

  /** A run fails at an unencodable character, even with one byte of
      room. */
  lemma EncodeFromFails(table: EncodeTable, s: seq<Scalar>, k: nat, offset: nat, room: nat, isEnd: bool, done: seq<Byte>)
    requires k < |s| && room > 0 && EncodeStepAt(table, s, k, isEnd) == Unmappable
    ensures EncodeFrom(table, s, k, offset, room, isEnd, done) == CharRun(done, k, offset, Some(Utf8Len(s[k])))
  {
  }

  /** How the loop body of `encode_from_str` classifies `input[k]`: an
      ASCII character is its own byte; any other is looked up with
      `binary_search_by_key` in the table, then U+00CA and U+00EA try
      `map_grapheme` with the next character (and wait when there is none
      and the input is not the end), and otherwise the table's bytes are
      taken. */
  method CharStep(table: EncodeTable, input: seq<Scalar>, k: nat, isEnd: bool) returns (st: EncodeStep)
    requires SortedByKey(table) && k < |input|
    ensures st == EncodeStepAt(table, input, k, isEnd)
  {
    var c := input[k];
    if c <= 127 {
      // Ascii
      return Emit([c], 1);
    }
    var found := BinarySearchByKey(table, c);
    if found.None? {
      return Unmappable;
    }
    // Handle graphemes.
    if c == 0xCA || c == 0xEA {
      if k + 1 < |input| {
        var g := MapGrapheme(c, input[k + 1]);
        if g.Some? {
          return Emit([g.value.0, g.value.1], 2);
        }
      } else if !isEnd {
        return Wait;
      }
    }
    // Common case, fetch from table.
    var bytes := table[found.value].1;
    st := Emit([bytes.0, bytes.1], 1);
  }

  /** Where a run stops: within the input, having written within the room
      it has; a failing run stops at an unencodable character with room
      left and reports that character's UTF-8 length; a succeeding run has
      consumed everything, or the output is full, or the next bytes do not
      fit, or it waits after U+00CA or U+00EA at the end of an input that
      is not the end. */
  lemma {:induction false} EncodeFromBounds(table: EncodeTable, s: seq<Scalar>, k: nat, offset: nat, room: nat, isEnd: bool, done: seq<Byte>)
    requires k <= |s|
    ensures var r := EncodeFrom(table, s, k, offset, room, isEnd, done);
      && k <= r.chars <= |s| && |done| <= |r.out| <= |done| + room
      && (r.failure.Some? ==>
            && r.chars < |s| && |r.out| < |done| + room
            && EncodeStepAt(table, s, r.chars, isEnd) == Unmappable
            && r.failure == Some(Utf8Len(s[r.chars])))
      && (r.failure.None? && r.chars < |s| ==>
            || |r.out| == |done| + room
            || (EncodeStepAt(table, s, r.chars, isEnd).Emit? &&
                |r.out| + |EncodeStepAt(table, s, r.chars, isEnd).bytes| > |done| + room)
            || EncodeStepAt(table, s, r.chars, isEnd) == Wait)
    decreases |s| - k, 1
  {
    if k == |s| || room == 0 || !EncodeStepAt(table, s, k, isEnd).Emit? || |EncodeStepAt(table, s, k, isEnd).bytes| > room {
      if k < |s| && room > 0 && EncodeStepAt(table, s, k, isEnd) == Unmappable {
        EncodeFromFails(table, s, k, offset, room, isEnd, done);
      } else {
        EncodeFromStops(table, s, k, offset, room, isEnd, done);
      }
    } else {
      BoundsAdvance(table, s, k, offset, room, isEnd, done);
    }
  }

  /** `EncodeFromBounds` where the run takes a step at `s[k]`. */
  lemma {:induction false} BoundsAdvance(table: EncodeTable, s: seq<Scalar>, k: nat, offset: nat, room: nat, isEnd: bool, done: seq<Byte>)
    requires k < |s| && 0 < room
    requires EncodeStepAt(table, s, k, isEnd).Emit? && |EncodeStepAt(table, s, k, isEnd).bytes| <= room
    ensures var r := EncodeFrom(table, s, k, offset, room, isEnd, done);
      && k <= r.chars <= |s| && |done| <= |r.out| <= |done| + room
      && (r.failure.Some? ==>
            && r.chars < |s| && |r.out| < |done| + room
            && EncodeStepAt(table, s, r.chars, isEnd) == Unmappable
            && r.failure == Some(Utf8Len(s[r.chars])))
      && (r.failure.None? && r.chars < |s| ==>
            || |r.out| == |done| + room
            || (EncodeStepAt(table, s, r.chars, isEnd).Emit? &&
                |r.out| + |EncodeStepAt(table, s, r.chars, isEnd).bytes| > |done| + room)
            || EncodeStepAt(table, s, r.chars, isEnd) == Wait)
    decreases |s| - k, 0
  {
    var st := EncodeStepAt(table, s, k, isEnd);
    var k', offset', room', done' := k + st.count, offset + CharsWidth(s, k, st.count), room - |st.bytes|, done + st.bytes;
    EncodeFromAdvance(table, s, k, offset, room, isEnd, done, st, k', offset', room', done');
    EncodeFromBounds(table, s, k', offset', room', isEnd, done');
  }

  /** The encoder cannot encode a character exactly when it is above
      U+007F and the table has no entry for it. */
  lemma UnmappableSpec(table: EncodeTable, s: seq<Scalar>, k: nat, isEnd: bool)
    requires k < |s|
    ensures EncodeStepAt(table, s, k, isEnd) == Unmappable <==> s[k] > 127 && KeyLookup(table, s[k]).None?
  {
  }

  /** The encoder's step at `s[k]` looks no further than the character after
      it, so within a slice that keeps both it is the one-go encoder's
      step, whatever `isEnd` says, unless it waits. */
  lemma StepOfSlice(table: EncodeTable, s: seq<Scalar>, k: nat, j: nat, isEnd: bool)
    requires k < j <= |s|
    requires EncodeStepAt(table, s, k, isEnd).Emit?
    requires k + EncodeStepAt(table, s, k, isEnd).count <= j
    ensures EncodeStepAt(table, s[k..j], 0, true) == EncodeStepAt(table, s, k, isEnd)
  {
    var t := s[k..j];
    assert t[0] == s[k];
    if k + 1 < j {
      assert t[1] == s[k + 1];
    }
  }

  /** What a run from `s[k]` produces: the bytes after `done` are the
      one-go encoding of the characters consumed, and the offset moves
      past their UTF-8 form. */
  lemma {:induction false} EncodeFromMeaning(table: EncodeTable, s: seq<Scalar>, k: nat, offset: nat, room: nat, isEnd: bool, done: seq<Byte>)
    requires k <= |s|
    ensures var r := EncodeFrom(table, s, k, offset, room, isEnd, done);
      && k <= r.chars <= |s|
      && Encoded(table, s[k..r.chars]).Some?
      && r.out == done + Encoded(table, s[k..r.chars]).value
      && r.offset == offset + Utf8Span(s, k, r.chars)
    decreases |s| - k, 1
  {
    if k == |s| || room == 0 || !EncodeStepAt(table, s, k, isEnd).Emit? || |EncodeStepAt(table, s, k, isEnd).bytes| > room {
      if k < |s| && room > 0 && EncodeStepAt(table, s, k, isEnd) == Unmappable {
        EncodeFromFails(table, s, k, offset, room, isEnd, done);
      } else {
        EncodeFromStops(table, s, k, offset, room, isEnd, done);
      }
      assert s[k..k] == [];
      assert Encoded(table, s[k..k]) == Some([]);
      assert done + [] == done;
    } else {
      MeaningAdvance(table, s, k, offset, room, isEnd, done);
    }
  }

  /** `EncodeFromMeaning` where the run takes a step at `s[k]`. */
  lemma {:induction false} MeaningAdvance(table: EncodeTable, s: seq<Scalar>, k: nat, offset: nat, room: nat, isEnd: bool, done: seq<Byte>)
    requires k < |s| && 0 < room
    requires EncodeStepAt(table, s, k, isEnd).Emit? && |EncodeStepAt(table, s, k, isEnd).bytes| <= room
    ensures var r := EncodeFrom(table, s, k, offset, room, isEnd, done);
      && k <= r.chars <= |s|
      && Encoded(table, s[k..r.chars]).Some?
      && r.out == done + Encoded(table, s[k..r.chars]).value
      && r.offset == offset + Utf8Span(s, k, r.chars)
    decreases |s| - k, 0
  {
    var st := EncodeStepAt(table, s, k, isEnd);
    var k', offset', room', done' := k + st.count, offset + CharsWidth(s, k, st.count), room - |st.bytes|, done + st.bytes;
    EncodeFromAdvance(table, s, k, offset, room, isEnd, done, st, k', offset', room', done');
    EncodeFromMeaning(table, s, k', offset', room', isEnd, done');
    var r1 := EncodeFrom(table, s, k', offset', room', isEnd, done');
    EncodedPrefix(table, s, k, r1.chars, isEnd);
    MeaningCombine(s, k, st.count, r1.chars, offset, done, st.bytes, Encoded(table, s[k'..r1.chars]).value, Encoded(table, s[k..r1.chars]).value, r1);
  }

  /** A step that the encoder takes at `s[k]`, followed by the one-go
      encoding of the rest of a slice up to `j`, is the one-go encoding of
      the slice. */
  lemma EncodedPrefix(table: EncodeTable, s: seq<Scalar>, k: nat, j: nat, isEnd: bool)
    requires k < |s| && EncodeStepAt(table, s, k, isEnd).Emit?
    requires k + EncodeStepAt(table, s, k, isEnd).count <= j <= |s|
    requires Encoded(table, s[k + EncodeStepAt(table, s, k, isEnd).count..j]).Some?
    ensures var st := EncodeStepAt(table, s, k, isEnd);
      Encoded(table, s[k..j]) == Some(st.bytes + Encoded(table, s[k + st.count..j]).value)
  {
    var st := EncodeStepAt(table, s, k, isEnd);
    var t := s[k..j];
    StepOfSlice(table, s, k, j, isEnd);
    assert t[st.count..] == s[k + st.count..j];
    EncodedCons(table, t, st.bytes, st.count);
  }

  /** The inductive step of `EncodeFromMeaning`: a step of `n` characters
      and bytes `b`, then a run whose output adds `e`. */
  lemma MeaningCombine(s: seq<Scalar>, k: nat, n: nat, j: nat, offset: nat, done: seq<Byte>, b: seq<Byte>, e: seq<Byte>, whole: seq<Byte>, r: CharRun)
    requires 1 <= n <= 2 && k + n <= j <= |s| && whole == b + e
    requires r.chars == j && r.out == (done + b) + e && r.offset == offset + CharsWidth(s, k, n) + Utf8Span(s, k + n, j)
    ensures r.out == done + whole && r.offset == offset + Utf8Span(s, k, j)
  {
    SpanStep(s, k, n, j);
    assert (done + b) + e == done + (b + e);
  }

  /** The UTF-8 length of a slice is that of its first `n` characters plus
      that of the rest. */
  lemma SpanStep(s: seq<Scalar>, k: nat, n: nat, j: nat)
    requires 1 <= n <= 2 && k + n <= j <= |s|
    ensures Utf8Span(s, k, j) == CharsWidth(s, k, n) + Utf8Span(s, k + n, j)
  {
  }

  /** One step of the one-go encoder. */
  lemma EncodedCons(table: EncodeTable, t: seq<Scalar>, b: seq<Byte>, n: nat)
    requires t != [] && EncodeStepAt(table, t, 0, true) == Emit(b, n)
    requires Encoded(table, t[n..]).Some?
    ensures Encoded(table, t) == Some(b + Encoded(table, t[n..]).value)
  {
  }

  /** What a whole call produces: the bytes written are the one-go encoding
      of the characters consumed and the consumed count is the length of
      their UTF-8 form; a failing call stops at a character above U+007F
      that the table lacks, with room left, and reports its UTF-8 length; a
      succeeding call has consumed everything, or the output is full, or
      the next bytes do not fit, or it waits after U+00CA or U+00EA at the
      end of an input that is not the end. */
  lemma EncodeRunMeaning(table: EncodeTable, s: seq<Scalar>, room: nat, isEnd: bool)
    ensures var r := EncodeRun(table, s, room, isEnd);
      && r.chars <= |s| && |r.out| <= room
      && Encoded(table, s[..r.chars]) == Some(r.out)
      && r.offset == |Utf8(s[..r.chars])|
      && (r.failure.Some? ==>
            && r.chars < |s| && |r.out| < room
            && s[r.chars] > 127 && KeyLookup(table, s[r.chars]).None?
            && r.failure == Some(Utf8Len(s[r.chars])))
      && (r.failure.None? && r.chars < |s| ==>
            || |r.out| == room
            || (EncodeStepAt(table, s, r.chars, isEnd).Emit? &&
                |r.out| + |EncodeStepAt(table, s, r.chars, isEnd).bytes| > room)
            || EncodeStepAt(table, s, r.chars, isEnd) == Wait)
  {
    EncodeFromMeaning(table, s, 0, 0, room, isEnd, []);
    EncodeFromBounds(table, s, 0, 0, room, isEnd, []);
    var r := EncodeRun(table, s, room, isEnd);
    assert s[0..r.chars] == s[..r.chars];
    Utf8SpanLength(s, 0, r.chars);
    var e := Encoded(table, s[..r.chars]);
    assert e.Some? && [] + e.value == e.value;
    if r.failure.Some? {
      UnmappableSpec(table, s, r.chars, isEnd);
    }
  }

  /** From `s[k]` on, as the end of the input and with room for all of it,
      an encodable rest is encoded completely. */
  lemma {:induction false} EncodeFromComplete(table: EncodeTable, s: seq<Scalar>, k: nat, offset: nat, room: nat, done: seq<Byte>)
    requires k <= |s|
    requires Encoded(table, s[k..]).Some? && |Encoded(table, s[k..]).value| <= room
    ensures EncodeFrom(table, s, k, offset, room, true, done) ==
            CharRun(done + Encoded(table, s[k..]).value, |s|, offset + Utf8Span(s, k, |s|), None)
    decreases |s| - k
  {
    if k == |s| {
      assert s[k..] == [];
      assert Encoded(table, s[k..]) == Some([]);
      assert done + [] == done;
      assert Utf8Span(s, k, |s|) == 0;
    } else {
      var st := EncodeStepAt(table, s, k, true);
      CompleteStep(table, s, k);
      var k', offset', room', done' := k + st.count, offset + CharsWidth(s, k, st.count), room - |st.bytes|, done + st.bytes;
      EncodeFromAdvance(table, s, k, offset, room, true, done, st, k', offset', room', done');
      EncodeFromComplete(table, s, k', offset', room', done');
      CompleteCombine(s, k, st.count, offset, done, st.bytes, Encoded(table, s[k'..]).value, Encoded(table, s[k..]).value,
                      EncodeFrom(table, s, k', offset', room', true, done'));
    }
  }

  /** The inductive step of `EncodeFromComplete`: a step of `n`
      characters and bytes `b`, then the rest encoded as `e`. */
  lemma CompleteCombine(s: seq<Scalar>, k: nat, n: nat, offset: nat, done: seq<Byte>, b: seq<Byte>, e: seq<Byte>, whole: seq<Byte>, r: CharRun)
    requires 1 <= n <= 2 && k + n <= |s| && whole == b + e
    requires r == CharRun((done + b) + e, |s|, offset + CharsWidth(s, k, n) + Utf8Span(s, k + n, |s|), None)
    ensures r == CharRun(done + whole, |s|, offset + Utf8Span(s, k, |s|), None)
  {
    SpanStep(s, k, n, |s|);
    assert (done + b) + e == done + (b + e);
  }

  /** An encodable rest `s[k..]` starts with an emitting step whose own
      rest is encodable too. */
  lemma CompleteStep(table: EncodeTable, s: seq<Scalar>, k: nat)
    requires k < |s| && Encoded(table, s[k..]).Some?
    ensures var st := EncodeStepAt(table, s, k, true);
      && st.Emit? && Encoded(table, s[k + st.count..]).Some?
      && Encoded(table, s[k..]).value == st.bytes + Encoded(table, s[k + st.count..]).value
  {
    var t := s[k..];
    var st := EncodeStepAt(table, t, 0, true);
    assert st.Emit?;
    StepOfSlice(table, s, k, |s|, true);
    assert s[k..|s|] == t;
    assert t[st.count..] == s[k + st.count..];
  }

  /** As the end of the input and with room for all of it, an encodable
      string is encoded completely, and the whole of its UTF-8 form is
      reported consumed. */
  lemma EncodeRunComplete(table: EncodeTable, s: seq<Scalar>, room: nat)
    requires Encoded(table, s).Some? && |Encoded(table, s).value| <= room
    ensures EncodeRun(table, s, room, true) == CharRun(Encoded(table, s).value, |s|, |Utf8(s)|, None)
  {
    assert s[0..] == s;
    EncodeFromComplete(table, s, 0, 0, room, []);
    Utf8SpanLength(s, 0, |s|);
    assert s[0..|s|] == s;
  }

  // ---------------------------------------------------------------------
  // Decoding

  /** What the decoder makes of the bytes at `s[i]`, before looking at the
      room left: some characters for the next one or two bytes, invalid
      data with the length of its error range, or (for a lead byte at the
      end of an input that is not the end) a wait for more input. */
  datatype DecodeStep = Chars(text: seq<Scalar>, count: nat) | Invalid(span: nat) | Truncated

  /** The characters of a pointer: the table's character, or, where the
      table has none, the base character and combining mark of the four
      grapheme pointers. */
  function PointerText(table: DecodeTable, p: int): Option<seq<Scalar>> {
    if 0 <= p < |table| && table[p] != Replacement then Some([table[p]])
    else if p == 1133 then Some([0xCA, 0x304])
    else if p == 1135 then Some([0xCA, 0x30C])
    else if p == 1164 then Some([0xEA, 0x304])
    else if p == 1166 then Some([0xEA, 0x30C])
    else None
  }

  function DecodeStepAt(table: DecodeTable, s: seq<Byte>, i: nat, isEnd: bool): (st: DecodeStep)
    requires i < |s|
    ensures st.Chars? ==> 1 <= st.count <= |s| - i
    ensures st.Invalid? ==> 1 <= st.span <= |s| - i
  {
    var b1 := s[i];
    if b1 <= 127 then Chars([b1], 1)
    else if b1 == 0x80 || b1 == 0xFF then Invalid(1)
    else if i + 1 == |s| then (if isEnd then Invalid(1) else Truncated)
    else
      var b2 := s[i + 1];
      // An ASCII trail byte stays in the stream, outside the error.
      var span := if b2 <= 127 then 1 else 2;
      if !Big5Index.IsTrail(b2) then Invalid(span)
      else match PointerText(table, Big5Index.BytesToIndex(b1, b2))
        case None => Invalid(span)
        case Some(t) => Chars(t, 2)
  }

  /** Bytes decoded in one go, as the end of the input; `None` at the first
      invalid sequence. */
  function Decoded(table: DecodeTable, s: seq<Byte>): Option<seq<Scalar>>
    decreases |s|, 1
  {
    if s == [] then Some([]) else DecodedAfter(table, s, DecodeStepAt(table, s, 0, true))
  }

  /** The rest of `Decoded` once the first bytes are classified. */
  function DecodedAfter(table: DecodeTable, s: seq<Byte>, st: DecodeStep): Option<seq<Scalar>>
    requires 0 < |s| && st == DecodeStepAt(table, s, 0, true)
    decreases |s|, 0
  {
    match st
    case Chars(t, n) =>
      (match Decoded(table, s[n..])
       case Some(rest) => Some(t + rest)
       case None => None)
    case _ => None
  }

  /** What `decode_to_str` does from `s[i]` on, with `room` bytes of output
      left and `done` written so far: it stops when the output is full or
      the next characters' UTF-8 form does not fit, and never writes part
      of a character. */
  function DecodeFrom(table: DecodeTable, s: seq<Byte>, i: nat, room: nat, isEnd: bool, done: seq<Byte>): Run
    requires i <= |s|
    decreases |s| - i, 1
  {
    if i == |s| || room == 0 then Run(done, i, None)
    else DecodeAfter(table, s, i, room, isEnd, done, DecodeStepAt(table, s, i, isEnd))
  }

  /** The rest of `DecodeFrom` once the bytes at `s[i]` are classified. */
  function DecodeAfter(table: DecodeTable, s: seq<Byte>, i: nat, room: nat, isEnd: bool, done: seq<Byte>, st: DecodeStep): Run
    requires i < |s| && st == DecodeStepAt(table, s, i, isEnd)
    decreases |s| - i, 0
  {
    match st
    case Invalid(span) => Run(done, i, Some(span))
    case Truncated => Run(done, i, None)
    case Chars(t, n) =>
      if |Utf8(t)| > room then Run(done, i, None)
      else DecodeFrom(table, s, i + n, room - |Utf8(t)|, isEnd, done + Utf8(t))
  }

  /** What a call does with an output buffer of `room` bytes. */
  function DecodeRun(table: DecodeTable, s: seq<Byte>, room: nat, isEnd: bool): Run {
    DecodeFrom(table, s, 0, room, isEnd, [])
  }

  /** `decode_to_str`: decodes `input` into UTF-8 in `output`. */
  method DecodeToStr(table: DecodeTable, input: seq<Byte>, output: array<Byte>, isEnd: bool) returns (r: DecodeResult)
    modifies output
    ensures var run := DecodeRun(table, input, output.Length, isEnd);
      && |run.out| <= output.Length
      && output[..|run.out|] == run.out
      && (forall j :: |run.out| <= j < output.Length ==> output[j] == old(output[j]))
      && r == DecodeResultOf(run)
  {
    ghost var whole := DecodeRun(table, input, output.Length, isEnd);
    var inputI := 0;
    var outputI := 0;
    ghost var done: seq<Byte> := [];
    while inputI < |input|
      invariant 0 <= inputI <= |input| && 0 <= outputI <= output.Length
      invariant output[..outputI] == done
      invariant whole == DecodeFrom(table, input, inputI, output.Length - outputI, isEnd, done)
      invariant forall j :: outputI <= j < output.Length ==> output[j] == old(output[j])
    {
      var next, span;
      next, span, inputI, outputI, done := DecodeNext(table, input, output, inputI, outputI, isEnd, done, whole);
      if next == Fail {
        r := DecodeErr(DecodeError((inputI, inputI + span), outputI));
        assert r == DecodeResultOf(whole);
        return;
      } else if next == Stop {
        break;
      }
    }
    if inputI == |input| {
      DecodeFromStops(table, input, inputI, output.Length - outputI, isEnd, done);
    }
    r := DecodeOk(output[..outputI], inputI);
  }

  /** One pass of the loop body of `decode_to_str`, at `input[i]` with
      `outputI` bytes written: it breaks when the output is full, a lead
      byte waits for its trail or the next characters do not fit; it fails
      at malformed or undefined bytes, spanning `span` of them; otherwise
      it writes the characters' UTF-8 form and moves on. Either way the run
      from the new state is the same run. */
  method DecodeNext(table: DecodeTable, input: seq<Byte>, output: array<Byte>, i: nat, outputI: nat, isEnd: bool,
                    ghost done: seq<Byte>, ghost whole: Run)
    returns (next: Next, span: nat, i': nat, outputI': nat, ghost done': seq<Byte>)
    requires i < |input| && outputI <= output.Length
    requires output[..outputI] == done
    requires whole == DecodeFrom(table, input, i, output.Length - outputI, isEnd, done)
    modifies output
    ensures i <= i' <= |input| && outputI <= outputI' <= output.Length
    ensures output[..outputI'] == done'
    ensures forall j :: outputI' <= j < output.Length ==> output[j] == old(output[j])
    ensures next == Continue ==> i < i' && whole == DecodeFrom(table, input, i', output.Length - outputI', isEnd, done')
    ensures next == Stop ==> whole == Run(done', i', None)
    ensures next == Fail ==> whole == Run(done', i', Some(span))
  {
    i', outputI', done', span := i, outputI, done, 0;
    var room := output.Length - outputI;
    if room == 0 {
      DecodeFromStops(table, input, i, room, isEnd, done);
      return Stop, span, i', outputI', done';
    }
    var st := ByteStep(table, input, i, isEnd);
    if st.Invalid? {
      DecodeFromFails(table, input, i, room, isEnd, done);
      return Fail, st.span, i', outputI', done';
    } else if st.Truncated? {
      // No available trailing byte and not the end of the input.
      DecodeFromStops(table, input, i, room, isEnd, done);
      return Stop, span, i', outputI', done';
    }
    var encoded := Utf8(st.text);
    if |encoded| > room {
      DecodeFromOverflows(table, input, i, room, isEnd, done, st, encoded);
      return Stop, span, i', outputI', done';
    }
    CopyInto(output, outputI, encoded);
    i' := i + st.count;
    outputI' := outputI + |encoded|;
    done' := done + encoded;
    DecodeFromAdvance(table, input, i, room, isEnd, done, st, encoded, i', output.Length - outputI', done');
    next := Continue;
  }

  /** How the loop body of `decode_to_str` classifies the bytes at
      `input[i]`: an ASCII byte is its own character; 0x80 and 0xFF are
      invalid leads; a lead without a trail waits, or is an error at the
      end; a trail outside 0x40..0x7E and 0xA1..0xFE is an error, and so is
      a pointer that neither the table nor the four grapheme pointers
      define. An ASCII trail is not part of the error range. */
  method ByteStep(table: DecodeTable, input: seq<Byte>, i: nat, isEnd: bool) returns (st: DecodeStep)
    requires i < |input|
    ensures st == DecodeStepAt(table, input, i, isEnd)
  {
    var byte1 := input[i];
    if byte1 <= 127 {
      // Ascii
      return Chars([byte1 as Scalar], 1);
    } else if byte1 == 0x80 || byte1 == 0xFF {
      // Error: invalid leading byte.
      return Invalid(1);
    } else if i + 1 < |input| {
      var byte2 := input[i + 1];
      var span := if byte2 <= 127 then 1 else 2;
      if byte2 < 0x40 || byte2 > 0xFE || (byte2 > 0x7E && byte2 < 0xA1) {
        // Error: invalid trailing byte.
        return Invalid(span);
      }
      var lead: int := (byte1 as int - 0x81) * 157;
      var trail: int := if byte2 < 0x7F then byte2 as int - 0x40 else byte2 as int - 0x62;
      var ptr := lead + trail;
      assert ptr == Big5Index.BytesToIndex(byte1, byte2);
      if ptr >= |table| || table[ptr] == Replacement {
        if ptr == 1133 {
          st := Chars([0xCA, 0x304], 2);
        } else if ptr == 1135 {
          st := Chars([0xCA, 0x30C], 2);
        } else if ptr == 1164 {
          st := Chars([0xEA, 0x304], 2);
        } else if ptr == 1166 {
          st := Chars([0xEA, 0x30C], 2);
        } else {
          // Error: correctly formed but undefined code.
          st := Invalid(span);
        }
      } else {
        st := Chars([table[ptr]], 2);
      }
    } else if !isEnd {
      // No available trailing byte: wait for more input.
      return Truncated;
    } else {
      return Invalid(1);
    }
  }

  /** A step whose characters fit: the run goes on after it. */
  lemma DecodeFromAdvance(table: DecodeTable, s: seq<Byte>, i: nat, room: nat, isEnd: bool, done: seq<Byte>,
                          st: DecodeStep, encoded: seq<Byte>, i': nat, room': nat, done': seq<Byte>)
    requires i < |s| && 0 < room && st == DecodeStepAt(table, s, i, isEnd) && st.Chars? && encoded == Utf8(st.text)
    requires |encoded| <= room && i' == i + st.count && room' == room - |encoded| && done' == done + encoded
    ensures i' <= |s| && DecodeFrom(table, s, i, room, isEnd, done) == DecodeFrom(table, s, i', room', isEnd, done')
  {
  }

  /** A run stops where the input ends, the output is full, a lead byte
      waits for its trail, or the next characters do not fit. */
  lemma DecodeFromStops(table: DecodeTable, s: seq<Byte>, i: nat, room: nat, isEnd: bool, done: seq<Byte>)
    requires i <= |s|
    requires i == |s| || room == 0 || DecodeStepAt(table, s, i, isEnd) == Truncated
    ensures DecodeFrom(table, s, i, room, isEnd, done) == Run(done, i, None)
  {
  }

  /** A run also stops where the next characters' UTF-8 form does not fit. */
  lemma DecodeFromOverflows(table: DecodeTable, s: seq<Byte>, i: nat, room: nat, isEnd: bool, done: seq<Byte>,
                            st: DecodeStep, encoded: seq<Byte>)
    requires i < |s| && st == DecodeStepAt(table, s, i, isEnd) && st.Chars? && encoded == Utf8(st.text)
    requires |encoded| > room
    ensures DecodeFrom(table, s, i, room, isEnd, done) == Run(done, i, None)
  {
  }

  /** A run fails at invalid data, even with no room for a character. */
  lemma DecodeFromFails(table: DecodeTable, s: seq<Byte>, i: nat, room: nat, isEnd: bool, done: seq<Byte>)
    requires i < |s| && room > 0 && DecodeStepAt(table, s, i, isEnd).Invalid?
    ensures DecodeFrom(table, s, i, room, isEnd, done) == Run(done, i, Some(DecodeStepAt(table, s, i, isEnd).span))
  {
  }

  /** Where a run stops: within the input, having written within the room
      it has; a failing run stops at invalid data, with room left, and
      reports its error range; a succeeding run has consumed everything,
      or the output is full, or the next characters do not fit, or it
      waits for the trail byte of a lead byte at the end of an input that
      is not the end. */
  lemma {:induction false} DecodeFromBounds(table: DecodeTable, s: seq<Byte>, i: nat, room: nat, isEnd: bool, done: seq<Byte>)
    requires i <= |s|
    ensures var r := DecodeFrom(table, s, i, room, isEnd, done);
      && i <= r.width <= |s| && |done| <= |r.out| <= |done| + room
      && (r.failure.Some? ==>
            r.width < |s| && |r.out| < |done| + room &&
            DecodeStepAt(table, s, r.width, isEnd) == Invalid(r.failure.value))
      && (r.failure.None? && r.width < |s| ==>
            || |r.out| == |done| + room
            || (DecodeStepAt(table, s, r.width, isEnd).Chars? &&
                |r.out| + |Utf8(DecodeStepAt(table, s, r.width, isEnd).text)| > |done| + room)
            || DecodeStepAt(table, s, r.width, isEnd) == Truncated)
    decreases |s| - i, 1
  {
    if i == |s| || room == 0 || !DecodeStepAt(table, s, i, isEnd).Chars? || |Utf8(DecodeStepAt(table, s, i, isEnd).text)| > room {
      if i < |s| && room > 0 && DecodeStepAt(table, s, i, isEnd).Invalid? {
        DecodeFromFails(table, s, i, room, isEnd, done);
      } else if i < |s| && room > 0 && DecodeStepAt(table, s, i, isEnd).Chars? {
        var st := DecodeStepAt(table, s, i, isEnd);
        DecodeFromOverflows(table, s, i, room, isEnd, done, st, Utf8(st.text));
      } else {
        DecodeFromStops(table, s, i, room, isEnd, done);
      }
    } else {
      DecodeBoundsAdvance(table, s, i, room, isEnd, done);
    }
  }

  /** `DecodeFromBounds` where the run takes a step at `s[i]`. */
  lemma {:induction false} DecodeBoundsAdvance(table: DecodeTable, s: seq<Byte>, i: nat, room: nat, isEnd: bool, done: seq<Byte>)
    requires i < |s| && 0 < room
    requires DecodeStepAt(table, s, i, isEnd).Chars? && |Utf8(DecodeStepAt(table, s, i, isEnd).text)| <= room
    ensures var r := DecodeFrom(table, s, i, room, isEnd, done);
      && i <= r.width <= |s| && |done| <= |r.out| <= |done| + room
      && (r.failure.Some? ==>
            r.width < |s| && |r.out| < |done| + room &&
            DecodeStepAt(table, s, r.width, isEnd) == Invalid(r.failure.value))
      && (r.failure.None? && r.width < |s| ==>
            || |r.out| == |done| + room
            || (DecodeStepAt(table, s, r.width, isEnd).Chars? &&
                |r.out| + |Utf8(DecodeStepAt(table, s, r.width, isEnd).text)| > |done| + room)
            || DecodeStepAt(table, s, r.width, isEnd) == Truncated)
    decreases |s| - i, 0
  {
    var st := DecodeStepAt(table, s, i, isEnd);
    var i', room', done' := i + st.count, room - |Utf8(st.text)|, done + Utf8(st.text);
    DecodeFromAdvance(table, s, i, room, isEnd, done, st, Utf8(st.text), i', room', done');
    DecodeFromBounds(table, s, i', room', isEnd, done');
  }

  /** The decoder's step at `s[i]` reads at most the byte after it, so in a
      slice that keeps the bytes it reads it is the one-go decoder's step. */
  lemma DecodeStepOfSlice(table: DecodeTable, s: seq<Byte>, i: nat, j: nat, isEnd: bool)
    requires i < j <= |s|
    requires DecodeStepAt(table, s, i, isEnd).Chars?
    requires i + DecodeStepAt(table, s, i, isEnd).count <= j
    ensures DecodeStepAt(table, s[i..j], 0, true) == DecodeStepAt(table, s, i, isEnd)
  {
    var t := s[i..j];
    assert t[0] == s[i];
    if i + 1 < j {
      assert t[1] == s[i + 1];
    }
  }

  /** What a run from `s[i]` produces: the bytes after `done` are the UTF-8
      form of the one-go decoding of the bytes consumed. */
  lemma {:induction false} DecodeFromMeaning(table: DecodeTable, s: seq<Byte>, i: nat, room: nat, isEnd: bool, done: seq<Byte>)
    requires i <= |s|
    ensures var r := DecodeFrom(table, s, i, room, isEnd, done);
      && i <= r.width <= |s|
      && Decoded(table, s[i..r.width]).Some?
      && r.out == done + Utf8(Decoded(table, s[i..r.width]).value)
    decreases |s| - i, 1
  {
    if i == |s| || room == 0 || !DecodeStepAt(table, s, i, isEnd).Chars? || |Utf8(DecodeStepAt(table, s, i, isEnd).text)| > room {
      if i < |s| && room > 0 && DecodeStepAt(table, s, i, isEnd).Invalid? {
        DecodeFromFails(table, s, i, room, isEnd, done);
      } else if i < |s| && room > 0 && DecodeStepAt(table, s, i, isEnd).Chars? {
        var st := DecodeStepAt(table, s, i, isEnd);
        DecodeFromOverflows(table, s, i, room, isEnd, done, st, Utf8(st.text));
      } else {
        DecodeFromStops(table, s, i, room, isEnd, done);
      }
      assert s[i..i] == [];
      assert Decoded(table, s[i..i]) == Some([]);
      assert done + Utf8([]) == done;
    } else {
      DecodeMeaningAdvance(table, s, i, room, isEnd, done);
    }
  }

  /** `DecodeFromMeaning` where the run takes a step at `s[i]`. */
  lemma {:induction false} DecodeMeaningAdvance(table: DecodeTable, s: seq<Byte>, i: nat, room: nat, isEnd: bool, done: seq<Byte>)
    requires i < |s| && 0 < room
    requires DecodeStepAt(table, s, i, isEnd).Chars? && |Utf8(DecodeStepAt(table, s, i, isEnd).text)| <= room
    ensures var r := DecodeFrom(table, s, i, room, isEnd, done);
      && i <= r.width <= |s|
      && Decoded(table, s[i..r.width]).Some?
      && r.out == done + Utf8(Decoded(table, s[i..r.width]).value)
    decreases |s| - i, 0
  {
    var st := DecodeStepAt(table, s, i, isEnd);
    var i', room', done' := i + st.count, room - |Utf8(st.text)|, done + Utf8(st.text);
    DecodeFromAdvance(table, s, i, room, isEnd, done, st, Utf8(st.text), i', room', done');
    DecodeFromMeaning(table, s, i', room', isEnd, done');
    var r1 := DecodeFrom(table, s, i', room', isEnd, done');
    DecodedPrefix(table, s, i, r1.width, isEnd);
    var rest := Decoded(table, s[i'..r1.width]).value;
    Utf8Append(st.text, rest);
    AppendParts(done, Utf8(st.text), Utf8(rest), Utf8(Decoded(table, s[i..r1.width]).value), r1.out);
  }

  /** A step that the decoder takes at `s[i]`, followed by the one-go
      decoding of the rest of a slice up to `j`, is the one-go decoding of
      the slice. */
  lemma DecodedPrefix(table: DecodeTable, s: seq<Byte>, i: nat, j: nat, isEnd: bool)
    requires i < |s| && DecodeStepAt(table, s, i, isEnd).Chars?
    requires i + DecodeStepAt(table, s, i, isEnd).count <= j <= |s|
    requires Decoded(table, s[i + DecodeStepAt(table, s, i, isEnd).count..j]).Some?
    ensures var st := DecodeStepAt(table, s, i, isEnd);
      Decoded(table, s[i..j]) == Some(st.text + Decoded(table, s[i + st.count..j]).value)
  {
    var st := DecodeStepAt(table, s, i, isEnd);
    var u := s[i..j];
    DecodeStepOfSlice(table, s, i, j, isEnd);
    assert u[st.count..] == s[i + st.count..j];
    DecodedCons(table, u, st.text, st.count);
  }

  /** One step of the one-go decoder. */
  lemma DecodedCons(table: DecodeTable, u: seq<Byte>, t: seq<Scalar>, n: nat)
    requires u != [] && DecodeStepAt(table, u, 0, true) == Chars(t, n)
    requires Decoded(table, u[n..]).Some?
    ensures Decoded(table, u) == Some(t + Decoded(table, u[n..]).value)
  {
  }

  /** Output written after `done` in two parts is `done` followed by
      both. */
  lemma AppendParts(done: seq<Byte>, a: seq<Byte>, b: seq<Byte>, ab: seq<Byte>, out: seq<Byte>)
    requires ab == a + b && out == (done + a) + b
    ensures out == done + ab
  {
    assert (done + a) + b == done + (a + b);
  }

  /** What a whole call produces (the run from the start). */
  lemma DecodeRunMeaning(table: DecodeTable, s: seq<Byte>, room: nat, isEnd: bool)
    ensures var r := DecodeRun(table, s, room, isEnd);
      && r.width <= |s| && |r.out| <= room
      && Decoded(table, s[..r.width]).Some?
      && r.out == Utf8(Decoded(table, s[..r.width]).value)
      && (r.failure.Some? ==>
            r.width < |s| && |r.out| < room &&
            DecodeStepAt(table, s, r.width, isEnd) == Invalid(r.failure.value))
      && (r.failure.None? && r.width < |s| ==>
            || |r.out| == room
            || (DecodeStepAt(table, s, r.width, isEnd).Chars? &&
                |r.out| + |Utf8(DecodeStepAt(table, s, r.width, isEnd).text)| > room)
            || DecodeStepAt(table, s, r.width, isEnd) == Truncated)
  {
    DecodeFromMeaning(table, s, 0, room, isEnd, []);
    DecodeFromBounds(table, s, 0, room, isEnd, []);
    var r := DecodeRun(table, s, room, isEnd);
    assert s[0..r.width] == s[..r.width];
  }

  /** From `s[i]` on, as the end of the input and with room for all of it,
      valid input is decoded completely. */
  lemma {:induction false} DecodeFromComplete(table: DecodeTable, s: seq<Byte>, i: nat, room: nat, done: seq<Byte>)
    requires i <= |s|
    requires Decoded(table, s[i..]).Some? && |Utf8(Decoded(table, s[i..]).value)| <= room
    ensures DecodeFrom(table, s, i, room, true, done) == Run(done + Utf8(Decoded(table, s[i..]).value), |s|, None)
    decreases |s| - i
  {
    if i == |s| {
      assert s[i..] == [];
      assert Decoded(table, s[i..]) == Some([]);
      assert done + Utf8([]) == done;
      DecodeFromStops(table, s, i, room, true, done);
    } else {
      var st := DecodeStepAt(table, s, i, true);
      DecodeCompleteStep(table, s, i);
      var text, rest := Decoded(table, s[i..]).value, Decoded(table, s[i + st.count..]).value;
      var encoded := Utf8(st.text);
      Utf8Fits(st.text, rest, text, room);
      var i', room', done' := i + st.count, room - |encoded|, done + encoded;
      assert DecodeFrom(table, s, i, room, true, done) == Run(done' + Utf8(rest), |s|, None) by {
        DecodeFromAdvance(table, s, i, room, true, done, st, encoded, i', room', done');
        DecodeFromComplete(table, s, i', room', done');
      }
      AppendParts(done, encoded, Utf8(rest), Utf8(text), done' + Utf8(rest));
    }
  }

  /** Where the UTF-8 form of `t + rest` fits, that of `t` does, and that
      of `rest` fits in what is left. */
  lemma Utf8Fits(t: seq<Scalar>, rest: seq<Scalar>, text: seq<Scalar>, room: nat)
    requires text == t + rest && |Utf8(text)| <= room
    ensures Utf8(text) == Utf8(t) + Utf8(rest)
    ensures |Utf8(t)| <= room && |Utf8(rest)| <= room - |Utf8(t)|
  {
    Utf8Append(t, rest);
  }

  /** Valid input `s[i..]` starts with a step giving characters, and its
      rest is valid too. */
  lemma DecodeCompleteStep(table: DecodeTable, s: seq<Byte>, i: nat)
    requires i < |s| && Decoded(table, s[i..]).Some?
    ensures var st := DecodeStepAt(table, s, i, true);
      && st.Chars? && Decoded(table, s[i + st.count..]).Some?
      && Decoded(table, s[i..]).value == st.text + Decoded(table, s[i + st.count..]).value
  {
    var u := s[i..];
    var st := DecodeStepAt(table, u, 0, true);
    assert st.Chars?;
    DecodeStepOfSlice(table, s, i, |s|, true);
    assert s[i..|s|] == u;
    assert u[st.count..] == s[i + st.count..];
  }

  /** As the end of the input and with room for all of it, valid input is
      decoded completely. */
  lemma DecodeRunComplete(table: DecodeTable, s: seq<Byte>, room: nat)
    requires Decoded(table, s).Some? && |Utf8(Decoded(table, s).value)| <= room
    ensures DecodeRun(table, s, room, true) == Run(Utf8(Decoded(table, s).value), |s|, None)
  {
    assert s[0..] == s;
    DecodeFromComplete(table, s, 0, room, []);
  }

  // ---------------------------------------------------------------------
  // Encoding, then decoding

  /** An encode table entry that the decode table reads back: its bytes are
      a lead and trail byte whose pointer decodes to the entry's
      character. */
  predicate EntryDecodes(dec: DecodeTable, e: (Scalar, (Byte, Byte))) {
    && 0x81 <= e.1.0 <= 0xFE && Big5Index.IsTrail(e.1.1)
    && PointerText(dec, Big5Index.BytesToIndex(e.1.0, e.1.1)) == Some([e.0])
  }

  /** Tables that agree: every encode entry decodes back, and the decode
      table leaves the four grapheme pointers undefined. */
  predicate Consistent(enc: EncodeTable, dec: DecodeTable) {
    && (forall j :: 0 <= j < |enc| ==> EntryDecodes(dec, enc[j]))
    && (forall k :: 0 <= k < 4 ==>
          var p := Big5Index.Graphemes[k].0;
          !(0 <= p < |dec|) || dec[p] == Replacement)
  }

  /** The bytes of one encoder step decode, as the start of any longer
      input, to the characters of that step. */
  lemma StepRoundTrip(enc: EncodeTable, dec: DecodeTable, s: seq<Scalar>, rest: seq<Byte>)
    requires Consistent(enc, dec) && s != []
    requires EncodeStepAt(enc, s, 0, true).Emit?
    ensures var st := EncodeStepAt(enc, s, 0, true);
      DecodeStepAt(dec, st.bytes + rest, 0, true) == Chars(s[..st.count], |st.bytes|)
  {
    var st := EncodeStepAt(enc, s, 0, true);
    var c := s[0];
    var u := st.bytes + rest;
    if c <= 127 {
      assert s[..1] == [c];
    } else if |s| > 1 && MapGrapheme(c, s[1]).Some? {
      assert s[..2] == [c, s[1]];
      MapGraphemeSpec(c, s[1]);
      var k :| 0 <= k < 4 && Big5Index.Graphemes[k].1 == (c, s[1]);
      Big5Index.IndexRoundTrip(Big5Index.Graphemes[k].0);
      assert u[0] == 0x88 && u[1] == st.bytes[1];
    } else {
      assert s[..1] == [c];
      KeyLookupSpec(enc, c);
      var j :| 0 <= j < |enc| && enc[j] == (c, KeyLookup(enc, c).value);
      assert EntryDecodes(dec, enc[j]);
      assert u[0] == enc[j].1.0 && u[1] == enc[j].1.1;
    }
  }

  /** With tables that agree, whatever the encoder produces decodes back to
      the text it came from. */
  lemma {:induction false} RoundTrip(enc: EncodeTable, dec: DecodeTable, s: seq<Scalar>)
    requires Consistent(enc, dec) && Encoded(enc, s).Some?
    ensures Decoded(dec, Encoded(enc, s).value) == Some(s)
    decreases |s|
  {
    if s != [] {
      var st := EncodeStepAt(enc, s, 0, true);
      assert st.Emit? && Encoded(enc, s[st.count..]).Some?;
      var rest := Encoded(enc, s[st.count..]).value;
      var u := st.bytes + rest;
      assert Encoded(enc, s).value == u;
      assert Decoded(dec, u) == Some(s[..st.count] + s[st.count..]) by {
        RoundTrip(enc, dec, s[st.count..]);
        StepRoundTrip(enc, dec, s, rest);
        assert u[|st.bytes|..] == rest;
        DecodedCons(dec, u, s[..st.count], |st.bytes|);
      }
      assert s == s[..st.count] + s[st.count..];
    }
  }

  /** The streaming round trip: with tables that agree and buffers large
      enough, a call to the encoder consumes all of an encodable text, and
      a call to the decoder on its output gives back the text's UTF-8
      form. */
  lemma StreamRoundTrip(enc: EncodeTable, dec: DecodeTable, s: seq<Scalar>, encodeRoom: nat, decodeRoom: nat)
    requires Consistent(enc, dec) && Encoded(enc, s).Some?
    requires |Encoded(enc, s).value| <= encodeRoom && |Utf8(s)| <= decodeRoom
    ensures var b := EncodeRun(enc, s, encodeRoom, true).out;
      && EncodeRun(enc, s, encodeRoom, true) == CharRun(b, |s|, |Utf8(s)|, None)
      && DecodeRun(dec, b, decodeRoom, true) == Run(Utf8(s), |b|, None)
  {
    EncodeRunComplete(enc, s, encodeRoom);
    RoundTrip(enc, dec, s);
    DecodeRunComplete(dec, Encoded(enc, s).value, decodeRoom);
  }

  /** The grapheme pointers decode, when the table leaves them undefined,
      to the pairs `map_grapheme` encodes them from. */
  lemma GraphemePointersDecode(dec: DecodeTable, k: nat)
    requires k < 4
    requires var p := Big5Index.Graphemes[k].0; !(0 <= p < |dec|) || dec[p] == Replacement
    ensures var g := Big5Index.Graphemes[k];
      var b := Big5Index.IndexToBytes(g.0);
      && MapGrapheme(g.1.0, g.1.1) == Some(b)
      && Decoded(dec, [b.0, b.1]) == Some([g.1.0, g.1.1])
  {
    if k == 0 {
      assert Big5Index.IndexToBytes(1133) == (0x88, 0x62);
      PairDecodes(dec, 0x88, 0x62, [0xCA, 0x304]);
    } else if k == 1 {
      assert Big5Index.IndexToBytes(1135) == (0x88, 0x64);
      PairDecodes(dec, 0x88, 0x64, [0xCA, 0x30C]);
    } else if k == 2 {
      assert Big5Index.IndexToBytes(1164) == (0x88, 0xA3);
      PairDecodes(dec, 0x88, 0xA3, [0xEA, 0x304]);
    } else {
      assert Big5Index.IndexToBytes(1166) == (0x88, 0xA5);
      PairDecodes(dec, 0x88, 0xA5, [0xEA, 0x30C]);
    }
  }

  /** Two bytes whose pointer has characters decode, as a whole input, to
      those characters. */
  lemma PairDecodes(dec: DecodeTable, b1: Byte, b2: Byte, t: seq<Scalar>)
    requires 0x81 <= b1 <= 0xFE && Big5Index.IsTrail(b2)
    requires PointerText(dec, Big5Index.BytesToIndex(b1, b2)) == Some(t)
    ensures Decoded(dec, [b1, b2]) == Some(t)
  {
    var s: seq<Byte> := [b1, b2];
    assert DecodeStepAt(dec, s, 0, true) == Chars(t, 2);
    assert s[2..] == [];
    assert Decoded(dec, s[2..]) == Some([]);
    assert t + [] == t;
  }
}
