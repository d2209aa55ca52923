/** Little-endian UTF-32 (`utf32_le`): `encode_from_str` and
    `decode_to_str`, the encoding form of section 3.10 of the Unicode
    Standard. Every character is the four bytes of its scalar value, least
    significant first; a four-byte unit that is not a scalar value (a
    surrogate, or above U+10FFFF) is invalid. */
module Utf32Le {
  import opened Wrappers
  import opened Text
  import opened Results
  import opened Stream

  /** `u32::to_le_bytes` of a scalar value. */
  function LeBytes(c: Scalar): (b: seq<Byte>)
    ensures |b| == 4
  {
    [c % 256, c / 256 % 256, c / 256 / 256 % 256, c / 256 / 256 / 256]
  }

  /** `u32::from_le_bytes` of four bytes. */
  function UnitValue(b0: Byte, b1: Byte, b2: Byte, b3: Byte): nat {
    b0 + 256 * (b1 + 256 * (b2 + 256 * b3))
  }

  /** Division by 256 splits a value into its low byte and the rest. */
  lemma ByteSplit(x: nat, lo: nat, hi: nat)
    requires lo < 256 && x == lo + 256 * hi
    ensures x % 256 == lo && x / 256 == hi
  {
  }

  /** `to_le_bytes` and `from_le_bytes` are inverse: a scalar value comes
      back from its bytes, and four bytes whose value is a scalar value
      are that value's bytes. */
  lemma LeBytesRoundTrip(c: Scalar, b0: Byte, b1: Byte, b2: Byte, b3: Byte)
    ensures var b := LeBytes(c); UnitValue(b[0], b[1], b[2], b[3]) == c
    ensures IsScalar(UnitValue(b0, b1, b2, b3)) ==> LeBytes(UnitValue(b0, b1, b2, b3) as Scalar) == [b0, b1, b2, b3]
  {
    var q1 := c / 256;
    var q2 := q1 / 256;
    ByteSplit(c, c % 256, q1);
    ByteSplit(q1, q1 % 256, q2);
    ByteSplit(q2, q2 % 256, q2 / 256);
    assert q2 / 256 < 256;
    var v := UnitValue(b0, b1, b2, b3);
    if IsScalar(v) {
      ByteSplit(v, b0, b1 + 256 * (b2 + 256 * b3));
      ByteSplit(b1 + 256 * (b2 + 256 * b3), b1, b2 + 256 * b3);
      ByteSplit(b2 + 256 * b3, b2, b3);
    }
  }

  /** The UTF-32LE form of a string. */
  function Encoded(s: seq<Scalar>): (b: seq<Byte>)
    ensures |b| == 4 * |s|
  {
    if s == [] then [] else LeBytes(s[0]) + Encoded(s[1..])
  }

  /** The UTF-32LE form of a concatenation is the concatenation of the
      forms. */
  lemma {:induction false} EncodedAppend(a: seq<Scalar>, b: seq<Scalar>)
    ensures Encoded(a + b) == Encoded(a) + Encoded(b)
  {
    if a == [] {
      assert a + b == b;
    } else {
      assert (a + b)[1..] == a[1..] + b;
      EncodedAppend(a[1..], b);
    }
  }

  /** The first `4 * m` bytes of a string's form are the form of its first
      `m` characters, and the rest is the form of the rest. */
  lemma EncodedSplit(s: seq<Scalar>, m: nat)
    requires m <= |s|
    ensures Encoded(s)[..4 * m] == Encoded(s[..m]) && Encoded(s)[4 * m..] == Encoded(s[m..])
  {
    var a, c := Encoded(s[..m]), Encoded(s[m..]);
    assert Encoded(s) == a + c by {
      EncodedAppend(s[..m], s[m..]);
      TakeDrop(s, m);
    }
    SplitConcat(a, c);
  }

  /** A sequence is its first `m` elements followed by the rest. */
  lemma TakeDrop<T>(s: seq<T>, m: nat)
    requires m <= |s|
    ensures s[..m] + s[m..] == s
  {
  }

  /** One more element of a prefix is that element appended. */
  lemma TakeSnoc<T>(s: seq<T>, k: nat)
    requires k < |s|
    ensures s[..k + 1] == s[..k] + [s[k]]
  {
  }

  /** The two parts of a concatenation come back by slicing. */
  lemma SplitConcat<T>(x: seq<T>, y: seq<T>)
    ensures (x + y)[..|x|] == x && (x + y)[|x|..] == y
  {
  }

  // ---------------------------------------------------------------------
  // Encoding

  /** What `encode_from_str` does with an output buffer of `room` bytes:
      it writes the four bytes of each character while four bytes of room
      are left, so it encodes as many leading characters as fit, whole,
      and never fails. */
  function EncodeRun(s: seq<Scalar>, room: nat): CharRun {
    var n := if |s| <= room / 4 then |s| else room / 4;
    CharRun(Encoded(s[..n]), n, |Utf8(s[..n])|, None)
  }

  /** What a call promises: it never fails; it writes four bytes per
      character consumed, within the room it has; it consumes everything
      or stops with fewer than four bytes of room left; the consumed count
      is the byte length of the characters' UTF-8 form. */
  lemma EncodeRunSpec(s: seq<Scalar>, room: nat)
    ensures var r := EncodeRun(s, room);
      && r.failure.None? && r.chars <= |s|
      && |r.out| == 4 * r.chars <= room
      && (r.chars < |s| ==> room - |r.out| < 4)
      && r.out == Encoded(s)[..4 * r.chars]
      && r.offset == |Utf8(s[..r.chars])|
  {
    var r := EncodeRun(s, room);
    EncodedSplit(s, r.chars);
  }

  /** `encode_from_str`: writes the UTF-32LE form of `input` into `output`
      until the input ends or fewer than four bytes of room are left. */
  method EncodeFromStr(input: seq<Scalar>, output: array<Byte>) returns (r: EncodeResult)
    modifies output
    ensures var run := EncodeRun(input, output.Length);
      && output[..|run.out|] == run.out
      && (forall j :: |run.out| <= j < output.Length ==> output[j] == old(output[j]))
      && r == EncodeResultOf(input, run)
  {
    var k := 0;            // position in `char_indices`
    var offset: nat := 0;  // byte offset of `input[k]`
    var outputI := 0;
    while k < |input|
      invariant 0 <= k <= |input| && outputI == 4 * k <= output.Length
      invariant output[..outputI] == Encoded(input[..k])
      invariant offset == |Utf8(input[..k])|
      invariant forall j :: outputI <= j < output.Length ==> output[j] == old(output[j])
    {
      if outputI + 3 < output.Length {
        var c := input[k];
        var code := [c % 256, c / 256 % 256, c / 256 / 256 % 256, c / 256 / 256 / 256];
        assert code == LeBytes(c);
        CopyInto(output, outputI, code);
        EncodedSnoc(input, k);
        Utf8Snoc(input[..k], c);
        TakeSnoc(input, k);
        outputI := outputI + 4;
        offset := offset + Utf8Len(c);
        k := k + 1;
      } else {
        break;
      }
    }
    WholeUnits(k, |input|, output.Length);
    assert EncodeRun(input, output.Length) == CharRun(output[..outputI], k, offset, None);
    r := EncodeOk(output[..outputI], offset);
  }

  /** The loop of `encode_from_str` stops after `min(len, room / 4)`
      characters: the four bytes of each fit, and those of the next one do
      not. */
  lemma WholeUnits(k: nat, len: nat, room: nat)
    requires 4 * k <= room && k <= len && (k == len || 4 * k + 3 >= room)
    ensures k == if len <= room / 4 then len else room / 4
  {
  }

  /** The form of one more character is the form so far followed by that
      character's bytes. */
  lemma EncodedSnoc(s: seq<Scalar>, k: nat)
    requires k < |s|
    ensures Encoded(s[..k + 1]) == Encoded(s[..k]) + LeBytes(s[k])
  {
    TakeSnoc(s, k);
    EncodedAppend(s[..k], [s[k]]);
    assert Encoded([s[k]]) == LeBytes(s[k]) + Encoded([]);
  }

  // ---------------------------------------------------------------------
  // Decoding

  /** What the decoder makes of the chunk at `s[i]`: a character, invalid
      data with the length of its error range, or (for a partial chunk at
      the end of an input that is not the end) a wait for more input. */
  datatype DecodeStep = Char(c: Scalar) | Invalid(span: nat) | Truncated

  function DecodeStepAt(s: seq<Byte>, i: nat, isEnd: bool): (st: DecodeStep)
    requires i < |s|
    ensures st.Invalid? ==> 1 <= st.span <= |s| - i
    ensures st.Char? ==> i + 4 <= |s|
  {
    if |s| - i < 4 then (if isEnd then Invalid(|s| - i) else Truncated)
    else
      var v := UnitValue(s[i], s[i + 1], s[i + 2], s[i + 3]);
      if IsScalar(v) then Char(v) else Invalid(4)
  }

  /** Bytes decoded in one go; `None` if their length is not a multiple of
      four or a unit is not a scalar value. */
  function Decoded(s: seq<Byte>): Option<seq<Scalar>>
    decreases |s|, 1
  {
    if s == [] then Some([]) else DecodedAfter(s, DecodeStepAt(s, 0, true))
  }

  /** The rest of `Decoded` once the first chunk is classified. */
  function DecodedAfter(s: seq<Byte>, st: DecodeStep): Option<seq<Scalar>>
    requires 0 < |s| && st == DecodeStepAt(s, 0, true)
    decreases |s|, 0
  {
    match st
    case Char(c) =>
      (match Decoded(s[4..])
       case Some(rest) => Some([c] + rest)
       case None => None)
    case _ => None
  }

  /** What `decode_to_str` does from `s[i]` on, with `room` bytes of output
      left and `done` written so far: it fails at a partial chunk at the
      end or at a unit that is not a scalar value, whatever the room, and
      stops when the next character's UTF-8 form does not fit. */
  function DecodeFrom(s: seq<Byte>, i: nat, room: nat, isEnd: bool, done: seq<Byte>): Run
    requires i <= |s|
    decreases |s| - i, 1
  {
    if i == |s| then Run(done, i, None)
    else DecodeAfter(s, i, room, isEnd, done, DecodeStepAt(s, i, isEnd))
  }

  /** The rest of `DecodeFrom` once the chunk at `s[i]` is classified. */
  function DecodeAfter(s: seq<Byte>, i: nat, room: nat, isEnd: bool, done: seq<Byte>, st: DecodeStep): Run
    requires i < |s| && st == DecodeStepAt(s, i, isEnd)
    decreases |s| - i, 0
  {
    match st
    case Invalid(span) => Run(done, i, Some(span))
    case Truncated => Run(done, i, None)
    case Char(c) =>
      if Utf8Len(c) > room then Run(done, i, None)
      else DecodeFrom(s, i + 4, room - Utf8Len(c), isEnd, done + Utf8Encode(c))
  }

  /** What a call does with an output buffer of `room` bytes. */
  function DecodeRun(s: seq<Byte>, room: nat, isEnd: bool): Run {
    DecodeFrom(s, 0, room, isEnd, [])
  }

  /** `decode_to_str`: decodes `input` into UTF-8 in `output`, a chunk of
      four bytes at a time. */
  method DecodeToStr(input: seq<Byte>, output: array<Byte>, isEnd: bool) returns (r: DecodeResult)
    modifies output
    ensures var run := DecodeRun(input, output.Length, isEnd);
      && |run.out| <= output.Length
      && output[..|run.out|] == run.out
      && (forall j :: |run.out| <= j < output.Length ==> output[j] == old(output[j]))
      && r == DecodeResultOf(run)
  {
    ghost var whole := DecodeRun(input, output.Length, isEnd);
    var inputI := 0;
    var outputI := 0;
    ghost var done: seq<Byte> := [];
    while inputI < |input|
      invariant 0 <= inputI <= |input| && 0 <= outputI <= output.Length
      invariant output[..outputI] == done
      invariant whole == DecodeFrom(input, inputI, output.Length - outputI, isEnd, done)
      invariant forall j :: outputI <= j < output.Length ==> output[j] == old(output[j])
    {
      if |input| - inputI < 4 {
        if !isEnd {
          break;
        }
        // Error: incomplete data at end-of-input.
        r := DecodeErr(DecodeError((inputI, |input|), outputI));
        return;
      }
      var code := UnitValue(input[inputI], input[inputI + 1], input[inputI + 2], input[inputI + 3]);
      if !IsScalar(code) {
        // Error: invalid codepoint.
        r := DecodeErr(DecodeError((inputI, inputI + 4), outputI));
        return;
      }
      var s := Utf8Encode(code);
      if outputI + |s| > output.Length {
        break;
      }
      CopyInto(output, outputI, s);
      inputI := inputI + 4;
      outputI := outputI + |s|;
      done := done + s;
    }
    r := DecodeOk(output[..outputI], inputI);
  }

  /** Where a run from a chunk boundary stops and what it has written: it
      consumes whole chunks only; the bytes after `done` are the UTF-8
      form of the one-go decoding of what it consumed; a failing run stops
      at a unit that is not a scalar value (error range of four bytes) or,
      at the end of the input, at a partial chunk (error range up to the
      end); a succeeding run has consumed everything, or waits on a partial
      chunk of an input that is not the end, or stops at a character whose
      UTF-8 form does not fit. */
  lemma {:induction false} DecodeFromSpec(s: seq<Byte>, i: nat, room: nat, isEnd: bool, done: seq<Byte>)
    requires i <= |s| && i % 4 == 0
    ensures var r := DecodeFrom(s, i, room, isEnd, done);
      RunDecodes(s, i, room, done, r) && RunStops(s, isEnd, |done| + room, r)
    decreases |s| - i, 1
  {
    if i == |s| || !DecodeStepAt(s, i, isEnd).Char? || Utf8Len(DecodeStepAt(s, i, isEnd).c) > room {
      assert s[i..i] == [];
      assert Decoded(s[i..i]) == Some([]);
      assert done + Utf8([]) == done;
    } else {
      SpecAdvance(s, i, room, isEnd, done);
    }
  }

  /** The first half of `DecodeFromSpec`: a run from `s[i]` with `room`
      bytes left after `done` consumes whole chunks, within the input, and
      writes the UTF-8 form of their one-go decoding, within the room. */
  predicate RunDecodes(s: seq<Byte>, i: nat, room: nat, done: seq<Byte>, r: Run)
    requires i <= |s|
  {
    && i <= r.width <= |s| && r.width % 4 == 0 && |done| <= |r.out| <= |done| + room
    && Decoded(s[i..r.width]).Some?
    && r.out == done + Utf8(Decoded(s[i..r.width]).value)
  }

  /** The second half of `DecodeFromSpec`: why a run whose output may
      reach `limit` bytes stopped where it did. */
  predicate RunStops(s: seq<Byte>, isEnd: bool, limit: nat, r: Run)
    requires r.width <= |s|
  {
    && (r.failure.Some? ==>
          || (r.failure == Some(4) && |s| - r.width >= 4 &&
              !IsScalar(UnitValue(s[r.width], s[r.width + 1], s[r.width + 2], s[r.width + 3])))
          || (isEnd && r.failure == Some(|s| - r.width) && 0 < |s| - r.width < 4))
    && (r.failure.None? && r.width < |s| ==>
          || (!isEnd && |s| - r.width < 4)
          || (DecodeStepAt(s, r.width, isEnd).Char? &&
              |r.out| + Utf8Len(DecodeStepAt(s, r.width, isEnd).c) > limit))
  }

  /** `DecodeFromSpec` where the run decodes the chunk at `s[i]`. */
  lemma {:induction false} SpecAdvance(s: seq<Byte>, i: nat, room: nat, isEnd: bool, done: seq<Byte>)
    requires i < |s| && i % 4 == 0
    requires DecodeStepAt(s, i, isEnd).Char? && Utf8Len(DecodeStepAt(s, i, isEnd).c) <= room
    ensures var r := DecodeFrom(s, i, room, isEnd, done);
      RunDecodes(s, i, room, done, r) && RunStops(s, isEnd, |done| + room, r)
    decreases |s| - i, 0
  {
    var c := DecodeStepAt(s, i, isEnd).c;
    var r := DecodeFrom(s, i, room, isEnd, done);
    assert r == DecodeFrom(s, i + 4, room - Utf8Len(c), isEnd, done + Utf8Encode(c)) by {
      DecodeFromAdvance(s, i, room, isEnd, done, c);
    }
    DecodeFromSpec(s, i + 4, room - Utf8Len(c), isEnd, done + Utf8Encode(c));
    RunDecodesCons(s, i, room, isEnd, done, c, r);
  }

  /** A run after a chunk that decodes to `c`, seen from the chunk: it
      has written the UTF-8 form of `c` first, and its output may reach
      the same length. */
  lemma RunDecodesCons(s: seq<Byte>, i: nat, room: nat, isEnd: bool, done: seq<Byte>, c: Scalar, r: Run)
    requires i + 4 <= |s| && DecodeStepAt(s, i, isEnd) == Char(c) && Utf8Len(c) <= room
    requires RunDecodes(s, i + 4, room - Utf8Len(c), done + Utf8Encode(c), r)
    requires RunStops(s, isEnd, |done + Utf8Encode(c)| + (room - Utf8Len(c)), r)
    ensures RunDecodes(s, i, room, done, r) && RunStops(s, isEnd, |done| + room, r)
  {
    assert |done + Utf8Encode(c)| + (room - Utf8Len(c)) == |done| + room;
    var e := Utf8Encode(c);
    var rest := Decoded(s[i + 4..r.width]).value;
    assert Decoded(s[i..r.width]) == Some([c] + rest) by {
      DecodedPrefix(s, i, r.width, isEnd, c);
    }
    assert Utf8([c] + rest) == e + Utf8(rest) by {
      assert ([c] + rest)[1..] == rest;
    }
    assert r.out == done + Utf8([c] + rest);
  }

  /** A character that fits: the run goes on after its chunk. */
  lemma DecodeFromAdvance(s: seq<Byte>, i: nat, room: nat, isEnd: bool, done: seq<Byte>, c: Scalar)
    requires i < |s| && DecodeStepAt(s, i, isEnd) == Char(c) && Utf8Len(c) <= room
    ensures i + 4 <= |s|
    ensures DecodeFrom(s, i, room, isEnd, done) == DecodeFrom(s, i + 4, room - Utf8Len(c), isEnd, done + Utf8Encode(c))
  {
  }

  /** A chunk that decodes to `c`, followed by the one-go decoding of the
      rest of a slice up to `j`, is the one-go decoding of the slice. */
  lemma DecodedPrefix(s: seq<Byte>, i: nat, j: nat, isEnd: bool, c: Scalar)
    requires i < |s| && DecodeStepAt(s, i, isEnd) == Char(c) && i + 4 <= j <= |s|
    requires Decoded(s[i + 4..j]).Some?
    ensures Decoded(s[i..j]) == Some([c] + Decoded(s[i + 4..j]).value)
  {
    var u := s[i..j];
    assert u[0] == s[i] && u[1] == s[i + 1] && u[2] == s[i + 2] && u[3] == s[i + 3];
    assert DecodeStepAt(u, 0, true) == Char(c);
    assert u[4..] == s[i + 4..j];
    DecodedCons(u, c);
  }

  /** One step of the one-go decoder. */
  lemma DecodedCons(u: seq<Byte>, c: Scalar)
    requires u != [] && DecodeStepAt(u, 0, true) == Char(c) && Decoded(u[4..]).Some?
    ensures Decoded(u) == Some([c] + Decoded(u[4..]).value)
  {
  }

  /** What a whole call produces (the run from the start). */
  lemma DecodeRunMeaning(s: seq<Byte>, room: nat, isEnd: bool)
    ensures var r := DecodeRun(s, room, isEnd);
      && r.width <= |s| && r.width % 4 == 0 && |r.out| <= room
      && Decoded(s[..r.width]).Some?
      && r.out == Utf8(Decoded(s[..r.width]).value)
      && (r.failure.Some? ==>
            || (r.failure == Some(4) && |s| - r.width >= 4 &&
                !IsScalar(UnitValue(s[r.width], s[r.width + 1], s[r.width + 2], s[r.width + 3])))
            || (isEnd && r.failure == Some(|s| - r.width) && 0 < |s| - r.width < 4))
      && (r.failure.None? && r.width < |s| ==>
            || (!isEnd && |s| - r.width < 4)
            || (DecodeStepAt(s, r.width, isEnd).Char? &&
                |r.out| + Utf8Len(DecodeStepAt(s, r.width, isEnd).c) > room))
  {
    DecodeFromSpec(s, 0, room, isEnd, []);
    var r := DecodeRun(s, room, isEnd);
    assert s[0..r.width] == s[..r.width];
  }

  /** A partial chunk at the end of the input is an error spanning it when
      the input ends there, and is left unconsumed otherwise. */
  lemma TrailingPartialChunk(s: seq<Byte>, i: nat, room: nat, isEnd: bool, done: seq<Byte>)
    requires i < |s| < i + 4
    ensures DecodeFrom(s, i, room, isEnd, done) == Run(done, i, if isEnd then Some(|s| - i) else None)
  {
  }

  // ---------------------------------------------------------------------
  // Encoding, then decoding

  /** A string's form decodes back to the string. */
  lemma {:induction false} EncodedDecodes(s: seq<Scalar>)
    ensures Decoded(Encoded(s)) == Some(s)
  {
    if s != [] {
      var u := Encoded(s);
      EncodedDecodes(s[1..]);
      UnitAt(s, 0, true);
      assert u[4..] == Encoded(s[1..]);
      DecodedCons(u, s[0]);
      assert [s[0]] + s[1..] == s;
    }
  }

  /** Bytes that decode are the form of what they decode to, so with
      `EncodedDecodes` UTF-32LE is a bijection between strings and the byte
      strings that decode. */
  lemma {:induction false} DecodesEncoded(b: seq<Byte>)
    requires Decoded(b).Some?
    ensures Encoded(Decoded(b).value) == b
    decreases |b|
  {
    if b != [] {
      var st := DecodeStepAt(b, 0, true);
      assert st.Char? && Decoded(b[4..]).Some?;
      var c := st.c;
      var t := Decoded(b[4..]).value;
      DecodesEncoded(b[4..]);
      assert Decoded(b).value == [c] + t;
      LeBytesRoundTrip(c, b[0], b[1], b[2], b[3]);
      assert Encoded([c] + t) == LeBytes(c) + Encoded(t) by {
        assert ([c] + t)[1..] == t;
      }
      assert b == [b[0], b[1], b[2], b[3]] + b[4..];
    }
  }

  /** The chunk at `4 * m` of a string's form is its `m`-th character. */
  lemma UnitAt(s: seq<Scalar>, m: nat, isEnd: bool)
    requires m < |s|
    ensures DecodeStepAt(Encoded(s), 4 * m, isEnd) == Char(s[m])
  {
    var b := Encoded(s);
    EncodedSplit(s, m);
    assert Encoded(s[m..]) == LeBytes(s[m]) + Encoded(s[m + 1..]) by {
      assert s[m..][1..] == s[m + 1..];
    }
    assert b[4 * m] == LeBytes(s[m])[0] && b[4 * m + 1] == LeBytes(s[m])[1];
    assert b[4 * m + 2] == LeBytes(s[m])[2] && b[4 * m + 3] == LeBytes(s[m])[3];
    LeBytesRoundTrip(s[m], 0, 0, 0, 0);
  }

  /** As the end of the input, with room for all of it, the form of a
      string decodes completely to the string's UTF-8 form. */
  lemma {:induction false} DecodeFromEncoded(s: seq<Scalar>, k: nat, room: nat, isEnd: bool, done: seq<Byte>)
    requires k <= |s| && |Utf8(s[k..])| <= room
    ensures DecodeFrom(Encoded(s), 4 * k, room, isEnd, done) == Run(done + Utf8(s[k..]), 4 * |s|, None)
    decreases |s| - k
  {
    var b := Encoded(s);
    if k == |s| {
      assert s[k..] == [];
      assert done + Utf8([]) == done;
    } else {
      var c := s[k];
      UnitAt(s, k, isEnd);
      assert Utf8(s[k..]) == Utf8Encode(c) + Utf8(s[k + 1..]) by {
        assert s[k..][1..] == s[k + 1..];
      }
      DecodeFromAdvance(b, 4 * k, room, isEnd, done, c);
      DecodeFromEncoded(s, k + 1, room - Utf8Len(c), isEnd, done + Utf8Encode(c));
      assert (done + Utf8Encode(c)) + Utf8(s[k + 1..]) == done + Utf8(s[k..]);
    }
  }

  /** The streaming round trip: with buffers large enough, one encoder call
      consumes all of a string and one decoder call on its output gives
      back the string's UTF-8 form. */
  lemma StreamRoundTrip(s: seq<Scalar>, encodeRoom: nat, decodeRoom: nat, isEnd: bool)
    requires 4 * |s| <= encodeRoom && |Utf8(s)| <= decodeRoom
    ensures EncodeRun(s, encodeRoom) == CharRun(Encoded(s), |s|, |Utf8(s)|, None)
    ensures DecodeRun(Encoded(s), decodeRoom, isEnd) == Run(Utf8(s), 4 * |s|, None)
  {
    assert s[..|s|] == s;
    assert s[0..] == s;
    DecodeFromEncoded(s, 0, decodeRoom, isEnd, []);
  }

  /** Encoding a whole string in calls with a buffer of `room` bytes,
      each call taking up where the previous one stopped, and collecting
      what they write. */
  function EncodeChunks(s: seq<Scalar>, room: nat): seq<Byte>
    requires room >= 4
    decreases |s|
  {
    if s == [] then []
    else
      var r := EncodeRun(s, room);
      r.out + EncodeChunks(s[r.chars..], room)
  }

  /** Decoding a whole byte string in calls with a buffer of `room` bytes,
      collecting the UTF-8 they write; `None` if a call fails or makes no
      progress. */
  function DecodeChunks(b: seq<Byte>, room: nat, isEnd: bool): Option<seq<Byte>>
    requires room >= 4
    decreases |b|
  {
    if b == [] then Some([])
    else
      var r := DecodeRun(b, room, isEnd);
      if r.failure.Some? || r.width == 0 || r.width > |b| then None
      else match DecodeChunks(b[r.width..], room, isEnd)
        case Some(rest) => Some(r.out + rest)
        case None => None
  }

  /** Encoding in chunks writes the form of the whole string. */
  lemma {:induction false} EncodeChunksWhole(s: seq<Scalar>, room: nat)
    requires room >= 4
    ensures EncodeChunks(s, room) == Encoded(s)
    decreases |s|
  {
    if s != [] {
      var r := EncodeRun(s, room);
      EncodeChunksWhole(s[r.chars..], room);
      EncodedAppend(s[..r.chars], s[r.chars..]);
      TakeDrop(s, r.chars);
    }
  }

  /** One decoder call on the form of a non-empty string, with room for at
      least one character, decodes a non-empty prefix of it and consumes
      exactly that prefix's form. */
  lemma DecodeCallOnEncoded(s: seq<Scalar>, room: nat, isEnd: bool)
    requires s != [] && room >= 4
    ensures var r := DecodeRun(Encoded(s), room, isEnd);
      && r.failure.None? && 0 < r.width && r.width % 4 == 0 && r.width / 4 <= |s|
      && r.out == Utf8(s[..r.width / 4])
      && Encoded(s)[r.width..] == Encoded(s[r.width / 4..])
  {
    var b := Encoded(s);
    var r := DecodeRun(b, room, isEnd);
    DecodeRunMeaning(b, room, isEnd);
    var m := r.width / 4;
    assert r.width == 4 * m && m <= |s| by {
      WholeWidth(r.width, |s|);
    }
    assert b[..r.width] == Encoded(s[..m]) && b[r.width..] == Encoded(s[m..]) by {
      EncodedSplit(s, m);
    }
    assert r.out == Utf8(s[..m]) by {
      EncodedDecodes(s[..m]);
    }
    assert r.failure.None? && 0 < r.width by {
      if r.width < |b| {
        UnitAt(s, m, isEnd);
      }
    }
  }

  /** A width that is a whole number of four-byte units, within the form
      of `len` characters, is the form of `width / 4` of them. */
  lemma WholeWidth(width: nat, len: nat)
    requires width % 4 == 0 && width <= 4 * len
    ensures width == 4 * (width / 4) && width / 4 <= len
  {
  }

  /** Decoding the form of a string in chunks gives back the string's
      UTF-8 form. */
  lemma {:induction false} DecodeChunksOfEncoded(s: seq<Scalar>, room: nat, isEnd: bool)
    requires room >= 4
    ensures DecodeChunks(Encoded(s), room, isEnd) == Some(Utf8(s))
    decreases |s|
  {
    if s != [] {
      var b := Encoded(s);
      var r := DecodeRun(b, room, isEnd);
      DecodeCallOnEncoded(s, room, isEnd);
      var m := r.width / 4;
      DecodeChunksOfEncoded(s[m..], room, isEnd);
      Utf8Append(s[..m], s[m..]);
      TakeDrop(s, m);
    }
  }

  /** The round trip of the property test: text encoded in chunks through
      a buffer and decoded back in chunks through a buffer comes back
      unchanged, for any buffer that holds one character. */
  lemma ChunkedRoundTrip(s: seq<Scalar>, room: nat, isEnd: bool)
    requires room >= 4
    ensures DecodeChunks(EncodeChunks(s, room), room, isEnd) == Some(Utf8(s))
  {
    EncodeChunksWhole(s, room);
    DecodeChunksOfEncoded(s, room, isEnd);
  }
}
