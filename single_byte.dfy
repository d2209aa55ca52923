/** The codecs shared by the single-byte encodings that extend ASCII
    (`ascii_ext_encode_from_str`, `ascii_ext_decode_to_str`), the `ascii`
    wrappers, and the ISO-8859-1 tables. Each generated module passes its
    own `ENCODE_TABLE` and `DECODE_TABLE`; here they are parameters. */
module SingleByte {
  import opened Wrappers
  import opened Text
  import opened Results
  import opened Stream
  import opened Lookup

  /** `ENCODE_TABLE: [(char, u8); N]`, sorted by code point. */
  type EncodeTable = seq<(Scalar, Byte)>

  /** `DECODE_TABLE: [char; 128]`: slot `k` holds the character of byte
      `0x80 + k`, or U+FFFD when that byte is undefined. */
  type DecodeTable = t: seq<Scalar> | |t| == 128 witness seq(128, k => Replacement)

  // ---------------------------------------------------------------------
  // Encoding

  /** The byte for one character: itself below U+0080, otherwise the table's
      entry. */
  function EncodeChar(table: EncodeTable, c: Scalar): Option<Byte> {
    if c <= 127 then Some(c) else KeyLookup(table, c)
  }

  /** A whole string encoded in one go; `None` if any character is
      unencodable. The reference the streaming encoder is checked against. */
  function EncodedBytes(table: EncodeTable, s: seq<Scalar>): Option<seq<Byte>> {
    if s == [] then Some([])
    else match (EncodeChar(table, s[0]), EncodedBytes(table, s[1..]))
      case (Some(b), Some(rest)) => Some([b] + rest)
      case _ => None
  }

  /** A string encodes exactly when each of its characters does, and then
      to one byte per character, in order. */
  lemma {:induction false} EncodedBytesSpec(table: EncodeTable, s: seq<Scalar>)
    ensures EncodedBytes(table, s).Some? <==> forall j :: 0 <= j < |s| ==> EncodeChar(table, s[j]).Some?
    ensures EncodedBytes(table, s).Some? ==>
      |EncodedBytes(table, s).value| == |s| &&
      forall j :: 0 <= j < |s| ==> EncodeChar(table, s[j]) == Some(EncodedBytes(table, s).value[j])
  {
    if s != [] {
      EncodedBytesSpec(table, s[1..]);
      assert forall j :: 1 <= j < |s| ==> s[j] == s[1..][j - 1];
    }
  }

  /** What `ascii_ext_encode_from_str` does from `s[k]` on, at byte
      offset `offset`, with `room` bytes of output left and `done` written so
      far: it stops when the output is full, and otherwise writes the
      character's byte or fails on it with an error as long as its UTF-8
      form. */
  function EncodeFrom(table: EncodeTable, s: seq<Scalar>, k: nat, offset: nat, room: nat, done: seq<Byte>): CharRun
    requires k <= |s|
    decreases |s| - k
  {
    if k == |s| || room == 0 then CharRun(done, k, offset, None)
    else match EncodeChar(table, s[k])
      case Some(b) => EncodeFrom(table, s, k + 1, offset + Utf8Len(s[k]), room - 1, done + [b])
      case None => CharRun(done, k, offset, Some(Utf8Len(s[k])))
  }

  /** What a call does with an output buffer of `room` bytes. */
  function EncodeRun(table: EncodeTable, s: seq<Scalar>, room: nat): CharRun {
    EncodeFrom(table, s, 0, 0, room, [])
  }

  /** One character's byte, found by binary search in `table`. */
  method LookupChar(table: EncodeTable, c: Scalar) returns (r: Option<Byte>)
    requires SortedByKey(table)
    ensures r == EncodeChar(table, c)
  {
    if c <= 127 {
      r := Some(c);
    } else {
      var found := BinarySearchByKey(table, c);
      r := if found.Some? then Some(table[found.value].1) else None;
    }
  }

  /** `ascii_ext_encode_from_str`: encodes `input` into `output` until the
      input ends, the output is full, or a character cannot be encoded. */
  method EncodeFromStr(table: EncodeTable, input: seq<Scalar>, output: array<Byte>) returns (r: EncodeResult)
    requires SortedByKey(table)
    modifies output
    ensures var run := EncodeRun(table, input, output.Length);
      && (run.failure.Some? ==> run.chars < |input|)
      && |run.out| <= output.Length
      && output[..|run.out|] == run.out
      && (forall j :: |run.out| <= j < output.Length ==> output[j] == old(output[j]))
      && r == EncodeResultOf(input, run)
  {
    ghost var whole := EncodeRun(table, input, output.Length);
    EncodeFromBounds(table, input, 0, 0, output.Length, []);
    var k := 0;            // position in `char_indices`
    var offset: nat := 0;  // byte offset of `input[k]`
    var outputI := 0;
    while k < |input|
      invariant 0 <= k <= |input| && 0 <= outputI <= output.Length
      invariant whole == EncodeFrom(table, input, k, offset, output.Length - outputI, output[..outputI])
      invariant forall j :: outputI <= j < output.Length ==> output[j] == old(output[j])
    {
      var c := input[k];
      if outputI >= output.Length {
        break;
      }
      var code := LookupChar(table, c);
      if code.None? {
        r := EncodeErr(EncodeError(c, (offset, offset + Utf8Len(c)), outputI));
        return;
      }
      assert whole == EncodeFrom(table, input, k + 1, offset + Utf8Len(c), output.Length - outputI - 1, output[..outputI] + [code.value]);
      Put(output, outputI, code.value);
      outputI := outputI + 1;
      // `input_i = offset + 1`, rounded up to the next character boundary.
      offset := offset + Utf8Len(c);
      k := k + 1;
    }
    r := EncodeOk(output[..outputI], offset);
  }

  /** The shape of a run: it extends `done` by one byte per character
      consumed, within the room it has. */
  lemma {:induction false} EncodeFromBounds(table: EncodeTable, s: seq<Scalar>, k: nat, offset: nat, room: nat, done: seq<Byte>)
    requires k <= |s|
    ensures var r := EncodeFrom(table, s, k, offset, room, done);
      && k <= r.chars <= |s| && |r.out| == |done| + (r.chars - k) <= |done| + room
      && (r.failure.Some? ==> r.chars < |s|)
    decreases |s| - k
  {
    if k < |s| && room > 0 && EncodeChar(table, s[k]).Some? {
      EncodeFromBounds(table, s, k + 1, offset + Utf8Len(s[k]), room - 1, done + [EncodeChar(table, s[k]).value]);
    }
  }

  /** What a run from `s[k]` produces: the bytes after `done` are the
      encoding of the characters consumed, one byte each, and the offset
      moves past their UTF-8 form; a run that fails stops at an unencodable
      character, with room still left, and reports the UTF-8 length of that
      character; a run that succeeds has consumed everything or filled the
      buffer. */
  lemma {:induction false} EncodeFromMeaning(table: EncodeTable, s: seq<Scalar>, k: nat, offset: nat, room: nat, done: seq<Byte>)
    requires k <= |s|
    ensures var r := EncodeFrom(table, s, k, offset, room, done);
      && k <= r.chars <= |s| && r.chars - k <= room
      && EncodedBytes(table, s[k..r.chars]).Some?
      && r.out == done + EncodedBytes(table, s[k..r.chars]).value
      && r.offset == offset + |Utf8(s[k..r.chars])|
      && (r.failure.Some? ==>
            && r.chars < |s| && r.chars - k < room
            && EncodeChar(table, s[r.chars]).None?
            && r.failure == Some(Utf8Len(s[r.chars])))
      && (r.failure.None? ==> r.chars == |s| || r.chars - k == room)
    decreases |s| - k
  {
    if k == |s| || room == 0 || EncodeChar(table, s[k]).None? {
      assert s[k..k] == [];
    } else {
      var b := EncodeChar(table, s[k]).value;
      EncodeFromMeaning(table, s, k + 1, offset + Utf8Len(s[k]), room - 1, done + [b]);
      var r := EncodeFrom(table, s, k + 1, offset + Utf8Len(s[k]), room - 1, done + [b]);
      assert s[k..r.chars][0] == s[k] && s[k..r.chars][1..] == s[k + 1..r.chars];
    }
  }

  /** What a whole call produces: the bytes written encode the characters
      consumed, and the consumed count is the length of their UTF-8 form;
      a failing call stops at an unencodable character with room left and
      reports that character's UTF-8 length; a succeeding call has consumed
      everything or filled the buffer. */
  lemma EncodeRunMeaning(table: EncodeTable, s: seq<Scalar>, room: nat)
    ensures var r := EncodeRun(table, s, room);
      && r.chars <= |s| && r.chars <= room
      && EncodedBytes(table, s[..r.chars]) == Some(r.out)
      && r.offset == |Utf8(s[..r.chars])|
      && (r.failure.Some? ==>
            && r.chars < |s| && r.chars < room
            && EncodeChar(table, s[r.chars]).None?
            && r.failure == Some(Utf8Len(s[r.chars])))
      && (r.failure.None? ==> r.chars == |s| || r.chars == room)
  {
    EncodeFromMeaning(table, s, 0, 0, room, []);
    var r := EncodeRun(table, s, room);
    assert s[0..r.chars] == s[..r.chars];
    var e := EncodedBytes(table, s[..r.chars]);
    assert e.Some? && [] + e.value == e.value;
  }

  /** With room for all of it, an encodable string is encoded completely,
      and the whole of its UTF-8 form is reported consumed. */
  lemma EncodeRunComplete(table: EncodeTable, s: seq<Scalar>, room: nat)
    requires EncodedBytes(table, s).Some? && |s| <= room
    ensures EncodeRun(table, s, room) == CharRun(EncodedBytes(table, s).value, |s|, |Utf8(s)|, None)
  {
    EncodeRunMeaning(table, s, room);
    EncodedBytesSpec(table, s);
    var r := EncodeRun(table, s, room);
    assert s[..|s|] == s;
  }

  // ---------------------------------------------------------------------
  // Decoding

  /** The character for one byte: itself below 0x80, otherwise the table's
      slot, where U+FFFD means "undefined". */
  function DecodeByte(table: DecodeTable, b: Byte): Option<Scalar> {
    if b < 0x80 then Some(b)
    else if table[b - 0x80] == Replacement then None
    else Some(table[b - 0x80])
  }

  /** Bytes decoded in one go; `None` if any byte is undefined. */
  function DecodedText(table: DecodeTable, s: seq<Byte>): Option<seq<Scalar>> {
    if s == [] then Some([])
    else match (DecodeByte(table, s[0]), DecodedText(table, s[1..]))
      case (Some(c), Some(rest)) => Some([c] + rest)
      case _ => None
  }

  /** Bytes decode exactly when each of them does, and then to one character
      per byte, in order. */
  lemma {:induction false} DecodedTextSpec(table: DecodeTable, s: seq<Byte>)
    ensures DecodedText(table, s).Some? <==> forall j :: 0 <= j < |s| ==> DecodeByte(table, s[j]).Some?
    ensures DecodedText(table, s).Some? ==>
      |DecodedText(table, s).value| == |s| &&
      forall j :: 0 <= j < |s| ==> DecodeByte(table, s[j]) == Some(DecodedText(table, s).value[j])
  {
    if s != [] {
      DecodedTextSpec(table, s[1..]);
      assert forall j :: 1 <= j < |s| ==> s[j] == s[1..][j - 1];
    }
  }

  /** What `ascii_ext_decode_to_str` does from `s[i]` on, with `room` bytes
      of output left and `done` written so far: an undefined byte is an
      error even when the output is full; a character that does not fit
      stops the call. */
  function DecodeFrom(table: DecodeTable, s: seq<Byte>, i: nat, room: nat, done: seq<Byte>): Run
    requires i <= |s|
    decreases |s| - i
  {
    if i == |s| then Run(done, i, None)
    else match DecodeByte(table, s[i])
      case None => Run(done, i, Some(1))
      case Some(c) =>
        if Utf8Len(c) <= room then DecodeFrom(table, s, i + 1, room - Utf8Len(c), done + Utf8Encode(c))
        else Run(done, i, None)
  }

  /** What a call does with an output buffer of `room` bytes. */
  function DecodeRun(table: DecodeTable, s: seq<Byte>, room: nat): Run {
    DecodeFrom(table, s, 0, room, [])
  }

  /** `ascii_ext_decode_to_str`: decodes `input` into UTF-8 in `output`,
      never writing part of a character. */
  method DecodeToStr(table: DecodeTable, input: seq<Byte>, output: array<Byte>) returns (r: DecodeResult)
    modifies output
    ensures var run := DecodeRun(table, input, output.Length);
      && |run.out| <= output.Length
      && output[..|run.out|] == run.out
      && (forall j :: |run.out| <= j < output.Length ==> output[j] == old(output[j]))
      && r == DecodeResultOf(run)
  {
    ghost var whole := DecodeRun(table, input, output.Length);
    DecodeFromBounds(table, input, 0, output.Length, []);
    var inputI := 0;
    var outputI := 0;
    while inputI < |input|
      invariant 0 <= inputI <= |input| && 0 <= outputI <= output.Length
      invariant whole == DecodeFrom(table, input, inputI, output.Length - outputI, output[..outputI])
      invariant forall j :: outputI <= j < output.Length ==> output[j] == old(output[j])
    {
      var byte := input[inputI];
      if byte < 0x80 {
        // 1-byte case
        if outputI >= output.Length {
          break;
        }
        Put(output, outputI, byte);
        inputI := inputI + 1;
        outputI := outputI + 1;
      } else {
        var code := table[byte - 0x80];
        if code == Replacement {
          // Error: undefined byte.
          r := DecodeErr(DecodeError((inputI, inputI + 1), outputI));
          return;
        }
        var s := Utf8Encode(code);
        if outputI + |s| > output.Length {
          break;
        }
        CopyInto(output, outputI, s);
        inputI := inputI + 1;
        outputI := outputI + |s|;
      }
    }
    r := DecodeOk(output[..outputI], inputI);
  }

  /** The shape of a run: it extends `done` within the room it has. */
  lemma {:induction false} DecodeFromBounds(table: DecodeTable, s: seq<Byte>, i: nat, room: nat, done: seq<Byte>)
    requires i <= |s|
    ensures var r := DecodeFrom(table, s, i, room, done);
      && i <= r.width <= |s| && |done| <= |r.out| <= |done| + room
      && (r.failure.Some? ==>
            r.failure == Some(1) && r.width < |s| && DecodeByte(table, s[r.width]).None?)
      && (r.failure.None? && r.width < |s| ==>
            && DecodeByte(table, s[r.width]).Some?
            && |r.out| + Utf8Len(DecodeByte(table, s[r.width]).value) > |done| + room)
    decreases |s| - i
  {
    if i < |s| && DecodeByte(table, s[i]).Some? {
      var c := DecodeByte(table, s[i]).value;
      if Utf8Len(c) <= room {
        DecodeFromBounds(table, s, i + 1, room - Utf8Len(c), done + Utf8Encode(c));
      }
    }
  }

  /** What a run from `s[i]` produces: the bytes after `done` are the UTF-8
      form of the characters of the bytes consumed; a run that fails stops
      at an undefined byte with a one-byte error; a run that succeeds has
      consumed everything, or the next character does not fit. */
  lemma {:induction false} DecodeFromMeaning(table: DecodeTable, s: seq<Byte>, i: nat, room: nat, done: seq<Byte>)
    requires i <= |s|
    ensures var r := DecodeFrom(table, s, i, room, done);
      && i <= r.width <= |s|
      && DecodedText(table, s[i..r.width]).Some?
      && r.out == done + Utf8(DecodedText(table, s[i..r.width]).value)
    decreases |s| - i
  {
    if i == |s| || DecodeByte(table, s[i]).None? {
      assert s[i..i] == [];
    } else {
      var c := DecodeByte(table, s[i]).value;
      if Utf8Len(c) <= room {
        var done' := done + Utf8Encode(c);
        var r := DecodeFrom(table, s, i + 1, room - Utf8Len(c), done');
        assert DecodeFrom(table, s, i, room, done) == r;
        DecodeFromMeaning(table, s, i + 1, room - Utf8Len(c), done');
        var text' := DecodedText(table, s[i + 1..r.width]).value;
        assert DecodedText(table, s[i..r.width]) == Some([c] + text') by {
          var t := s[i..r.width];
          assert t != [] && t[0] == s[i] && t[1..] == s[i + 1..r.width];
        }
        assert Utf8([c] + text') == Utf8Encode(c) + Utf8(text') by {
          assert ([c] + text')[1..] == text';
        }
        assert r.out == done + Utf8([c] + text');
      } else {
        assert s[i..i] == [];
      }
    }
  }

  /** What a whole call produces (the run from the start, with nothing
      written yet). */
  lemma DecodeRunMeaning(table: DecodeTable, s: seq<Byte>, room: nat)
    ensures var r := DecodeRun(table, s, room);
      && r.width <= |s| && |r.out| <= room
      && DecodedText(table, s[..r.width]).Some?
      && r.out == Utf8(DecodedText(table, s[..r.width]).value)
      && (r.failure.Some? ==>
            r.failure == Some(1) && r.width < |s| && DecodeByte(table, s[r.width]).None?)
      && (r.failure.None? && r.width < |s| ==>
            && DecodeByte(table, s[r.width]).Some?
            && |r.out| + Utf8Len(DecodeByte(table, s[r.width]).value) > room)
  {
    DecodeFromBounds(table, s, 0, room, []);
    DecodeFromMeaning(table, s, 0, room, []);
    var r := DecodeRun(table, s, room);
    assert s[0..r.width] == s[..r.width];
  }

  /** From `s[i]` on, with room for the whole decoded rest, defined input
      is decoded to its end. */
  lemma {:induction false} DecodeFromComplete(table: DecodeTable, s: seq<Byte>, i: nat, room: nat, done: seq<Byte>)
    requires i <= |s|
    requires DecodedText(table, s[i..]).Some? && |Utf8(DecodedText(table, s[i..]).value)| <= room
    ensures DecodeFrom(table, s, i, room, done) == Run(done + Utf8(DecodedText(table, s[i..]).value), |s|, None)
    decreases |s| - i
  {
    if i < |s| {
      assert s[i..][0] == s[i] && s[i..][1..] == s[i + 1..];
      var c := DecodeByte(table, s[i]).value;
      var rest := DecodedText(table, s[i + 1..]).value;
      assert Utf8([c] + rest) == Utf8Encode(c) + Utf8(rest);
      DecodeFromComplete(table, s, i + 1, room - Utf8Len(c), done + Utf8Encode(c));
    }
  }

  /** With room for the whole decoded text, defined input is decoded
      completely. */
  lemma DecodeRunComplete(table: DecodeTable, s: seq<Byte>, room: nat)
    requires DecodedText(table, s).Some? && |Utf8(DecodedText(table, s).value)| <= room
    ensures DecodeRun(table, s, room) == Run(Utf8(DecodedText(table, s).value), |s|, None)
  {
    assert s[0..] == s;
    DecodeFromComplete(table, s, 0, room, []);
  }

  // ---------------------------------------------------------------------
  // The `ascii` module and ISO-8859-1

  /** The `ascii` module's encode table: empty. */
  const AsciiEncodeTable: EncodeTable := []

  /** The `ascii` module's decode table: every slot undefined. */
  const AsciiDecodeTable: DecodeTable := seq(128, k => Replacement)

  /** `ascii::encode_from_str`. */
  method AsciiEncodeFromStr(input: seq<Scalar>, output: array<Byte>) returns (r: EncodeResult)
    modifies output
    ensures var run := EncodeRun(AsciiEncodeTable, input, output.Length);
      && (run.failure.Some? ==> run.chars < |input|)
      && |run.out| <= output.Length
      && output[..|run.out|] == run.out
      && (forall j :: |run.out| <= j < output.Length ==> output[j] == old(output[j]))
      && r == EncodeResultOf(input, run)
  {
    r := EncodeFromStr(AsciiEncodeTable, input, output);
  }

  /** `ascii::decode_to_str`. */
  method AsciiDecodeToStr(input: seq<Byte>, output: array<Byte>) returns (r: DecodeResult)
    modifies output
    ensures var run := DecodeRun(AsciiDecodeTable, input, output.Length);
      && |run.out| <= output.Length
      && output[..|run.out|] == run.out
      && (forall j :: |run.out| <= j < output.Length ==> output[j] == old(output[j]))
      && r == DecodeResultOf(run)
  {
    r := DecodeToStr(AsciiDecodeTable, input, output);
  }

  /** The `ascii` tables encode exactly the strings below U+0080, each
      character as its own byte, and decode exactly the bytes below 0x80. */
  lemma AsciiTablesAcceptOnlyAscii(s: seq<Scalar>, b: seq<Byte>)
    ensures EncodedBytes(AsciiEncodeTable, s).Some? <==> forall j :: 0 <= j < |s| ==> s[j] < 0x80
    ensures EncodedBytes(AsciiEncodeTable, s).Some? ==> EncodedBytes(AsciiEncodeTable, s).value == s
    ensures DecodedText(AsciiDecodeTable, b).Some? <==> forall j :: 0 <= j < |b| ==> b[j] < 0x80
  {
    EncodedBytesSpec(AsciiEncodeTable, s);
    DecodedTextSpec(AsciiDecodeTable, b);
  }

  /** The bytes of `b`, read as the characters U+0000..U+00FF. */
  function Widen(b: seq<Byte>): (s: seq<Scalar>)
    ensures |s| == |b| && forall j :: 0 <= j < |b| ==> s[j] == b[j]
  {
    seq(|b|, j requires 0 <= j < |b| => b[j] as Scalar)
  }

  /** The ISO-8859-1 decode table: byte `0x80 + k` is U+0080 + k. */
  const Latin1DecodeTable: DecodeTable := seq(128, k requires 0 <= k < 128 => (0x80 + k) as Scalar)

  /** The ISO-8859-1 encode table: U+0080 + k is byte `0x80 + k`. */
  const Latin1EncodeTable: EncodeTable := seq(128, k requires 0 <= k < 128 => ((0x80 + k) as Scalar, (0x80 + k) as Byte))

  /** ISO-8859-1 maps every byte to the code point of the same value and
      back: decoding any bytes and encoding the text again gives the bytes. */
  lemma Latin1RoundTrip(b: seq<Byte>)
    ensures DecodedText(Latin1DecodeTable, b) == Some(Widen(b))
    ensures EncodedBytes(Latin1EncodeTable, Widen(b)) == Some(b)
  {
    forall j | 0 <= j < |b|
      ensures DecodeByte(Latin1DecodeTable, b[j]) == Some(Widen(b)[j])
      ensures EncodeChar(Latin1EncodeTable, Widen(b)[j]) == Some(b[j])
    {
      var c := b[j];
      if c >= 0x80 {
        assert Latin1EncodeTable[c - 0x80] == (c, c);
        KeyLookupSpec(Latin1EncodeTable, c);
        var v := KeyLookup(Latin1EncodeTable, c).value;
        var i :| 0 <= i < 128 && Latin1EncodeTable[i] == (c, v);
      }
    }
    DecodedTextSpec(Latin1DecodeTable, b);
    EncodedBytesSpec(Latin1EncodeTable, Widen(b));
    var d := DecodedText(Latin1DecodeTable, b);
    assert d.Some? && d.value == Widen(b);
    var e := EncodedBytes(Latin1EncodeTable, Widen(b));
    assert e.Some? && e.value == b;
  }

  /** The chunk-free form of the ISO-8859-1 round trip: with buffers large
      enough, decoding consumes all the bytes and encoding its output gives
      them back. */
  lemma Latin1StreamRoundTrip(b: seq<Byte>, decodeRoom: nat, encodeRoom: nat)
    requires |Utf8(Widen(b))| <= decodeRoom && |b| <= encodeRoom
    ensures DecodeRun(Latin1DecodeTable, b, decodeRoom) == Run(Utf8(Widen(b)), |b|, None)
    ensures EncodeRun(Latin1EncodeTable, Widen(b), encodeRoom) == CharRun(b, |b|, |Utf8(Widen(b))|, None)
  {
    Latin1RoundTrip(b);
    DecodeRunComplete(Latin1DecodeTable, b, decodeRoom);
    EncodeRunComplete(Latin1EncodeTable, Widen(b), encodeRoom);
  }
}
