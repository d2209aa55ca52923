/** What the streaming codec loops have in common.

    Each codec's `encode_from_str` / `decode_to_str` reads its input one
    unit at a time (one `char` for the encoders; one, two or four bytes for
    the decoders) and writes into a caller-supplied output buffer, stopping
    at the end of the input, when the next unit's output does not fit, or at
    an error. A `Run` is what a whole call produces: the bytes written, the
    number of input elements consumed, and the length of the error range if
    the call failed. Each codec specifies its `Run` by a function that
    follows its loop, with the position, the room left and the bytes written
    so far as parameters. */
module Stream {
  import opened Wrappers
  import opened Text
  import opened Results

  datatype Run = Run(out: seq<Byte>, width: nat, failure: Option<nat>)

  /** The `DecodeResult` a decoder returns for a run; offsets are in bytes. */
  function DecodeResultOf(r: Run): DecodeResult {
    match r.failure
    case None => DecodeOk(r.out, r.width)
    case Some(span) => DecodeErr(DecodeError((r.width, r.width + span), |r.out|))
  }

  /** What an encoder call produces: the bytes written, the number of
      characters consumed, the byte offset those characters end at in the
      UTF-8 form of the input, and the length of the error range if the call
      failed. */
  datatype CharRun = CharRun(out: seq<Byte>, chars: nat, offset: nat, failure: Option<nat>)

  /** The `EncodeResult` an encoder returns for a run over the characters
      `s`: the consumed count and the error range are byte offsets, and the
      error names the character it stopped at. */
  function EncodeResultOf(s: seq<Scalar>, r: CharRun): EncodeResult
    requires r.failure.Some? ==> r.chars < |s|
  {
    match r.failure
    case None => EncodeOk(r.out, r.offset)
    case Some(span) => EncodeErr(EncodeError(s[r.chars], (r.offset, r.offset + span), |r.out|))
  }

  /** How one pass of a codec's loop body ends: the loop goes on, breaks,
      or returns an error. */
  datatype Next = Continue | Stop | Fail

  /** `output[at] = b`. */
  method Put(output: array<Byte>, at: nat, b: Byte)
    requires at < output.Length
    modifies output
    ensures output[..at + 1] == old(output[..at]) + [b]
    ensures forall j :: at + 1 <= j < output.Length ==> output[j] == old(output[j])
  {
    output[at] := b;
    assert output[..at + 1] == output[..at] + [b];
  }

  /** `output[at..at + s.len()].copy_from_slice(s)`. */
  method CopyInto(output: array<Byte>, at: nat, s: seq<Byte>)
    requires at + |s| <= output.Length
    modifies output
    ensures output[..at + |s|] == old(output[..at]) + s
    ensures forall j :: at + |s| <= j < output.Length ==> output[j] == old(output[j])
  {
    var k := 0;
    while k < |s|
      invariant 0 <= k <= |s|
      invariant output[..at + k] == old(output[..at]) + s[..k]
      invariant forall j :: at + k <= j < output.Length ==> output[j] == old(output[j])
    {
      output[at + k] := s[k];
      assert output[..at + k + 1] == output[..at + k] + [s[k]];
      assert s[..k + 1] == s[..k] + [s[k]];
      k := k + 1;
    }
    assert s[..k] == s;
  }
}
