/** The result types every codec returns (`EncodeResult`, `DecodeResult`,
    `EncodeError`, `DecodeError`). The `Ok` slices are modelled by the bytes
    they contain. */
module Results {
  import opened Text

  /** A character that the target encoding cannot represent. The error range
      is a byte range of the UTF-8 input. */
  datatype EncodeError = EncodeError(character: Scalar, errorRange: (nat, nat), outputBytesWritten: nat)

  /** Invalid input data (the cause is always "invalid data", so it is not
      stored). */
  datatype DecodeError = DecodeError(errorRange: (nat, nat), outputBytesWritten: nat)

  /** `Ok((&output[..written], consumed))` or `Err(EncodeError)`. */
  datatype EncodeResult = EncodeOk(encoded: seq<Byte>, consumed: nat) | EncodeErr(err: EncodeError)

  /** `Ok((decoded text, consumed))` or `Err(DecodeError)`; the text is given
      by its UTF-8 bytes. */
  datatype DecodeResult = DecodeOk(decoded: seq<Byte>, consumed: nat) | DecodeErr(err: DecodeError)
}
