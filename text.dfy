/** Bytes, Unicode scalar values and their UTF-8 form.

    A Rust `&str` is modelled as a sequence of scalar values; the byte
    offsets that the codecs report are lengths of UTF-8 encodings of
    prefixes of that sequence. */
module Text {

  /** An octet (`u8`). */
  type Byte = b: int | 0 <= b < 0x100

  /** A Unicode scalar value: a code point that is not a surrogate. */
  predicate IsScalar(v: int) {
    0 <= v < 0xD800 || 0xE000 <= v < 0x11_0000
  }

  /** Rust's `char`. */
  type Scalar = c: int | 0 <= c < 0xD800 || 0xE000 <= c < 0x11_0000

  /** U+FFFD, the replacement character, which the generated decode tables
      use as the "undefined" sentinel. */
  const Replacement: Scalar := 0xFFFD

  /** `char::len_utf8`. */
  function Utf8Len(c: Scalar): (n: nat)
    ensures 1 <= n <= 4
    ensures n == 1 <==> c < 0x80
  {
    if c < 0x80 then 1
    else if c < 0x800 then 2
    else if c < 0x1_0000 then 3
    else 4
  }

  /** `char::encode_utf8`: the UTF-8 encoding of one scalar value. */
  function Utf8Encode(c: Scalar): (b: seq<Byte>)
    ensures |b| == Utf8Len(c)
    ensures c < 0x80 ==> b == [c]
  {
    if c < 0x80 then [c as Byte]
    else if c < 0x800 then [0xC0 + c / 64, 0x80 + c % 64]
    else if c < 0x1_0000 then [0xE0 + c / 4096, 0x80 + (c / 64) % 64, 0x80 + c % 64]
    else
      assert c < 5 * 262144;
      [0xF0 + c / 262144, 0x80 + (c / 4096) % 64, 0x80 + (c / 64) % 64, 0x80 + c % 64]
  }

  /** The UTF-8 bytes of a string (what `str::as_bytes` gives). */
  function Utf8(s: seq<Scalar>): seq<Byte> {
    if s == [] then [] else Utf8Encode(s[0]) + Utf8(s[1..])
  }

  /** UTF-8 of a concatenation is the concatenation of the UTF-8 forms; this
      is what makes a byte offset of a prefix well defined. */
  lemma {:induction false} Utf8Append(a: seq<Scalar>, b: seq<Scalar>)
    ensures Utf8(a + b) == Utf8(a) + Utf8(b)
  {
    if a == [] {
      assert a + b == b;
    } else {
      assert (a + b)[1..] == a[1..] + b;
      Utf8Append(a[1..], b);
    }
  }

  /** Appending one character adds its UTF-8 length to the byte offset. */
  lemma Utf8Snoc(a: seq<Scalar>, c: Scalar)
    ensures Utf8(a + [c]) == Utf8(a) + Utf8Encode(c)
    ensures |Utf8(a + [c])| == |Utf8(a)| + Utf8Len(c)
  {
    Utf8Append(a, [c]);
    assert Utf8([c]) == Utf8Encode(c) + Utf8([]);
  }

  /** The UTF-8 length of `s[i..j]`, summed character by character. */
  function Utf8Span(s: seq<Scalar>, i: nat, j: nat): nat
    requires i <= j <= |s|
    decreases j - i
  {
    if i == j then 0 else Utf8Len(s[i]) + Utf8Span(s, i + 1, j)
  }

  /** The sum is the length of the UTF-8 form of the slice. */
  lemma {:induction false} Utf8SpanLength(s: seq<Scalar>, i: nat, j: nat)
    requires i <= j <= |s|
    ensures Utf8Span(s, i, j) == |Utf8(s[i..j])|
    decreases j - i
  {
    if i < j {
      Utf8SpanLength(s, i + 1, j);
      assert s[i..j][1..] == s[i + 1..j];
    } else {
      assert s[i..j] == [];
    }
  }

  /** A string of ASCII characters is its own UTF-8 encoding, byte for byte. */
  lemma {:induction false} Utf8OfAscii(s: seq<Scalar>)
    requires forall k :: 0 <= k < |s| ==> s[k] < 0x80
    ensures Utf8(s) == s
  {
    if s != [] {
      Utf8OfAscii(s[1..]);
    }
  }
}
