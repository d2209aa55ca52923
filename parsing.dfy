/** The text handling the table generators do on each line of an index
    file: Python's `str.split()`, `str.startswith` and `int(token, base)`,
    and Rust's `str::trim`, `split_whitespace`, `&token[2..]` and
    `from_str_radix`. A numeral formatter is the parsers' inverse. */
module Parsing {
  import opened Wrappers

  /** Why a generator stops without producing tables. */
  datatype GenError =
    | ValueError          // Python `int()` rejected a token
    | NotAsciiExtension(codepoint: int)  // the explicit `raise` of the ASCII check
    | IndexError          // Python indexed past the end of a list
    | Panic               // Rust `unwrap`, `assert!` or integer overflow

  // ---------------------------------------------------------------------
  // Tokens

  /** The whitespace both languages split on (the ASCII part of it). */
  predicate IsSpace(c: char) {
    c == ' ' || c == '\t' || c == '\n' || c == '\r' || c == '\U{000B}' || c == '\U{000C}'
  }

  /** Length of the run of non-space characters `s` starts with. */
  function TokenLength(s: string): (n: nat)
    ensures n <= |s|
  {
    if s == [] || IsSpace(s[0]) then 0 else 1 + TokenLength(s[1..])
  }

  /** `line.split()` / `line.split_whitespace()`: the maximal runs of
      non-space characters, in order. */
  function Split(s: string): seq<string>
    decreases |s|
  {
    if s == [] then []
    else if IsSpace(s[0]) then Split(s[1..])
    else
      var n := TokenLength(s);
      [s[..n]] + Split(s[n..])
  }

  /** A token: non-empty, without whitespace. */
  predicate IsToken(t: string) {
    t != [] && forall k :: 0 <= k < |t| ==> !IsSpace(t[k])
  }

  lemma {:induction false} TokenLengthOfToken(t: string, rest: string)
    requires forall k :: 0 <= k < |t| ==> !IsSpace(t[k])
    requires rest == [] || IsSpace(rest[0])
    ensures TokenLength(t + rest) == |t|
  {
    if t == [] {
      assert t + rest == rest;
    } else {
      assert (t + rest)[1..] == t[1..] + rest;
      TokenLengthOfToken(t[1..], rest);
    }
  }

  /** Splitting reads a token back whole, and every token of the result is
      a token: the splitter and joining with spaces are inverse. */
  lemma SplitToken(t: string, rest: string)
    requires IsToken(t)
    requires rest == [] || IsSpace(rest[0])
    ensures Split(t + rest) == [t] + Split(rest)
  {
    TokenLengthOfToken(t, rest);
    assert (t + rest)[..|t|] == t;
    assert (t + rest)[|t|..] == rest;
  }

  /** Every element of a split is a token. */
  lemma {:induction false} SplitGivesTokens(s: string)
    ensures forall k :: 0 <= k < |Split(s)| ==> IsToken(Split(s)[k])
    decreases |s|
  {
    if s != [] {
      if IsSpace(s[0]) {
        SplitGivesTokens(s[1..]);
      } else {
        var n := TokenLength(s);
        TokenLengthSpec(s);
        SplitGivesTokens(s[n..]);
        var parts := Split(s);
        assert parts == [s[..n]] + Split(s[n..]);
        forall k | 0 <= k < |parts|
          ensures IsToken(parts[k])
        {
          if k > 0 {
            assert parts[k] == Split(s[n..])[k - 1];
          }
        }
      }
    }
  }

  lemma {:induction false} TokenLengthSpec(s: string)
    ensures forall k :: 0 <= k < TokenLength(s) ==> !IsSpace(s[k])
    ensures s != [] && !IsSpace(s[0]) ==> TokenLength(s) > 0
  {
    if s != [] && !IsSpace(s[0]) {
      TokenLengthSpec(s[1..]);
      forall k | 0 < k < TokenLength(s)
        ensures !IsSpace(s[k])
      {
        assert s[k] == s[1..][k - 1];
      }
    }
  }

  /** `str::trim`: the string without leading and trailing whitespace. */
  function Trim(s: string): string
    decreases |s|
  {
    if s == [] then []
    else if IsSpace(s[0]) then Trim(s[1..])
    else if IsSpace(s[|s| - 1]) then Trim(s[..|s| - 1])
    else s
  }

  /** Trimming leaves no whitespace at either end, and changes nothing
      when there is none. */
  lemma {:induction false} TrimSpec(s: string)
    ensures var t := Trim(s);
      && (t != [] ==> !IsSpace(t[0]) && !IsSpace(t[|t| - 1]))
      && (s == [] || (!IsSpace(s[0]) && !IsSpace(s[|s| - 1])) ==> t == s)
    decreases |s|
  {
    if s != [] {
      if IsSpace(s[0]) {
        TrimSpec(s[1..]);
      } else if IsSpace(s[|s| - 1]) {
        TrimSpec(s[..|s| - 1]);
      }
    }
  }

  /** `str.startswith(prefix)`. */
  predicate StartsWith(s: string, prefix: string) {
    |prefix| <= |s| && s[..|prefix|] == prefix
  }

  // ---------------------------------------------------------------------
  // Integers

  /** The value of one digit character, in any base up to 16. */
  function DigitValue(c: char): Option<nat> {
    if '0' <= c <= '9' then Some(c as int - '0' as int)
    else if 'a' <= c <= 'f' then Some(c as int - 'a' as int + 10)
    else if 'A' <= c <= 'F' then Some(c as int - 'A' as int + 10)
    else None
  }

  /** The value of a non-empty run of base-`base` digits; `None` for an
      empty run or a character that is not such a digit. */
  function DigitsValue(s: string, base: nat): Option<nat>
    requires 2 <= base <= 16
    decreases |s|
  {
    if s == [] then None
    else
      var d := DigitValue(s[|s| - 1]);
      if d.None? || d.value >= base then None
      else if |s| == 1 then Some(d.value)
      else match DigitsValue(s[..|s| - 1], base)
        case None => None
        case Some(v) => Some(v * base + d.value)
  }

  /** A run whose first character is not a digit has no value. */
  lemma {:induction false} DigitsValueOfBadFirst(s: string, base: nat)
    requires 2 <= base <= 16
    requires s != [] && DigitValue(s[0]).None?
    ensures DigitsValue(s, base) == None
    decreases |s|
  {
    if |s| > 1 {
      var init := s[..|s| - 1];
      assert init[0] == s[0];
      DigitsValueOfBadFirst(init, base);
    }
  }

  /** `int(token, base)` for base 10 or 16: an optional sign, for base 16
      an optional `0x`/`0X` prefix, then at least one digit. */
  function PyInt(tok: string, base: nat): Option<int>
    requires base == 10 || base == 16
  {
    var negative := |tok| > 0 && tok[0] == '-';
    var unsigned := if |tok| > 0 && (tok[0] == '-' || tok[0] == '+') then tok[1..] else tok;
    var digits := if base == 16 && (StartsWith(unsigned, "0x") || StartsWith(unsigned, "0X")) then unsigned[2..] else unsigned;
    match DigitsValue(digits, base)
      case None => None
      case Some(v) =>
        var x: int := if negative then -(v as int) else v;
        Some(x)
  }

  /** `from_str_radix` for an unsigned type whose largest value is `max`:
      an optional `+`, then at least one digit, and a value that fits. */
  function RustUnsigned(tok: string, base: nat, max: nat): Option<nat>
    requires 2 <= base <= 16
  {
    var digits := if |tok| > 0 && tok[0] == '+' then tok[1..] else tok;
    match DigitsValue(digits, base)
      case None => None
      case Some(v) => if v <= max then Some(v) else None
  }

  const U32Max: nat := 0xFFFF_FFFF
  const UsizeMax: nat := 0xFFFF_FFFF_FFFF_FFFF

  /** `&token[2..]`: the token without its first two UTF-8 bytes; `None`
      (a panic) when it is shorter than that or byte 2 is inside a
      character. */
  function DropTwoBytes(tok: string): Option<string> {
    if |tok| >= 2 && tok[0] as int < 0x80 && tok[1] as int < 0x80 then Some(tok[2..])
    else if |tok| >= 1 && 0x80 <= tok[0] as int < 0x800 then Some(tok[1..])
    else None
  }

  // ---------------------------------------------------------------------
  // Numerals: the inverse of the parsers

  /** The digit character of a value below 16 (upper case). */
  function DigitChar(d: nat): (c: char)
    requires d < 16
    ensures DigitValue(c) == Some(d)
    ensures '0' <= c <= '9' || 'A' <= c <= 'F'
  {
    if d < 10 then ('0' as int + d) as char else ('A' as int + d - 10) as char
  }

  /** The numeral of `n` in base `base`, most significant digit first. */
  function Numeral(n: nat, base: nat): (s: string)
    requires 2 <= base <= 16
    ensures s != []
    decreases n
  {
    if n < base then [DigitChar(n)] else Numeral(n / base, base) + [DigitChar(n % base)]
  }

  /** Numerals are tokens: no whitespace, no sign and no `#` in them. */
  lemma NumeralIsToken(n: nat, base: nat)
    requires 2 <= base <= 16
    ensures IsToken(Numeral(n, base))
    ensures !StartsWith(Numeral(n, base), "#")
    ensures Numeral(n, base)[0] != '-' && Numeral(n, base)[0] != '+'
  {
    var t := Numeral(n, base);
    NumeralDigits(n, base);
    assert t[..1] == [t[0]];
  }

  /** Every character of a numeral is a digit. */
  lemma {:induction false} NumeralDigits(n: nat, base: nat)
    requires 2 <= base <= 16
    ensures forall k :: 0 <= k < |Numeral(n, base)| ==> DigitValue(Numeral(n, base)[k]).Some?
    decreases n
  {
    if n >= base {
      NumeralDigits(n / base, base);
      var s := Numeral(n / base, base);
      var t := Numeral(n, base);
      assert t == s + [DigitChar(n % base)];
    }
  }

  /** Reading a numeral back gives the number. */
  lemma {:induction false} NumeralRoundTrip(n: nat, base: nat)
    requires 2 <= base <= 16
    ensures DigitsValue(Numeral(n, base), base) == Some(n)
    decreases n
  {
    if n < base {
      assert Numeral(n, base) == [DigitChar(n)];
    } else {
      NumeralRoundTrip(n / base, base);
      NumeralStep(n, base);
    }
  }

  /** The last digit of a numeral is the remainder, the rest the quotient. */
  lemma NumeralStep(n: nat, base: nat)
    requires 2 <= base <= 16 && n >= base
    requires DigitsValue(Numeral(n / base, base), base) == Some(n / base)
    ensures DigitsValue(Numeral(n, base), base) == Some(n)
  {
    var q, r := n / base, n % base;
    DivMod(n, base);
    var c := DigitChar(r);
    var p := Numeral(q, base);
    DigitsValueSnoc(p, c, base);
    assert Numeral(n, base) == p + [c];
  }

  /** One more digit multiplies the value by the base and adds the digit. */
  lemma DigitsValueSnoc(s: string, c: char, base: nat)
    requires 2 <= base <= 16 && DigitsValue(s, base).Some?
    requires DigitValue(c).Some? && DigitValue(c).value < base
    ensures DigitsValue(s + [c], base) == Some(DigitsValue(s, base).value * base + DigitValue(c).value)
  {
    assert (s + [c])[..|s|] == s;
  }

  lemma DivMod(n: nat, base: nat)
    requires 2 <= base
    ensures n == (n / base) * base + n % base
  {
  }

  /** A `0x` literal is a token. */
  lemma HexLiteralIsToken(n: nat)
    ensures IsToken("0x" + Numeral(n, 16))
  {
    var h := Numeral(n, 16);
    var b := "0x" + h;
    NumeralIsToken(n, 16);
    forall k | 2 <= k < |b|
      ensures !IsSpace(b[k])
    {
      assert b[k] == h[k - 2];
    }
  }

  /** `int(numeral)` and `int("0x" + numeral, 16)` give back the number. */
  lemma PyIntOfNumeral(n: nat)
    ensures PyInt(Numeral(n, 10), 10) == Some(n)
    ensures PyInt("0x" + Numeral(n, 16), 16) == Some(n)
  {
    NumeralIsToken(n, 10);
    NumeralRoundTrip(n, 10);
    NumeralIsToken(n, 16);
    NumeralRoundTrip(n, 16);
    var h := "0x" + Numeral(n, 16);
    assert h[2..] == Numeral(n, 16);
    assert StartsWith(h, "0x");
  }
}
