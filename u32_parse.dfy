/**
 * Rust's `u32::from_str` (the `parse::<u32>()` calls of the configuration
 * parser): decimal digits after an optional single `+`, with the value
 * limited to 32 bits and a distinct error kind for each failure.
 */
module U32Parse {
  import opened Wrappers

  const MAX_U32: int := 0xFFFF_FFFF

  type uint32 = x: int | 0 <= x <= MAX_U32

  /** The kinds of `ParseIntError` that parsing an unsigned type can report. */
  datatype IntErrorKind = Empty | InvalidDigit | PosOverflow

  predicate IsAsciiDigit(c: char) {
    '0' <= c <= '9'
  }

  function DigitValue(c: char): (d: nat)
    requires IsAsciiDigit(c)
    ensures d <= 9
  {
    (c as int) - ('0' as int)
  }

  /**
   * The parse itself. An empty input is `Empty`; a lone sign is
   * `InvalidDigit`; one leading `+` is dropped (a `-` is not a sign for an
   * unsigned type, so it is an invalid digit); the rest is read left to
   * right by Accumulate.
   */
  function ParseU32(s: string): Result<uint32, IntErrorKind> {
    if s == [] then Err(Empty)
    else if s == "+" || s == "-" then Err(InvalidDigit)
    else if s[0] == '+' then Accumulate(s[1..], 0)
    else Accumulate(s, 0)
  }

  /**
   * One step per character: a non-digit stops with `InvalidDigit`, and a
   * digit that takes `acc * 10 + digit` past the 32-bit range stops with
   * `PosOverflow` (the digit is checked before the overflow).
   */
  function Accumulate(digits: string, acc: uint32): (r: Result<uint32, IntErrorKind>)
    ensures r.Ok? ==> AllDigits(digits) && acc <= r.value
    decreases |digits|
  {
    if digits == [] then Ok(acc)
    else if !IsAsciiDigit(digits[0]) then Err(InvalidDigit)
    else if acc * 10 + DigitValue(digits[0]) > MAX_U32 then Err(PosOverflow)
    else Accumulate(digits[1..], acc * 10 + DigitValue(digits[0]))
  }

  // ---------------------------------------------------------------------
  // Reference definition: what a decimal `u32` literal is and denotes.
  // ---------------------------------------------------------------------

  function Pow10(n: nat): (p: nat)
    ensures p >= 1
  {
    if n == 0 then 1 else 10 * Pow10(n - 1)
  }

  predicate AllDigits(s: string) {
    forall i :: 0 <= i < |s| ==> IsAsciiDigit(s[i])
  }

  /** Positional value: each digit times ten to the number of digits after it. */
  function DecimalValue(d: string): nat
    requires AllDigits(d)
  {
    if d == [] then 0 else DigitValue(d[0]) * Pow10(|d| - 1) + DecimalValue(d[1..])
  }

  /** What follows an optional leading `+`. */
  function Unsigned(s: string): string {
    if |s| > 0 && s[0] == '+' then s[1..] else s
  }

  /** At least one ASCII digit after an optional `+`, denoting at most 2^32 - 1. */
  predicate IsU32Literal(s: string) {
    var d := Unsigned(s);
    |d| > 0 && AllDigits(d) && DecimalValue(d) <= MAX_U32
  }

  function LiteralValue(s: string): uint32
    requires IsU32Literal(s)
  {
    DecimalValue(Unsigned(s))
  }

  /** The length of the longest prefix of `s` made of ASCII digits. */
  function DigitRun(s: string): (k: nat)
    ensures k <= |s| && AllDigits(s[..k])
    ensures k < |s| ==> !IsAsciiDigit(s[k])
  {
    if s == [] || !IsAsciiDigit(s[0]) then 0
    else
      var k := 1 + DigitRun(s[1..]);
      assert s[..k] == [s[0]] + s[1..][..k - 1];
      k
  }

  /** The value of the digits that begin the unsigned part of `s`. */
  function DigitRunValue(s: string): nat {
    var d := Unsigned(s);
    DecimalValue(d[..DigitRun(d)])
  }

  // ---------------------------------------------------------------------
  // The parse against the reference definition.
  // ---------------------------------------------------------------------

  /**
   * Accumulate stops at the first non-digit unless the digits before it
   * already overflow; otherwise it returns `acc` followed by all the digits.
   */
  lemma {:induction false} AccumulateSpec(d: string, acc: uint32)
    ensures var k := DigitRun(d);
            var total := acc * Pow10(k) + DecimalValue(d[..k]);
            Accumulate(d, acc) ==
              if total > MAX_U32 then Err(PosOverflow)
              else if k < |d| then Err(InvalidDigit)
              else Ok(total)
    decreases |d|
  {
    var k := DigitRun(d);
    if d != [] && IsAsciiDigit(d[0]) {
      var x := DigitValue(d[0]);
      var rest := d[1..];
      var k' := DigitRun(rest);
      var v := DecimalValue(rest[..k']);
      var prefix := d[..k];
      assert prefix[0] == d[0] && prefix[1..] == rest[..k'];
      assert DecimalValue(prefix) == x * Pow10(k') + v;
      ShiftDigit(acc, x, k');
      if acc * 10 + x <= MAX_U32 {
        AccumulateSpec(rest, acc * 10 + x);
      }
    } else {
      assert d[..k] == [];
    }
  }

  /** Appending one digit `x` to `acc` in front of `k` further digits. */
  lemma ShiftDigit(acc: nat, x: nat, k: nat)
    ensures acc * Pow10(k + 1) + x * Pow10(k) == (acc * 10 + x) * Pow10(k)
    ensures (acc * 10 + x) * Pow10(k) >= acc * 10 + x
  {
  }

  /** Parsing succeeds exactly on `u32` literals, with the literal's value. */
  lemma ParseU32Correct(s: string)
    ensures ParseU32(s).Ok? <==> IsU32Literal(s)
    ensures ParseU32(s).Ok? ==> ParseU32(s).value == LiteralValue(s)
  {
    ParseU32Classified(s);
    if IsU32Literal(s) {
      var d := Unsigned(s);
      assert d[..DigitRun(d)] == d;
    }
  }

  /**
   * Which error a failed parse reports: `Empty` only for the empty string,
   * `PosOverflow` when the digits that precede the first non-digit (after an
   * optional `+`) already exceed 2^32 - 1, and `InvalidDigit` otherwise.
   */
  lemma ParseU32ErrorKinds(s: string)
    ensures ParseU32(s) == Err(Empty) <==> s == []
    ensures ParseU32(s) == Err(PosOverflow) <==> s != [] && DigitRunValue(s) > MAX_U32
    ensures ParseU32(s) == Err(InvalidDigit) <==>
              s != [] && DigitRunValue(s) <= MAX_U32 && !IsU32Literal(s)
  {
    ParseU32Classified(s);
  }

  /** The outcome of every parse, by cases on the input. */
  lemma ParseU32Classified(s: string)
    ensures ParseU32(s) ==
              if s == [] then Err(Empty)
              else if DigitRunValue(s) > MAX_U32 then Err(PosOverflow)
              else if IsU32Literal(s) then Ok(LiteralValue(s))
              else Err(InvalidDigit)
  {
    if s != [] && s != "+" && s != "-" {
      var d := Unsigned(s);
      AccumulateSpec(d, 0);
      var k := DigitRun(d);
      assert k == |d| <==> AllDigits(d);
      assert k == |d| ==> d[..k] == d;
    } else if s == "-" {
      assert Unsigned(s) == s;
      assert DigitRun(s) == 0;
    } else if s == "+" {
      assert Unsigned(s) == [];
    }
  }

  // ---------------------------------------------------------------------
  // Worked cases of the rules above. A case whose input is long enough to
  // make the solver expand the literal everywhere takes it as a parameter
  // fixed by `requires` and evaluates the literal once in its body.
  // ---------------------------------------------------------------------

  /** The largest `u32` parses. */
  lemma ParseU32Max(s: string)
    requires s == "4294967295"
    ensures ParseU32(s) == Ok(MAX_U32)
  {
    assert ParseU32("4294967295") == Ok(4294967295);
  }

  /** One more than the largest `u32` overflows. */
  lemma ParseU32Overflow(s: string)
    requires s == "4294967296"
    ensures ParseU32(s) == Err(PosOverflow)
  {
    assert ParseU32("4294967296") == Err(PosOverflow);
  }

  /** One leading `+` is accepted; `-`, a lone `+` and a doubled `+` are not. */
  lemma ParseU32Signs()
    ensures ParseU32("+16") == Ok(16)
    ensures ParseU32("-1") == Err(InvalidDigit)
    ensures ParseU32("-0") == Err(InvalidDigit)
    ensures ParseU32("+") == Err(InvalidDigit)
    ensures ParseU32("++1") == Err(InvalidDigit)
  {
  }

  /** No whitespace is skipped, leading zeros are kept, and "" is `Empty`. */
  lemma ParseU32Strictness()
    ensures ParseU32("") == Err(Empty)
    ensures ParseU32(" 16") == Err(InvalidDigit)
    ensures ParseU32("16 ") == Err(InvalidDigit)
    ensures ParseU32("1 6") == Err(InvalidDigit)
    ensures ParseU32("007") == Ok(7)
  {
  }
}
