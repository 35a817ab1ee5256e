/**
 Base-16 conversion of unsigned 64-bit integers, as the branch aggregator uses
 it: `strconv.ParseUint(text, 16, 64)` reads an address field (after its
 `0x` prefix has been cut off), and `FormatHex` is the `%x` rendering the
 profiler uses for the same addresses.
 */
module Hex {
  import opened Base

  /** The value of one hexadecimal digit byte, either case, or None. */
  function DigitValue(c: byte): (r: Option<nat>)
    ensures r.Some? ==> r.value < 16
  {
    if 0x30 <= c <= 0x39 then Some((c - 0x30) as nat)        // '0'..'9'
    else if 0x61 <= c <= 0x66 then Some((c - 0x61) as nat + 10) // 'a'..'f'
    else if 0x41 <= c <= 0x46 then Some((c - 0x41) as nat + 10) // 'A'..'F'
    else None
  }

  predicate IsDigit(c: byte) {
    DigitValue(c).Some?
  }

  predicate AllDigits(s: Bytes) {
    forall i :: 0 <= i < |s| ==> IsDigit(s[i])
  }

  /** A non-empty string of hexadecimal digits. */
  predicate IsNumeral(s: Bytes) {
    |s| > 0 && AllDigits(s)
  }

  /** The unbounded value of a string of hexadecimal digits, most significant first. */
  function Value(s: Bytes): nat
    requires AllDigits(s)
  {
    if |s| == 0 then 0
    else Value(s[..|s| - 1]) * 16 + DigitValue(s[|s| - 1]).value
  }

  function Pow16(n: nat): (r: nat)
    ensures r >= 1
  {
    if n == 0 then 1 else 16 * Pow16(n - 1)
  }

  /** A string of n digits has a value below 16^n. */
  lemma {:induction false} ValueBound(s: Bytes)
    requires AllDigits(s)
    ensures Value(s) < Pow16(|s|)
  {
    if |s| > 0 {
      ValueBound(s[..|s| - 1]);
    }
  }

  lemma {:induction false} Pow16Monotone(m: nat, n: nat)
    requires m <= n
    ensures Pow16(m) <= Pow16(n)
  {
    if m < n {
      Pow16Monotone(m, n - 1);
    }
  }

  lemma Pow16Is2To64()
    ensures Pow16(16) == TwoTo64
  {
    assert Pow16(4) == 0x1_0000;
    assert Pow16(8) == 0x1_0000_0000;
    assert Pow16(12) == 0x1_0000_0000_0000;
  }

  /**
   `strconv.ParseUint(s, 16, 64)` reduced to success or failure: the empty
   string, any byte that is not a hexadecimal digit (there is no prefix and no
   `_` separator in base 16) and any value that does not fit in 64 bits are
   errors. The caller only tests for an error, so which error is not kept.
   */
  function ParseHex(s: Bytes): (r: Option<u64>)
    ensures r.Some? <==> IsNumeral(s) && Value(s) < TwoTo64
    ensures r.Some? ==> r.value as int == Value(s)
  {
    if !IsNumeral(s) then None
    else if Value(s) < TwoTo64 then Some(Value(s) as u64)
    else None
  }

  /** At most sixteen digits always fit, whatever their value: only a longer field can overflow. */
  lemma ShortFieldParses(s: Bytes)
    requires 0 < |s| <= 16 && AllDigits(s)
    ensures ParseHex(s).Some? && ParseHex(s).value as int == Value(s)
  {
    ValueBound(s);
    Pow16Monotone(|s|, 16);
    Pow16Is2To64();
  }

  /** The lower-case digit byte for a value below 16. */
  function Digit(d: nat): (c: byte)
    requires d < 16
    ensures DigitValue(c) == Some(d)
    ensures IsLowerDigit(c)
  {
    if d < 10 then (0x30 + d) as byte else (0x61 + d - 10) as byte
  }

  /** `0-9` or `a-f`: the digits `%x` prints. */
  predicate IsLowerDigit(c: byte) {
    0x30 <= c <= 0x39 || 0x61 <= c <= 0x66
  }

  /** Lower-case hexadecimal without leading zeros, as `%x` prints it. */
  function FormatHex(n: nat): (s: Bytes)
    ensures |s| > 0 && AllDigits(s)
    ensures forall i :: 0 <= i < |s| ==> IsLowerDigit(s[i])
    ensures |s| > 1 ==> s[0] != 0x30
  {
    if n < 16 then [Digit(n)] else FormatHex(n / 16) + [Digit(n % 16)]
  }

  lemma {:induction false} FormatValue(n: nat)
    ensures Value(FormatHex(n)) == n
  {
    var s := FormatHex(n);
    if n >= 16 {
      FormatValue(n / 16);
      assert s[..|s| - 1] == FormatHex(n / 16);
    }
  }

  /** Every 64-bit value survives printing and parsing back unchanged. */
  lemma RoundTrip(n: u64)
    ensures ParseHex(FormatHex(n as nat)) == Some(n)
  {
    FormatValue(n as nat);
  }
}
