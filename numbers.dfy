/** Unsigned machine integers and the decimal conversions the feed core relies on:
    `size_t` arithmetic, `std::strtoull(s, &end, 10)` / pugixml's `as_ullong` and
    `as_uint`, and the decimal text that `operator<<` writes for a `size_t`. */
module Numbers {

  const SIZE_T_MAX: nat := 0xFFFF_FFFF_FFFF_FFFF
  const UINT_MAX: nat := 0xFFFF_FFFF
  const INT_MAX: nat := 0x7FFF_FFFF

  /** A 64-bit `size_t`. */
  type SizeT = x: nat | x <= SIZE_T_MAX

  /** A `std::string`: always shorter than `std::string::npos`, which is `SIZE_T_MAX`. */
  type StdString = s: string | |s| < SIZE_T_MAX

  /** `a - b` on `size_t`: wraps modulo 2^64 when `b > a`. */
  function Minus(a: SizeT, b: SizeT): (r: SizeT)
    ensures r == (a - b) % (SIZE_T_MAX + 1)
  {
    if a >= b then a - b else a - b + SIZE_T_MAX + 1
  }

  /** `a + b` on `size_t`: wraps modulo 2^64 past `SIZE_T_MAX`. */
  function Plus(a: SizeT, b: SizeT): (r: SizeT)
    ensures r == (a + b) % (SIZE_T_MAX + 1)
  {
    if a + b <= SIZE_T_MAX then a + b else a + b - SIZE_T_MAX - 1
  }

  predicate IsDigit(c: char) { '0' <= c <= '9' }

  function DigitValue(c: char): nat
    requires IsDigit(c)
  {
    (c - '0') as nat
  }

  predicate AllDigits(s: string) { forall i :: 0 <= i < |s| ==> IsDigit(s[i]) }

  /** Value of a string of decimal digits, most significant first. */
  function Value(s: string): nat
    requires AllDigits(s)
  {
    if s == [] then 0 else Value(s[..|s| - 1]) * 10 + DigitValue(s[|s| - 1])
  }

  /** Length of the run of decimal digits at the front of `s`. */
  function DigitRun(s: string): (n: nat)
    ensures n <= |s| && AllDigits(s[..n])
    ensures n < |s| ==> !IsDigit(s[n])
  {
    if s == [] || !IsDigit(s[0]) then 0
    else
      var n := 1 + DigitRun(s[1..]);
      assert s[..n] == [s[0]] + s[1..][..n - 1];
      n
  }

  predicate IsSpace(c: char) { c in {' ', '\t', '\n', '\r', '\U{000B}', '\U{000C}'} }

  /** `s` without its leading white space: a suffix of `s`, everything cut
      off is white space, and what is left does not start with white space. */
  function SkipSpaces(s: string): (r: string)
    ensures |r| <= |s| && r == s[|s| - |r|..]
    ensures forall j :: 0 <= j < |s| - |r| ==> IsSpace(s[j])
    ensures r == [] || !IsSpace(r[0])
    ensures s != [] && !IsSpace(s[0]) ==> r == s
  {
    if s != [] && IsSpace(s[0]) then
      var r := SkipSpaces(s[1..]);
      assert forall j :: 1 <= j < |s| ==> s[j] == s[1..][j - 1];
      r
    else s
  }

  /** Base-10 conversion of the digits that follow any leading white space,
      saturating at `max` as `strtoull` and pugixml's integer getters do on
      overflow; no digits gives 0. */
  function ParseUnsigned(s: string, max: nat): (r: nat)
    ensures r <= max
    ensures DigitRun(SkipSpaces(s)) == 0 ==> r == 0
    ensures AllDigits(s) ==> r == if Value(s) > max then max else Value(s)
  {
    var t := SkipSpaces(s);
    var v := Value(t[..DigitRun(t)]);
    assert AllDigits(s) ==> t == s && t[..DigitRun(t)] == s by {
      if AllDigits(s) && s != [] { assert !IsSpace(s[0]); }
    }
    if v > max then max else v
  }

  /** `strtoull(line, &end, 10)` as the record reader uses it. */
  function ParseSizeT(s: string): (r: SizeT)
    ensures AllDigits(s) && Value(s) <= SIZE_T_MAX ==> r == Value(s)
  {
    ParseUnsigned(s, SIZE_T_MAX)
  }

  /** `node.text().as_uint()` stored into an `int` field: the unsigned value is
      reinterpreted as a two's-complement 32-bit integer. */
  function ParseUIntAsInt(s: string): (r: int)
    ensures -(INT_MAX as int) - 1 <= r <= INT_MAX
    ensures ParseUnsigned(s, UINT_MAX) <= INT_MAX ==> r == ParseUnsigned(s, UINT_MAX)
  {
    var u := ParseUnsigned(s, UINT_MAX);
    if u <= INT_MAX then u else u - UINT_MAX - 1
  }

  function Digit(d: nat): (c: char)
    requires d < 10
    ensures IsDigit(c) && DigitValue(c) == d
  {
    '0' + d as char
  }

  /** The decimal text `operator<<` writes for an unsigned integer. */
  function ToDecimal(n: nat): (s: string)
    ensures |s| > 0 && AllDigits(s)
  {
    if n < 10 then [Digit(n)] else ToDecimal(n / 10) + [Digit(n % 10)]
  }

  lemma {:induction false} ValueOfDecimal(n: nat)
    ensures Value(ToDecimal(n)) == n
  {
    if n >= 10 {
      var s := ToDecimal(n);
      ValueOfDecimal(n / 10);
      assert s[..|s| - 1] == ToDecimal(n / 10);
    }
  }

  /** A number written in decimal reads back as itself, or as `max` when it
      is larger. */
  lemma ParseDecimal(v: nat, max: nat)
    ensures ParseUnsigned(ToDecimal(v), max) == if v > max then max else v
  {
    ValueOfDecimal(v);
  }

  /** Writing a `size_t` and reading it back with `strtoull` gives the same number. */
  lemma DecimalRoundTrip(n: SizeT)
    ensures ParseSizeT(ToDecimal(n)) == n
    ensures '\n' !in ToDecimal(n)
  {
    ValueOfDecimal(n);
    var s := ToDecimal(n);
    assert '\n' in s ==> !AllDigits(s);
  }
}
