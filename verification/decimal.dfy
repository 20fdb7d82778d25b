/** ASCII decimal digit strings: reading them (the parsers' `digit1` and
    `str::parse`) and writing them (`format!("{}", n)`). */
module Decimal {

  predicate IsDigit(c: char) {
    '0' <= c <= '9'
  }

  predicate AllDigits(s: string) {
    forall i :: 0 <= i < |s| ==> IsDigit(s[i])
  }

  function DigitValue(c: char): nat
    requires IsDigit(c)
  {
    c as int - '0' as int
  }

  function Digit(d: nat): (c: char)
    requires d < 10
    ensures IsDigit(c) && DigitValue(c) == d
  {
    ('0' as int + d) as char
  }

  /** The number a digit string denotes, most significant digit first;
      leading zeros are allowed, as `str::parse` allows them. */
  function Value(s: string): nat
    requires AllDigits(s)
  {
    if |s| == 0 then 0 else Value(s[..|s| - 1]) * 10 + DigitValue(s[|s| - 1])
  }

  /** Length of the maximal run of digits at the front of `s`. */
  function DigitRun(s: string): (n: nat)
    ensures n <= |s|
    ensures AllDigits(s[..n])
    ensures n < |s| ==> !IsDigit(s[n])
  {
    if |s| > 0 && IsDigit(s[0]) then 1 + DigitRun(s[1..]) else 0
  }

  /** Shortest decimal rendering of `n`, as `format!("{}", n)` writes it. */
  function FormatNat(n: nat): (s: string)
    ensures 1 <= |s| && AllDigits(s)
    ensures Value(s) == n
    ensures |s| > 1 ==> s[0] != '0'
  {
    if n < 10 then [Digit(n)]
    else
      var s := FormatNat(n / 10) + [Digit(n % 10)];
      assert s[..|s| - 1] == FormatNat(n / 10);
      s
  }

  /** A digit string followed by a non-digit is read as exactly that
      digit string. */
  lemma DigitRunStopsAtNonDigit(p: string, t: string)
    requires AllDigits(p)
    requires t == [] || !IsDigit(t[0])
    ensures DigitRun(p + t) == |p|
    ensures (p + t)[..|p|] == p && (p + t)[|p|..] == t
  {
  }

  /** Distinct numbers have distinct renderings. */
  lemma FormatNatInjective(m: nat, n: nat)
    ensures FormatNat(m) == FormatNat(n) <==> m == n
  {
  }
}
