/** Decimal numerals: Python's `f"{n}"` for a natural number and `int(d)`
    for a run of ASCII digits. */
module Decimal {

  predicate IsDigit(c: char) {
    '0' <= c <= '9'
  }

  predicate AllDigits(s: string) {
    forall i :: 0 <= i < |s| ==> IsDigit(s[i])
  }

  function DigitChar(d: nat): (c: char)
    requires d < 10
    ensures IsDigit(c)
  {
    ('0' as int + d) as char
  }

  function DigitValue(c: char): (d: nat)
    requires IsDigit(c)
    ensures d < 10
  {
    c as int - '0' as int
  }

  /** `str(n)`: the shortest decimal numeral of `n`. */
  function NatToString(n: nat): (s: string)
    ensures |s| >= 1 && AllDigits(s)
    ensures |s| > 1 ==> s[0] != '0'
  {
    if n < 10 then [DigitChar(n)] else NatToString(n / 10) + [DigitChar(n % 10)]
  }

  /** `int(s)` for a string of ASCII digits. */
  function DigitsValue(s: string): nat
    requires AllDigits(s)
  {
    if |s| == 0 then 0 else 10 * DigitsValue(s[..|s| - 1]) + DigitValue(s[|s| - 1])
  }

  /** Reading back a printed number gives the number. */
  lemma {:induction false} ParsePrinted(n: nat)
    ensures DigitsValue(NatToString(n)) == n
  {
    var s := NatToString(n);
    if n >= 10 {
      ParsePrinted(n / 10);
      assert s[..|s| - 1] == NatToString(n / 10);
    }
  }

  /** Distinct numbers print differently. */
  lemma NatToStringInjective(a: nat, b: nat)
    requires NatToString(a) == NatToString(b)
    ensures a == b
  {
    ParsePrinted(a);
    ParsePrinted(b);
  }

  /** Length of the run of digits that starts `t`. */
  function DigitRun(t: string): (n: nat)
    ensures n <= |t|
    ensures AllDigits(t[..n])
    ensures n < |t| ==> !IsDigit(t[n])
  {
    if |t| == 0 || !IsDigit(t[0]) then 0 else 1 + DigitRun(t[1..])
  }

  lemma {:induction false} DigitRunBeforeMarker(s: string, c: char, x: string)
    requires AllDigits(s) && !IsDigit(c)
    ensures DigitRun(s + [c] + x) == |s|
    decreases |s|
  {
    if |s| > 0 {
      assert (s + [c] + x)[1..] == s[1..] + [c] + x;
      DigitRunBeforeMarker(s[1..], c, x);
    }
  }

  /** A numeral followed by a non-digit marker can be read back uniquely:
      the marker fixes where the numeral ends. */
  lemma NumeralPrefixUnique(a: nat, b: nat, c: char, x: string, y: string)
    requires !IsDigit(c)
    requires NatToString(a) + [c] + x == NatToString(b) + [c] + y
    ensures a == b && x == y
  {
    var sa, sb := NatToString(a), NatToString(b);
    var u := sa + [c] + x;
    DigitRunBeforeMarker(sa, c, x);
    DigitRunBeforeMarker(sb, c, y);
    assert sa == u[..|sa|] == sb;
    NatToStringInjective(a, b);
    assert x == u[|sa| + 1..] == y;
  }
}
