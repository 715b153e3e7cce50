/** Decimal numerals as byte strings: the value of a digit run and the canonical numeral of a number. */
module Decimal {

  predicate IsDigit(c: char) {
    '0' <= c <= '9'
  }

  predicate AllDigits(s: string) {
    forall i :: 0 <= i < |s| ==> IsDigit(s[i])
  }

  function DigitValue(c: char): (d: nat)
    requires IsDigit(c)
    ensures d < 10
  {
    c as int - '0' as int
  }

  function DigitChar(d: nat): (c: char)
    requires d < 10
    ensures IsDigit(c) && DigitValue(c) == d
  {
    ('0' as int + d) as char
  }

  /** The number written by a digit string, most significant digit first. */
  function DecValue(s: string): nat
    requires AllDigits(s)
  {
    if s == "" then 0 else 10 * DecValue(s[..|s| - 1]) + DigitValue(s[|s| - 1])
  }

  /** The numeral of n without leading zeros. */
  function ToDigits(n: nat): (s: string)
    ensures |s| > 0 && AllDigits(s)
  {
    if n < 10 then [DigitChar(n)] else ToDigits(n / 10) + [DigitChar(n % 10)]
  }

  /** How many digits s starts with. */
  function DigitRun(s: string): (n: nat)
    ensures n <= |s| && AllDigits(s[..n])
    ensures n < |s| ==> !IsDigit(s[n])
  {
    if s == "" || !IsDigit(s[0]) then 0
    else
      var n := 1 + DigitRun(s[1..]);
      assert forall i :: 0 < i < n ==> s[i] == s[1..][i - 1];
      n
  }

  lemma {:induction false} NumeralRoundTrip(n: nat)
    ensures DecValue(ToDigits(n)) == n
  {
    if n >= 10 {
      NumeralRoundTrip(n / 10);
      assert ToDigits(n)[..|ToDigits(n)| - 1] == ToDigits(n / 10);
    }
  }

  lemma DigitsAreLiteral(d: nat)
    requires d < 10
    ensures DigitChar(d) == "0123456789"[d] && DigitValue("0123456789"[d]) == d
  {
  }

  /** The numeral has no leading zero. */
  lemma {:induction false} NumeralIsCanonical(n: nat)
    requires n > 0
    ensures ToDigits(n)[0] != '0'
  {
    if n >= 10 {
      NumeralIsCanonical(n / 10);
    }
  }

  /** The digits s starts with, and what follows them. */
  function SplitDigits(s: string): (r: (string, string))
    ensures AllDigits(r.0) && r.0 + r.1 == s
    ensures r.1 == "" || !IsDigit(r.1[0])
  {
    (s[..DigitRun(s)], s[DigitRun(s)..])
  }

  /** A digit run ends where the digits end. */
  lemma {:induction false} SplitDigitsIs(digits: string, rest: string)
    requires AllDigits(digits)
    requires rest == "" || !IsDigit(rest[0])
    ensures DigitRun(digits + rest) == |digits|
    ensures SplitDigits(digits + rest) == (digits, rest)
  {
    var s := digits + rest;
    if digits != "" {
      assert s[1..] == digits[1..] + rest;
      SplitDigitsIs(digits[1..], rest);
    } else {
      assert s == rest;
    }
    assert s[..|digits|] == digits && s[|digits|..] == rest;
  }

  /** Bytes appended behind a run that has already ended do not change it. */
  lemma SplitDigitsStable(s: string, more: string)
    requires SplitDigits(s).1 != ""
    ensures SplitDigits(s + more) == (SplitDigits(s).0, SplitDigits(s).1 + more)
  {
    var (d, r) := SplitDigits(s);
    assert s + more == d + (r + more);
    SplitDigitsIs(d, r + more);
  }

  function Pow10(n: nat): (p: nat)
    ensures p > 0
  {
    if n == 0 then 1 else 10 * Pow10(n - 1)
  }

  /** The first digit counts as many tens as there are digits behind it. */
  lemma {:induction false} DecValueIsPositional(s: string)
    requires s != "" && AllDigits(s)
    ensures DecValue(s) == DigitValue(s[0]) * Pow10(|s| - 1) + DecValue(s[1..])
  {
    var last := |s| - 1;
    if last > 0 {
      DecValueIsPositional(s[..last]);
      assert s[..last][1..] == s[1..][..last - 1];
      assert DigitValue(s[0]) * Pow10(last) == 10 * (DigitValue(s[0]) * Pow10(last - 1));
    }
  }

  /** A digit that is not zero makes a number that is not zero. */
  lemma {:induction false} SomeDigit(s: string, i: nat)
    requires AllDigits(s) && i < |s| && s[i] != '0'
    ensures DecValue(s) > 0
  {
    var last := |s| - 1;
    if i < last {
      SomeDigit(s[..last], i);
    }
  }
}
