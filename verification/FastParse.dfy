/** core/fast_parse.h: number scanners that move a cursor through a byte buffer. */
module FastParse {
  import opened Bytes
  import opened Decimal
  import opened Wrappers

  /** Unsigned 8-bit subtraction of two bytes, as `uint8_t digit = *pp - '0'` computes it. */
  function ByteSub(a: char, b: char): nat
    requires b as int < 256
  {
    if a >= b then a as int - b as int else a as int + 256 - b as int
  }

  /** The part of the buffer that starts at the cursor; empty when the cursor is at or past the end. */
  function From(buf: string, pp: nat): string {
    if pp <= |buf| then buf[pp..] else ""
  }

  lemma MulAddMod(a: nat, d: nat)
    ensures (10 * (a % TWO_64) + d) % TWO_64 == (10 * a + d) % TWO_64
  {
    var q, r := a / TWO_64, a % TWO_64;
    assert 10 * a + d == TWO_64 * (10 * q) + (10 * r + d);
    ModAdd(10 * q, 10 * r + d);
  }

  lemma {:induction false} ModAdd(q: nat, x: nat)
    ensures (TWO_64 * q + x) % TWO_64 == x % TWO_64
  {
    if q > 0 {
      ModAdd(q - 1, x);
      assert TWO_64 * q + x == (TWO_64 * (q - 1) + x) + TWO_64;
    }
  }

  lemma OneMoreDigit(s: string, n: nat)
    requires n < |s| && AllDigits(s[..n]) && IsDigit(s[n])
    ensures AllDigits(s[..n + 1])
    ensures DecValue(s[..n + 1]) % TWO_64 == (DecValue(s[..n]) % TWO_64 * 10 + DigitValue(s[n])) % TWO_64
  {
    assert s[..n + 1][..n] == s[..n];
    MulAddMod(DecValue(s[..n]), DigitValue(s[n]));
  }

  lemma RunEnds(s: string, n: nat)
    requires n <= |s| && AllDigits(s[..n]) && (n < |s| ==> !IsDigit(s[n]))
    ensures DigitRun(s) == n && SplitDigits(s).0 == s[..n]
  {
    assert s == s[..n] + s[n..];
    SplitDigitsIs(s[..n], s[n..]);
  }

  /** The 64-bit scanner: the cursor stops at the first byte that is no digit or at the end, and
      the result is the value of the digits it passed, modulo 2^64. */
  method FastParseU64(buf: string, bgn: nat) returns (pp: nat, res: nat)
    ensures pp == bgn + DigitRun(From(buf, bgn))
    ensures res == DecValue(SplitDigits(From(buf, bgn)).0) % TWO_64
  {
    hide DigitRun, SplitDigits;
    res := 0;
    pp := bgn;
    ghost var s := From(buf, bgn);
    while pp < |buf|
      invariant bgn <= pp && (pp <= |buf| || pp == bgn)
      invariant pp - bgn <= |s| && AllDigits(s[..pp - bgn])
      invariant res == DecValue(s[..pp - bgn]) % TWO_64
    {
      hide DecValue;
      var digit := ByteSub(buf[pp], '0');
      assert buf[pp] == s[pp - bgn];
      if digit > 9 {
        RunEnds(s, pp - bgn);
        return;
      }
      OneMoreDigit(s, pp - bgn);
      res := (res * 10 + digit) % TWO_64;
      pp := pp + 1;
    }
    RunEnds(s, pp - bgn);
  }

  /** The 32-bit scanner narrows the 64-bit result once more. */
  method FastParseU32(buf: string, bgn: nat) returns (pp: nat, res: nat)
    ensures pp == bgn + DigitRun(From(buf, bgn))
    ensures res == DecValue(SplitDigits(From(buf, bgn)).0) % TWO_32
    ensures res == U32(From(buf, bgn)).0 && From(buf, pp) == U32(From(buf, bgn)).1
  {
    var tmp;
    pp, tmp := FastParseU64(buf, bgn);
    res := tmp % TWO_32;
    NarrowTwice(DecValue(SplitDigits(From(buf, bgn)).0));
    assert bgn <= |buf| ==> buf[bgn..][pp - bgn..] == buf[pp..];
  }

  lemma NarrowTwice(v: nat)
    ensures v % TWO_64 % TWO_32 == v % TWO_32
  {
    var q, r := v / TWO_64, v % TWO_64;
    assert v == TWO_32 * (TWO_32 * q) + r;
    ModAdd32(TWO_32 * q, r);
  }

  lemma {:induction false} ModAdd32(q: nat, x: nat)
    ensures (TWO_32 * q + x) % TWO_32 == x % TWO_32
  {
    if q > 0 {
      ModAdd32(q - 1, x);
      assert TWO_32 * q + x == (TWO_32 * (q - 1) + x) + TWO_32;
    }
  }

  /** What the 32-bit scanner reads from the start of s: the value, and the bytes it leaves. */
  function U32(s: string): (r: (nat, string))
    ensures r.0 < TWO_32 && |r.1| <= |s|
  {
    var (digits, rest) := SplitDigits(s);
    (DecValue(digits) % TWO_32, rest)
  }

  lemma U32ReadsNumeral(n: nat, rest: string)
    requires n < TWO_32
    requires rest == "" || !IsDigit(rest[0])
    ensures U32(ToDigits(n) + rest) == (n, rest)
  {
    SplitDigitsIs(ToDigits(n), rest);
    NumeralRoundTrip(n);
  }

  lemma U32Stable(s: string, more: string)
    requires U32(s).1 != ""
    ensures U32(s + more) == (U32(s).0, U32(s).1 + more)
  {
    SplitDigitsStable(s, more);
  }

  /** The parts of the unsigned numeral `digits(.digits*)?` that s starts with, and what follows;
      the first part is empty when s starts with no digit. */
  function Unsigned(s: string): (r: (string, string, string))
    ensures AllDigits(r.0) && AllDigits(r.1) && |r.2| <= |s|
  {
    var (whole, behind) := SplitDigits(s);
    if whole != "" && behind != "" && behind[0] == '.' then
      var (frac, rest) := SplitDigits(behind[1..]);
      (whole, frac, rest)
    else
      (whole, "", behind)
  }

  /** The exact value of a numeral in its three parts. */
  function FloatValue(negative: bool, whole: string, frac: string): real
    requires AllDigits(whole) && AllDigits(frac)
  {
    var magnitude := DecValue(whole + frac) as real / Pow10(|frac|) as real;
    if negative then -magnitude else magnitude
  }

  /** What the float scanner reads from the start of s. `None` is the case in which it converts
      nothing: the cursor stays and the caller's variable keeps whatever value it had. */
  function Float(s: string): (r: (Option<real>, string))
    ensures |r.1| <= |s|
  {
    var negative := StartsWith(s, '-');
    var (whole, frac, rest) := Unsigned(if negative then s[1..] else s);
    if whole == "" then (None, s) else (Some(FloatValue(negative, whole, frac)), rest)
  }

  /** A decimal numeral as the exchange writes it. */
  datatype Numeral = Numeral(negative: bool, whole: string, frac: string) {
    predicate Valid() {
      whole != "" && AllDigits(whole) && AllDigits(frac)
    }

    function UnsignedText(tail: string): string {
      whole + (if frac == "" then tail else "." + (frac + tail))
    }

    /** The numeral followed by `tail`. */
    function Text(tail: string): string {
      if negative then "-" + UnsignedText(tail) else UnsignedText(tail)
    }

    function Value(): real
      requires Valid()
    {
      FloatValue(negative, whole, frac)
    }
  }

  /** The number with its decimal point taken away is that of the digits, under the sign. */
  predicate Denotes(q: Numeral, v: real)
    requires q.Valid()
  {
    v * Pow10(|q.frac|) as real == (if q.negative then -1.0 else 1.0) * DecValue(q.whole + q.frac) as real
  }

  lemma Ratio(x: real, p: real)
    requires p > 0.0
    ensures x / p * p == x && -(x / p) * p == -x
    ensures (x > 0.0 ==> x / p > 0.0) && (x >= 0.0 ==> x / p >= 0.0)
  {
  }

  lemma ValueIsExact(q: Numeral)
    requires q.Valid()
    ensures Denotes(q, q.Value())
    ensures !q.negative ==> q.Value() >= 0.0
    ensures q.negative && (exists i :: 0 <= i < |q.whole + q.frac| && (q.whole + q.frac)[i] != '0') ==> q.Value() < 0.0
  {
    var digits, p := q.whole + q.frac, Pow10(|q.frac|) as real;
    Ratio(DecValue(digits) as real, p);
    if i :| 0 <= i < |digits| && digits[i] != '0' {
      SomeDigit(digits, i);
    }
    hide DecValue, Pow10;
  }

  lemma NumeralIsRead(q: Numeral, rest: string)
    requires q.Valid()
    requires rest == "" || (!IsDigit(rest[0]) && rest[0] != '.')
    ensures Float(q.Text(rest)) == (Some(q.Value()), rest)
  {
    var behind := if q.frac == "" then rest else "." + (q.frac + rest);
    SplitDigitsIs(q.whole, behind);
    if q.frac != "" {
      assert behind[1..] == q.frac + rest;
      SplitDigitsIs(q.frac, rest);
    }
    assert Unsigned(q.UnsignedText(rest)) == (q.whole, q.frac, rest);
    if q.negative {
      assert q.Text(rest)[1..] == q.UnsignedText(rest);
    } else {
      assert q.Text(rest)[0] == q.whole[0];
    }
  }

  /** A numeral is read as a whole, as the number it denotes. */
  lemma FloatReadsNumeral(q: Numeral, rest: string)
    requires q.Valid()
    requires rest == "" || (!IsDigit(rest[0]) && rest[0] != '.')
    ensures Float(q.Text(rest)) == (Some(q.Value()), rest)
    ensures Denotes(q, Float(q.Text(rest)).0.value)
  {
    hide Float, Numeral.Text, Numeral.Value, Denotes;
    NumeralIsRead(q, rest);
    ValueIsExact(q);
  }

  /** A minus sign in front of a numeral negates what is read. */
  lemma MinusNegates(q: Numeral, rest: string)
    requires q.Valid() && !q.negative
    requires rest == "" || (!IsDigit(rest[0]) && rest[0] != '.')
    ensures Float("-" + q.Text(rest)).0.Some? && Float(q.Text(rest)).0.Some?
    ensures Float("-" + q.Text(rest)).0.value == -Float(q.Text(rest)).0.value
  {
    FloatReadsNumeral(q, rest);
    FloatReadsNumeral(q.(negative := true), rest);
  }

  lemma UnsignedIs(u: string) returns (dot: bool)
    ensures var (whole, frac, rest) := Unsigned(u); var q := Numeral(false, whole, frac);
            && (whole == "" <==> u == "" || !IsDigit(u[0]))
            && (rest == "" || !IsDigit(rest[0]))
            && (whole != "" ==> u == q.Text(if dot then "." + rest else rest))
            && (dot ==> frac == "") && (StartsWith(rest, '.') && frac == "" && whole != "" ==> dot)
  {
    var (whole, behind) := SplitDigits(u);
    assert u != "" ==> u[0] == (whole + behind)[0];
    dot := false;
    if whole != "" && StartsWith(behind, '.') {
      var (frac, rest) := SplitDigits(behind[1..]);
      assert behind == "." + (frac + rest);
      dot := frac == "";
      if dot {
        assert frac + rest == rest;
      }
    }
    hide SplitDigits, DigitRun;
  }

  /** And nothing else is read: without a numeral at the start of s nothing is passed; with one, exactly
      it is, and a dot behind it that no digits follow. */
  lemma FloatReadsOnlyNumerals(s: string) returns (q: Numeral, dot: bool)
    ensures var u := if StartsWith(s, '-') then s[1..] else s;
            Float(s).0.None? <==> u == "" || !IsDigit(u[0])
    ensures Float(s).0.None? ==> Float(s).1 == s
    ensures Float(s).0.Some? ==>
              var rest := Float(s).1;
              && q.Valid() && Denotes(q, Float(s).0.value)
              && s == q.Text(if dot then "." + rest else rest)
              && (rest == "" || !IsDigit(rest[0]))
              && (dot ==> q.frac == "") && (StartsWith(rest, '.') && q.frac == "" ==> dot)
  {
    hide Unsigned, FloatValue, Denotes, DecValue, Pow10, Numeral.Text, AllDigits, IsDigit;
    var u := if StartsWith(s, '-') then s[1..] else s;
    var (whole, frac, rest) := Unsigned(u);
    q := Numeral(StartsWith(s, '-'), whole, frac);
    dot := UnsignedIs(u);
    if whole != "" {
      ValueIsExact(q);
      SignedText(q, if dot then "." + rest else rest);
    }
    if StartsWith(s, '-') {
      assert s == "-" + u;
    } else {
      assert s == "" + u;
    }
  }

  lemma SignedText(q: Numeral, t: string)
    ensures q.Text(t) == (if q.negative then "-" else "") + q.(negative := false).Text(t)
  {
    assert "" + q.UnsignedText(t) == q.UnsignedText(t);
  }

  lemma UnsignedStable(s: string, more: string)
    requires Unsigned(s).2 != ""
    ensures Unsigned(s + more) == (Unsigned(s).0, Unsigned(s).1, Unsigned(s).2 + more)
  {
    var (whole, behind) := SplitDigits(s);
    var inside := if behind == "" then "" else behind[1..];
    SplitDigitsStable(s, more);
    assert behind != "" ==> (behind + more)[1..] == inside + more;
    if whole != "" && behind[0] == '.' {
      SplitDigitsStable(inside, more);
    }
    hide SplitDigits;
  }

  /** Two bytes behind the numeral settle what it is. */
  lemma FloatStable(s: string, more: string)
    requires |Float(s).1| >= 2
    ensures Float(s + more) == (Float(s).0, Float(s).1 + more)
  {
    hide Unsigned, FloatValue;
    assert (s + more)[0] == s[0];
    if StartsWith(s, '-') {
      assert (s + more)[1..] == s[1..] + more;
      UnsignedLeaves(s[1..]);
      UnsignedStable(s[1..], more);
    } else {
      UnsignedLeaves(s);
      UnsignedStable(s, more);
    }
  }

  /** What follows a numeral that is not there is everything. */
  lemma UnsignedLeaves(s: string)
    ensures Unsigned(s).0 == "" ==> Unsigned(s).2 == s
  {
  }

  /** The bytes left behind are the end of the bytes given. */
  predicate Suffix(r: string, s: string) {
    |r| <= |s| && r == s[|s| - |r|..]
  }

  lemma SuffixTrans(a: string, b: string, c: string)
    requires Suffix(a, b) && Suffix(b, c)
    ensures Suffix(a, c)
  {
  }

  lemma SuffixBehind(a: string, b: string)
    ensures Suffix(b, a + b)
  {
  }

  lemma UnsignedLeavesSuffix(s: string)
    ensures Suffix(Unsigned(s).2, s)
  {
    var (whole, behind) := SplitDigits(s);
    SuffixBehind(whole, behind);
    if whole != "" && behind != "" && behind[0] == '.' {
      var (frac, rest) := SplitDigits(behind[1..]);
      SuffixBehind(frac, rest);
      assert behind == ['.'] + behind[1..];
      SuffixBehind(['.'], behind[1..]);
      hide SplitDigits, Suffix;
      SuffixTrans(rest, behind[1..], behind);
      SuffixTrans(rest, behind, s);
    }
  }

  lemma FloatLeavesSuffix(s: string)
    ensures Suffix(Float(s).1, s)
  {
    var u := if StartsWith(s, '-') then s[1..] else s;
    UnsignedLeavesSuffix(u);
    assert Suffix(u, s);
    SuffixTrans(Unsigned(u).2, u, s);
    assert Suffix(s, s);
    hide Unsigned, FloatValue;
  }
}
