/** core/string_utils.cpp, CommaNum: a number with a comma before each group of three digits. */
module CommaNum {
  import opened Bytes
  import opened Decimal

  const INT64_MAX: int := 0x7fff_ffff_ffff_ffff

  function StripCommas(s: string): string {
    if s == "" then ""
    else if s[0] == ',' then StripCommas(s[1..])
    else [s[0]] + StripCommas(s[1..])
  }

  /** Counted from the right, every fourth byte is a comma, and all others are digits. */
  ghost predicate Grouped(s: string) {
    forall i :: 0 <= i < |s| ==> if (|s| - 1 - i) % 4 == 3 then s[i] == ',' else IsDigit(s[i])
  }

  /** The text of a number without its sign. */
  ghost predicate IsCommaText(s: string, n: nat) {
    s != "" && s[0] != ',' && Grouped(s) && StripCommas(s) == ToDigits(n)
  }

  lemma GroupedTail(s: string)
    requires s != "" && Grouped(s)
    ensures Grouped(s[1..])
  {
    assert forall i :: 0 <= i < |s| - 1 ==> s[1..][i] == s[i + 1];
  }

  lemma {:induction false} StripLength(s: string)
    requires Grouped(s)
    ensures |StripCommas(s)| == |s| - |s| / 4
  {
    if s != "" {
      GroupedTail(s);
      StripLength(s[1..]);
    }
  }

  lemma {:induction false} SameLengthSameText(s: string, t: string)
    requires Grouped(s) && Grouped(t) && |s| == |t| && StripCommas(s) == StripCommas(t)
    ensures s == t
  {
    if s != "" {
      GroupedTail(s);
      GroupedTail(t);
      if (|s| - 1) % 4 != 3 {
        assert StripCommas(s)[0] == s[0] && StripCommas(t)[0] == t[0];
        assert StripCommas(s)[1..] == StripCommas(s[1..]) && StripCommas(t)[1..] == StripCommas(t[1..]);
      }
      SameLengthSameText(s[1..], t[1..]);
      assert s == [s[0]] + s[1..] && t == [t[0]] + t[1..];
    }
  }

  /** The properties of a text of n determine it. */
  lemma CommaTextIsUnique(s: string, t: string, n: nat)
    requires IsCommaText(s, n) && IsCommaText(t, n)
    ensures s == t
  {
    StripLength(s);
    StripLength(t);
    SameLengthSameText(s, t);
  }

  lemma StripPrepend(c: char, s: string)
    ensures StripCommas([c] + s) == (if c == ',' then "" else [c]) + StripCommas(s)
  {
    assert ([c] + s)[1..] == s;
  }

  lemma GroupedPrepend(c: char, s: string)
    requires Grouped(s)
    requires if |s| % 4 == 3 then c == ',' else IsDigit(c)
    ensures Grouped([c] + s)
  {
  }

  /** Without sign and commas, the text is read back as the number. */
  lemma CommaTextReadsBack(s: string, n: nat)
    requires IsCommaText(s, n) && n < TWO_64
    ensures DecValue(SplitDigits(StripCommas(s)).0) % TWO_64 == n
  {
    assert ToDigits(n) + "" == ToDigits(n);
    SplitDigitsIs(ToDigits(n), "");
    NumeralRoundTrip(n);
  }

  function DigitCount(text: string): nat {
    |text| - |text| / 4
  }

  /** The loop has written `text`, its leftmost group has dd digits, and vv is what remains of n. */
  ghost predicate Partial(text: string, dd: int, vv: nat, n: nat) {
    && 0 <= dd <= 3 && |text| % 4 == dd && (dd == 0 ==> text == "")
    && Grouped(text)
    && ToDigits(n) == ToDigits(vv) + StripCommas(text)
    && DigitCount(text) <= 19 && vv < Pow10(19 - DigitCount(text))
    && (text != "" ==> vv > 0)
  }

  function WithComma(text: string, dd: int): string {
    if dd == 3 then "," + text else text
  }

  lemma PartialIsShort(text: string, dd: int, vv: nat, n: nat)
    requires Partial(text, dd, vv, n)
    ensures DigitCount(text) < 19 && |text| <= 23
  {
    assert Pow10(0) == 1;
  }

  lemma CommaGroups(text: string, dd: int)
    requires 0 <= dd <= 3 && |text| % 4 == dd && Grouped(text)
    ensures var middle := WithComma(text, dd);
            Grouped(middle) && StripCommas(middle) == StripCommas(text) && |middle| % 4 == if dd == 3 then 0 else dd
  {
    hide StripCommas, Grouped;
    if dd == 3 {
      StripPrepend(',', text);
      GroupedPrepend(',', text);
      assert "" + StripCommas(text) == StripCommas(text);
    }
  }

  lemma TurnGroups(text: string, dd: int, digit: char)
    requires 0 <= dd <= 3 && |text| % 4 == dd && (dd == 0 ==> text == "") && Grouped(text) && IsDigit(digit)
    ensures var text' := [digit] + WithComma(text, dd);
            && Grouped(text') && StripCommas(text') == [digit] + StripCommas(text)
            && |text'| % 4 == (if dd == 3 then 0 else dd) + 1
            && DigitCount(text') == DigitCount(text) + 1
  {
    hide StripCommas, Grouped;
    CommaGroups(text, dd);
    var middle := WithComma(text, dd);
    assert |middle| == |text| + if dd == 3 then 1 else 0;
    hide WithComma;
    StripPrepend(digit, middle);
    GroupedPrepend(digit, middle);
    TurnCounts(|text|, dd);
  }

  lemma TurnCounts(n: nat, dd: int)
    requires n % 4 == dd
    ensures var m := n + if dd == 3 then 2 else 1;
            m - m / 4 == n - n / 4 + 1 && m % 4 == (if dd == 3 then 0 else dd) + 1
  {
  }

  lemma LastDigit(vv: nat, tail: string)
    ensures ToDigits(vv) + tail == if vv < 10 then [DigitChar(vv % 10)] + tail
                                   else ToDigits(vv / 10) + ([DigitChar(vv % 10)] + tail)
  {
    if vv >= 10 {
      assert ToDigits(vv / 10) + [DigitChar(vv % 10)] + tail == ToDigits(vv / 10) + ([DigitChar(vv % 10)] + tail);
    }
  }

  /** One turn of the loop. */
  lemma TurnKeepsPartial(text: string, dd: int, vv: nat, n: nat)
    requires Partial(text, dd, vv, n)
    ensures var text' := [DigitChar(vv % 10)] + WithComma(text, dd);
            && |text'| <= 25
            && (vv / 10 != 0 ==> Partial(text', (if dd == 3 then 0 else dd) + 1, vv / 10, n))
            && (vv / 10 == 0 ==> IsCommaText(text', n))
  {
    PartialIsShort(text, dd, vv, n);
    TurnGroups(text, dd, DigitChar(vv % 10));
    LastDigit(vv, StripCommas(text));
    var k := DigitCount(text);
    assert Pow10(19 - k) == 10 * Pow10(18 - k);
    hide StripCommas, ToDigits, Grouped, Pow10;
    assert vv / 10 < Pow10(18 - k);
  }

  lemma StartPartial(n: nat)
    requires n <= INT64_MAX
    ensures Partial("", 0, n, n)
  {
    assert Pow10(10) == 10_000_000_000;
    assert Pow10(19) == 10_000_000_000_000_000_000;
    assert ToDigits(n) + "" == ToDigits(n);
  }

  /** The bytes written so far are those of text. */
  ghost predicate Written(buf: array<char>, pp: int, text: string)
    reads buf
  {
    && buf.Length == 32 && 0 <= pp == 30 - |text|
    && forall i :: pp < i < 31 ==> buf[i] == text[i - pp - 1]
  }

  lemma WrittenIs(buf: array<char>, pp: int, text: string)
    requires Written(buf, pp, text)
    ensures buf[pp + 1..31] == text
  {
  }

  /** `*pp = c; --pp;` */
  method Prepend(buf: array<char>, at: int, c: char, ghost text: string) returns (pp: int)
    requires Written(buf, at, text) && at > 0
    modifies buf
    ensures pp == at - 1 && Written(buf, pp, [c] + text)
  {
    buf[at] := c;
    pp := at - 1;
  }

  /** The loop: writes n from the right, starting in front of the closing zero byte. */
  method WriteGroups(buf: array<char>, n: nat) returns (pp: int, ghost text: string)
    requires buf.Length == 32 && n <= INT64_MAX
    modifies buf
    ensures Written(buf, pp, text) && |text| <= 25 && IsCommaText(text, n)
  {
    hide Partial, IsCommaText, Pow10, ToDigits, StripCommas, Grouped, DigitCount;
    pp := 30;
    text := "";
    var dd := 0;
    var vv: nat := n;
    StartPartial(n);
    var more := true;
    while more
      invariant |text| <= 25 && Written(buf, pp, text)
      invariant more ==> Partial(text, dd, vv, n)
      invariant !more ==> IsCommaText(text, n)
      decreases more, vv
    {
      PartialIsShort(text, dd, vv, n);
      TurnKeepsPartial(text, dd, vv, n);
      if dd == 3 {
        dd := 0;
        pp := Prepend(buf, pp, ',', text);
        text := "," + text;
      }
      pp := Prepend(buf, pp, DigitChar(vv % 10), text);
      text := [DigitChar(vv % 10)] + text;
      dd := dd + 1;
      vv := vv / 10;
      more := vv != 0;
    }
  }

  /** Fills a 32-byte buffer from its end. The least 64-bit number, which has no absolute value among
      the 64-bit numbers, is not an input. */
  method CommaNum(val: int) returns (s: string)
    requires -INT64_MAX <= val <= INT64_MAX
    ensures val < 0 ==> s != "" && s[0] == '-' && IsCommaText(s[1..], -val)
    ensures val >= 0 ==> IsCommaText(s, val)
    ensures |s| <= 26
  {
    hide IsCommaText;
    var buf := new char[32](_ => '\0');
    var pp, text := WriteGroups(buf, if val < 0 then -val else val);
    if val < 0 {
      pp := Prepend(buf, pp, '-', text);
      text := "-" + text;
    }
    WrittenIs(buf, pp, text);
    pp := pp + 1;
    s := buf[pp..31];
  }
}
