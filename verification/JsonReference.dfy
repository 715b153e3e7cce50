/** A recursive-descent parser of the texts the table accepts, written without states, token pointer
    or nesting counter, and the proof that the table-driven loop agrees with it on every input. */
module JsonReference {
  import opened Bytes
  import opened JsonFsm

  predicate IsBlank(c: char) { c == ' ' || c == '\t' }

  /** Letters, digits and the dot, by their ASCII codes. */
  predicate BareChar(c: char) {
    var b := c as int;
    48 <= b <= 57 || 65 <= b <= 90 || 97 <= b <= 122 || b == 46
  }

  predicate KeyChar(c: char) { BareChar(c) || IsBlank(c) }
  predicate QuotedChar(c: char) { c != '"' && (32 <= c as int <= 126 || c as int == 9) }
  predicate ArrayChar(c: char) { BareChar(c) || IsBlank(c) || c == '"' || c == ',' }
  predicate NestedChar(c: char) { ArrayChar(c) || c == ':' || c == '[' || c == ']' }
  predicate TokenChar(c: char) { NestedChar(c) || c == '{' || c == '}' }

  const DIGITS := "0123456789"
  const UPPER := "ABCDEFGHIJKLMNOPQRSTUVWXYZ"
  const LOWER := "abcdefghijklmnopqrstuvwxyz"

  lemma DigitsAreRange(c: char)
    ensures c in DIGITS <==> 48 <= c as int <= 57
  {
    if 48 <= c as int <= 57 {
      assert DIGITS[c as int - 48] == c;
    }
  }

  lemma UpperIsRange(c: char)
    ensures c in UPPER <==> 65 <= c as int <= 90
  {
    if 65 <= c as int <= 90 {
      assert UPPER[c as int - 65] == c;
    }
  }

  lemma LowerIsRange(c: char)
    ensures c in LOWER <==> 97 <= c as int <= 122
  {
    if 97 <= c as int <= 122 {
      assert LOWER[c as int - 97] == c;
    }
  }

  /** Quoted text may hold every printable byte but the quote, and tabs. */
  lemma QuotedIsLiteral(c: char)
    ensures QuotedChar(c) <==> BareChar(c) || c in " \t!#$%&'()*+,-/:;<=>?@[\\]^_`{|}~"
  {
  }

  /** The classes byte by byte. */
  lemma ClassesAreLiteral(c: char)
    ensures IsBlank(c) <==> c in " \t"
    ensures BareChar(c) <==> c in DIGITS || c in UPPER || c in LOWER || c in "."
    ensures KeyChar(c) <==> BareChar(c) || c in " \t"
    ensures ArrayChar(c) <==> BareChar(c) || c in " \t\","
    ensures NestedChar(c) <==> BareChar(c) || c in " \t\",:[]"
  {
    DigitsAreRange(c);
    UpperIsRange(c);
    LowerIsRange(c);
  }

  /** The length of the longest prefix made of bytes in the class. */
  function Span(s: string, class_: char -> bool): (n: nat)
    ensures n <= |s| && forall i :: 0 <= i < n ==> class_(s[i])
    ensures n < |s| ==> !class_(s[n])
  {
    if s == "" || !class_(s[0]) then 0 else 1 + Span(s[1..], class_)
  }

  function SkipBlanks(s: string): (r: string)
    ensures |r| <= |s| && (r == "" || !IsBlank(r[0]))
  {
    s[Span(s, IsBlank)..]
  }

  /** A scanned value and what follows it, or the place where scanning broke off. */
  datatype Piece = Got(value: string, rest: string) | Broken(at: string)

  /** What is wrong with a text that breaks off where `at` begins. */
  function Blame(at: string): ParseError {
    if at == "" then UnexpectedEnd else if TokenChar(at[0]) then InvalidSyntax else InvalidChar
  }

  /** The inside of a nested object, up to and including its closing brace. */
  function Nested(s: string): (r: Piece)
    ensures r.Got? ==> |r.rest| < |s|
    decreases |s|
  {
    if s == "" then Broken(s)
    else if s[0] == '}' then Got("}", s[1..])
    else if s[0] == '{' then
      match Nested(s[1..])
      case Broken(at) => Broken(at)
      case Got(inner, rest) =>
        (match Nested(rest)
         case Broken(at) => Broken(at)
         case Got(more, rest') => Got("{" + inner + more, rest'))
    else if NestedChar(s[0]) then
      match Nested(s[1..])
      case Broken(at) => Broken(at)
      case Got(more, rest) => Got([s[0]] + more, rest)
    else Broken(s)
  }

  function Value(s: string): (r: Piece)
    ensures r.Got? ==> |r.rest| < |s|
  {
    if StartsWith(s, '"') then
      var n := Span(s[1..], QuotedChar);
      var behind := s[1..][n..];
      if StartsWith(behind, '"') then Got(s[1..][..n], behind[1..]) else Broken(behind)
    else if StartsWith(s, '{') then
      match Nested(s[1..])
      case Broken(at) => Broken(at)
      case Got(inner, rest) => Got("{" + inner, rest)
    else if StartsWith(s, '[') then
      var n := Span(s[1..], ArrayChar);
      var behind := s[1..][n..];
      if StartsWith(behind, ']') then Got("[" + s[1..][..n] + "]", behind[1..]) else Broken(behind)
    else if s != "" && BareChar(s[0]) then
      var n := Span(s[1..], BareChar);
      Got([s[0]] + s[1..][..n], s[1..][n..])
    else Broken(s)
  }

  /** Key, colon and value of one member; the key is returned beside the value. */
  function Member(s: string): (r: (string, Piece))
    requires StartsWith(s, '"')
    ensures r.1.Got? ==> |r.1.rest| < |s|
  {
    var n := Span(s[1..], KeyChar);
    var key, s1 := s[1..][..n], s[1..][n..];
    if !StartsWith(s1, '"') then (key, Broken(s1))
    else
      var s2 := SkipBlanks(s1[1..]);
      if !StartsWith(s2, ':') then (key, Broken(s2)) else (key, Value(SkipBlanks(s2[1..])))
  }

  /** The members from the start of s to the brace that closes the object. */
  function Members(s: string, pairs: map<string, string>): Verdict
    decreases |s|, 1
  {
    var s1 := SkipBlanks(s);
    if StartsWith(s1, '}') then Accepted(pairs)
    else if !StartsWith(s1, '"') then Rejected(Blame(s1))
    else
      var (key, value) := Member(s1);
      match value
      case Broken(at) => Rejected(Blame(at))
      case Got(v, rest) => AfterValue(rest, pairs[key := v])
  }

  function AfterValue(s: string, pairs: map<string, string>): Verdict
    decreases |s|, 0
  {
    var s1 := SkipBlanks(s);
    if StartsWith(s1, '}') then Accepted(pairs)
    else if StartsWith(s1, ',') then Members(s1[1..], pairs)
    else Rejected(Blame(s1))
  }

  /** The reference verdict on a text. */
  function RefParse(s: string): Verdict {
    var s1 := SkipBlanks(s);
    if StartsWith(s1, '{') then Members(s1[1..], map[]) else Rejected(Blame(s1))
  }

  // ----- the table-driven loop agrees -----

  /** The bytes a reading state collects. */
  function Collected(state: State): char -> bool
    requires state in {RdKey, RdValQuo, RdValUnq, RdValAry}
  {
    match state
    case RdKey => KeyChar
    case RdValQuo => QuotedChar
    case RdValUnq => BareChar
    case RdValAry => ArrayChar
  }

  lemma {:induction false} RunSkipsBlanks(m: Machine, s: string)
    requires m.state in {ScRoot, ScKey, ScColon, ScValBgn, ScObjEnd}
    ensures Run(m, s) == Run(m, SkipBlanks(s))
    decreases s
  {
    if s != "" && IsBlank(s[0]) {
      RunSkipsBlanks(m, s[1..]);
      assert SkipBlanks(s) == SkipBlanks(s[1..]);
    }
  }

  lemma StepCollects(m: Machine, c: char)
    requires m.state in {RdKey, RdValQuo, RdValUnq, RdValAry} && Collected(m.state)(c)
    ensures Step(m, c) == Running(m.Pushed([c]))
  {
  }

  /** The bytes a state can go on with. */
  predicate Continues(state: State, c: char) {
    match state
    case ScRoot => IsBlank(c) || c == '{'
    case ScKey => IsBlank(c) || c == '"' || c == '}'
    case RdKey => KeyChar(c) || c == '"'
    case ScColon => IsBlank(c) || c == ':'
    case ScValBgn => IsBlank(c) || BareChar(c) || c == '"' || c == '{' || c == '['
    case RdValQuo => QuotedChar(c) || c == '"'
    case RdValUnq => BareChar(c) || IsBlank(c) || c == ',' || c == '}'
    case RdValObj => TokenChar(c)
    case RdValAry => ArrayChar(c) || c == ']'
    case ScObjEnd => IsBlank(c) || c == ',' || c == '}'
  }

  /** Every other byte ends the loop with the reference's error. */
  lemma RunBreaks(m: Machine, s: string)
    requires s == "" || !Continues(m.state, s[0])
    ensures Run(m, s) == Rejected(Blame(s))
  {
  }

  lemma PushedTwice(m: Machine, s: string, t: string)
    ensures m.Pushed(s).Pushed(t) == m.Pushed(s + t)
    ensures m.Pushed("") == m
  {
    assert m.key + s + t == m.key + (s + t) && m.val + s + t == m.val + (s + t);
    assert m.key + "" == m.key && m.val + "" == m.val;
  }

  lemma {:induction false} RunCollects(m: Machine, s: string)
    requires m.state in {RdKey, RdValQuo, RdValUnq, RdValAry}
    ensures var n := Span(s, Collected(m.state)); Run(m, s) == Run(m.Pushed(s[..n]), s[n..])
    decreases s
  {
    hide Step;
    var n := Span(s, Collected(m.state));
    if n > 0 {
      var next := m.Pushed([s[0]]);
      StepCollects(m, s[0]);
      RunCollects(next, s[1..]);
      PushedTwice(m, [s[0]], s[1..][..n - 1]);
      assert s[..n] == [s[0]] + s[1..][..n - 1];
    } else {
      PushedTwice(m, "", "");
      assert s[..0] == "" && s[0..] == s;
    }
  }

  /** The machine once the nesting level has closed behind the text t. */
  function Closed(m: Machine, t: string): Machine {
    var p := m.Pushed(t).(subObj := m.subObj - 1);
    if p.subObj == 0 then p.Inserted("").(state := ScObjEnd) else p
  }

  lemma StepNested(m: Machine, c: char)
    requires m.Valid() && m.state == RdValObj
    ensures c == '{' ==> Step(m, c) == Running(m.Pushed("{").(subObj := m.subObj + 1))
    ensures c == '}' ==> Step(m, c) == Running(Closed(m, "}"))
    ensures NestedChar(c) ==> Step(m, c) == Running(m.Pushed([c]))
    ensures !TokenChar(c) ==> Step(m, c) == Done(Rejected(InvalidChar))
  {
  }

  lemma ClosedAfterPush(m: Machine, s: string, t: string)
    ensures Closed(m.Pushed(s), t) == Closed(m, s + t)
  {
    PushedTwice(m, s, t);
  }

  /** A level opened and closed again. */
  lemma OpenedAndClosed(m: Machine, inner: string)
    requires m.Valid() && m.state == RdValObj
    ensures var deeper := m.Pushed("{").(subObj := m.subObj + 1);
            && deeper.Valid() && deeper.state == RdValObj
            && Closed(deeper, inner) == m.Pushed("{" + inner)
            && m.Pushed("{" + inner).Valid() && m.Pushed("{" + inner).state == RdValObj
  {
    PushedTwice(m, "{", inner);
  }

  lemma PushKeepsNested(m: Machine, c: char)
    requires m.Valid() && m.state == RdValObj
    ensures m.Pushed([c]).Valid() && m.Pushed([c]).state == RdValObj
  {
  }

  lemma {:induction false} RunNested(m: Machine, s: string)
    requires m.Valid() && m.state == RdValObj
    ensures match Nested(s)
            case Got(t, rest) => Run(m, s) == Run(Closed(m, t), rest)
            case Broken(at) => Run(m, s) == Rejected(Blame(at))
    decreases |s|
  {
    hide Step, Closed, Machine.Pushed, Machine.Valid;
    if s != "" {
      StepNested(m, s[0]);
      if s[0] == '{' {
        var deeper := m.Pushed("{").(subObj := m.subObj + 1);
        OpenedAndClosed(m, "");
        RunNested(deeper, s[1..]);
        if Nested(s[1..]).Got? {
          var Got(inner, rest) := Nested(s[1..]);
          OpenedAndClosed(m, inner);
          RunNested(m.Pushed("{" + inner), rest);
          if Nested(rest).Got? {
            ClosedAfterPush(m, "{" + inner, Nested(rest).value);
          }
        }
      } else if NestedChar(s[0]) {
        PushKeepsNested(m, s[0]);
        RunNested(m.Pushed([s[0]]), s[1..]);
        if Nested(s[1..]).Got? {
          ClosedAfterPush(m, [s[0]], Nested(s[1..]).value);
        }
      }
    }
  }

  /** A machine that has just stored its last value. */
  function Between(state: State, pairs: map<string, string>): Machine {
    Machine(state, "", "", KeyToken, 0, pairs)
  }

  /** A machine at the beginning of a value. */
  function AtValue(key: string, pairs: map<string, string>): Machine {
    Machine(ScValBgn, key, "", ValToken, 0, pairs)
  }

  /** A machine that is reading a bare value and has read v of it. */
  function InBare(key: string, v: string, pairs: map<string, string>): Machine {
    Machine(RdValUnq, key, v, ValToken, 0, pairs)
  }

  /** The loop reads the value that s starts with, and stands behind it afterwards. */
  ghost predicate ReadsValue(m: Machine, s: string, value: Piece, key: string, pairs: map<string, string>) {
    match value
    case Broken(at) => Run(m, s) == Rejected(Blame(at))
    case Got(v, rest) =>
      || Run(m, s) == Run(Between(ScObjEnd, pairs[key := v]), rest)
      || (Run(m, s) == Run(InBare(key, v, pairs), rest) && (rest == "" || !BareChar(rest[0])))
  }

  lemma RunQuoted(s: string, key: string, pairs: map<string, string>)
    requires StartsWith(s, '"')
    ensures ReadsValue(AtValue(key, pairs), s, Value(s), key, pairs)
  {
    var m := AtValue(key, pairs).(state := RdValQuo);
    var n := Span(s[1..], QuotedChar);
    var text, behind := s[1..][..n], s[1..][n..];
    assert "" + text == text && text + "" == text;
    assert Step(AtValue(key, pairs), '"') == Running(m);
    assert Step(m.Pushed(text), '"') == Running(Between(ScObjEnd, pairs[key := text]));
    hide Step;
    RunCollects(m, s[1..]);
    if !StartsWith(behind, '"') {
      RunBreaks(m.Pushed(text), behind);
    }
  }

  lemma RunArray(s: string, key: string, pairs: map<string, string>)
    requires StartsWith(s, '[')
    ensures ReadsValue(AtValue(key, pairs), s, Value(s), key, pairs)
  {
    var m := AtValue(key, pairs).(state := RdValAry, val := "[");
    assert "" + "[" == "[";
    assert Step(AtValue(key, pairs), '[') == Running(m);
    var n := Span(s[1..], ArrayChar);
    var text, behind := s[1..][..n], s[1..][n..];
    assert Step(m.Pushed(text), ']') == Running(Between(ScObjEnd, pairs[key := "[" + text + "]"]));
    hide Step;
    RunCollects(m, s[1..]);
    if !StartsWith(behind, ']') {
      RunBreaks(m.Pushed(text), behind);
    }
  }

  lemma RunObject(s: string, key: string, pairs: map<string, string>)
    requires StartsWith(s, '{')
    ensures ReadsValue(AtValue(key, pairs), s, Value(s), key, pairs)
  {
    var m := Machine(RdValObj, key, "{", ValToken, 1, pairs);
    assert "" + "{" == "{";
    assert Step(AtValue(key, pairs), '{') == Running(m);
    RunNested(m, s[1..]);
    if Nested(s[1..]).Got? {
      var t := Nested(s[1..]).value;
      assert "{" + t + "" == "{" + t;
    }
  }

  lemma RunBare(s: string, key: string, pairs: map<string, string>)
    requires s != "" && BareChar(s[0])
    ensures ReadsValue(AtValue(key, pairs), s, Value(s), key, pairs)
  {
    var m := InBare(key, [s[0]], pairs);
    assert "" + [s[0]] == [s[0]];
    assert Step(AtValue(key, pairs), s[0]) == Running(m);
    RunCollects(m, s[1..]);
  }

  lemma RunValue(s: string, key: string, pairs: map<string, string>)
    ensures ReadsValue(AtValue(key, pairs), s, Value(SkipBlanks(s)), key, pairs)
  {
    RunSkipsBlanks(AtValue(key, pairs), s);
    var s1 := SkipBlanks(s);
    if StartsWith(s1, '"') {
      RunQuoted(s1, key, pairs);
    } else if StartsWith(s1, '[') {
      RunArray(s1, key, pairs);
    } else if StartsWith(s1, '{') {
      RunObject(s1, key, pairs);
    } else if s1 != "" && BareChar(s1[0]) {
      RunBare(s1, key, pairs);
    }
  }

  lemma RunMember(s: string, pairs: map<string, string>)
    requires StartsWith(s, '"')
    ensures var (key, value) := Member(s); ReadsValue(Between(ScKey, pairs), s, value, key, pairs)
  {
    var reading := Between(RdKey, pairs);
    assert Step(Between(ScKey, pairs), '"') == Running(reading);
    var n := Span(s[1..], KeyChar);
    var key, s1 := s[1..][..n], s[1..][n..];
    assert "" + key == key;
    var colon := Machine(ScColon, key, "", ValToken, 0, pairs);
    assert Step(reading.(key := key), '"') == Running(colon);
    assert Step(colon, ':') == Running(AtValue(key, pairs));
    hide Step;
    RunCollects(reading, s[1..]);
    if StartsWith(s1, '"') {
      RunSkipsBlanks(colon, s1[1..]);
      var s2 := SkipBlanks(s1[1..]);
      if StartsWith(s2, ':') {
        RunValue(s2[1..], key, pairs);
      } else {
        RunBreaks(colon, s2);
      }
    } else {
      RunBreaks(reading.(key := key), s1);
    }
  }

  lemma {:induction false} RunMembers(s: string, pairs: map<string, string>)
    ensures Run(Between(ScKey, pairs), s) == Members(s, pairs)
    decreases |s|, 1
  {
    RunSkipsBlanks(Between(ScKey, pairs), s);
    var s1 := SkipBlanks(s);
    assert Step(Between(ScKey, pairs), '}') == Done(Accepted(pairs));
    hide Step;
    if s1 == "" || !Continues(ScKey, s1[0]) {
      RunBreaks(Between(ScKey, pairs), s1);
    } else if StartsWith(s1, '"') {
      RunMember(s1, pairs);
      var (key, value) := Member(s1);
      if value.Got? {
        RunAfterValue(value.rest, pairs[key := value.value]);
        if value.rest == "" || !BareChar(value.rest[0]) {
          RunBehindBare(value.rest, key, value.value, pairs);
        }
      }
    }
  }

  /** Between values, the loop continues as the reference does. */
  lemma {:induction false} RunAfterValue(s: string, pairs: map<string, string>)
    ensures Run(Between(ScObjEnd, pairs), s) == AfterValue(s, pairs)
    decreases |s|, 0
  {
    RunSkipsBlanks(Between(ScObjEnd, pairs), s);
    var s1 := SkipBlanks(s);
    assert Step(Between(ScObjEnd, pairs), '}') == Done(Accepted(pairs));
    assert Step(Between(ScObjEnd, pairs), ',') == Running(Between(ScKey, pairs));
    hide Step;
    if s1 == "" || !Continues(ScObjEnd, s1[0]) {
      RunBreaks(Between(ScObjEnd, pairs), s1);
    } else if StartsWith(s1, ',') {
      RunMembers(s1[1..], pairs);
    }
  }

  lemma StepBehindBare(c: char, key: string, v: string, pairs: map<string, string>)
    requires !BareChar(c)
    ensures Step(InBare(key, v, pairs), c) == Step(Between(ScObjEnd, pairs[key := v]), c)
  {
    assert v + "" == v;
  }

  /** The byte behind a bare value both ends it and is read as the byte behind a value. */
  lemma RunBehindBare(s: string, key: string, v: string, pairs: map<string, string>)
    requires s == "" || !BareChar(s[0])
    ensures Run(InBare(key, v, pairs), s) == Run(Between(ScObjEnd, pairs[key := v]), s)
  {
    if s != "" {
      StepBehindBare(s[0], key, v, pairs);
    }
    hide Step;
  }

  /** On every byte string the table-driven loop and the reference agree: the same texts are accepted,
      with the same pairs, and the rejected ones are rejected for the same reason. */
  lemma FsmIsRecursiveDescent(s: string)
    ensures Parse(s) == RefParse(s)
  {
    RunSkipsBlanks(START, s);
    var s1 := SkipBlanks(s);
    if StartsWith(s1, '{') {
      RunMembers(s1[1..], map[]);
    }
  }
}
