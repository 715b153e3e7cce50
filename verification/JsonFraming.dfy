/** bitfinex/parser.cpp, process_json_event: the brace counter that cuts an event out of the received
    bytes, and how it relates to the parser that then reads the cut. */
module JsonFraming {
  import opened Bytes
  import opened Wrappers
  import opened JsonFsm
  import opened JsonReference
  import opened JsonDocument

  predicate IsBrace(c: char) { c == '{' || c == '}' }

  /** The effect of one byte on the counter. */
  function Weight(c: char): int {
    if c == '}' then -1 else if c == '{' then 1 else 0
  }

  function Balance(s: string): int {
    if s == "" then 0 else Weight(s[0]) + Balance(s[1..])
  }

  /** How many bytes of s bring a counter from depth to zero. */
  function FrameFrom(s: string, depth: nat): (r: Option<nat>)
    ensures r.Some? ==> r.value <= |s|
  {
    if depth == 0 then Some(0)
    else if s == "" then None
    else
      match FrameFrom(s[1..], depth + Weight(s[0]))
      case None => None
      case Some(n) => Some(n + 1)
  }

  /** The length of the event at the start of the received bytes, whose first byte counts as `{`. */
  function Frame(s: string): (r: Option<nat>)
    requires s != ""
    ensures r.Some? ==> 1 < r.value <= |s|
  {
    match FrameFrom(s[1..], 1)
    case None => None
    case Some(n) => Some(n + 1)
  }

  /** A frame is the shortest prefix that brings the counter to zero. */
  lemma {:induction false} FrameIsFirstZero(s: string, depth: nat)
    ensures FrameFrom(s, depth).Some? ==>
              var n := FrameFrom(s, depth).value;
              depth + Balance(s[..n]) == 0 && forall k :: 0 <= k < n ==> depth + Balance(s[..k]) > 0
    ensures FrameFrom(s, depth).None? ==> forall k :: 0 <= k <= |s| ==> depth + Balance(s[..k]) > 0
  {
    if depth > 0 && s != "" {
      FrameIsFirstZero(s[1..], depth + Weight(s[0]));
      forall k | 0 < k <= |s|
        ensures Balance(s[..k]) == Weight(s[0]) + Balance(s[1..][..k - 1])
      {
        assert s[..k][1..] == s[1..][..k - 1];
      }
    }
  }

  lemma {:induction false} FrameStable(s: string, depth: nat, more: string)
    requires FrameFrom(s, depth).Some?
    ensures FrameFrom(s + more, depth) == FrameFrom(s, depth)
  {
    if depth > 0 {
      assert (s + more)[1..] == s[1..] + more;
      FrameStable(s[1..], depth + Weight(s[0]), more);
    }
  }

  /** No brace comes while the parser, started at m, is inside a top-level quoted value. */
  ghost predicate NoQuotedBrace(m: Machine, s: string)
    decreases s
  {
    s != "" ==>
      && !(m.state == RdValQuo && IsBrace(s[0]))
      && (Step(m, s[0]).Running? ==> NoQuotedBrace(Step(m, s[0]).m, s[1..]))
  }

  /** After every byte that leaves the parser running, the counter is one more than its nesting. */
  ghost predicate CountersAgree(m: Machine, s: string, depth: int)
    decreases s
  {
    && depth == 1 + m.subObj
    && (s != "" && Step(m, s[0]).Running? ==>
          CountersAgree(Step(m, s[0]).m, s[1..], depth + Weight(s[0])))
  }

  lemma StepKeepsCounters(m: Machine, c: char)
    requires m.Valid() && m.state != ScRoot && Step(m, c).Running?
    ensures Step(m, c).m.Valid() && Step(m, c).m.state != ScRoot
    ensures Step(m, c).m.subObj == m.subObj + Weight(c) <==> !(m.state == RdValQuo && IsBrace(c))
  {
  }

  lemma {:induction false} CountersAgreeFrom(m: Machine, s: string)
    requires m.Valid() && m.state != ScRoot
    ensures CountersAgree(m, s, 1 + m.subObj) <==> NoQuotedBrace(m, s)
    decreases s
  {
    if s != "" && Step(m, s[0]).Running? {
      StepKeepsCounters(m, s[0]);
      CountersAgreeFrom(Step(m, s[0]).m, s[1..]);
    }
  }

  lemma StartStep(s: string)
    requires StartsWith(s, '{')
    ensures Step(START, s[0]) == Running(Between(ScKey, map[]))
  {
  }

  /** The framing counter and the parser's nesting agree after every byte of an object for as long as
      the parser runs if and only if no brace stands in a top-level quoted value. */
  lemma CountersAgreeIff(s: string)
    requires StartsWith(s, '{')
    ensures CountersAgree(Step(START, s[0]).m, s[1..], 1) <==> NoQuotedBrace(START, s)
  {
    StartStep(s);
    CountersAgreeFrom(Between(ScKey, map[]), s[1..]);
  }

  /** What a byte read in m adds to the balance of the braces in top-level quoted values. */
  function QuotedWeight(m: Machine, c: char): int {
    if m.state == RdValQuo then Weight(c) else 0
  }

  /** While the parser runs, the closing braces in quoted values never outnumber the opening ones; q is
      how many the opening ones are ahead at the start. */
  ghost predicate NoDeficit(m: Machine, s: string, q: int)
    decreases s
  {
    && q >= 0
    && (s != "" && Step(m, s[0]).Running? ==> NoDeficit(Step(m, s[0]).m, s[1..], q + QuotedWeight(m, s[0])))
  }

  /** The balance of the braces in quoted values up to where the parser stops. */
  function QuotedBalance(m: Machine, s: string): int
    decreases s
  {
    if s == "" then 0
    else QuotedWeight(m, s[0]) + if Step(m, s[0]).Running? then QuotedBalance(Step(m, s[0]).m, s[1..]) else 0
  }

  /** The parser stops at the last byte of s and at none before it. */
  ghost predicate StopsAtLast(m: Machine, s: string)
    decreases s
  {
    s != "" && if Step(m, s[0]).Running? then StopsAtLast(Step(m, s[0]).m, s[1..]) else |s| == 1
  }

  lemma DoneIsNoEnd(m: Machine, c: char)
    requires m.Valid() && Step(m, c).Done?
    ensures Step(m, c).verdict != Rejected(UnexpectedEnd)
    ensures Step(m, c).verdict.Accepted? && m.state != ScRoot ==> c == '}' && m.state != RdValQuo && m.subObj == 0
  {
  }

  /** A byte moves the framing counter as it moves nesting and quoted braces together. */
  lemma StepSplitsWeight(m: Machine, c: char)
    requires m.Valid() && m.state != ScRoot && Step(m, c).Running?
    ensures Step(m, c).m.Valid() && Step(m, c).m.state != ScRoot
    ensures Step(m, c).m.subObj + QuotedWeight(m, c) == m.subObj + Weight(c)
    ensures QuotedWeight(m, c) != 0 ==> Step(m, c).m.subObj == 0
  {
  }

  lemma FrameNext(s: string, depth: nat, n: nat)
    requires depth > 0 && FrameFrom(s, depth) == Some(n)
    ensures s != "" && 0 < n <= |s| && FrameFrom(s[1..], depth + Weight(s[0])) == Some(n - 1)
    ensures s[..n][0] == s[0] && s[..n][1..] == s[1..][..n - 1]
  {
  }

  /** The counter is zero before any byte exactly where it starts at zero. */
  lemma FrameAtZero(s: string, depth: nat)
    ensures FrameFrom(s, depth) == Some(0) <==> depth == 0
  {
  }

  /** How the parser takes t, at whose end the framing counter, now 1 + nesting + q, comes to zero. */
  ghost predicate Framed(m: Machine, t: string, q: int) {
    && (Advance(m, t).Running? <==> !NoDeficit(m, t, q))
    && (Advance(m, t).Done? ==> Advance(m, t).verdict != Rejected(UnexpectedEnd))
    && (Advance(m, t).Done? && Advance(m, t).verdict.Accepted? ==>
          (StopsAtLast(m, t) <==> q + QuotedBalance(m, t) == 0))
  }

  /** The parser goes on. */
  lemma FramedRunning(m: Machine, t: string, q: nat)
    requires t != "" && Step(m, t[0]).Running?
    requires Framed(Step(m, t[0]).m, t[1..], q + QuotedWeight(m, t[0]))
    ensures Framed(m, t, q)
  {
    hide Step, QuotedWeight;
  }

  /** The parser stops, and the counter is at q. */
  lemma FramedDone(m: Machine, t: string, q: nat)
    requires m.Valid() && m.state != ScRoot && t != "" && Step(m, t[0]).Done?
    requires Step(m, t[0]).verdict.Accepted? ==> (|t| == 1 <==> q == 0)
    ensures Framed(m, t, q)
  {
    DoneIsNoEnd(m, t[0]);
    hide Step, Machine.Valid;
  }

  lemma {:induction false} FramedFrom(m: Machine, s: string, n: nat, q: nat)
    requires m.Valid() && m.state != ScRoot
    requires FrameFrom(s, m.subObj + 1 + q) == Some(n)
    ensures Framed(m, s[..n], q)
    decreases s
  {
    assert m.subObj >= 0;
    hide Step, FrameFrom, Machine.Valid, Framed;
    var depth := m.subObj + 1 + q;
    FrameNext(s, depth, n);
    match Step(m, s[0]) {
      case Running(next) =>
        StepSplitsWeight(m, s[0]);
        var q' := q + QuotedWeight(m, s[0]);
        if q' >= 0 {
          FramedFrom(next, s[1..], n - 1, q');
        } else {
          FrameAtZero(s[1..], depth + Weight(s[0]));
          FramedDeficit(next, q');
        }
        FramedRunning(m, s[..n], q);
      case Done(v) =>
        DoneIsNoEnd(m, s[0]);
        FrameAtZero(s[1..], depth + Weight(s[0]));
        FramedDone(m, s[..n], q);
    }
  }

  lemma FramedDeficit(m: Machine, q: int)
    requires q < 0
    ensures Framed(m, "", q)
  {
  }

  /** The parser, given a framed event, runs out of input if and only if at some byte the closing braces
      in its quoted values outnumber the opening ones; and when it accepts, it does so at the last byte
      of the frame if and only if these braces balance. */
  lemma FramedVerdict(s: string, n: nat)
    requires StartsWith(s, '{') && Frame(s) == Some(n)
    ensures Parse(s[..n]) == Rejected(UnexpectedEnd) <==> !NoDeficit(START, s[..n], 0)
    ensures Parse(s[..n]).Accepted? ==> (StopsAtLast(START, s[..n]) <==> QuotedBalance(START, s[..n]) == 0)
  {
    StartStep(s);
    var m := Between(ScKey, map[]);
    var rest := s[1..][..n - 1];
    assert s[..n][0] == s[0] && s[..n][1..] == rest && s[..n] + "" == s[..n];
    FramedFrom(m, s[1..], n - 1, 0);
    RunFromAdvance(START, s[..n], "");
    hide Step, FrameFrom;
    assert Advance(START, s[..n]) == Advance(m, rest);
    assert NoDeficit(START, s[..n], 0) <==> NoDeficit(m, rest, 0);
  }

  lemma {:induction false} NoQuotedBraceIsBalanced(m: Machine, s: string)
    requires NoQuotedBrace(m, s)
    ensures NoDeficit(m, s, 0) && QuotedBalance(m, s) == 0
    decreases s
  {
    hide Step;
    if s != "" && Step(m, s[0]).Running? {
      NoQuotedBraceIsBalanced(Step(m, s[0]).m, s[1..]);
    }
  }

  /** In particular, without braces in quoted values the parser accepts a framed event exactly at its
      last byte, or rejects it, and never runs out of input. */
  lemma PlainEventsNeverEndEarly(s: string, n: nat)
    requires StartsWith(s, '{') && Frame(s) == Some(n) && NoQuotedBrace(START, s[..n])
    ensures Parse(s[..n]) != Rejected(UnexpectedEnd)
    ensures Parse(s[..n]).Accepted? ==> StopsAtLast(START, s[..n])
  {
    FramedVerdict(s, n);
    NoQuotedBraceIsBalanced(START, s[..n]);
    hide NoQuotedBrace, NoDeficit, Frame, Parse;
  }

  function Plus(n: nat, r: Option<nat>): Option<nat> {
    match r
    case None => None
    case Some(k) => Some(n + k)
  }

  lemma FrameStep(c: char, s: string, depth: nat)
    requires depth > 0
    ensures FrameFrom([c] + s, depth) ==
            Plus(1, FrameFrom(s, depth + Weight(c)))
  {
    assert ([c] + s)[1..] == s;
  }

  lemma {:induction false} FrameSkipsPlain(x: string, t: string, depth: nat)
    requires depth > 0 && forall i :: 0 <= i < |x| ==> !IsBrace(x[i])
    ensures FrameFrom(x + t, depth) ==
            Plus(|x|, FrameFrom(t, depth))
  {
    if x == "" {
      assert x + t == t;
    } else {
      FrameSkipsPlain(x[1..], t, depth);
      FrameStep(x[0], x[1..] + t, depth);
      assert [x[0]] + (x[1..] + t) == x + t;
    }
  }

  /** An object cut behind the closing brace that a first quoted value begins with. */
  function CutInside(key: string): string {
    "\"" + (key + ("\"" + (":" + "\"}")))
  }

  lemma CutIsFramed(key: string, more: string)
    requires All(key, KeyChar)
    ensures Frame("{" + CutInside(key) + more) == Some(|CutInside(key)| + 1)
  {
    var plain := "\"" + (key + "\":\"");
    var s := "{" + CutInside(key) + more;
    assert s[1..] == plain + ("}" + more);
    FrameSkipsPlain(plain, "}" + more, 1);
    FrameStep('}', more, 1);
  }

  lemma QuotedBraceIsBroken()
    ensures Value("\"}") == Broken("")
  {
    assert "\"}"[1..] == "}" + "";
    SpanIs("}", "", QuotedChar);
  }

  lemma NoBlanks(s: string)
    requires s == "" || !IsBlank(s[0])
    ensures SkipBlanks(s) == s
  {
  }

  lemma MemberBreaks(key: string, value: string)
    requires All(key, KeyChar)
    requires value == "" || !IsBlank(value[0])
    requires Value(value) == Broken("")
    ensures Member("\"" + (key + ("\"" + (":" + value)))) == (key, Broken(""))
  {
    hide Value, Member, SkipBlanks;
    var s2 := ":" + value;
    var s1 := "\"" + s2;
    assert s1[1..] == s2 && s2[1..] == value;
    NoBlanks(s2);
    NoBlanks(value);
    MemberIs(key, s1);
  }

  lemma MembersBreak(s: string, m: map<string, string>)
    requires StartsWith(s, '"') && Member(s).1 == Broken("")
    ensures Members(s, m) == Rejected(UnexpectedEnd)
  {
    hide Member;
    NoBlanks(s);
  }

  lemma CutIsRejected(key: string)
    requires All(key, KeyChar)
    ensures Parse("{" + CutInside(key)) == Rejected(UnexpectedEnd)
  {
    QuotedBraceIsBroken();
    MemberBreaks(key, "\"}");
    hide Parse, Member, Value, Span, Members, SkipBlanks, All;
    MembersBreak(CutInside(key), map[]);
    CutIs(CutInside(key));
  }

  lemma RefParseObject(s: string)
    requires StartsWith(s, '{')
    ensures RefParse(s) == Members(s[1..], map[])
  {
    NoBlanks(s);
    hide Members, SkipBlanks;
  }

  lemma CutIs(inside: string)
    ensures Parse("{" + inside) == Members(inside, map[])
  {
    var cut := "{" + inside;
    FsmIsRecursiveDescent(cut);
    hide Parse, Members, RefParse;
    RefParseObject(cut);
    assert cut[1..] == inside;
  }

  /** A family of events on which it does run out of input: an event whose first quoted value begins with
      a closing brace is cut inside that value. */
  lemma QuotedBraceCutsEarly(key: string, more: string)
    requires All(key, KeyChar)
    ensures var cut := "{" + CutInside(key);
            Frame(cut + more) == Some(|cut|) && Parse(cut) == Rejected(UnexpectedEnd)
  {
    CutIsFramed(key, more);
    CutIsRejected(key);
    hide Parse, CutInside, Frame;
  }

  // ----- which printed documents are framed as a whole -----

  /** Read from a counter at depth, the text never brings it to zero. */
  predicate StaysOpen(text: string, depth: int) {
    depth > 0 && (text != "" ==> StaysOpen(text[1..], depth + Weight(text[0])))
  }

  /** Only quoted values can lead the counter astray. */
  predicate ValueStaysOpen(v: JValue, depth: int) {
    depth > 0 && (v.Quoted? ==> StaysOpen(v.text, depth))
  }

  function ValueBalance(v: JValue): int {
    if v.Quoted? then Balance(v.text) else 0
  }

  /** The braces in the quoted values of the members never bring the counter to zero, and the brace that
      closes the members does. */
  predicate BracesMatch(b: Body, depth: int) {
    match b
    case Close(_) => depth == 1
    case Last(m) => ValueStaysOpen(m.value, depth) && depth + ValueBalance(m.value) == 1
    case More(m, rest) => ValueStaysOpen(m.value, depth) && BracesMatch(rest, depth + ValueBalance(m.value))
  }

  /** An event that is framed as a whole. Behind a blank, which the counter takes for the opening brace,
      the opening brace itself counts as a second one. */
  predicate IsEvent(d: Doc) {
    d.Valid() && BracesMatch(d.body, if d.lead == "" then 1 else 2)
  }

  lemma {:induction false} FrameSkipsText(text: string, t: string, depth: nat)
    requires depth > 0
    ensures StaysOpen(text, depth) ==>
              && depth + Balance(text) > 0
              && FrameFrom(text + t, depth) == Plus(|text|, FrameFrom(t, depth + Balance(text)))
    ensures !StaysOpen(text, depth) ==> FrameFrom(text + t, depth).Some? && FrameFrom(text + t, depth).value <= |text|
  {
    if text == "" {
      assert text + t == t;
    } else {
      var rest := text[1..];
      assert text + t == [text[0]] + (rest + t);
      FrameStep(text[0], rest + t, depth);
      var next := depth + Weight(text[0]);
      FrameAtZero(rest + t, next);
      assert StaysOpen(text, depth) <==> next > 0 && StaysOpen(rest, next);
      hide FrameFrom, StaysOpen;
      if next > 0 {
        FrameSkipsText(rest, t, next);
      }
    }
  }

  lemma {:induction false} FrameSkipsInner(n: Inner, t: string, depth: nat)
    requires n.Valid() && depth > 0
    ensures FrameFrom(n.Text(t), depth + 1) == Plus(|n.Text("")|, FrameFrom(t, depth))
    decreases n
  {
    hide FrameFrom;
    match n
    case End => FrameStep('}', t, depth + 1);
    case Byte(c, rest) =>
      FrameSkipsInner(rest, t, depth);
      FrameStep(c, rest.Text(t), depth + 1);
    case Sub(inner, rest) =>
      FrameSkipsInner(inner, rest.Text(t), depth + 1);
      FrameSkipsInner(rest, t, depth);
      FrameStep('{', inner.Text(rest.Text(t)), depth + 1);
      SubText(inner, rest);
  }

  lemma PlainStep(c: char, t: string, depth: nat)
    requires !IsBrace(c) && depth > 0
    ensures FrameFrom([c] + t, depth) == Plus(1, FrameFrom(t, depth))
  {
    FrameStep(c, t, depth);
    hide FrameFrom;
    assert depth + Weight(c) == depth;
  }

  lemma FrameSkipsQuoted(text: string, t: string, s1: string, s2: string, depth: nat)
    requires depth > 0 && s2 == ['"'] + t && s1 == text + s2
    ensures StaysOpen(text, depth) ==>
              depth + Balance(text) > 0
              && FrameFrom(['"'] + s1, depth) == Plus(|text| + 2, FrameFrom(t, depth + Balance(text)))
    ensures !StaysOpen(text, depth) ==>
              FrameFrom(['"'] + s1, depth).Some? && FrameFrom(['"'] + s1, depth).value < |text| + 2
  {
    hide FrameFrom, StaysOpen, Balance;
    PlainStep('"', s1, depth);
    FrameSkipsText(text, s2, depth);
    if StaysOpen(text, depth) {
      PlainStep('"', t, depth + Balance(text));
    }
  }

  lemma FrameSkipsArray(text: string, t: string, s1: string, s2: string, depth: nat)
    requires depth > 0 && All(text, ArrayChar) && s2 == [']'] + t && s1 == text + s2
    ensures FrameFrom(['['] + s1, depth) == Plus(|text| + 2, FrameFrom(t, depth))
  {
    hide FrameFrom;
    PlainStep('[', s1, depth);
    FrameSkipsPlain(text, s2, depth);
    PlainStep(']', t, depth);
  }

  lemma FrameSkipsValue(v: JValue, t: string, depth: nat)
    requires v.Valid() && depth > 0
    ensures ValueStaysOpen(v, depth) ==>
              depth + ValueBalance(v) > 0
              && FrameFrom(v.Text(t), depth) == Plus(|v.Text("")|, FrameFrom(t, depth + ValueBalance(v)))
    ensures !ValueStaysOpen(v, depth) ==>
              FrameFrom(v.Text(t), depth).Some? && FrameFrom(v.Text(t), depth).value < |v.Text("")|
  {
    hide FrameFrom, StaysOpen, Balance;
    match v
    case Quoted(text) => FrameSkipsQuoted(text, t, text + ("\"" + t), "\"" + t, depth);
    case Bare(text) => FrameSkipsPlain(text, t, depth);
    case Array(text) => FrameSkipsArray(text, t, text + ("]" + t), "]" + t, depth);
    case Object(inner) =>
      FrameSkipsInner(inner, t, depth);
      FrameStep('{', inner.Text(t), depth);
  }

  lemma MemberLength(m: JMember)
    ensures |m.Text("")| == |BeforeValue(m)| + |m.value.Text("")| + |m.trail|
  {
    hide JMember.Text, JValue.Text;
    MemberText(m, "");
    ValueTail(m.value, "", m.trail + "");
    assert "" + (m.trail + "") == m.trail + "";
  }

  lemma FrameSkipsMember(m: JMember, t: string, depth: nat)
    requires m.Valid() && depth > 0
    ensures ValueStaysOpen(m.value, depth) ==>
              depth + ValueBalance(m.value) > 0
              && FrameFrom(m.Text(t), depth) == Plus(|m.Text("")|, FrameFrom(t, depth + ValueBalance(m.value)))
    ensures !ValueStaysOpen(m.value, depth) ==>
              FrameFrom(m.Text(t), depth).Some? && FrameFrom(m.Text(t), depth).value < |m.Text("")|
  {
    hide FrameFrom, JMember.Text, JValue.Text, ValueStaysOpen, ValueBalance;
    MemberText(m, t);
    MemberLength(m);
    var s := m.trail + t;
    FrameSkipsPlain(BeforeValue(m), m.value.Text(s), depth);
    FrameSkipsValue(m.value, s, depth);
    if ValueStaysOpen(m.value, depth) {
      FrameSkipsPlain(m.trail, t, depth + ValueBalance(m.value));
    }
  }

  lemma MemberAndByte(m: JMember, c: char, t: string)
    ensures |m.Text([c] + t)| == |m.Text("")| + 1 + |t|
  {
    MemberTail(m, "", [c] + t);
    assert "" + ([c] + t) == [c] + t;
    hide JMember.Text;
  }

  /** The members are framed up to their closing brace and no further if and only if their quoted braces
      match, whatever follows. */
  lemma {:induction false} BodyIsFramedIff(b: Body, t: string, depth: nat)
    requires b.Valid() && depth > 0
    ensures FrameFrom(b.Text(t), depth) == Some(|b.Text("")|) <==> BracesMatch(b, depth)
    decreases b
  {
    hide FrameFrom, JMember.Text, ValueStaysOpen, ValueBalance;
    match b
    case Close(blanks) =>
      FrameSkipsPlain(blanks, "}" + t, depth);
      FrameStep('}', t, depth);
      FrameAtZero(t, depth - 1);
    case Last(m) =>
      FrameSkipsMember(m, "}" + t, depth);
      MemberAndByte(m, '}', "");
      assert ['}'] + "" == "}" + "";
      if ValueStaysOpen(m.value, depth) {
        var after := depth + ValueBalance(m.value);
        FrameStep('}', t, after);
        FrameAtZero(t, after - 1);
      }
    case More(m, rest) =>
      FrameSkipsMember(m, "," + rest.Text(t), depth);
      MemberAndByte(m, ',', rest.Text(""));
      if ValueStaysOpen(m.value, depth) {
        var after := depth + ValueBalance(m.value);
        PlainStep(',', rest.Text(t), after);
        BodyIsFramedIff(rest, t, after);
      }
  }

  lemma EventText(d: Doc, t: string)
    ensures d.Text(t) == d.Text("") + t
    ensures |d.Text("")| == |d.lead| + 1 + |d.body.Text("")|
    ensures d.Valid() ==> d.Text(t)[0] != '['
  {
    BodyTail(d.body, t);
    hide Body.Text;
    assert d.lead + ("{" + (d.body.Text("") + t)) == d.lead + ("{" + d.body.Text("")) + t;
  }

  lemma FrameOfText(d: Doc, t: string)
    requires d.Valid()
    ensures Frame(d.Text(t)) ==
            Plus(|d.lead| + 1, FrameFrom(d.body.Text(t), if d.lead == "" then 1 else 2))
  {
    var inside := d.body.Text(t);
    hide FrameFrom, Body.Text;
    if d.lead == "" {
      assert d.Text(t) == "{" + inside && d.Text(t)[1..] == inside;
    } else {
      assert d.Text(t)[1..] == d.lead[1..] + ("{" + inside);
      FrameSkipsPlain(d.lead[1..], "{" + inside, 1);
      FrameStep('{', inside, 1);
    }
  }

  /** A printed document is framed as exactly its own text, whatever follows, if and only if it is an
      event in the sense above. */
  lemma EventIsFramedIff(d: Doc, t: string)
    requires d.Valid()
    ensures Frame(d.Text(t)) == Some(|d.Text("")|) <==> IsEvent(d)
  {
    hide Frame, FrameFrom, Body.Text, Body.Valid, BracesMatch, Doc.Text;
    FrameOfText(d, t);
    EventText(d, t);
    BodyIsFramedIff(d.body, t, if d.lead == "" then 1 else 2);
  }
}
