/** The texts themselves: documents as trees, how each is printed, and the proof that the parser
    accepts exactly the printed documents and stores exactly their pairs. */
module JsonDocument {
  import opened Bytes
  import opened JsonFsm
  import opened JsonReference

  predicate All(s: string, class_: char -> bool) {
    forall i :: 0 <= i < |s| ==> class_(s[i])
  }

  /** The inside of a nested object, up to its closing brace. */
  datatype Inner = End | Byte(c: char, rest: Inner) | Sub(inner: Inner, rest: Inner) {
    predicate Valid() {
      match this
      case End => true
      case Byte(c, rest) => NestedChar(c) && rest.Valid()
      case Sub(inner, rest) => inner.Valid() && rest.Valid()
    }

    /** Every `Text(t)` of this module is the printed form followed by t. */
    function Text(t: string): string {
      match this
      case End => "}" + t
      case Byte(c, rest) => [c] + rest.Text(t)
      case Sub(inner, rest) => "{" + inner.Text(rest.Text(t))
    }
  }

  datatype JValue = Quoted(text: string) | Bare(text: string) | Array(text: string) | Object(inner: Inner) {
    predicate Valid() {
      match this
      case Quoted(text) => All(text, QuotedChar)
      case Bare(text) => text != "" && All(text, BareChar)
      case Array(text) => All(text, ArrayChar)
      case Object(inner) => inner.Valid()
    }

    function Text(t: string): string {
      match this
      case Quoted(text) => "\"" + (text + ("\"" + t))
      case Bare(text) => text + t
      case Array(text) => "[" + (text + ("]" + t))
      case Object(inner) => "{" + inner.Text(t)
    }

    /** What the map holds for this value: quoted text without its quotes, all else verbatim. */
    function Stored(): string {
      if Quoted? then text else Text("")
    }
  }

  /** A member with the blanks around its parts. */
  datatype JMember = JMember(
    lead: string, key: string, beforeColon: string, afterColon: string, value: JValue, trail: string)
  {
    predicate Valid() {
      && All(lead, IsBlank) && All(key, KeyChar) && All(beforeColon, IsBlank)
      && All(afterColon, IsBlank) && value.Valid() && All(trail, IsBlank)
    }

    function ValueText(t: string): string {
      afterColon + value.Text(trail + t)
    }

    function Text(t: string): string {
      lead + ("\"" + (key + ("\"" + (beforeColon + (":" + ValueText(t))))))
    }
  }

  /** The members of an object up to its closing brace. A comma may stand before the brace. */
  datatype Body = Close(blanks: string) | Last(member: JMember) | More(member: JMember, rest: Body) {
    predicate Valid() {
      match this
      case Close(blanks) => All(blanks, IsBlank)
      case Last(member) => member.Valid()
      case More(member, rest) => member.Valid() && rest.Valid()
    }

    function Text(t: string): string {
      match this
      case Close(blanks) => blanks + ("}" + t)
      case Last(member) => member.Text("}" + t)
      case More(member, rest) => member.Text("," + rest.Text(t))
    }

    function Pairs(): seq<(string, string)> {
      match this
      case Close(_) => []
      case Last(member) => [(member.key, member.value.Stored())]
      case More(member, rest) => [(member.key, member.value.Stored())] + rest.Pairs()
    }
  }

  datatype Doc = Doc(lead: string, body: Body) {
    predicate Valid() {
      All(lead, IsBlank) && body.Valid()
    }

    function Text(t: string): string {
      lead + ("{" + body.Text(t))
    }
  }

  /** The map that results from storing the pairs one after another. */
  function StoreAll(pairs: seq<(string, string)>, m: map<string, string>): map<string, string> {
    if pairs == [] then m else StoreAll(pairs[1..], m[pairs[0].0 := pairs[0].1])
  }

  /** In the stored map the last pair with a key decides, and keys without a pair are as before. */
  lemma {:induction false} LastPairWins(pairs: seq<(string, string)>, m: map<string, string>, k: string)
    ensures (exists i :: 0 <= i < |pairs| && pairs[i].0 == k) || k in m <==> k in StoreAll(pairs, m)
    ensures forall i :: 0 <= i < |pairs| && pairs[i].0 == k && (forall j :: i < j < |pairs| ==> pairs[j].0 != k)
              ==> StoreAll(pairs, m)[k] == pairs[i].1
    ensures (forall i :: 0 <= i < |pairs| ==> pairs[i].0 != k) && k in m ==> StoreAll(pairs, m)[k] == m[k]
    decreases pairs
  {
    if pairs != [] {
      var rest, m' := pairs[1..], m[pairs[0].0 := pairs[0].1];
      LastPairWins(rest, m', k);
      assert forall j :: 0 < j < |pairs| ==> pairs[j] == rest[j - 1];
      if i :| 0 <= i < |rest| && rest[i].0 == k {
        assert pairs[i + 1].0 == k;
      }
    }
  }

  // ----- printed documents are accepted -----

  lemma {:induction false} SpanIs(x: string, rest: string, class_: char -> bool)
    requires All(x, class_)
    requires rest == "" || !class_(rest[0])
    ensures Span(x + rest, class_) == |x|
    ensures (x + rest)[..|x|] == x && (x + rest)[|x|..] == rest
  {
    if x == "" {
      assert x + rest == rest;
    } else {
      assert (x + rest)[1..] == x[1..] + rest;
      SpanIs(x[1..], rest, class_);
    }
  }

  lemma {:induction false} InnerTail(n: Inner, a: string, b: string)
    ensures n.Text(a) + b == n.Text(a + b)
  {
    match n
    case End => assert "}" + a + b == "}" + (a + b);
    case Byte(c, rest) =>
      InnerTail(rest, a, b);
      assert [c] + rest.Text(a) + b == [c] + (rest.Text(a) + b);
    case Sub(inner, rest) =>
      InnerTail(rest, a, b);
      InnerTail(inner, rest.Text(a), b);
      assert "{" + inner.Text(rest.Text(a)) + b == "{" + (inner.Text(rest.Text(a)) + b);
  }

  /** The text of a member before its value. */
  function BeforeValue(m: JMember): string {
    m.lead + ("\"" + (m.key + ("\"" + (m.beforeColon + (":" + m.afterColon)))))
  }

  lemma MemberText(m: JMember, t: string)
    ensures m.Text(t) == BeforeValue(m) + m.value.Text(m.trail + t)
  {
  }

  lemma ValueTail(v: JValue, a: string, b: string)
    ensures v.Text(a) + b == v.Text(a + b)
  {
    match v
    case Quoted(text) =>
      assert "\"" + (text + ("\"" + a)) + b == "\"" + (text + ("\"" + (a + b)));
    case Bare(text) => assert text + a + b == text + (a + b);
    case Array(text) => assert "[" + (text + ("]" + a)) + b == "[" + (text + ("]" + (a + b)));
    case Object(inner) =>
      InnerTail(inner, a, b);
      assert "{" + inner.Text(a) + b == "{" + (inner.Text(a) + b);
  }

  lemma MemberTail(m: JMember, a: string, b: string)
    ensures m.Text(a) + b == m.Text(a + b)
  {
    ValueTail(m.value, m.trail + a, b);
    assert m.trail + a + b == m.trail + (a + b);
    MemberText(m, a);
    MemberText(m, a + b);
  }

  lemma {:induction false} BodyTail(body: Body, t: string)
    ensures body.Text(t) == body.Text("") + t
  {
    hide JMember.Text;
    match body
    case Close(blanks) => assert blanks + ("}" + t) == blanks + ("}" + "") + t;
    case Last(m) =>
      MemberTail(m, "}" + "", t);
      assert "}" + "" + t == "}" + t;
    case More(m, rest) =>
      BodyTail(rest, t);
      MemberTail(m, "," + rest.Text(""), t);
      assert "," + rest.Text("") + t == "," + rest.Text(t);
  }

  /** A nested object closed behind two parts, the first of which it has opened and closed itself. */
  lemma SubText(inner: Inner, rest: Inner)
    ensures "{" + inner.Text("") + rest.Text("") == Sub(inner, rest).Text("")
  {
    var r := rest.Text("");
    InnerTail(inner, "", r);
    assert "" + r == r;
    BraceBefore(inner.Text(""), r);
  }

  lemma BraceBefore(a: string, b: string)
    ensures "{" + a + b == "{" + (a + b)
  {
  }

  lemma {:induction false} NestedReads(n: Inner, t: string)
    requires n.Valid()
    ensures Nested(n.Text(t)) == Got(n.Text(""), t)
  {
    var s := n.Text(t);
    match n
    case End =>
    case Byte(c, rest) =>
      NestedReads(rest, t);
      assert s[1..] == rest.Text(t) && s[0] == c;
    case Sub(inner, rest) =>
      NestedReads(inner, rest.Text(t));
      NestedReads(rest, t);
      SubText(inner, rest);
      assert s[1..] == inner.Text(rest.Text(t)) && s[0] == '{';
  }

  lemma QuotedReads(text: string, t: string)
    requires All(text, QuotedChar)
    ensures Value(Quoted(text).Text(t)) == Got(text, t)
  {
    var behind := "\"" + t;
    assert Quoted(text).Text(t)[1..] == text + behind;
    SpanIs(text, behind, QuotedChar);
    assert behind[1..] == t;
  }

  lemma BareReads(text: string, t: string)
    requires text != "" && All(text, BareChar)
    requires t == "" || !BareChar(t[0])
    ensures Value(Bare(text).Text(t)) == Got(text, t)
  {
    assert Bare(text).Text(t)[1..] == text[1..] + t;
    SpanIs(text[1..], t, BareChar);
    assert [text[0]] + text[1..] == text;
  }

  lemma ArrayReads(text: string, t: string)
    requires All(text, ArrayChar)
    ensures Value(Array(text).Text(t)) == Got(Array(text).Text(""), t)
  {
    var behind := "]" + t;
    assert Array(text).Text(t)[1..] == text + behind;
    SpanIs(text, behind, ArrayChar);
    assert behind[1..] == t;
    assert "[" + text + "]" == Array(text).Text("");
  }

  lemma ObjectReads(inner: Inner, t: string)
    requires inner.Valid()
    ensures Value(Object(inner).Text(t)) == Got(Object(inner).Text(""), t)
  {
    assert Object(inner).Text(t)[1..] == inner.Text(t);
    NestedReads(inner, t);
  }

  lemma ValueReads(v: JValue, t: string)
    requires v.Valid()
    requires t == "" || !BareChar(t[0])
    ensures Value(v.Text(t)) == Got(v.Stored(), t)
    ensures v.Text(t) != "" && !IsBlank(v.Text(t)[0])
  {
    hide Value;
    match v
    case Quoted(text) => QuotedReads(text, t);
    case Bare(text) => BareReads(text, t); assert text + "" == text;
    case Array(text) => ArrayReads(text, t);
    case Object(inner) => ObjectReads(inner, t);
  }

  lemma BehindKeyReads(m: JMember, t: string)
    requires m.Valid()
    requires t != "" && !BareChar(t[0])
    ensures var s2 := m.beforeColon + (":" + m.ValueText(t));
            && StartsWith(SkipBlanks(s2), ':')
            && Value(SkipBlanks(SkipBlanks(s2)[1..])) == Got(m.value.Stored(), m.trail + t)
  {
    var s3 := m.value.Text(m.trail + t);
    ValueReads(m.value, m.trail + t);
    hide Value, JValue.Text, JValue.Stored, Span;
    SpanIs(m.afterColon, s3, IsBlank);
    var s2 := ":" + m.ValueText(t);
    SpanIs(m.beforeColon, s2, IsBlank);
    assert s2[1..] == m.ValueText(t);
  }

  lemma MemberIs(key: string, s1: string)
    requires All(key, KeyChar) && StartsWith(s1, '"') && StartsWith(SkipBlanks(s1[1..]), ':')
    ensures Member("\"" + (key + s1)) == (key, Value(SkipBlanks(SkipBlanks(s1[1..])[1..])))
  {
    hide Value, SkipBlanks;
    assert ("\"" + (key + s1))[1..] == key + s1;
    SpanIs(key, s1, KeyChar);
  }

  lemma MemberReads(m: JMember, t: string)
    requires m.Valid()
    requires t != "" && !BareChar(t[0])
    ensures var s := SkipBlanks(m.Text(t));
            StartsWith(s, '"') && Member(s) == (m.key, Got(m.value.Stored(), m.trail + t))
  {
    BehindKeyReads(m, t);
    hide Value, Member, JValue.Text, JValue.Stored, Span, JMember.ValueText;
    var s2 := m.beforeColon + (":" + m.ValueText(t));
    var s1 := "\"" + s2;
    var s := "\"" + (m.key + s1);
    SpanIs(m.lead, s, IsBlank);
    assert s1[1..] == s2;
    MemberIs(m.key, s1);
  }

  lemma StoreAllCons(pair: (string, string), rest: seq<(string, string)>, m: map<string, string>)
    ensures StoreAll([pair] + rest, m) == StoreAll(rest, m[pair.0 := pair.1])
  {
    assert ([pair] + rest)[1..] == rest;
  }

  lemma {:induction false} BodyReads(b: Body, t: string, m: map<string, string>)
    requires b.Valid()
    ensures Members(b.Text(t), m) == Accepted(StoreAll(b.Pairs(), m))
    decreases b
  {
    hide Member, JMember.Text;
    match b
    case Close(blanks) =>
      SpanIs(blanks, "}" + t, IsBlank);
    case Last(member) =>
      var t' := "}" + t;
      MemberReads(member, t');
      SpanIs(member.trail, t', IsBlank);
    case More(member, rest) =>
      var t' := "," + rest.Text(t);
      MemberReads(member, t');
      SpanIs(member.trail, t', IsBlank);
      assert t'[1..] == rest.Text(t);
      BodyReads(rest, t, m[member.key := member.value.Stored()]);
      StoreAllCons((member.key, member.value.Stored()), rest.Pairs(), m);
  }

  /** Printing any document and parsing it back, whatever follows it, yields its last-wins map. */
  lemma PrintThenParse(d: Doc, t: string)
    requires d.Valid()
    ensures Parse(d.Text(t)) == Accepted(StoreAll(d.body.Pairs(), map[]))
  {
    FsmIsRecursiveDescent(d.Text(t));
    SpanIs(d.lead, "{" + d.body.Text(t), IsBlank);
    assert ("{" + d.body.Text(t))[1..] == d.body.Text(t);
    BodyReads(d.body, t, map[]);
  }

  lemma WordsAreKeys()
    ensures All("event", KeyChar) && All("status", KeyChar) && All("conf", QuotedChar) && All("OK", QuotedChar)
  {
  }

  /** A quoted value under its key, with no blanks. */
  function Plain(key: string, text: string): JMember {
    JMember("", key, "", "", Quoted(text), "")
  }

  lemma PlainText(key: string, text: string, t: string)
    ensures Plain(key, text).Text(t) == "\"" + (key + ("\":\"" + (text + ("\"" + t))))
  {
    var s := "\"" + (text + ("\"" + t));
    assert "" + t == t && "" + s == s;
    assert "\"" + (":" + s) == "\":\"" + (text + ("\"" + t));
    assert "" + ("" + (":" + s)) == ":" + s && "" + (":" + s) == ":" + s;
    Empty("\"" + (key + ("\"" + (":" + s))));
  }

  lemma Empty(s: string)
    ensures "" + s == s
  {
  }

  const CONF := Doc("", More(Plain("event", "conf"), Last(Plain("status", "OK"))))

  lemma StatusMemberText()
    ensures Plain("status", "OK").Text("}") == "\"status\":\"OK\"}"
  {
    PlainText("status", "OK", "}");
    hide JMember.Text, Plain;
    assert "\"" + "}" == "\"}";
    assert "OK" + "\"}" == "OK\"}";
    assert "\":\"" + "OK\"}" == "\":\"OK\"}";
    assert "status" + "\":\"OK\"}" == "status\":\"OK\"}";
  }

  lemma EventMemberText(t: string)
    ensures Plain("event", "conf").Text("," + t) == "\"event\":\"conf\"," + t
  {
    PlainText("event", "conf", "," + t);
    hide JMember.Text, Plain;
    assert "\"" + ("," + t) == "\"," + t;
    assert "conf" + ("\"," + t) == "conf\"," + t;
    assert "\":\"" + ("conf\"," + t) == "\":\"conf\"," + t;
    assert "event" + ("\":\"conf\"," + t) == "event\":\"conf\"," + t;
    assert "\"" + ("event\":\"conf\"," + t) == "\"event\":\"conf\"," + t;
  }

  lemma ConfText()
    ensures CONF.Text("") == "{\"event\":\"conf\",\"status\":\"OK\"}"
  {
    StatusMemberText();
    EventMemberText("\"status\":\"OK\"}");
    hide JMember.Text, Plain;
    assert "}" + "" == "}";
    Empty("{" + CONF.body.Text(""));
    assert "{" + ("\"event\":\"conf\"," + "\"status\":\"OK\"}") == "{\"event\":\"conf\",\"status\":\"OK\"}";
  }

  lemma ConfPairs()
    ensures CONF.Valid() && StoreAll(CONF.body.Pairs(), map[]) == map["event" := "conf", "status" := "OK"]
  {
    WordsAreKeys();
    hide All;
    assert All("", IsBlank) by { NoBytes(); }
    assert CONF.body.Pairs() == [("event", "conf"), ("status", "OK")];
    StoreAllCons(("event", "conf"), [("status", "OK")], map[]);
    StoreAllCons(("status", "OK"), [], map["event" := "conf"]);
    assert [("event", "conf")] + [("status", "OK")] == CONF.body.Pairs();
    assert [("status", "OK")] + [] == [("status", "OK")];
  }

  lemma NoBytes()
    ensures All("", IsBlank)
  {
  }

  /** The exchange's first answer, byte by byte. */
  lemma ConfIsAccepted()
    ensures Parse("{\"event\":\"conf\",\"status\":\"OK\"}") == Accepted(map["event" := "conf", "status" := "OK"])
  {
    hide Parse, Doc.Valid, Doc.Text, StoreAll, Body.Pairs;
    ConfText();
    ConfPairs();
    PrintThenParse(CONF, "");
  }

  /** Looking a key up after parsing: it is found exactly if a member of the printed document has it, and
      its value is what the last such member stores. */
  lemma PrintedKeyIsFound(d: Doc, t: string, key: string)
    requires d.Valid()
    ensures var verdict, pairs := Parse(d.Text(t)), d.body.Pairs();
            && verdict.Accepted?
            && (key in verdict.pairs <==> exists i :: 0 <= i < |pairs| && pairs[i].0 == key)
            && forall i :: 0 <= i < |pairs| && pairs[i].0 == key && (forall j :: i < j < |pairs| ==> pairs[j].0 != key)
                 ==> key in verdict.pairs && verdict.pairs[key] == pairs[i].1
  {
    PrintThenParse(d, t);
    LastPairWins(d.body.Pairs(), map[], key);
    hide Parse, StoreAll, Doc.Text, Body.Pairs;
  }

  // ----- and nothing else is -----

  lemma {:induction false} NestedIsPrinted(s: string) returns (n: Inner)
    requires Nested(s).Got?
    ensures n.Valid() && Nested(s).value == n.Text("") && s == n.Text(Nested(s).rest)
    decreases |s|
  {
    assert s == [s[0]] + s[1..];
    if s[0] == '}' {
      n := End;
    } else if s[0] == '{' {
      var inner := NestedIsPrinted(s[1..]);
      var rest := NestedIsPrinted(Nested(s[1..]).rest);
      n := Sub(inner, rest);
      SubText(inner, rest);
    } else {
      var rest := NestedIsPrinted(s[1..]);
      n := Byte(s[0], rest);
    }
  }

  lemma QuotedIsPrinted(s: string) returns (v: JValue)
    requires StartsWith(s, '"') && Value(s).Got?
    ensures v.Valid() && Value(s).value == v.Stored() && s == v.Text(Value(s).rest)
  {
    var n := Span(s[1..], QuotedChar);
    var text, behind := s[1..][..n], s[1..][n..];
    assert behind == "\"" + behind[1..] && s == "\"" + (text + behind);
    v := Quoted(text);
  }

  lemma ArrayIsPrinted(s: string) returns (v: JValue)
    requires StartsWith(s, '[') && Value(s).Got?
    ensures v.Valid() && Value(s).value == v.Stored() && s == v.Text(Value(s).rest)
  {
    var n := Span(s[1..], ArrayChar);
    var text, behind := s[1..][..n], s[1..][n..];
    var rest := behind[1..];
    v := Array(text);
    hide Span, Nested;
    assert behind == "]" + rest && s == "[" + (text + behind);
    assert "[" + text + "]" == "[" + (text + ("]" + ""));
  }

  lemma BareIsPrinted(s: string) returns (v: JValue)
    requires s != "" && BareChar(s[0])
    ensures Value(s).Got? && v.Valid() && Value(s).value == v.Stored() && s == v.Text(Value(s).rest)
    ensures Value(s).rest == "" || !BareChar(Value(s).rest[0])
  {
    var n := Span(s[1..], BareChar);
    var text, behind := [s[0]] + s[1..][..n], s[1..][n..];
    assert s == text + behind && text + "" == text;
    v := Bare(text);
  }

  lemma ValueIsPrinted(s: string) returns (v: JValue)
    requires Value(s).Got?
    ensures v.Valid() && Value(s).value == v.Stored() && s == v.Text(Value(s).rest)
  {
    if StartsWith(s, '"') {
      v := QuotedIsPrinted(s);
    } else if StartsWith(s, '{') {
      var inner := NestedIsPrinted(s[1..]);
      v := Object(inner);
      assert s == "{" + s[1..];
    } else if StartsWith(s, '[') {
      v := ArrayIsPrinted(s);
    } else {
      v := BareIsPrinted(s);
    }
  }

  /** The blanks s starts with. */
  function Blanks(s: string): (b: string)
    ensures All(b, IsBlank) && b + SkipBlanks(s) == s
  {
    s[..Span(s, IsBlank)]
  }

  /** The text behind a key, from its closing quote to the text that follows the member. */
  lemma BehindKeyIsPrinted(s1: string, lead: string, key: string) returns (m: JMember)
    requires StartsWith(s1, '"') && All(lead, IsBlank) && All(key, KeyChar)
    requires StartsWith(SkipBlanks(s1[1..]), ':')
    requires Value(SkipBlanks(SkipBlanks(s1[1..])[1..])).Got?
    ensures var value := Value(SkipBlanks(SkipBlanks(s1[1..])[1..]));
            && m.Valid() && m.key == key && m.value.Stored() == value.value
            && lead + ("\"" + (key + s1)) == m.Text(SkipBlanks(value.rest))
  {
    hide Value, SkipBlanks, Blanks, All, JValue.Text, JValue.Stored, JValue.Valid, IsBlank, KeyChar;
    var s2 := SkipBlanks(s1[1..]);
    var s3 := SkipBlanks(s2[1..]);
    assert s1 == "\"" + s1[1..] && s2 == ":" + s2[1..];
    var value := ValueIsPrinted(s3);
    var rest := Value(s3).rest;
    m := JMember(lead, key, Blanks(s1[1..]), Blanks(s2[1..]), value, Blanks(rest));
    assert s2[1..] == m.ValueText(SkipBlanks(rest));
  }

  lemma MemberIsPrinted(s: string, lead: string) returns (m: JMember)
    requires StartsWith(s, '"') && Member(s).1.Got? && All(lead, IsBlank)
    ensures m.Valid() && m.key == Member(s).0 && m.value.Stored() == Member(s).1.value
    ensures lead + s == m.Text(SkipBlanks(Member(s).1.rest))
  {
    hide Value, SkipBlanks, JMember.Text;
    var n := Span(s[1..], KeyChar);
    var key, s1 := s[1..][..n], s[1..][n..];
    m := BehindKeyIsPrinted(s1, lead, key);
    assert s == "\"" + (key + s1);
  }

  lemma {:induction false} BodyIsPrinted(s: string, m: map<string, string>) returns (b: Body, t: string)
    requires Members(s, m).Accepted?
    ensures b.Valid() && s == b.Text(t) && Members(s, m).pairs == StoreAll(b.Pairs(), m)
    decreases |s|
  {
    hide Member, JMember.Text;
    var s1 := SkipBlanks(s);
    if StartsWith(s1, '}') {
      b, t := Close(Blanks(s)), s1[1..];
    } else {
      var member := MemberIsPrinted(s1, Blanks(s));
      var (key, value) := Member(s1);
      var s2 := SkipBlanks(value.rest);
      if StartsWith(s2, '}') {
        b, t := Last(member), s2[1..];
        assert s2 == "}" + t;
      } else {
        var rest;
        rest, t := BodyIsPrinted(s2[1..], m[key := value.value]);
        b := More(member, rest);
        assert s2 == "," + rest.Text(t);
        StoreAllCons((key, value.value), rest.Pairs(), m);
      }
    }
  }

  lemma AcceptedIsPrinted(s: string) returns (d: Doc, t: string)
    requires Parse(s).Accepted?
    ensures d.Valid() && s == d.Text(t) && Parse(s).pairs == StoreAll(d.body.Pairs(), map[])
  {
    FsmIsRecursiveDescent(s);
    hide Parse, Members, SkipBlanks;
    var s1 := SkipBlanks(s);
    var body;
    body, t := BodyIsPrinted(s1[1..], map[]);
    d := Doc(Blanks(s), body);
    assert s1 == "{" + body.Text(t);
  }

  /** A text is accepted if and only if it is a printed document with anything behind it; the map is
      then the last-wins map of that document. */
  lemma AcceptedIffPrinted(s: string, pairs: map<string, string>)
    ensures Parse(s) == Accepted(pairs) <==>
            exists d: Doc, t: string :: d.Valid() && s == d.Text(t) && pairs == StoreAll(d.body.Pairs(), map[])
  {
    hide Parse, Doc.Text, Doc.Valid, StoreAll;
    if Parse(s) == Accepted(pairs) {
      var d, t := AcceptedIsPrinted(s);
      assert d.Valid() && s == d.Text(t);
    }
    if d: Doc, t: string :| d.Valid() && s == d.Text(t) && pairs == StoreAll(d.body.Pairs(), map[]) {
      PrintThenParse(d, t);
    }
  }
}
