/** What the parser does to whole messages, to their proper prefixes, and to bytes that arrive later. */
module ParserTheorems {
  import opened Bytes
  import opened Wrappers
  import opened Decimal
  import opened FastParse
  import opened JsonFsm
  import opened JsonDocument
  import opened JsonFraming
  import opened Wire
  import opened Parser

  // ----- a message is consumed as a whole, and its callbacks are made -----

  lemma Behind(c: char, t: string)
    ensures Skip([c] + t) == Got((), t)
  {
    assert ([c] + t)[1..] == t;
  }

  lemma FieldReads(n: nat, t: string)
    requires n < TWO_32
    ensures Field(ToDigits(n) + ("," + t)) == Got(n, t)
  {
    U32ReadsNumeral(n, "," + t);
    Behind(',', t);
    hide U32, Skip, ToDigits;
  }

  lemma LevelReads(l: Level, channel: nat, bulk: bool, t: string)
    requires l.Valid()
    ensures SingleUpdate(l.Text(if bulk then t else "]" + t), channel, bulk)
            == Got(LevelCall(channel, l, bulk), t)
  {
    var s6 := if bulk then t else "]" + t;
    var s5 := "]" + s6;
    var s3 := l.qty.Text(s5);
    var s2 := ToDigits(l.count) + ("," + s3);
    var s1 := ToDigits(l.price) + ("," + s2);
    FieldReads(l.price, s2);
    FieldReads(l.count, s3);
    FloatReadsNumeral(l.qty, s5);
    Behind('[', s1);
    Behind(']', s6);
    Behind(']', t);
    hide Field, Float, Numeral.Text, ToDigits, Skip;
    assert l.Text(s6) == "[" + s1;
  }

  function BulkCalls(ls: seq<Level>, channel: nat): seq<Callback>
    requires forall i :: 0 <= i < |ls| ==> ls[i].Valid()
  {
    seq(|ls|, i requires 0 <= i < |ls| => LevelCall(channel, ls[i], true))
  }

  lemma BulkCallsCons(ls: seq<Level>, channel: nat)
    requires ls != [] && forall i :: 0 <= i < |ls| ==> ls[i].Valid()
    ensures BulkCalls(ls, channel) == [LevelCall(channel, ls[0], true)] + BulkCalls(ls[1..], channel)
  {
  }

  lemma EntryReads(lead: char, l: Level, channel: nat, past: Past, t: string)
    requires l.Valid() && t != ""
    ensures Entries([lead] + l.Text(t), channel, past) ==
            if t[0] == ',' then
              var (more, calls) := Entries(t, channel, past);
              (more, [LevelCall(channel, l, true)] + calls)
            else (Got((), t), [LevelCall(channel, l, true)])
  {
    LevelReads(l, channel, true, t);
    assert ([lead] + l.Text(t))[1..] == l.Text(t);
    assert Peek(t, past, 0) == t[0];
    hide SingleUpdate, Level.Text, Peek;
  }

  lemma {:induction false} LevelsRead(ls: seq<Level>, channel: nat, past: Past, lead: char, t: string)
    requires ls != [] && forall i :: 0 <= i < |ls| ==> ls[i].Valid()
    requires t != "" && t[0] != ','
    ensures Entries([lead] + LevelsText(ls, t), channel, past) == (Got((), t), BulkCalls(ls, channel))
    decreases ls
  {
    hide Entries, Level.Text;
    BulkCallsCons(ls, channel);
    if |ls| == 1 {
      EntryReads(lead, ls[0], channel, past, t);
      assert BulkCalls(ls, channel) == [LevelCall(channel, ls[0], true)];
    } else {
      var t' := "," + LevelsText(ls[1..], t);
      EntryReads(lead, ls[0], channel, past, t');
      LevelsRead(ls[1..], channel, past, ',', t);
      assert t' == [','] + LevelsText(ls[1..], t);
    }
  }

  /** The text of the levels ends with the closing bracket of the last one. */
  lemma {:induction false} LevelsEnd(ls: seq<Level>, t: string)
    requires ls != []
    ensures var s := LevelsText(ls, t); var n := |s| - |t|;
            n > 0 && s[n - 1] == ']' && s[n..] == t
  {
    LevelsTail(ls, "", t);
    assert "" + t == t;
    LastBracket(ls);
  }

  lemma {:induction false} LastBracket(ls: seq<Level>)
    requires ls != []
    ensures LevelsText(ls, "") != "" && LevelsText(ls, "")[|LevelsText(ls, "")| - 1] == ']'
  {
    if |ls| == 1 {
      var before := "[" + (ToDigits(ls[0].price) + ("," + (ToDigits(ls[0].count) + ("," + ls[0].qty.Text("")))));
      NumeralTail(ls[0].qty, "", "]");
      assert "" + "]" == "]" + "" == "]";
      assert ls[0].Text("") == before + "]";
    } else {
      LastBracket(ls[1..]);
      LevelTail(ls[0], "", "," + LevelsText(ls[1..], ""));
      assert "" + ("," + LevelsText(ls[1..], "")) == "," + LevelsText(ls[1..], "");
    }
  }

  lemma BulkHasTriple(ls: seq<Level>, t: string)
    requires ls != []
    ensures HasTriple("[" + LevelsText(ls, "]]" + t))
  {
    var u := "]]" + t;
    LevelsEnd(ls, u);
    var s := LevelsText(ls, u);
    var n := |s| - |u|;
    assert s[n..][0] == ']' && s[n..][1] == ']';
    assert TripleAt("[" + s, n);
  }

  /** The channel and the separator behind it. */
  lemma ChannelReads(channel: nat, body: string)
    requires channel < TWO_32
    ensures var s := "[" + (ToDigits(channel) + ("," + body));
            s[0] == '[' && Field(s[1..]) == Got(channel, body)
  {
    var s := "[" + (ToDigits(channel) + ("," + body));
    FieldReads(channel, body);
    hide Field, ToDigits;
    assert s[1..] == ToDigits(channel) + ("," + body);
  }

  lemma BracketIsDelivered(channel: nat, body: string, past: Past)
    requires channel < TWO_32
    ensures var s := "[" + (ToDigits(channel) + ("," + body));
            Dispatch(s, past) == Ended(|s|, Update(body, channel, past))
  {
    ChannelReads(channel, body);
    hide Update, Field, ToDigits;
  }

  lemma SingleIsRead(level: Level, channel: nat, t: string, past: Past)
    requires level.Valid()
    ensures Update(level.Text("]" + t), channel, past) == (Got((), t), [LevelCall(channel, level, false)])
  {
    var body := level.Text("]" + t);
    LevelReads(level, channel, false, t);
    assert Peek(body, past, 1) == ToDigits(level.price)[0];
    hide SingleUpdate, Level.Text, ToDigits;
  }

  lemma LevelsBegin(ls: seq<Level>, t: string)
    requires ls != []
    ensures LevelsText(ls, t) != "" && LevelsText(ls, t)[0] == '['
  {
  }

  lemma BulkEnds(body: string, channel: nat, past: Past, calls: seq<Callback>, t: string)
    requires |body| >= 2 && body[1] == '[' && HasTriple(body)
    requires Entries(body, channel, past) == (Got((), "]]" + t), calls)
    ensures Update(body, channel, past) == (Got((), t), calls)
  {
    var t2 := "]" + t;
    Behind(']', t2);
    Behind(']', t);
    hide Entries, HasTriple, Skip;
    assert "]]" + t == [']'] + t2;
  }

  lemma BulkIsRead(levels: seq<Level>, channel: nat, t: string, past: Past)
    requires levels != [] && forall i :: 0 <= i < |levels| ==> levels[i].Valid()
    ensures Update("[" + LevelsText(levels, "]]" + t), channel, past) == (Got((), t), BulkCalls(levels, channel))
  {
    BulkHasTriple(levels, t);
    LevelsBegin(levels, "]]" + t);
    hide Entries, Update, LevelsText, HasTriple, BulkCalls;
    var body := "[" + LevelsText(levels, "]]" + t);
    LevelsRead(levels, channel, past, '[', "]]" + t);
    assert body == ['['] + LevelsText(levels, "]]" + t);
    BulkEnds(body, channel, past, BulkCalls(levels, channel), t);
  }

  /** A byte that is no digit, where a number is expected: the number is 0 and nothing is passed. */
  lemma NoNumber(s: string)
    requires s != "" && !IsDigit(s[0]) && s[0] != '-'
    ensures U32(s) == (0, s) && Float(s) == (None, s)
  {
    assert "" + s == s;
    SplitDigitsIs("", s);
  }

  lemma NoField(c: char, t: string)
    requires !IsDigit(c) && c != '-'
    ensures Field([c] + t) == Got(0, t)
  {
    NoNumber([c] + t);
    Behind(c, t);
    hide U32, Skip;
  }

  lemma HeartbeatFields(s1: string, s3: string, s6: string, t: string, channel: nat)
    requires s1 == ['h'] + s3 && s3 == ['b'] + s6 && s6 == ['"'] + ([']'] + t)
    ensures SingleUpdate(['"'] + s1, channel, false) == Got(UpdateP(channel, 0, 0, None, false), t)
  {
    Behind('"', s1);
    NoField('h', s3);
    NoField('b', s6);
    NoNumber(s6);
    Behind('"', [']'] + t);
    Behind(']', t);
    hide Field, Float, Skip;
  }

  lemma HeartbeatIsRead(channel: nat, t: string, past: Past)
    ensures Update("\"hb\"]" + t, channel, past) == (Got((), t), [UpdateP(channel, 0, 0, None, false)])
  {
    hide SingleUpdate, BulkUpdate;
    var s6 := ['"'] + ([']'] + t);
    var s3 := ['b'] + s6;
    var s1 := ['h'] + s3;
    HeartbeatFields(s1, s3, s6, t, channel);
    assert ['"'] + s1 == "\"hb\"]" + t;
    assert Peek(['"'] + s1, past, 1) == 'h';
  }

  lemma EventIsRead(doc: Doc, t: string)
    requires IsEvent(doc)
    ensures JsonEvent(doc.Text(t)) == Returned(|doc.Text("")|, [OnEvent(StoreAll(doc.body.Pairs(), map[]))])
    ensures doc.Text(t) != "" && doc.Text(t)[0] != '['
  {
    var s := doc.Text(t);
    EventText(doc, t);
    EventIsFramedIff(doc, t);
    PrintThenParse(doc, "");
    hide Parse, Frame, Doc.Text, StoreAll;
    assert s[..|doc.Text("")|] == doc.Text("");
  }

  /** A printed document is delivered as one event, whatever follows it, if and only if it is an event in
      the sense of the framing: its quoted braces match. */
  lemma EventIsDeliveredIff(doc: Doc, t: string, past: Past)
    requires doc.Valid()
    ensures var delivered := Returned(|doc.Text("")|, [OnEvent(StoreAll(doc.body.Pairs(), map[]))]);
            Dispatch(doc.Text(t), past) == delivered <==> IsEvent(doc)
  {
    EventText(doc, t);
    EventIsFramedIff(doc, t);
    hide Parse, Frame, Doc.Text, StoreAll, IsEvent, Doc.Valid;
    if IsEvent(doc) {
      EventIsRead(doc, t);
    }
  }

  /** Parsing any message, whatever follows it, consumes exactly its text and makes exactly its
      callbacks, in order. */
  lemma MessageIsDelivered(m: Message, t: string, past: Past)
    requires m.Valid()
    ensures Dispatch(m.Text(t), past) == Returned(|m.Text("")|, m.Calls())
    ensures CallsSay(Dispatch(m.Text(t), past).calls, m)
  {
    MessageTail(m, t);
    CallsAreSaid(m);
    hide CallsSay;
    hide Update, LevelsText, Level.Text, StoreAll, JsonEvent, Doc.Text;
    match m
    case Single(channel, level) =>
      SingleIsRead(level, channel, t, past);
      BracketIsDelivered(channel, level.Text("]" + t), past);
    case Bulk(channel, levels) =>
      BulkIsRead(levels, channel, t, past);
      BracketIsDelivered(channel, "[" + LevelsText(levels, "]]" + t), past);
    case Heartbeat(channel) =>
      HeartbeatIsRead(channel, t, past);
      BracketIsDelivered(channel, "\"hb\"]" + t, past);
    case EventMsg(doc) =>
      EventIsRead(doc, t);
  }

  lemma EmptyFields(s1: string, s2: string, t: string, channel: nat)
    requires s1 == [']'] + s2 && s2 == [']'] + t
    ensures SingleUpdate(['['] + s1, channel, false).Got? ==> |SingleUpdate(['['] + s1, channel, false).rest| + 2 <= |t|
  {
    hide Field, Float, Skip;
    Behind('[', s1);
    NoField(']', s2);
    NoField(']', t);
    SkipIs(Float(t).1);
    if Float(t).1 != "" {
      SkipIs(Float(t).1[1..]);
    }
  }

  /** The empty bulk update is read as a single one, whose missing fields are looked for behind it. */
  lemma EmptyBulkIsMisread(channel: nat, t: string, past: Past)
    ensures var (scan, calls) := Update("[" + ("]]" + t), channel, past);
            match scan
            case Truncated => calls == []
            case Got(_, rest) => |calls| == 1 && |rest| + 2 <= |t|
  {
    hide SingleUpdate, BulkUpdate;
    var s2 := [']'] + t;
    var s1 := [']'] + s2;
    EmptyFields(s1, s2, t, channel);
    assert ['['] + s1 == "[" + ("]]" + t);
    assert Peek(['['] + s1, past, 1) == ']';
  }

  /** A bulk update is delivered, whatever follows it, if and only if it has levels. Without levels the
      parser waits, or consumes at least two bytes of what follows and makes one callback. */
  lemma BulkIsDeliveredIff(m: Message, t: string, past: Past)
    requires m.WellFormed() && m.Bulk?
    ensures Dispatch(m.Text(t), past) == Returned(|m.Text("")|, m.Calls()) <==> m.levels != []
    ensures m.levels == [] ==>
              || Dispatch(m.Text(t), past) == Returned(0, [])
              || (|Dispatch(m.Text(t), past).calls| == 1 && Dispatch(m.Text(t), past).size >= |m.Text("")| + 2)
  {
    if m.levels == [] {
      var body := "[" + ("]]" + t);
      ChannelReads(m.channel, body);
      EmptyBulkIsMisread(m.channel, t, past);
      MessageTail(m, t);
      hide Update, ToDigits, Field;
    } else {
      MessageIsDelivered(m, t, past);
    }
  }

  // ----- what has been consumed does not depend on the bytes behind it -----

  lemma SkipStable(s: string, more: string)
    requires s != ""
    ensures Skip(s + more) == Got((), s[1..] + more)
  {
    assert (s + more)[1..] == s[1..] + more;
  }

  lemma FieldStable(s: string, more: string)
    requires Field(s).Got?
    ensures Field(s + more) == Got(Field(s).value, Field(s).rest + more)
  {
    U32Stable(s, more);
    SkipStable(U32(s).1, more);
    hide U32;
  }

  lemma SingleStable(s: string, channel: nat, bulk: bool, more: string)
    requires SingleUpdate(s, channel, bulk).Got?
    requires bulk ==> SingleUpdate(s, channel, bulk).rest != ""
    ensures SingleUpdate(s + more, channel, bulk)
            == Got(SingleUpdate(s, channel, bulk).value, SingleUpdate(s, channel, bulk).rest + more)
  {
    hide Field, Float;
    var s1 := s[1..];
    var s2 := Field(s1).rest;
    var s3 := Field(s2).rest;
    var s4 := Float(s3).1;
    SkipStable(s, more);
    FieldStable(s1, more);
    FieldStable(s2, more);
    FloatStable(s3, more);
    SkipStable(s4, more);
    if !bulk {
      SkipStable(s4[1..], more);
    }
    hide Skip;
  }

  lemma NothingIsTruncated(channel: nat, bulk: bool)
    ensures SingleUpdate("", channel, bulk).Truncated?
  {
  }

  lemma NoEntries(channel: nat, past: Past)
    ensures Entries("", channel, past).0.Truncated?
  {
    NothingIsTruncated(channel, true);
    hide SingleUpdate;
  }

  lemma {:induction false} EntriesStable(s: string, channel: nat, past: Past, past': Past, more: string)
    requires Entries(s, channel, past).0.Got? && Entries(s, channel, past).0.rest != ""
    ensures Entries(s + more, channel, past')
            == (Got((), Entries(s, channel, past).0.rest + more), Entries(s, channel, past).1)
    decreases |s|
  {
    hide SingleUpdate;
    NothingIsTruncated(channel, true);
    var s1 := s[1..];
    var rest := SingleUpdate(s1, channel, true).rest;
    NoEntries(channel, past);
    assert rest != "";
    assert (s + more)[1..] == s1 + more;
    SingleStable(s1, channel, true, more);
    assert Peek(rest + more, past', 0) == rest[0] == Peek(rest, past, 0);
    hide Peek;
    if rest[0] == ',' {
      EntriesStable(rest, channel, past, past', more);
    }
  }

  lemma TripleStable(s: string, more: string)
    requires HasTriple(s)
    ensures HasTriple(s + more)
  {
    var i :| 1 <= i < |s| && TripleAt(s, i);
    assert TripleAt(s + more, i);
  }

  lemma BulkStable(s: string, channel: nat, past: Past, past': Past, more: string)
    requires BulkUpdate(s, channel, past).0.Got?
    ensures BulkUpdate(s + more, channel, past')
            == (Got((), BulkUpdate(s, channel, past).0.rest + more), BulkUpdate(s, channel, past).1)
  {
    hide Entries, HasTriple;
    TripleStable(s, more);
    var s1 := Entries(s, channel, past).0.rest;
    EntriesStable(s, channel, past, past', more);
    SkipStable(s1, more);
    SkipStable(s1[1..], more);
    hide Skip;
    SkipIs(s1);
    SkipIs(s1[1..]);
  }

  lemma SkipIs(s: string)
    ensures Skip(s) == if s == "" then Truncated else Got((), s[1..])
  {
  }

  lemma ShortIsTruncated(s: string, channel: nat, past: Past)
    ensures Update(s, channel, past).0.Got? ==> |s| >= 2
  {
  }

  lemma UpdateStable(s: string, channel: nat, past: Past, past': Past, more: string)
    requires Update(s, channel, past).0.Got?
    ensures Update(s + more, channel, past')
            == (Got((), Update(s, channel, past).0.rest + more), Update(s, channel, past).1)
  {
    ShortIsTruncated(s, channel, past);
    assert Peek(s + more, past', 1) == Peek(s, past, 1);
    hide SingleUpdate, BulkUpdate;
    if Peek(s, past, 1) == '[' {
      BulkStable(s, channel, past, past', more);
    } else {
      SingleStable(s, channel, false, more);
    }
  }

  lemma JsonEventStable(s: string, more: string)
    requires s != "" && JsonEvent(s) != Returned(0, [])
    ensures JsonEvent(s + more) == JsonEvent(s)
  {
    assert (s + more)[1..] == s[1..] + more;
    FrameStable(s[1..], 1, more);
    hide Parse;
    assert (s + more)[..Frame(s).value] == s[..Frame(s).value];
  }

  lemma BracketStable(s: string, more: string, past: Past, past': Past)
    requires s != "" && s[0] == '[' && Dispatch(s, past).size > 0
    ensures Dispatch(s + more, past') == Dispatch(s, past)
  {
    hide Field, Update;
    assert (s + more)[1..] == s[1..] + more;
    var (channel, s1) := Field(s[1..]).Extract();
    FieldStable(s[1..], more);
    UpdateStable(s1, channel, past, past', more);
  }

  /** On any bytes at all: once a message has been consumed, or has killed the program, it would have
      been treated the same with any other bytes behind it. */
  lemma DispatchStable(s: string, more: string, past: Past, past': Past)
    requires Dispatch(s, past).Terminated? || Dispatch(s, past).size > 0
    ensures Dispatch(s + more, past') == Dispatch(s, past)
  {
    assert (s + more)[0] == s[0];
    if s[0] == '[' {
      BracketStable(s, more, past, past');
    } else {
      hide JsonEvent;
      JsonEventStable(s, more);
    }
  }

  // ----- a proper prefix of a message is left alone -----

  ghost predicate NoTriple(s: string) {
    forall i :: 0 <= i && i + 3 <= |s| ==> !(s[i] == ']' && s[i + 1] == ']' && s[i + 2] == ']')
  }

  ghost predicate NoBracket(s: string) {
    forall i :: 0 <= i < |s| ==> s[i] != ']'
  }

  lemma NoTripleBehind(x: string, s: string)
    requires NoBracket(x) && NoTriple(s)
    ensures NoTriple(x + s)
  {
    forall i | 0 <= i && i + 3 <= |x + s|
      ensures !((x + s)[i] == ']' && (x + s)[i + 1] == ']' && (x + s)[i + 2] == ']')
    {
      if i >= |x| {
        var j := i - |x|;
        assert !(s[j] == ']' && s[j + 1] == ']' && s[j + 2] == ']');
      }
    }
  }

  lemma NumeralNoBracket(q: Numeral)
    requires q.Valid()
    ensures NoBracket(q.Text(""))
  {
  }

  /** The text of a level before its closing bracket. */
  function BeforeClose(l: Level): string {
    "[" + (ToDigits(l.price) + ("," + (ToDigits(l.count) + ("," + l.qty.Text("")))))
  }

  lemma LevelText(l: Level, t: string)
    ensures l.Text(t) == BeforeClose(l) + ("]" + t)
  {
    NumeralTail(l.qty, "", "]" + t);
    assert "" + ("]" + t) == "]" + t;
    hide ToDigits, Numeral.Text;
  }

  lemma BeforeCloseNoBracket(l: Level)
    requires l.Valid()
    ensures NoBracket(BeforeClose(l))
  {
    NumeralNoBracket(l.qty);
    hide ToDigits, Numeral.Text;
  }

  lemma LevelNoTriple(l: Level, t: string)
    requires l.Valid() && NoTriple("]" + t)
    ensures NoTriple(l.Text(t))
  {
    LevelText(l, t);
    BeforeCloseNoBracket(l);
    NoTripleBehind(BeforeClose(l), "]" + t);
  }

  lemma {:induction false} LevelsNoTriple(ls: seq<Level>)
    requires forall i :: 0 <= i < |ls| ==> ls[i].Valid()
    ensures NoTriple(LevelsText(ls, "]"))
  {
    hide Level.Text;
    if |ls| == 1 {
      LevelNoTriple(ls[0], "]");
    } else if |ls| > 1 {
      LevelsNoTriple(ls[1..]);
      NoTripleBehind(",", LevelsText(ls[1..], "]"));
      LevelNoTriple(ls[0], "," + LevelsText(ls[1..], "]"));
    }
  }

  lemma ChannelNoTriple(channel: nat, body: string)
    requires NoTriple(body)
    ensures NoTriple("[" + (ToDigits(channel) + ("," + body)))
  {
    var before := "[" + ToDigits(channel) + ",";
    assert NoBracket(before);
    NoTripleBehind(before, body);
    assert before + body == "[" + (ToDigits(channel) + ("," + body));
  }

  lemma PrefixNoTriple(s: string, k: nat)
    requires k <= |s| && NoTriple(s)
    ensures NoTriple(s[..k]) && NoTriple(s[k..])
  {
    forall i | 0 <= i && i + 3 <= |s[k..]|
      ensures !(s[k..][i] == ']' && s[k..][i + 1] == ']' && s[k..][i + 2] == ']')
    {
      assert !(s[k + i] == ']' && s[k + i + 1] == ']' && s[k + i + 2] == ']');
    }
  }

  lemma BulkNoTriple(channel: nat, levels: seq<Level>, k: nat)
    requires forall i :: 0 <= i < |levels| ==> levels[i].Valid()
    requires k < |Bulk(channel, levels).Text("")|
    ensures NoTriple(Bulk(channel, levels).Text("")[..k])
  {
    LevelsNoTriple(levels);
    LevelsTail(levels, "]", "]");
    hide ToDigits, LevelsText;
    var inner := "[" + LevelsText(levels, "]");
    NoTripleBehind("[", LevelsText(levels, "]"));
    ChannelNoTriple(channel, inner);
    var short := "[" + (ToDigits(channel) + ("," + inner));
    assert "]" + "]" == "]]" + "";
    assert inner + "]" == "[" + LevelsText(levels, "]]" + "");
    Prefixed(channel, inner, "]");
    assert Bulk(channel, levels).Text("") == short + "]";
    PrefixNoTriple(short, k);
    assert (short + "]")[..k] == short[..k];
  }

  /** The text of an update without its last byte has no three closing brackets in a row. */
  lemma UpdateNoTriple(m: Message, k: nat)
    requires m.Valid() && !m.EventMsg? && k < |m.Text("")|
    ensures NoTriple(m.Text("")[..k])
  {
    hide Level.Text, LevelsText, ToDigits;
    match m
    case Single(channel, level) =>
      LevelNoTriple(level, "]" + "");
      ChannelNoTriple(channel, level.Text("]" + ""));
      PrefixNoTriple(m.Text(""), k);
    case Heartbeat(channel) =>
      ChannelNoTriple(channel, "\"hb\"]" + "");
      PrefixNoTriple(m.Text(""), k);
    case Bulk(channel, levels) =>
      BulkNoTriple(channel, levels, k);
  }

  lemma NoTripleNone(s: string)
    requires NoTriple(s)
    ensures !HasTriple(s)
  {
    forall i | 1 <= i < |s|
      ensures !TripleAt(s, i)
    {
    }
  }

  lemma UpdateSilent(s: string, channel: nat, past: Past)
    requires NoTriple(s)
    ensures Update(s, channel, past).0.Truncated? ==> Update(s, channel, past).1 == []
  {
    NoTripleNone(s);
    hide HasTriple, SingleUpdate, Entries;
  }

  lemma BehindFieldNoTriple(s: string)
    requires NoTriple(s)
    ensures Field(s).Got? ==> NoTriple(Field(s).rest)
  {
    hide NoTriple;
    PrefixNoTriple(s, DigitRun(s));
    var s1 := U32(s).1;
    if s1 != "" {
      PrefixNoTriple(s1, 1);
    }
  }

  lemma EndedSilent(total: nat, r: (Scan<()>, seq<Callback>))
    requires r.0.Got? ==> |r.0.rest| < total
    requires r.0.Truncated? ==> r.1 == []
    ensures Ended(total, r).size == 0 ==> Ended(total, r).calls == []
  {
  }

  lemma BracketSilent(s: string, past: Past)
    requires NoTriple(s) && s != "" && s[0] == '['
    ensures Dispatch(s, past).Returned? && Dispatch(s, past).size == 0 ==> Dispatch(s, past).calls == []
  {
    hide Field, Update, NoTriple, Ended;
    PrefixNoTriple(s, 1);
    BehindFieldNoTriple(s[1..]);
    if Field(s[1..]).Got? {
      var (channel, s1) := Field(s[1..]).Extract();
      UpdateSilent(s1, channel, past);
      EndedSilent(|s|, Update(s1, channel, past));
    }
  }

  lemma SilentWithoutTriple(s: string, past: Past)
    requires NoTriple(s)
    ensures Dispatch(s, past).Returned? && Dispatch(s, past).size == 0 ==> Dispatch(s, past).calls == []
  {
    if s != "" && s[0] == '[' {
      BracketSilent(s, past);
    } else if s != "" {
      hide JsonEvent;
      EventSilent(s);
    }
  }

  /** For every proper prefix of a message the parser consumes nothing and makes no callback. */
  lemma PrefixIsSilent(m: Message, k: nat, past: Past)
    requires m.Valid() && k < |m.Text("")|
    ensures Dispatch(m.Text("")[..k], past) == Returned(0, [])
  {
    var text := m.Text("");
    var p, more := text[..k], text[k..];
    assert p + more == text;
    MessageIsDelivered(m, "", past);
    hide Dispatch, Message.Text, Message.Calls;
    if Dispatch(p, past).Terminated? || Dispatch(p, past).size > 0 {
      DispatchStable(p, more, past, past);
    }
    if m.EventMsg? {
      EventPrefixIsSilent(m.doc, p, more, past);
    } else {
      UpdateNoTriple(m, k);
      SilentWithoutTriple(p, past);
    }
  }

  lemma EventPrefixIsSilent(doc: Doc, p: string, more: string, past: Past)
    requires IsEvent(doc) && p + more == doc.Text("")
    ensures Dispatch(p, past).Returned? && Dispatch(p, past).size == 0 ==> Dispatch(p, past).calls == []
  {
    EventIsRead(doc, "");
    hide JsonEvent, Doc.Text;
    if p != "" {
      assert p[0] == doc.Text("")[0];
      EventSilent(p);
    }
  }

  lemma EventSilent(s: string)
    requires s != ""
    ensures JsonEvent(s).Returned? && JsonEvent(s).size == 0 ==> JsonEvent(s).calls == []
  {
  }

  // ----- when callbacks are made and nothing is consumed -----

  /** What lies behind the first n entries of s, of which all but the last have a comma behind them. */
  function BehindEntries(s: string, channel: nat, past: Past, n: nat): Option<string>
    requires n > 0
    decreases n
  {
    match SingleUpdate(if s == "" then s else s[1..], channel, true)
    case Truncated => None
    case Got(_, rest) =>
      if n == 1 then Some(rest)
      else if Peek(rest, past, 0) == ',' then BehindEntries(rest, channel, past, n - 1)
      else None
  }

  /** Behind the bytes of an entry: a comma without a complete entry behind it, or no comma and fewer than
      the two bytes that close the update. */
  predicate Breaks(rest: string, channel: nat, past: Past) {
    if Peek(rest, past, 0) == ','
    then SingleUpdate(if rest == "" then rest else rest[1..], channel, true).Truncated?
    else |rest| < 2
  }

  /** The entries of s break off behind at least one complete entry. */
  ghost predicate BreaksOff(s: string, channel: nat, past: Past) {
    exists n :: n > 0 && BreaksBehind(s, channel, past, n)
  }

  predicate BreaksBehind(s: string, channel: nat, past: Past, n: nat)
    requires n > 0
  {
    var rest := BehindEntries(s, channel, past, n);
    rest.Some? && Breaks(rest.value, channel, past)
  }

  /** Behind the first entry the entries go on, break off, or end. */
  lemma BreaksOffStep(s: string, channel: nat, past: Past)
    ensures var single := SingleUpdate(if s == "" then s else s[1..], channel, true);
            BreaksOff(s, channel, past) <==>
            single.Got? && (Breaks(single.rest, channel, past)
                            || (Peek(single.rest, past, 0) == ',' && BreaksOff(single.rest, channel, past)))
  {
    hide SingleUpdate, Peek, Breaks;
    var single := SingleUpdate(if s == "" then s else s[1..], channel, true);
    if n :| n > 0 && BreaksBehind(s, channel, past, n) {
      if n > 1 {
        assert BreaksBehind(single.rest, channel, past, n - 1);
      }
    }
    if single.Got? && Breaks(single.rest, channel, past) {
      assert BreaksBehind(s, channel, past, 1);
    }
    if single.Got? && Peek(single.rest, past, 0) == ',' && BreaksOff(single.rest, channel, past) {
      var n :| n > 0 && BreaksBehind(single.rest, channel, past, n);
      assert BreaksBehind(s, channel, past, n + 1);
    }
  }

  /** The two closing bytes of a bulk update are missing, or the entries have run out already. */
  predicate NoClose(scan: Scan<()>) {
    scan.Truncated? || |scan.rest| < 2
  }

  lemma {:induction false} EntriesBreakOff(s: string, channel: nat, past: Past)
    ensures var (scan, calls) := Entries(s, channel, past);
            NoClose(scan) && calls != [] <==> BreaksOff(s, channel, past)
    decreases |s|
  {
    BreaksOffStep(s, channel, past);
    var single := SingleUpdate(if s == "" then s else s[1..], channel, true);
    hide SingleUpdate, Peek, BreaksOff;
    if single.Got? && Peek(single.rest, past, 0) == ',' {
      NoCallsIff(single.rest, channel, past);
      hide Entries;
      EntriesBreakOff(single.rest, channel, past);
    }
  }

  lemma NoCallsIff(s: string, channel: nat, past: Past)
    ensures Entries(s, channel, past).1 == [] <==> SingleUpdate(if s == "" then s else s[1..], channel, true).Truncated?
    ensures Entries(s, channel, past).1 == [] ==> Entries(s, channel, past).0.Truncated?
  {
    hide SingleUpdate, Peek;
  }

  lemma UpdateBreaksOffIff(s: string, channel: nat, past: Past)
    ensures var (scan, calls) := Update(s, channel, past);
            scan.Truncated? && calls != [] <==>
            Peek(s, past, 1) == '[' && HasTriple(s) && BreaksOff(s, channel, past)
  {
    EntriesBreakOff(s, channel, past);
    hide SingleUpdate, Entries, HasTriple, BreaksOff, Peek;
  }

  /** The contract of the bulk parser, to consume the whole message or nothing, fails in one case only. On
      any bytes: callbacks are made and nothing is consumed if and only if the channel is read, the
      update behind it is a bulk one with three closing brackets in a row somewhere, and its entries break
      off behind at least one complete entry. */
  lemma CallsWithoutConsumingIff(s: string, past: Past)
    ensures var o := Dispatch(s, past);
            o.Returned? && o.size == 0 && o.calls != [] <==>
            && s != "" && s[0] == '['
            && var field := Field(s[1..]);
               && field.Got? && Peek(field.rest, past, 1) == '[' && HasTriple(field.rest)
               && BreaksOff(field.rest, field.value, past)
  {
    hide Field, Update, JsonEvent, BreaksOff, HasTriple, Peek;
    if s != "" && s[0] == '[' {
      var field := Field(s[1..]);
      if field.Got? {
        UpdateBreaksOffIff(field.rest, field.value, past);
      }
    } else if s != "" {
      EventSilent(s);
    }
  }

  /** Three closing brackets make no entry. */
  lemma NoEntryInBrackets(channel: nat, past: Past)
    ensures Entries(",]]]", channel, past) == (Truncated, [])
  {
    var s3, s2, s1 := [']'] + "", "]]", "]]]";
    assert s2 == [']'] + s3 && s1 == [']'] + s2 && ",]]]" == [','] + s1;
    Behind(']', s2);
    NoField(']', s3);
    NoField(']', "");
    hide Field;
    assert SingleUpdate(s1, channel, true).Truncated?;
    assert ",]]]"[1..] == s1;
  }

  /** A level, a comma, three closing brackets, and what comes later. */
  function Part(channel: nat, l: Level, more: string): string {
    "[" + (ToDigits(channel) + ("," + ("[" + l.Text(",]]]" + more))))
  }

  lemma PartTail(channel: nat, l: Level, more: string)
    ensures Part(channel, l, "") + more == Part(channel, l, more)
  {
    hide ToDigits, Level.Text;
    LevelTail(l, ",]]]" + "", more);
    assert ",]]]" + "" + more == ",]]]" + more;
    assert "[" + l.Text(",]]]" + "") + more == "[" + l.Text(",]]]" + more);
    Prefixed(channel, "[" + l.Text(",]]]" + ""), more);
  }

  lemma TripleBehind(x: string, more: string)
    ensures HasTriple(x + (",]]]" + more))
  {
    var s := x + (",]]]" + more);
    assert s[|x| + 1] == ']' && s[|x| + 2] == ']' && s[|x| + 3] == ']';
    assert TripleAt(s, |x| + 1);
  }

  lemma LevelBegins(l: Level, t: string)
    ensures l.Text(t) != "" && l.Text(t)[0] == '['
  {
  }

  lemma PartHasTriple(l: Level, more: string)
    ensures var body := "[" + l.Text(",]]]" + more);
            |body| >= 2 && body[1] == '[' && HasTriple(body)
  {
    var t := ",]]]" + more;
    LevelBegins(l, t);
    hide Level.Text, HasTriple;
    LevelTail(l, "", t);
    assert "" + t == t;
    TripleBehind("[" + l.Text(""), more);
    assert "[" + l.Text("") + t == "[" + l.Text(t);
  }

  lemma PartIsRead(channel: nat, l: Level, more: string, past: Past)
    requires l.Valid()
    ensures var (scan, calls) := Update("[" + l.Text(",]]]" + more), channel, past);
            && [LevelCall(channel, l, true)] <= calls
            && (more == "" ==> scan.Truncated? && calls == [LevelCall(channel, l, true)])
  {
    var t := ",]]]" + more;
    PartHasTriple(l, more);
    EntryReads('[', l, channel, past, t);
    NoEntryInBrackets(channel, past);
    hide Entries, HasTriple, Level.Text, SingleUpdate;
    assert ['['] + l.Text(t) == "[" + l.Text(t);
    assert more == "" ==> t == ",]]]";
  }

  /** A family of such bytes: a level, a comma, and the closing brackets without another level. The level
      is delivered, nothing is consumed, and when more bytes have come it is delivered again. */
  lemma PartIsDelivered(channel: nat, l: Level, more: string, past: Past, past': Past)
    requires channel < TWO_32 && l.Valid()
    ensures var s := Part(channel, l, "");
            && Dispatch(s, past) == Returned(0, [LevelCall(channel, l, true)])
            && Dispatch(s + more, past').Returned? && [LevelCall(channel, l, true)] <= Dispatch(s + more, past').calls
  {
    PartTail(channel, l, more);
    PartIsRead(channel, l, "", past);
    PartIsRead(channel, l, more, past');
    BracketIsDelivered(channel, "[" + l.Text(",]]]" + ""), past);
    BracketIsDelivered(channel, "[" + l.Text(",]]]" + more), past');
    hide Dispatch, Update, ToDigits, Level.Text;
  }
}
