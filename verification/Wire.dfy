/** The messages of the exchange, how they are written on the wire, and the callbacks they stand for. */
module Wire {
  import opened Bytes
  import opened Wrappers
  import opened Decimal
  import opened FastParse
  import opened JsonDocument
  import opened JsonFraming

  /** One row of a P0 book: a price level, its number of orders, and its signed quantity. */
  datatype Level = Level(price: nat, count: nat, qty: Numeral) {
    predicate Valid() {
      price < TWO_32 && count < TWO_32 && qty.Valid()
    }

    /** As everywhere in this module, `Text(t)` is the written form followed by t. */
    function Text(t: string): string {
      "[" + (ToDigits(price) + ("," + (ToDigits(count) + ("," + qty.Text("]" + t)))))
    }
  }

  function LevelsText(levels: seq<Level>, t: string): string {
    if levels == [] then t
    else if |levels| == 1 then levels[0].Text(t)
    else levels[0].Text("," + LevelsText(levels[1..], t))
  }

  datatype Message =
    | Single(channel: nat, level: Level)
    | Bulk(channel: nat, levels: seq<Level>)
    | Heartbeat(channel: nat)
    | EventMsg(doc: Doc)
  {
    predicate WellFormed() {
      match this
      case Single(channel, level) => channel < TWO_32 && level.Valid()
      case Bulk(channel, levels) => channel < TWO_32 && forall i :: 0 <= i < |levels| ==> levels[i].Valid()
      case Heartbeat(channel) => channel < TWO_32
      case EventMsg(doc) => IsEvent(doc)
    }

    /** Well-formed, and not the bulk update without levels, which the parser cannot read. */
    predicate Valid() {
      WellFormed() && (Bulk? ==> levels != [])
    }

    function Text(t: string): string {
      match this
      case Single(channel, level) => "[" + (ToDigits(channel) + ("," + level.Text("]" + t)))
      case Bulk(channel, levels) => "[" + (ToDigits(channel) + ("," + ("[" + LevelsText(levels, "]]" + t))))
      case Heartbeat(channel) => "[" + (ToDigits(channel) + ("," + ("\"hb\"]" + t)))
      case EventMsg(doc) => doc.Text(t)
    }

    /** The callbacks that deliver this message, in order. */
    function Calls(): seq<Callback>
      requires WellFormed()
    {
      match this
      case Single(channel, level) => [LevelCall(channel, level, false)]
      case Bulk(channel, levels) => seq(|levels|, i requires 0 <= i < |levels| => LevelCall(channel, levels[i], true))
      case Heartbeat(channel) => [UpdateP(channel, 0, 0, None, false)]
      case EventMsg(doc) => [OnEvent(StoreAll(doc.body.Pairs(), map[]))]
    }
  }

  /** The parser's callbacks. A quantity of `None` is a float the parser left unset. */
  datatype Callback =
    | UpdateP(channel: nat, price: nat, count: nat, qty: Option<real>, bulk: bool)
    | OnEvent(pairs: map<string, string>)

  function LevelCall(channel: nat, level: Level, bulk: bool): Callback
    requires level.Valid()
  {
    UpdateP(channel, level.price, level.count, Some(level.qty.Value()), bulk)
  }

  /** The callback carries the fields of the level, and the quantity that its numeral denotes. */
  predicate Delivers(call: Callback, channel: nat, level: Level, bulk: bool)
    requires level.Valid()
  {
    && call.UpdateP? && call.channel == channel && call.bulk == bulk
    && call.price == level.price && call.count == level.count
    && call.qty.Some? && Denotes(level.qty, call.qty.value)
  }

  /** The callbacks, one for each level and in order, say what the message says. */
  predicate CallsSay(calls: seq<Callback>, m: Message)
    requires m.WellFormed()
  {
    match m
    case Single(channel, level) => |calls| == 1 && Delivers(calls[0], channel, level, false)
    case Bulk(channel, levels) =>
      |calls| == |levels| && forall i :: 0 <= i < |levels| ==> Delivers(calls[i], channel, levels[i], true)
    case Heartbeat(channel) => calls == [UpdateP(channel, 0, 0, None, false)]
    case EventMsg(doc) => calls == [OnEvent(StoreAll(doc.body.Pairs(), map[]))]
  }

  lemma CallsAreSaid(m: Message)
    requires m.WellFormed()
    ensures CallsSay(m.Calls(), m)
  {
    hide Denotes, Numeral.Value, StoreAll;
    match m
    case Single(_, level) => ValueIsExact(level.qty);
    case Bulk(channel, levels) =>
      forall i | 0 <= i < |levels|
        ensures Delivers(m.Calls()[i], channel, levels[i], true)
      {
        ValueIsExact(levels[i].qty);
      }
    case Heartbeat(_) =>
    case EventMsg(_) =>
  }

  /** The messages one after another. */
  function StreamText(ms: seq<Message>): string {
    if ms == [] then "" else ms[0].Text(StreamText(ms[1..]))
  }

  // ----- the text of a message followed by t is the message's own text and then t -----

  lemma NumeralTail(q: Numeral, a: string, b: string)
    ensures q.Text(a) + b == q.Text(a + b)
  {
    assert q.UnsignedText(a) + b == q.UnsignedText(a + b) by {
      assert q.whole + a + b == q.whole + (a + b);
      assert q.whole + ("." + (q.frac + a)) + b == q.whole + ("." + (q.frac + (a + b)));
    }
    assert "-" + q.UnsignedText(a) + b == "-" + (q.UnsignedText(a) + b);
  }

  lemma LevelTail(l: Level, a: string, b: string)
    ensures l.Text(a) + b == l.Text(a + b)
  {
    NumeralTail(l.qty, "]" + a, b);
    assert "]" + a + b == "]" + (a + b);
    var before := "[" + (ToDigits(l.price) + ("," + (ToDigits(l.count) + ",")));
    assert l.Text(a) == before + l.qty.Text("]" + a);
    assert l.Text(a + b) == before + l.qty.Text("]" + (a + b));
  }

  lemma {:induction false} LevelsTail(ls: seq<Level>, a: string, b: string)
    ensures LevelsText(ls, a) + b == LevelsText(ls, a + b)
  {
    if |ls| == 1 {
      LevelTail(ls[0], a, b);
    } else if |ls| > 1 {
      LevelsTail(ls[1..], a, b);
      LevelTail(ls[0], "," + LevelsText(ls[1..], a), b);
      assert "," + LevelsText(ls[1..], a) + b == "," + LevelsText(ls[1..], a + b);
    }
  }

  lemma Prefixed(channel: nat, body: string, t: string)
    ensures "[" + (ToDigits(channel) + ("," + body)) + t == "[" + (ToDigits(channel) + ("," + (body + t)))
  {
    hide ToDigits;
  }

  lemma SingleTail(channel: nat, level: Level, t: string)
    ensures Single(channel, level).Text(t) == Single(channel, level).Text("") + t
  {
    hide ToDigits, Level.Text;
    LevelTail(level, "]" + "", t);
    assert "]" + "" + t == "]" + t;
    Prefixed(channel, level.Text("]" + ""), t);
  }

  lemma BulkTail(channel: nat, levels: seq<Level>, t: string)
    ensures Bulk(channel, levels).Text(t) == Bulk(channel, levels).Text("") + t
  {
    hide ToDigits, LevelsText;
    LevelsTail(levels, "]]" + "", t);
    assert "]]" + "" + t == "]]" + t;
    assert "[" + LevelsText(levels, "]]" + "") + t == "[" + LevelsText(levels, "]]" + t);
    Prefixed(channel, "[" + LevelsText(levels, "]]" + ""), t);
  }

  lemma HeartbeatTail(channel: nat, t: string)
    ensures Heartbeat(channel).Text(t) == Heartbeat(channel).Text("") + t
  {
    hide ToDigits;
    assert "\"hb\"]" + "" + t == "\"hb\"]" + t;
    Prefixed(channel, "\"hb\"]" + "", t);
  }

  lemma MessageTail(m: Message, t: string)
    ensures m.Text(t) == m.Text("") + t
  {
    hide ToDigits, Level.Text, LevelsText, Doc.Text;
    match m
    case Single(channel, level) => SingleTail(channel, level, t);
    case Bulk(channel, levels) => BulkTail(channel, levels, t);
    case Heartbeat(channel) => HeartbeatTail(channel, t);
    case EventMsg(doc) => EventText(doc, t);
  }
}
