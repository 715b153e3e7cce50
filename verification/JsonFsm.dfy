/** bitfinex/json_obj.cpp: the table-driven parser of JSON objects. */
module JsonFsm {

  datatype Event = Char | Quote | ColonSep | Comma | Wspc | CbrktOpen | CbrktClose | SbrktOpen | SbrktClose

  // Sc*: scanning for something; Rd*: reading something.
  datatype State =
    | ScRoot | ScKey | RdKey | ScColon | ScValBgn
    | RdValQuo | RdValUnq | RdValObj | RdValAry | ScObjEnd

  datatype Action =
    | Ignore | PtrKey | PtrVal | Push | InsertN | InsertI | EntSub | LevSub | Reject | Accept | AcceptI

  datatype NewState = Stay | Go(state: State)
  datatype Transition = T(action: Action, next: NewState)

  /** The transition table, one row a state. */
  function Table(state: State, event: Event): Transition {
    match state
    case ScRoot => (
      match event
      case Wspc => T(Ignore, Stay)
      case CbrktOpen => T(Ignore, Go(ScKey))
      case _ => T(Reject, Stay))
    case ScKey => (
      match event
      case Quote => T(PtrKey, Go(RdKey))
      case Wspc => T(Ignore, Stay)
      case CbrktClose => T(Accept, Stay)
      case _ => T(Reject, Stay))
    case RdKey => (
      match event
      case Char => T(Push, Stay)
      case Quote => T(PtrVal, Go(ScColon))
      case Wspc => T(Push, Stay)
      case _ => T(Reject, Stay))
    case ScColon => (
      match event
      case ColonSep => T(Ignore, Go(ScValBgn))
      case Wspc => T(Ignore, Stay)
      case _ => T(Reject, Stay))
    case ScValBgn => (
      match event
      case Char => T(Push, Go(RdValUnq))
      case Quote => T(Ignore, Go(RdValQuo))
      case Wspc => T(Ignore, Stay)
      case CbrktOpen => T(EntSub, Go(RdValObj))
      case SbrktOpen => T(Push, Go(RdValAry))
      case _ => T(Reject, Stay))
    case RdValQuo => (
      match event
      case Quote => T(InsertN, Go(ScObjEnd))
      case _ => T(Push, Stay))
    case RdValUnq => (
      match event
      case Char => T(Push, Stay)
      case Comma => T(InsertN, Go(ScKey))
      case Wspc => T(InsertN, Go(ScObjEnd))
      case CbrktClose => T(AcceptI, Stay)
      case _ => T(Reject, Stay))
    case RdValObj => (
      match event
      case CbrktOpen => T(EntSub, Stay)
      case CbrktClose => T(LevSub, Stay)
      case _ => T(Push, Stay))
    case RdValAry => (
      match event
      case Char | Quote | Comma | Wspc => T(Push, Stay)
      case SbrktClose => T(InsertI, Go(ScObjEnd))
      case _ => T(Reject, Stay))
    case ScObjEnd => (
      match event
      case Comma => T(Ignore, Go(ScKey))
      case Wspc => T(Ignore, Stay)
      case CbrktClose => T(Accept, Go(ScRoot))
      case _ => T(Reject, Stay))
  }

  predicate IsAlnum(c: char) {
    '0' <= c <= '9' || 'A' <= c <= 'Z' || 'a' <= c <= 'z'
  }

  predicate IsPrint(c: char) {
    ' ' <= c <= '~'
  }

  datatype MaybeEvent = NoEvent | Is(event: Event)

  /** The character class of a byte; the class of a printable byte depends on the state. */
  function Classify(c: char, state: State): MaybeEvent {
    match c
    case '"' => Is(Quote)
    case ':' => Is(ColonSep)
    case ',' => Is(Comma)
    case '\t' => Is(Wspc)
    case ' ' => Is(Wspc)
    case '{' => Is(CbrktOpen)
    case '}' => Is(CbrktClose)
    case '[' => Is(SbrktOpen)
    case ']' => Is(SbrktClose)
    case _ =>
      if IsAlnum(c) || c == '.' || (state == RdValQuo && IsPrint(c)) then Is(Char) else NoEvent
  }

  datatype ParseError = InvalidChar | InvalidSyntax | UnexpectedEnd
  datatype Verdict = Accepted(pairs: map<string, string>) | Rejected(error: ParseError)
  datatype Token = KeyToken | ValToken

  /** The local variables of the parsing loop. */
  datatype Machine = Machine(
    state: State, key: string, val: string, token: Token, subObj: int, pairs: map<string, string>)
  {
    function Pushed(s: string): Machine {
      if token == KeyToken then this.(key := key + s) else this.(val := val + s)
    }

    function Inserted(tail: string): Machine {
      this.(pairs := pairs[key := val + tail], key := "", val := "", token := KeyToken)
    }

    /** What the state says about the other variables. */
    ghost predicate Valid() {
      && (subObj > 0 <==> state == RdValObj) && subObj >= 0
      && (token == KeyToken <==> state in {ScRoot, ScKey, RdKey, ScObjEnd})
      && (state in {ScRoot, ScKey, ScObjEnd} ==> key == "")
      && (val == "" <== state in {ScRoot, ScKey, RdKey, ScColon, ScValBgn, ScObjEnd})
      && (val != "" <== state in {RdValUnq, RdValObj, RdValAry})
    }
  }

  const START := Machine(ScRoot, "", "", KeyToken, 0, map[])

  datatype Progress = Running(m: Machine) | Done(verdict: Verdict)

  /** One turn of the parsing loop. */
  function Step(m: Machine, c: char): Progress {
    match Classify(c, m.state)
    case NoEvent => Done(Rejected(InvalidChar))
    case Is(event) =>
      var t := Table(m.state, event);
      var n := if t.next.Go? then m.(state := t.next.state) else m;
      match t.action
      case Ignore => Running(n)
      case Reject => Done(Rejected(InvalidSyntax))
      case Accept => Done(Accepted(n.pairs))
      case AcceptI => Done(Accepted(n.Inserted("").pairs))
      case PtrKey => Running(n.(token := KeyToken))
      case PtrVal => Running(n.(token := ValToken))
      case Push => Running(n.Pushed([c]))
      case InsertI => Running(n.Inserted([c]))
      case InsertN => Running(n.Inserted(""))
      case EntSub => Running(n.Pushed([c]).(subObj := n.subObj + 1))
      case LevSub =>
        var p := n.Pushed([c]).(subObj := n.subObj - 1);
        Running(if p.subObj == 0 then p.Inserted("").(state := ScObjEnd) else p)
  }

  /** The loop from machine m over the bytes of s. */
  function Run(m: Machine, s: string): Verdict
    decreases s
  {
    if s == "" then Rejected(UnexpectedEnd)
    else
      match Step(m, s[0])
      case Running(n) => Run(n, s[1..])
      case Done(v) => v
  }

  /** The verdict of the JsonObj parsing constructor. */
  function Parse(s: string): Verdict {
    Run(START, s)
  }

  /** Every turn of the loop keeps the machine consistent. */
  lemma StepKeepsValid(m: Machine, c: char)
    requires m.Valid()
    ensures Step(m, c).Running? ==> Step(m, c).m.Valid()
  {
  }

  /** Where the loop stands after a prefix, as long as it has not stopped. */
  function Advance(m: Machine, s: string): Progress
    decreases s
  {
    if s == "" then Running(m)
    else
      match Step(m, s[0])
      case Running(n) => Advance(n, s[1..])
      case Done(v) => Done(v)
  }

  lemma {:induction false} AdvanceKeepsValid(m: Machine, s: string)
    requires m.Valid()
    ensures Advance(m, s).Running? ==> Advance(m, s).m.Valid()
    decreases s
  {
    if s != "" && Step(m, s[0]).Running? {
      StepKeepsValid(m, s[0]);
      AdvanceKeepsValid(Step(m, s[0]).m, s[1..]);
    }
  }

  /** On every input, the machine stays consistent for as long as it runs. */
  lemma ReachableIsValid(s: string)
    ensures Advance(START, s).Running? ==> Advance(START, s).m.Valid()
  {
    AdvanceKeepsValid(START, s);
  }

  lemma {:induction false} RunFromAdvance(m: Machine, s: string, t: string)
    ensures Run(m, s + t) == match Advance(m, s) { case Running(n) => Run(n, t) case Done(v) => v }
    decreases s
  {
    if s == "" {
      assert s + t == t;
    } else {
      assert (s + t)[1..] == s[1..] + t;
      if Step(m, s[0]).Running? {
        RunFromAdvance(Step(m, s[0]).m, s[1..], t);
      }
    }
  }

  /** A JsonObj holds the key/value pairs its text was parsed into. */
  class JsonObj {
    var keyValueMap: map<string, string>

    constructor ()
      ensures keyValueMap == map[]
    {
      keyValueMap := map[];
    }

    /** An object that holds the pairs of one parsed before. */
    constructor Holding(pairs: map<string, string>)
      ensures keyValueMap == pairs
    {
      keyValueMap := pairs;
    }

    /** The body of the parsing constructor, run on a fresh object; `Rejected` stands for the
        exception it throws. */
    method ParseText(text: string) returns (verdict: Verdict)
      requires keyValueMap == map[]
      modifies this
      ensures verdict == Parse(text)
      ensures verdict.Accepted? ==> keyValueMap == verdict.pairs
    {
      var currState := ScRoot;
      var currKey, currVal := "", "";
      var token := KeyToken;
      var subObj := 0;
      var pp := 0;
      assert text[0..] == text;
      while pp < |text|
        invariant 0 <= pp <= |text|
        invariant Machine(currState, currKey, currVal, token, subObj, keyValueMap).Valid()
        invariant Parse(text) ==
                  Run(Machine(currState, currKey, currVal, token, subObj, keyValueMap), text[pp..])
      {
        ghost var before := Machine(currState, currKey, currVal, token, subObj, keyValueMap);
        StepKeepsValid(before, text[pp]);
        assert text[pp..][0] == text[pp] && text[pp..][1..] == text[pp + 1..];
        var class_ := Classify(text[pp], currState);
        if class_ == NoEvent {
          return Rejected(InvalidChar);
        }
        var transition := Table(currState, class_.event);
        if transition.next.Go? {
          currState := transition.next.state;
        }
        match transition.action {
          case Ignore =>
          case Reject =>
            return Rejected(InvalidSyntax);
          case Accept =>
            return Accepted(keyValueMap);
          case AcceptI =>
            keyValueMap := keyValueMap[currKey := currVal + ""];
            return Accepted(keyValueMap);
          case PtrKey =>
            token := KeyToken;
          case PtrVal =>
            token := ValToken;
          case Push =>
            if token == KeyToken { currKey := currKey + [text[pp]]; } else { currVal := currVal + [text[pp]]; }
          case InsertI =>
            currVal := currVal + [text[pp]];
            keyValueMap := keyValueMap[currKey := currVal];
            currKey, currVal, token := "", "", KeyToken;
          case InsertN =>
            keyValueMap := keyValueMap[currKey := currVal + ""];
            currKey, currVal, token := "", "", KeyToken;
          case EntSub =>
            if token == KeyToken { currKey := currKey + [text[pp]]; } else { currVal := currVal + [text[pp]]; }
            subObj := subObj + 1;
          case LevSub =>
            if token == KeyToken { currKey := currKey + [text[pp]]; } else { currVal := currVal + [text[pp]]; }
            subObj := subObj - 1;
            if subObj == 0 {
              keyValueMap := keyValueMap[currKey := currVal + ""];
              currKey, currVal, token := "", "", KeyToken;
              currState := ScObjEnd;
            }
        }
        assert Step(before, text[pp]) == Running(Machine(currState, currKey, currVal, token, subObj, keyValueMap));
        hide Step, Machine.Valid;
        pp := pp + 1;
      }
      return Rejected(UnexpectedEnd);
    }

    method TryGet(key: string) returns (found: bool, val: string)
      ensures found <==> key in keyValueMap
      ensures found ==> val == keyValueMap[key]
    {
      found := key in keyValueMap;
      val := if found then keyValueMap[key] else "";
    }
  }
}
