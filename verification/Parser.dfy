/** bitfinex/parser.h and bitfinex/parser.cpp: cutting one message off the front of the received bytes. */
module Parser {
  import opened FastParse
  import opened JsonFsm
  import opened JsonFraming
  import opened Wire

  /** What a scanner hands on: a value and the bytes behind it, or the TruncatedData exception. */
  datatype Scan<+T> = Got(value: T, rest: string) | Truncated {
    predicate IsFailure() { Truncated? }

    function PropagateFailure<U>(): Scan<U>
      requires Truncated?
    {
      Truncated
    }

    function Extract(): (T, string)
      requires Got?
    {
      (value, rest)
    }
  }

  /** Passes one byte, whatever it is. */
  function Skip(s: string): Scan<()> {
    if s == "" then Truncated else Got((), s[1..])
  }

  /** The two bytes in memory behind the received ones. Nothing is known about them. */
  type Past = p: string | |p| == 2 witness "  "

  /** Byte k of s; past its end, whatever lies there. */
  function Peek(s: string, past: Past, k: nat): char
    requires k < |s| + 2
  {
    (s + past)[k]
  }

  /** A number of 32 bits, and the byte that separates it from what follows. */
  function Field(s: string): (r: Scan<nat>)
    ensures r.Got? ==> |r.rest| < |s|
  {
    var (value, s1) := U32(s);
    var (_, s2) :- Skip(s1);
    Got(value, s2)
  }

  function SingleUpdate(s: string, channel: nat, bulk: bool): (r: Scan<Callback>)
    ensures r.Got? ==> |r.rest| < |s|
  {
    var (_, s1) :- Skip(s);
    var (price, s2) :- Field(s1);
    var (count, s3) :- Field(s2);
    var (qty, s4) := Float(s3);
    var (_, s5) :- Skip(s4);
    var (_, s6) :- if bulk then Got((), s5) else Skip(s5);
    Got(UpdateP(channel, price, count, qty, bulk), s6)
  }

  /** Three closing brackets in a row, not counting the first byte. */
  predicate TripleAt(s: string, i: nat) {
    1 <= i && i + 3 <= |s| && s[i] == s[i + 1] == s[i + 2] == ']'
  }

  predicate HasTriple(s: string) {
    exists i :: 1 <= i < |s| && TripleAt(s, i)
  }

  /** The entries of a bulk update, each behind one byte that is passed unread; the callbacks made are
      returned also when the bytes run out. */
  function Entries(s: string, channel: nat, past: Past): (r: (Scan<()>, seq<Callback>))
    ensures r.0.Got? ==> |r.0.rest| < |s|
    decreases |s|
  {
    match SingleUpdate(if s == "" then s else s[1..], channel, true)
    case Truncated => (Truncated, [])
    case Got(call, rest) =>
      if Peek(rest, past, 0) == ',' then
        var (more, calls) := Entries(rest, channel, past);
        (more, [call] + calls)
      else
        (Got((), rest), [call])
  }

  function BulkUpdate(s: string, channel: nat, past: Past): (r: (Scan<()>, seq<Callback>))
    ensures r.0.Got? ==> |r.0.rest| < |s|
  {
    if !HasTriple(s) then (Truncated, [])
    else
      var (scan, calls) := Entries(s, channel, past);
      (match scan
       case Truncated => Truncated
       case Got(_, s1) => (match Skip(s1) case Truncated => Truncated case Got(_, s2) => Skip(s2)),
       calls)
  }

  /** What the caller of parse_data_and_dispatch_message sees: the number of bytes consumed and the
      callbacks made, or the death of the program, because a ParseError leaves a noexcept function. */
  datatype Outcome = Returned(size: nat, calls: seq<Callback>) | Terminated(error: ParseError)

  /** The update behind the channel id and its comma: bulk if its second byte opens a bracket too. */
  function Update(s: string, channel: nat, past: Past): (r: (Scan<()>, seq<Callback>))
    ensures r.0.Got? ==> |r.0.rest| < |s|
  {
    if Peek(s, past, 1) == '[' then BulkUpdate(s, channel, past)
    else
      match SingleUpdate(s, channel, false)
      case Truncated => (Truncated, [])
      case Got(call, rest) => (Got((), rest), [call])
  }

  /** The return value when `total` bytes were offered. */
  function Ended(total: nat, r: (Scan<()>, seq<Callback>)): (o: Outcome)
    requires r.0.Got? ==> |r.0.rest| <= total
    ensures o.Returned? && o.size <= total
  {
    match r.0
    case Truncated => Returned(0, r.1)
    case Got(_, rest) => Returned(total - |rest|, r.1)
  }

  function JsonEvent(s: string): (o: Outcome)
    requires s != ""
    ensures o.Returned? ==> o.size <= |s|
  {
    match Frame(s)
    case None => Returned(0, [])
    case Some(n) =>
      match Parse(s[..n])
      case Rejected(error) => Terminated(error)
      case Accepted(pairs) => Returned(n, [OnEvent(pairs)])
  }

  function Dispatch(s: string, past: Past): (o: Outcome)
    ensures o.Returned? ==> o.size <= |s|
  {
    if s == "" then Returned(0, [])
    else if s[0] == '[' then
      match Field(s[1..])
      case Truncated => Returned(0, [])
      case Got(channel, s1) => Ended(|s|, Update(s1, channel, past))
    else JsonEvent(s)
  }
}
