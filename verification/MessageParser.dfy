/** The parser as it runs: a cursor moving over the received bytes, callbacks made as it goes. Every
    method is tied to the function of module Parser that says what it reads. */
module MessageParser {
  import opened Wrappers
  import opened FastParse
  import opened JsonFsm
  import opened JsonFraming
  import opened Wire
  import opened Parser

  /** Moves the cursor over one byte; `!ok` is the TruncatedData exception. The expected byte is not
      compared, since the assertion that would do it is compiled out. */
  method SkipByte(buf: string, bgn: nat) returns (ok: bool, pp: nat)
    ensures ok <==> From(buf, bgn) != ""
    ensures pp == if ok then bgn + 1 else bgn
    ensures ok ==> Skip(From(buf, bgn)) == Got((), From(buf, pp))
    ensures !ok ==> Skip(From(buf, bgn)) == Truncated
    ensures ok ==> pp <= |buf|
  {
    ok := bgn < |buf|;
    pp := if ok then bgn + 1 else bgn;
    assert ok ==> From(buf, bgn)[1..] == From(buf, pp);
  }

  /** The 32-bit overload of fast_parse, by the bytes it leaves. */
  method ReadU32(buf: string, bgn: nat) returns (pp: nat, res: nat)
    requires bgn <= |buf|
    ensures bgn <= pp <= |buf|
    ensures (res, From(buf, pp)) == U32(From(buf, bgn))
  {
    pp, res := FastParseU32(buf, bgn);
  }

  /** A number and the byte behind it. */
  method ReadField(buf: string, bgn: nat) returns (ok: bool, pp: nat, res: nat)
    requires bgn <= |buf|
    ensures match Field(From(buf, bgn))
            case Truncated => !ok
            case Got(value, rest) => ok && res == value && bgn <= pp <= |buf| && From(buf, pp) == rest
  {
    hide U32, From, Skip;
    pp, res := ReadU32(buf, bgn);
    ok, pp := SkipByte(buf, pp);
  }

  lemma SuffixAt(buf: string, bgn: nat, pp: nat)
    requires bgn <= pp <= |buf|
    ensures From(buf, pp) == From(buf, bgn)[pp - bgn..]
  {
  }

  /** The float overload of fast_parse; its conversion is a library function. */
  method ReadFloat(buf: string, bgn: nat) returns (pp: nat, res: Option<real>)
    requires bgn <= |buf|
    ensures bgn <= pp <= |buf|
    ensures (res, From(buf, pp)) == Float(From(buf, bgn))
  {
    var (value, rest) := Float(From(buf, bgn));
    res := value;
    pp := bgn + |From(buf, bgn)| - |rest|;
    FloatLeavesSuffix(From(buf, bgn));
    hide Float;
    SuffixAt(buf, bgn, pp);
  }

  /** One turn of the loop over the entries. */
  lemma EntriesStep(buf: string, pp: nat, channel: nat, past: Past)
    requires pp <= |buf|
    ensures var single := SingleUpdate(From(buf, pp + 1), channel, true);
            Entries(From(buf, pp), channel, past) ==
            if single.Truncated? then (Truncated, [])
            else if (single.rest + past)[0] == ',' then
              (Entries(single.rest, channel, past).0, [single.value] + Entries(single.rest, channel, past).1)
            else (Got((), single.rest), [single.value])
  {
    var s := From(buf, pp);
    assert From(buf, pp + 1) == if s == "" then s else s[1..];
    hide SingleUpdate;
  }

  /** The entries of the whole are those delivered so far and then those of s. */
  ghost predicate Onward(whole: string, s: string, channel: nat, past: Past, made: seq<Callback>) {
    Entries(whole, channel, past) == (Entries(s, channel, past).0, made + Entries(s, channel, past).1)
  }

  lemma OnwardStart(whole: string, channel: nat, past: Past)
    ensures Onward(whole, whole, channel, past, [])
  {
    hide Entries;
    assert [] + Entries(whole, channel, past).1 == Entries(whole, channel, past).1;
  }

  lemma OnwardStep(buf: string, bgn: nat, pp: nat, channel: nat, past: Past, made: seq<Callback>)
    requires pp <= |buf| && Onward(From(buf, bgn), From(buf, pp), channel, past, made)
    ensures var single := SingleUpdate(From(buf, pp + 1), channel, true);
            && (single.Truncated? ==> Entries(From(buf, bgn), channel, past) == (Truncated, made))
            && (single.Got? && (single.rest + past)[0] != ',' ==>
                  Entries(From(buf, bgn), channel, past) == (Got((), single.rest), made + [single.value]))
            && (single.Got? && (single.rest + past)[0] == ',' ==>
                  Onward(From(buf, bgn), single.rest, channel, past, made + [single.value]))
  {
    EntriesStep(buf, pp, channel, past);
    hide SingleUpdate, Entries, From;
    var single := SingleUpdate(From(buf, pp + 1), channel, true);
    if single.Got? {
      AppendOne(made, single.value, Entries(single.rest, channel, past).1);
    } else {
      assert made + [] == made;
    }
  }

  lemma AppendOne<T>(a: seq<T>, x: T, b: seq<T>)
    ensures a + ([x] + b) == a + [x] + b
  {
  }

  lemma PeekFrom(buf: string, pp: nat, past: Past)
    requires pp <= |buf|
    ensures (From(buf, pp) + past)[0] == (buf + past)[pp]
  {
  }

  class MessageParser {
    /** The callbacks made so far. */
    var calls: seq<Callback>

    constructor ()
      ensures calls == []
    {
      calls := [];
    }

    /** Reads one level and delivers it. */
    method ProcessSingleBookUpdate(buf: string, bgn: nat, channel: nat, bulk: bool)
      returns (ok: bool, consumed: nat)
      modifies this
      ensures match SingleUpdate(From(buf, bgn), channel, bulk)
              case Truncated => !ok && calls == old(calls)
              case Got(call, rest) =>
                ok && calls == old(calls) + [call] && bgn + consumed <= |buf| && From(buf, bgn + consumed) == rest
    {
      hide Field, Float, From, Skip;
      consumed := 0;
      var pp, price, count, qty;
      ok, pp := SkipByte(buf, bgn);
      if !ok { return; }
      ok, pp, price := ReadField(buf, pp);
      if !ok { return; }
      ok, pp, count := ReadField(buf, pp);
      if !ok { return; }
      pp, qty := ReadFloat(buf, pp);
      ok, pp := SkipByte(buf, pp);
      if !ok { return; }
      if !bulk {
        ok, pp := SkipByte(buf, pp);
        if !ok { return; }
      }
      calls := calls + [UpdateP(channel, price, count, qty, bulk)];
      consumed := pp - bgn;
    }

    /** The entries of a bulk update, one by one; each is preceded by a byte that is passed unread. */
    method DeliverEntries(buf: string, bgn: nat, channel: nat, past: Past) returns (ok: bool, pp: nat)
      requires bgn <= |buf|
      modifies this
      ensures var (scan, made) := Entries(From(buf, bgn), channel, past);
              && calls == old(calls) + made
              && match scan
                 case Truncated => !ok
                 case Got(_, rest) => ok && pp <= |buf| && From(buf, pp) == rest
    {
      hide SingleUpdate, Entries, From, Onward;
      ok, pp := true, bgn;
      ghost var made: seq<Callback> := [];
      OnwardStart(From(buf, bgn), channel, past);
      var comma := true;
      while comma
        invariant bgn <= pp <= |buf|
        invariant calls == old(calls) + made
        invariant comma ==> Onward(From(buf, bgn), From(buf, pp), channel, past, made)
        invariant !comma ==> ok && Entries(From(buf, bgn), channel, past) == (Got((), From(buf, pp)), made)
        decreases comma, |buf| - pp
      {
        OnwardStep(buf, bgn, pp, channel, past, made);
        pp := pp + 1;
        ghost var single := SingleUpdate(From(buf, pp), channel, true);
        var consumed;
        ok, consumed := ProcessSingleBookUpdate(buf, pp, channel, true);
        if !ok {
          return;
        }
        made := made + [single.value];
        pp := pp + consumed;
        comma := (buf + past)[pp] == ',';
        PeekFrom(buf, pp, past);
      }
    }

    /** Refuses a bulk update whose end has not arrived; delivers the entries of any other. */
    method ProcessBulkBookUpdate(buf: string, bgn: nat, channel: nat, past: Past)
      returns (ok: bool, consumed: nat)
      requires bgn <= |buf|
      modifies this
      ensures var (scan, made) := BulkUpdate(From(buf, bgn), channel, past);
              && calls == old(calls) + made
              && match scan
                 case Truncated => !ok
                 case Got(_, rest) => ok && bgn + consumed <= |buf| && From(buf, bgn + consumed) == rest
    {
      hide Entries, HasTriple;
      consumed := 0;
      ok := FindsTriple(buf, bgn);
      if !ok { return; }
      var pp;
      ok, pp := DeliverEntries(buf, bgn, channel, past);
      if !ok { return; }
      ok, pp := SkipByte(buf, pp);
      if !ok { return; }
      ok, pp := SkipByte(buf, pp);
      if !ok { return; }
      assert |From(buf, pp)| < |From(buf, bgn)|;
      consumed := pp - bgn;
    }

    /** Cuts one JSON object out of the bytes and parses it. */
    method ProcessJsonEvent(buf: string) returns (consumed: nat, thrown: Option<ParseError>)
      requires buf != ""
      modifies this
      ensures match JsonEvent(buf)
              case Returned(size, made) => thrown == None && consumed == size && calls == old(calls) + made
              case Terminated(error) => thrown == Some(error)
    {
      hide Parse, Frame;
      consumed, thrown := 0, None;
      var end := FindsFrame(buf);
      if end == None {
        assert calls + [] == calls;
        return;
      }
      var obj := new JsonObj();
      var verdict := obj.ParseText(buf[..end.value]);
      if verdict.Rejected? {
        thrown := Some(verdict.error);
        return;
      }
      calls := calls + [OnEvent(obj.keyValueMap)];
      consumed := end.value;
    }

    /** Consumes one whole message from the front of the bytes and makes its callbacks, or consumes
        nothing. `thrown` is an exception that ends the program. */
    method ParseDataAndDispatchMessage(buf: string, past: Past) returns (size: nat, thrown: Option<ParseError>)
      modifies this
      ensures match Dispatch(buf, past)
              case Returned(n, made) => thrown == None && size == n && calls == old(calls) + made
              case Terminated(error) => thrown == Some(error)
    {
      hide Field, BulkUpdate, SingleUpdate, JsonEvent;
      size, thrown := 0, None;
      if buf == "" {
        return;
      }
      if buf[0] == '[' {
        var ok, pp, channel, consumed;
        ok, pp := SkipByte(buf, 0);
        assert From(buf, 0) == buf && From(buf, 1) == buf[1..];
        ok, pp, channel := ReadField(buf, pp);
        if !ok { return; }
        assert (From(buf, pp) + past)[1] == (buf + past)[pp + 1];
        if (buf + past)[pp + 1] == '[' {
          ok, consumed := ProcessBulkBookUpdate(buf, pp, channel, past);
        } else {
          ok, consumed := ProcessSingleBookUpdate(buf, pp, channel, false);
        }
        if !ok { return; }
        size := pp + consumed;
      } else {
        size, thrown := ProcessJsonEvent(buf);
      }
    }
  }

  /** The scan for three closing brackets in a row that guards a bulk update. */
  method FindsTriple(buf: string, bgn: nat) returns (found: bool)
    requires bgn <= |buf|
    ensures found <==> HasTriple(From(buf, bgn))
  {
    ghost var s := From(buf, bgn);
    var count := 0;
    var end := bgn + 1;
    while end < |buf| && count != 3
      invariant bgn + 1 <= end && (end <= |buf| || (count == 0 && end == bgn + 1))
      invariant 0 <= count <= 3 && count < end - bgn
      invariant forall i :: end - bgn - count <= i < end - bgn ==> s[i] == ']'
      invariant count < 3 && end - bgn - count > 1 ==> s[end - bgn - count - 1] != ']'
      invariant count < 3 ==> forall i :: 1 <= i && i + 3 <= end - bgn ==> !TripleAt(s, i)
      decreases |buf| - end
    {
      assert s[end - bgn] == buf[end];
      count := if buf[end] == ']' then count + 1 else 0;
      end := end + 1;
    }
    found := count == 3;
    if found {
      assert TripleAt(s, end - bgn - 3);
    }
  }

  /** The brace counter that looks for the end of an event, whose first byte counts as opening it. */
  method FindsFrame(buf: string) returns (end: Option<nat>)
    requires buf != ""
    ensures end == Frame(buf)
  {
    var depth: nat := 1;
    var pp := 1;
    assert buf[1..][0..] == buf[1..];
    while pp < |buf| && depth != 0
      invariant 1 <= pp <= |buf|
      invariant FrameFrom(buf[1..], 1) == Plus(pp - 1, FrameFrom(buf[pp..], depth))
      decreases |buf| - pp
    {
      assert buf[pp..][1..] == buf[pp + 1..];
      if buf[pp] == '}' {
        depth := depth - 1;
      } else if buf[pp] == '{' {
        depth := depth + 1;
      }
      pp := pp + 1;
    }
    end := if depth != 0 then None else Some(pp);
  }
}
