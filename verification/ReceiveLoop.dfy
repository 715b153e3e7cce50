/** The receive thread's loop (bitfinex/market_data_feed.cpp, run_loop_recv_thread): each turn reads
    some bytes, offers everything buffered to the parser, and drops what the parser consumed. */
module ReceiveLoop {
  import opened Wrappers
  import opened Wire
  import opened Parser
  import opened ParserTheorems
  import opened MessageParser

  /** One blocking read, and the bytes that happen to lie behind the buffer while it is parsed. */
  datatype Read = Read(bytes: string, past: Past)

  /** `committed` and `buffered` together are the bytes read so far. */
  datatype Loop = Loop(committed: string, buffered: string, calls: seq<Callback>, alive: bool)

  const IDLE := Loop("", "", [], true)

  function Turn(l: Loop, r: Read): Loop {
    if !l.alive then l
    else
      var buf := l.buffered + r.bytes;
      match Dispatch(buf, r.past)
      case Returned(size, made) => Loop(l.committed + buf[..size], buf[size..], l.calls + made, true)
      case Terminated(_) => l.(buffered := buf, alive := false)
  }

  function Turns(l: Loop, chunks: seq<Read>): Loop
    decreases |chunks|
  {
    if chunks == [] then l else Turn(Turns(l, chunks[..|chunks| - 1]), chunks[|chunks| - 1])
  }

  function Received(chunks: seq<Read>): string {
    if chunks == [] then "" else Received(chunks[..|chunks| - 1]) + chunks[|chunks| - 1].bytes
  }

  /** The received bytes that the exchange's reads are kept in until they are consumed. */
  class ReceiveBuffer {
    var data: string

    constructor ()
      ensures data == ""
    {
      data := "";
    }

    method ConsumeBegin(bytes: string) returns (all: string)
      modifies this
      ensures data == old(data) + bytes && all == data
    {
      data := data + bytes;
      all := data;
    }

    method ConsumeCommit(size: nat)
      requires size <= |data|
      modifies this
      ensures data == old(data)[size..]
    {
      data := data[size..];
    }
  }

  /** The loop itself, over the reads that happen before it is told to quit. */
  method RunLoopRecvThread(buffer: ReceiveBuffer, parser: MessageParser, chunks: seq<Read>)
    returns (ghost committed: string, alive: bool)
    requires buffer.data == "" && parser.calls == []
    modifies buffer, parser
    ensures alive ==> Loop(committed, buffer.data, parser.calls, true) == Turns(IDLE, chunks)
    ensures alive == Turns(IDLE, chunks).alive
  {
    hide Dispatch;
    committed, alive := "", true;
    var i := 0;
    assert chunks[..0] == [];
    while i < |chunks| && alive
      invariant 0 <= i <= |chunks|
      invariant alive ==> Loop(committed, buffer.data, parser.calls, true) == Turns(IDLE, chunks[..i])
      invariant !alive ==> !Turns(IDLE, chunks[..i]).alive
      decreases |chunks| - i
    {
      assert chunks[..i + 1][..i] == chunks[..i];
      var buf := buffer.ConsumeBegin(chunks[i].bytes);
      var size, thrown := parser.ParseDataAndDispatchMessage(buf, chunks[i].past);
      if thrown == None {
        committed := committed + buf[..size];
        buffer.ConsumeCommit(size);
      } else {
        alive := false;
      }
      i := i + 1;
    }
    if !alive {
      DeathIsFinal(chunks, i);
    }
    assert chunks[..|chunks|] == chunks;
  }

  lemma {:induction false} DeathIsFinal(chunks: seq<Read>, i: nat)
    requires i <= |chunks| && !Turns(IDLE, chunks[..i]).alive
    ensures !Turns(IDLE, chunks).alive
    decreases |chunks|
  {
    if i < |chunks| {
      var before := chunks[..|chunks| - 1];
      assert before[..i] == chunks[..i];
      DeathIsFinal(before, i);
    } else {
      assert chunks[..i] == chunks;
    }
  }

  lemma TurnConserves(l: Loop, r: Read)
    requires Turn(l, r).alive
    ensures var l' := Turn(l, r); l'.committed + l'.buffered == l.committed + l.buffered + r.bytes
  {
    hide Dispatch;
    var buf := l.buffered + r.bytes;
    var size := Dispatch(buf, r.past).size;
    assert buf[..size] + buf[size..] == buf;
    assert l.committed + buf[..size] + buf[size..] == l.committed + buf;
  }

  /** Nothing that was read is lost: committed and buffered bytes are the received ones. */
  lemma {:induction false} BytesAreConserved(chunks: seq<Read>)
    requires Turns(IDLE, chunks).alive
    ensures var l := Turns(IDLE, chunks); l.committed + l.buffered == Received(chunks)
    decreases |chunks|
  {
    if chunks != [] {
      var before, last := chunks[..|chunks| - 1], chunks[|chunks| - 1];
      TurnConserves(Turns(IDLE, before), last);
      TurnFromAlive(Turns(IDLE, before), last);
      hide Turn;
      BytesAreConserved(before);
    }
  }

  lemma TurnFromAlive(l: Loop, r: Read)
    requires Turn(l, r).alive
    ensures l.alive
  {
  }

  // ----- streams of messages, cut into reads anyhow -----

  ghost predicate AllValid(ms: seq<Message>) {
    forall i :: 0 <= i < |ms| ==> ms[i].Valid()
  }

  function CallsOf(ms: seq<Message>): seq<Callback>
    requires forall i :: 0 <= i < |ms| ==> ms[i].Valid()
  {
    if ms == [] then [] else
      assert ms[|ms| - 1].Valid();
      CallsOf(ms[..|ms| - 1]) + ms[|ms| - 1].Calls()
  }

  /** The loop has consumed exactly the first k messages and delivered exactly their callbacks. */
  ghost predicate Delivered(ms: seq<Message>, k: nat, l: Loop)
    requires AllValid(ms)
  {
    && k <= |ms| && l.alive
    && l.committed == StreamText(ms[..k])
    && l.calls == CallsOf(ms[..k])
  }

  lemma Regroup(a: string, b: string, c: string)
    ensures a + (b + c) == a + b + c
  {
  }

  lemma {:induction false} StreamSplit(a: seq<Message>, b: seq<Message>)
    ensures StreamText(a + b) == StreamText(a) + StreamText(b)
  {
    hide Message.Text;
    if a == [] {
      assert a + b == b;
    } else {
      var x, y := StreamText(a[1..]), StreamText(b);
      StreamSplit(a[1..], b);
      MessageTail(a[0], x + y);
      MessageTail(a[0], x);
      Regroup(a[0].Text(""), x, y);
      assert (a + b)[1..] == a[1..] + b;
    }
  }

  lemma StreamCons(m: Message, ms: seq<Message>)
    ensures StreamText([m] + ms) == m.Text("") + StreamText(ms)
  {
    hide Message.Text;
    assert ([m] + ms)[1..] == ms;
    MessageTail(m, StreamText(ms));
  }

  lemma StreamUpTo(ms: seq<Message>, k: nat)
    requires AllValid(ms) && k < |ms|
    ensures StreamText(ms[..k + 1]) == StreamText(ms[..k]) + ms[k].Text("")
    ensures CallsOf(ms[..k + 1]) == CallsOf(ms[..k]) + ms[k].Calls()
  {
    assert ms[k].Valid();
    assert ms[..k + 1] == ms[..k] + [ms[k]] && ms[..k + 1][..k] == ms[..k];
    EmptyStream();
    hide Message.Text, Message.Calls, Message.Valid, StreamText;
    StreamSplit(ms[..k], [ms[k]]);
    StreamCons(ms[k], []);
    assert [ms[k]] + [] == [ms[k]];
    assert ms[k].Text("") + "" == ms[k].Text("");
  }

  lemma StreamFrom(ms: seq<Message>, k: nat)
    requires AllValid(ms) && k < |ms|
    ensures StreamText(ms) == StreamText(ms[..k]) + (ms[k].Text("") + StreamText(ms[k + 1..]))
  {
    hide Message.Text, Message.Valid, StreamText;
    assert ms[k].Valid() && AllValid(ms[..k]);
    hide AllValid;
    var rest := [ms[k]] + ms[k + 1..];
    assert ms == ms[..k] + rest;
    StreamSplit(ms[..k], rest);
    StreamCons(ms[k], ms[k + 1..]);
  }

  /** Cuts the stream before and behind message k. */
  lemma StreamAt(ms: seq<Message>, k: nat)
    requires AllValid(ms) && k < |ms|
    ensures StreamText(ms[..k + 1]) == StreamText(ms[..k]) + ms[k].Text("")
    ensures StreamText(ms) == StreamText(ms[..k]) + (ms[k].Text("") + StreamText(ms[k + 1..]))
    ensures CallsOf(ms[..k + 1]) == CallsOf(ms[..k]) + ms[k].Calls()
  {
    hide AllValid, Message.Text, Message.Calls, Message.Valid, StreamText, CallsOf;
    StreamUpTo(ms, k);
    StreamFrom(ms, k);
  }

  /** A buffer that holds the start of a message and its successors is offered to the parser. */
  lemma BufferDelivers(m: Message, rest: string, buf: string, past: Past)
    requires m.Valid() && buf <= m.Text("") + rest
    ensures Dispatch(buf, past) ==
            if |m.Text("")| <= |buf| then Returned(|m.Text("")|, m.Calls()) else Returned(0, [])
    ensures |m.Text("")| <= |buf| ==> buf[..|m.Text("")|] == m.Text("")
  {
    hide Message.Text, Message.Calls, Dispatch;
    var text := m.Text("");
    if |text| <= |buf| {
      var t := buf[|text|..];
      assert buf == text + t;
      MessageTail(m, t);
      MessageIsDelivered(m, t, past);
    } else {
      assert buf == text[..|buf|];
      PrefixIsSilent(m, |buf|, past);
    }
  }

  /** What a turn does to a buffer that holds the start of the stream behind message k: it delivers
      the next message if that has arrived in full, and nothing otherwise. */
  lemma TurnDelivers(ms: seq<Message>, k: nat, l: Loop, r: Read)
    requires AllValid(ms) && Delivered(ms, k, l)
    requires l.committed + l.buffered + r.bytes <= StreamText(ms)
    ensures var received := |l.committed + l.buffered + r.bytes|;
            var more := k < |ms| && |StreamText(ms[..k + 1])| <= received;
            Delivered(ms, if more then k + 1 else k, Turn(l, r))
    ensures var l' := Turn(l, r); l'.committed + l'.buffered == l.committed + l.buffered + r.bytes
  {
    hide Message.Text, Message.Calls, Message.Valid, Dispatch, StreamText, CallsOf;
    var buf := l.buffered + r.bytes;
    assert l.committed + buf == l.committed + l.buffered + r.bytes;
    if k == |ms| {
      assert ms[..k] == ms;
      assert buf == "";
      NothingConsumed(r.past);
    } else {
      assert ms[k].Valid();
      StreamAt(ms, k);
      hide AllValid;
      BehindPrefix(l.committed, buf, ms[k].Text("") + StreamText(ms[k + 1..]));
      BufferDelivers(ms[k], StreamText(ms[k + 1..]), buf, r.past);
      assert l.committed + "" == l.committed && l.calls + [] == l.calls;
    }
    TurnConserves(l, r);
  }

  lemma BehindPrefix(a: string, b: string, c: string)
    requires a + b <= a + c
    ensures b <= c
  {
    assert (a + c)[|a|..] == c && (a + b)[|a|..] == b;
    assert (a + c)[..|a + b|][|a|..] == c[..|b|];
  }

  lemma NothingConsumed(past: Past)
    ensures Dispatch("", past) == Returned(0, [])
  {
  }

  /** How many messages the reads have led to: at most one a read, and only complete ones. */
  ghost function CountDelivered(ms: seq<Message>, chunks: seq<Read>): (k: nat)
    ensures k <= |ms| && k <= |chunks|
    decreases |chunks|
  {
    if chunks == [] then 0
    else
      var k := CountDelivered(ms, chunks[..|chunks| - 1]);
      if k < |ms| && |StreamText(ms[..k + 1])| <= |Received(chunks)| then k + 1 else k
  }

  /** However the stream is cut into reads, the program survives, committed and buffered bytes are the
      received ones, and the callbacks are exactly those of the messages in the committed bytes. */
  lemma {:induction false} AnyChunkingDelivers(ms: seq<Message>, chunks: seq<Read>)
    requires AllValid(ms) && Received(chunks) <= StreamText(ms)
    ensures var l := Turns(IDLE, chunks);
            && Delivered(ms, CountDelivered(ms, chunks), l)
            && l.committed + l.buffered == Received(chunks)
    decreases |chunks|
  {
    hide StreamText, CallsOf, Turn;
    if chunks == [] {
      assert ms[..0] == [];
      EmptyStream();
    } else {
      var before, last := chunks[..|chunks| - 1], chunks[|chunks| - 1];
      AnyChunkingDelivers(ms, before);
      TurnDelivers(ms, CountDelivered(ms, before), Turns(IDLE, before), last);
    }
  }

  lemma EmptyStream()
    ensures StreamText([]) == "" && CallsOf([]) == []
  {
  }

  lemma {:induction false} ReceivedSplit(a: seq<Read>, b: seq<Read>)
    ensures Received(a + b) == Received(a) + Received(b)
    decreases |b|
  {
    if b == [] {
      assert a + b == a;
    } else {
      assert (a + b)[..|a + b| - 1] == a + b[..|b| - 1];
      ReceivedSplit(a, b[..|b| - 1]);
    }
  }

  /** Once the whole stream has arrived, every further turn delivers one more message. */
  lemma {:induction false} Drains(ms: seq<Message>, chunks: seq<Read>, idle: seq<Read>)
    requires AllValid(ms) && Received(chunks) == StreamText(ms)
    requires forall i :: 0 <= i < |idle| ==> idle[i].bytes == ""
    ensures Received(chunks + idle) == StreamText(ms)
    ensures CountDelivered(ms, chunks + idle) >= |ms| || CountDelivered(ms, chunks + idle) >= |idle|
    decreases |idle|
  {
    hide StreamText;
    if idle == [] {
      assert chunks + idle == chunks;
    } else {
      var before := idle[..|idle| - 1];
      var all := chunks + idle;
      assert all[..|all| - 1] == chunks + before && all[|all| - 1].bytes == "";
      Drains(ms, chunks, before);
      assert Received(all) == StreamText(ms) + "";
      OneMore(ms, all);
    }
  }

  lemma OneMore(ms: seq<Message>, chunks: seq<Read>)
    requires AllValid(ms) && chunks != [] && Received(chunks) == StreamText(ms)
    ensures var k := CountDelivered(ms, chunks[..|chunks| - 1]);
            CountDelivered(ms, chunks) == if k < |ms| then k + 1 else k
  {
    hide AllValid, StreamText, Message.Valid;
    var k := CountDelivered(ms, chunks[..|chunks| - 1]);
    if k < |ms| {
      PrefixIsShorter(ms, k);
    }
  }

  lemma PrefixIsShorter(ms: seq<Message>, k: nat)
    requires AllValid(ms) && k < |ms|
    ensures |StreamText(ms[..k + 1])| <= |StreamText(ms)|
  {
    hide StreamText, Message.Text;
    StreamAt(ms, k);
  }

  // ----- when a complete message waits -----

  /** How many of the first k messages lie complete in n bytes. */
  ghost function CompleteIn(ms: seq<Message>, n: nat, k: nat): (r: nat)
    requires k <= |ms|
    ensures r <= k && |StreamText(ms[..r])| <= n
    ensures forall j :: r < j <= k ==> |StreamText(ms[..j])| > n
  {
    if k == 0 then 0 else if |StreamText(ms[..k])| <= n then k else CompleteIn(ms, n, k - 1)
  }

  /** How many messages have arrived complete. */
  ghost function Arrived(ms: seq<Message>, chunks: seq<Read>): (r: nat)
    ensures r <= |ms|
  {
    CompleteIn(ms, |Received(chunks)|, |ms|)
  }

  lemma {:induction false} PrefixesGrow(ms: seq<Message>, i: nat, j: nat)
    requires AllValid(ms) && i <= j <= |ms|
    ensures |StreamText(ms[..i])| <= |StreamText(ms[..j])|
    ensures i < j ==> |CallsOf(ms[..i])| < |CallsOf(ms[..j])|
    decreases j
  {
    hide StreamText, CallsOf, Message.Text, Message.Calls, Message.Valid;
    if i < j {
      PrefixesGrow(ms, i, j - 1);
      StreamAt(ms, j - 1);
      SomeCalls(ms[j - 1]);
    }
  }

  lemma SomeCalls(m: Message)
    requires m.Valid()
    ensures m.Calls() != []
  {
  }

  lemma ArrivedGrows(ms: seq<Message>, chunks: seq<Read>)
    requires chunks != []
    ensures Arrived(ms, chunks[..|chunks| - 1]) <= Arrived(ms, chunks)
  {
    hide StreamText;
    var before := Arrived(ms, chunks[..|chunks| - 1]);
    assert |StreamText(ms[..before])| <= |Received(chunks)|;
  }

  lemma NothingArrivedYet(ms: seq<Message>)
    requires AllValid(ms)
    ensures Arrived(ms, []) == 0
  {
    if ms != [] {
      hide StreamText, Message.Text, Message.Valid;
      var k := Arrived(ms, []);
      if k > 0 {
        PrefixesGrow(ms, 1, k);
        StreamAt(ms, 0);
        TextIsNotEmpty(ms[0]);
      }
    }
  }

  lemma TextIsNotEmpty(m: Message)
    requires m.Valid()
    ensures m.Text("") != ""
  {
  }

  /** A turn delivers one more message, if one more has arrived. */
  lemma {:induction false} DeliveredNext(ms: seq<Message>, chunks: seq<Read>)
    requires AllValid(ms)
    ensures CountDelivered(ms, chunks) <= Arrived(ms, chunks)
    ensures chunks != [] ==>
              var next := CountDelivered(ms, chunks[..|chunks| - 1]) + 1;
              CountDelivered(ms, chunks) == if next <= Arrived(ms, chunks) then next else Arrived(ms, chunks)
    decreases |chunks|
  {
    hide StreamText, Message.Valid;
    if chunks != [] {
      DeliveredNext(ms, chunks[..|chunks| - 1]);
      ArrivedGrows(ms, chunks);
      var next := CountDelivered(ms, chunks[..|chunks| - 1]) + 1;
      if next <= Arrived(ms, chunks) {
        PrefixesGrow(ms, next, Arrived(ms, chunks));
      }
      hide AllValid, Arrived;
    }
  }

  /** The loop has kept up: for no n have the last n reads completed more than n messages. */
  ghost predicate KeptUp(ms: seq<Message>, chunks: seq<Read>) {
    forall j :: 0 <= j <= |chunks| ==> Arrived(ms, chunks) <= Arrived(ms, chunks[..j]) + (|chunks| - j)
  }

  /** How far the loop is: from some read on each read has led to one message, and before it nothing that
      had arrived was waiting. */
  lemma {:induction false} Backlog(ms: seq<Message>, chunks: seq<Read>) returns (j: nat)
    requires AllValid(ms)
    ensures j <= |chunks| && CountDelivered(ms, chunks) == Arrived(ms, chunks[..j]) + (|chunks| - j)
    ensures forall i :: 0 <= i <= |chunks| ==> CountDelivered(ms, chunks) <= Arrived(ms, chunks[..i]) + (|chunks| - i)
    decreases |chunks|
  {
    hide AllValid, CountDelivered, Arrived;
    DeliveredNext(ms, chunks);
    assert chunks[..|chunks|] == chunks;
    if chunks == [] {
      NothingArrivedYet(ms);
      j := 0;
    } else {
      var before := chunks[..|chunks| - 1];
      j := Backlog(ms, before);
      assert forall i :: 0 <= i <= |before| ==> before[..i] == chunks[..i];
      if CountDelivered(ms, chunks) == Arrived(ms, chunks) {
        j := |chunks|;
      }
    }
  }

  lemma CountIsArrivedIff(ms: seq<Message>, chunks: seq<Read>)
    requires AllValid(ms)
    ensures CountDelivered(ms, chunks) <= Arrived(ms, chunks)
    ensures CountDelivered(ms, chunks) == Arrived(ms, chunks) <==> KeptUp(ms, chunks)
  {
    DeliveredNext(ms, chunks);
    var j := Backlog(ms, chunks);
    hide CountDelivered, Arrived, AllValid;
  }

  /** After any reads, exactly the messages that have arrived complete have been delivered if and only if
      for no n the last n reads have completed more than n messages. Otherwise a complete message waits in
      the buffer until further reads return. */
  lemma NothingWaitsIff(ms: seq<Message>, chunks: seq<Read>)
    requires AllValid(ms) && Received(chunks) <= StreamText(ms)
    ensures Turns(IDLE, chunks).calls == CallsOf(ms[..Arrived(ms, chunks)]) <==> KeptUp(ms, chunks)
    ensures Received(chunks) == StreamText(ms) ==>
              (Turns(IDLE, chunks) == Loop(StreamText(ms), "", CallsOf(ms), true) <==> KeptUp(ms, chunks))
  {
    AnyChunkingDelivers(ms, chunks);
    CountIsArrivedIff(ms, chunks);
    var k, a := CountDelivered(ms, chunks), Arrived(ms, chunks);
    PrefixesGrow(ms, k, a);
    assert ms[..|ms|] == ms;
    if Received(chunks) == StreamText(ms) {
      AllArrived(ms, chunks);
    }
    hide StreamText, CallsOf, Turns, CountDelivered, Arrived, KeptUp, AllValid;
  }

  lemma AllArrived(ms: seq<Message>, chunks: seq<Read>)
    requires Received(chunks) == StreamText(ms)
    ensures Arrived(ms, chunks) == |ms|
  {
    hide StreamText;
    assert ms[..|ms|] == ms;
  }

  /** No message ever waits if and only if no read completes two. */
  lemma {:induction false} NeverWaitsIff(ms: seq<Message>, chunks: seq<Read>)
    requires AllValid(ms)
    ensures (forall n :: 0 <= n <= |chunks| ==> CountDelivered(ms, chunks[..n]) == Arrived(ms, chunks[..n])) <==>
            (forall n :: 0 < n <= |chunks| ==> Arrived(ms, chunks[..n]) <= Arrived(ms, chunks[..n - 1]) + 1)
    decreases |chunks|
  {
    hide AllValid, CountDelivered, Arrived;
    assert chunks[..|chunks|] == chunks;
    DeliveredNext(ms, chunks);
    if chunks == [] {
      NothingArrivedYet(ms);
    } else {
      var before := chunks[..|chunks| - 1];
      NeverWaitsIff(ms, before);
      assert forall n :: 0 <= n <= |before| ==> before[..n] == chunks[..n];
      ArrivedGrows(ms, chunks);
      DeliveredNext(ms, before);
    }
  }

  /** A read that brings two messages: the second one stays in the buffer. */
  lemma SecondMessageWaits(first: Message, second: Message, past: Past)
    requires first.Valid() && second.Valid()
    ensures Turns(IDLE, [Read(first.Text("") + second.Text(""), past)]) ==
            Loop(first.Text(""), second.Text(""), first.Calls(), true)
  {
    assert first.WellFormed();
    hide Dispatch, Message.Text, Message.Calls, Message.Valid;
    var a, b := first.Text(""), second.Text("");
    BufferDelivers(first, b, a + b, past);
    FirstTurn(a, b, first.Calls(), past);
  }

  lemma FirstTurn(a: string, b: string, made: seq<Callback>, past: Past)
    requires Dispatch(a + b, past) == Returned(|a|, made)
    ensures Turns(IDLE, [Read(a + b, past)]) == Loop(a, b, made, true)
  {
    hide Dispatch;
    var r := Read(a + b, past);
    assert [r][..0] == [];
    assert IDLE.buffered + r.bytes == a + b;
    assert (a + b)[..|a|] == a && (a + b)[|a|..] == b;
  }

  /** Two ways of cutting the same stream lead to the same callbacks, the same commits and an empty
      buffer, once each has been followed by a turn for every message. A read that blocks until bytes come
      allows no such turns; without them the two ends are the same if both have kept up, as
      `NothingWaitsIff` says. */
  lemma ChunkingIsIrrelevant(ms: seq<Message>, chunks: seq<Read>, others: seq<Read>, idle: seq<Read>)
    requires AllValid(ms) && Received(chunks) == StreamText(ms) == Received(others)
    requires |idle| >= |ms| && forall i :: 0 <= i < |idle| ==> idle[i].bytes == ""
    ensures Turns(IDLE, chunks + idle) == Turns(IDLE, others + idle)
    ensures Turns(IDLE, chunks + idle) == Loop(StreamText(ms), "", CallsOf(ms), true)
  {
    hide StreamText, CallsOf, Turns;
    Drains(ms, chunks, idle);
    Drains(ms, others, idle);
    AnyChunkingDelivers(ms, chunks + idle);
    AnyChunkingDelivers(ms, others + idle);
    assert ms[..|ms|] == ms;
  }

  /** When every read brings one message, as a web socket does, no message waits for the next read. */
  lemma {:induction false} OneMessagePerRead(ms: seq<Message>, chunks: seq<Read>)
    requires AllValid(ms) && |chunks| == |ms|
    requires forall i :: 0 <= i < |ms| ==> chunks[i].bytes == ms[i].Text("")
    ensures Received(chunks) == StreamText(ms) && CountDelivered(ms, chunks) == |ms|
    ensures Turns(IDLE, chunks) == Loop(StreamText(ms), "", CallsOf(ms), true)
    decreases |ms|
  {
    InStep(ms, chunks, |chunks|);
    assert chunks[..|chunks|] == chunks && ms[..|ms|] == ms;
    hide StreamText, CallsOf, Turns;
    AnyChunkingDelivers(ms, chunks);
  }

  lemma {:induction false} InStep(ms: seq<Message>, chunks: seq<Read>, n: nat)
    requires AllValid(ms) && |chunks| == |ms| && n <= |ms|
    requires forall i :: 0 <= i < |ms| ==> chunks[i].bytes == ms[i].Text("")
    ensures Received(chunks[..n]) == StreamText(ms[..n]) && CountDelivered(ms, chunks[..n]) == n
  {
    hide AllValid, StreamText, CallsOf, Message.Text, Message.Calls, Message.Valid;
    if n == 0 {
      EmptyStream();
      assert ms[..0] == [];
    } else {
      InStep(ms, chunks, n - 1);
      assert chunks[..n][..n - 1] == chunks[..n - 1];
      StreamAt(ms, n - 1);
    }
  }

  // ----- arbitrary bytes -----

  const BLANK_PAST: Past := "  "

  /** Where message j of the uncut bytes s ends. */
  function Boundary(s: string, j: nat): (p: nat)
    ensures p <= |s|
  {
    if j == 0 then 0
    else
      var p := Boundary(s, j - 1);
      match Dispatch(s[p..], BLANK_PAST)
      case Returned(size, _) => p + size
      case Terminated(_) => p
  }

  /** The loop's commits end on a message boundary of what it has received with `more` behind it. */
  ghost predicate OnBoundary(l: Loop, received: string, more: string) {
    exists j: nat :: |l.committed| == Boundary(received + more, j)
  }

  lemma TurnCommits(l: Loop, r: Read, received: string, more: string)
    requires Turn(l, r).alive && l.committed + l.buffered == received
    requires OnBoundary(l, received, r.bytes + more)
    ensures OnBoundary(Turn(l, r), received + r.bytes, more)
  {
    hide Dispatch, Boundary;
    var s := received + r.bytes + more;
    var buf := l.buffered + r.bytes;
    assert received + (r.bytes + more) == s && s == l.committed + (buf + more);
    var j: nat :| |l.committed| == Boundary(s, j);
    if Dispatch(buf, r.past).size > 0 {
      DispatchStable(buf, more, r.past, BLANK_PAST);
      BoundaryNext(s, j, buf + more);
    }
  }

  lemma BoundaryNext(s: string, j: nat, t: string)
    requires s[Boundary(s, j)..] == t && Dispatch(t, BLANK_PAST).Returned?
    ensures Boundary(s, j + 1) == Boundary(s, j) + Dispatch(t, BLANK_PAST).size
  {
    hide Dispatch;
  }

  /** On any bytes, well-formed or not: every commit ends on a message boundary of the uncut stream,
      whatever is still to come. */
  lemma {:induction false} CommitsOnBoundaries(chunks: seq<Read>, more: string)
    requires Turns(IDLE, chunks).alive
    ensures OnBoundary(Turns(IDLE, chunks), Received(chunks), more)
    decreases |chunks|
  {
    if chunks == [] {
      assert |IDLE.committed| == Boundary(Received(chunks) + more, 0);
    } else {
      hide Turn, OnBoundary;
      var before, last := chunks[..|chunks| - 1], chunks[|chunks| - 1];
      TurnFromAlive(Turns(IDLE, before), last);
      CommitsOnBoundaries(before, last.bytes + more);
      BytesAreConserved(before);
      TurnCommits(Turns(IDLE, before), last, Received(before), more);
    }
  }
}
