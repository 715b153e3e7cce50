/** bitfinex/market_data_feed.cpp: what the callbacks of the parser do to subscriptions and books, and
    the end-to-end statement from received bytes to books. */
module MarketDataFeed {
  import opened Bytes
  import opened Wrappers
  import opened Decimal
  import opened OrderBook
  import J = JsonFsm
  import W = Wire
  import R = ReceiveLoop

  /** The feed as a value: ids handed out, pending and fulfilled, the registered books, and the channel
      of the cached book. */
  datatype FeedState = FeedState(
    next: int, pending: set<int>, fulfilled: set<int>, books: map<nat, Book>, single: Option<nat>)
  {
    ghost predicate Valid() {
      && (single.Some? ==> books.Keys == {single.value})
      && (forall c :: c in books ==> books[c].Valid())
      && pending !! fulfilled
      && 1 <= next
      && (forall id :: id in pending || id in fulfilled <==> 1 <= id < next)
    }
  }

  const START := FeedState(1, {}, {}, map[], None)

  predicate IsSpace(c: char) {
    c == ' ' || '\t' <= c <= '\r'
  }

  /** The library's atoi, for numbers that fit; what it does with others is undefined. */
  function Atoi(s: string): int {
    if s != "" && IsSpace(s[0]) then Atoi(s[1..])
    else if StartsWith(s, '-') then -(DecValue(SplitDigits(s[1..]).0) as int)
    else if StartsWith(s, '+') then DecValue(SplitDigits(s[1..]).0)
    else DecValue(SplitDigits(s).0)
  }

  /** What atoi reads: a number behind at most one sign, and nothing of what follows it. */
  lemma AtoiReads(n: nat, t: string)
    requires t == "" || !IsDigit(t[0])
    ensures Atoi(ToDigits(n) + t) == n
    ensures Atoi("-" + (ToDigits(n) + t)) == -(n as int) && Atoi("+" + (ToDigits(n) + t)) == n
  {
    var s := ToDigits(n) + t;
    assert s[0] == ToDigits(n)[0];
    assert ("-" + s)[1..] == s && ("+" + s)[1..] == s;
    SplitDigitsIs(ToDigits(n), t);
    NumeralRoundTrip(n);
    hide ToDigits, DecValue, SplitDigits;
  }

  /** Blanks, tabs and line breaks in front of the number are skipped; without a number there the result
      is zero. */
  lemma AtoiSkips(c: char, s: string)
    ensures c == ' ' || 9 <= c as int <= 13 ==> Atoi([c] + s) == Atoi(s)
    ensures !(c == ' ' || 9 <= c as int <= 13) && !IsDigit(c) && c != '-' && c != '+' ==> Atoi([c] + s) == 0
    ensures Atoi("") == 0
  {
    assert ([c] + s)[1..] == s;
    if !IsDigit(c) {
      assert "" + ([c] + s) == [c] + s;
      SplitDigitsIs("", [c] + s);
    }
    assert "" + "" == "";
    SplitDigitsIs("", "");
    hide SplitDigits;
  }

  /** The conversion of an int to the unsigned 32-bit channel id. */
  function ToChannel(x: int): nat {
    x % TWO_32
  }

  predicate IsAnswer(pairs: map<string, string>) {
    "event" in pairs && pairs["event"] == "subscribed"
  }

  function AfterSubscribe(f: FeedState): FeedState {
    f.(next := f.next + 1, pending := f.pending + {f.next})
  }

  /** An event; `None` when a key is missing, and the ParseError thrown ends the program. */
  function AfterEvent(f: FeedState, pairs: map<string, string>): Option<FeedState> {
    if !IsAnswer(pairs) then Some(f)
    else if "subId" !in pairs || "chanId" !in pairs then None
    else
      var id, channel := Atoi(pairs["subId"]), ToChannel(Atoi(pairs["chanId"]));
      if id !in f.pending then Some(f)
      else Some(Answered(f, id, channel))
  }

  /** An answer by its bytes: one that names a pending id and a channel, in digits, moves the id from the
      pending to the fulfilled ones and registers an empty book for the channel, unless it has one; that
      book is cached if it is the first one, and no book is cached otherwise. */
  lemma AnswerIsAccepted(f: FeedState, pairs: map<string, string>, id: nat, channel: nat)
    requires id in f.pending && channel < TWO_31
    requires "event" in pairs && "subId" in pairs && "chanId" in pairs
    requires pairs["event"] == "subscribed" && pairs["subId"] == ToDigits(id) && pairs["chanId"] == ToDigits(channel)
    ensures AfterEvent(f, pairs).Some?
    ensures var f' := AfterEvent(f, pairs).value;
            && f'.next == f.next
            && f'.pending == f.pending - {id} && f'.fulfilled == f.fulfilled + {id}
            && f'.books == (if channel in f.books then f.books else f.books[channel := Book([], [])])
            && f'.single == (if f.books == map[] then Some(channel) else None)
  {
    hide ToDigits, Atoi, ToChannel;
    AtoiReads(id, "");
    AtoiReads(channel, "");
    assert ToDigits(id) + "" == ToDigits(id) && ToDigits(channel) + "" == ToDigits(channel);
    FitsChannel(channel);
    NoBooks(f.books);
  }

  lemma FitsChannel(channel: nat)
    requires channel < TWO_32
    ensures ToChannel(channel) == channel
  {
  }

  lemma NoBooks(books: map<nat, Book>)
    ensures |books| == 0 <==> books == map[]
  {
  }

  function Answered(f: FeedState, id: int, channel: nat): FeedState {
    f.(pending := f.pending - {id},
       fulfilled := f.fulfilled + {id},
       single := if |f.books| == 0 then Some(channel) else None,
       books := if channel in f.books then f.books else f.books[channel := EMPTY_BOOK])
  }

  /** The channel whose book an update goes to. */
  function Routed(f: FeedState, channel: nat): Option<nat> {
    if f.single.Some? then f.single else if channel in f.books then Some(channel) else None
  }

  function AfterUpdate(f: FeedState, channel: nat, u: Update): FeedState {
    match Routed(f, channel)
    case None => f
    case Some(c) => if c in f.books then f.(books := f.books[c := Apply(f.books[c], u, Keep)]) else f
  }

  /** The update a callback carries; `unset` is the value an unset quantity happens to have. */
  function UpdateOf(call: W.Callback, unset: real): Update
    requires call.UpdateP?
  {
    Update(call.price, call.count, if call.qty.Some? then call.qty.value else unset)
  }

  function AfterCall(f: FeedState, call: W.Callback, unset: real): Option<FeedState> {
    match call
    case OnEvent(pairs) => AfterEvent(f, pairs)
    case UpdateP(channel, _, _, _, _) => Some(AfterUpdate(f, channel, UpdateOf(call, unset)))
  }

  lemma AnsweredKeepsValid(f: FeedState, id: int, channel: nat)
    requires f.Valid() && id in f.pending
    ensures Answered(f, id, channel).Valid()
  {
    var f' := Answered(f, id, channel);
    if |f.books| == 0 {
      assert f.books == map[];
      assert f'.books.Keys == {channel};
    }
  }

  lemma UpdateKeepsValid(f: FeedState, channel: nat, u: Update)
    requires f.Valid()
    ensures AfterUpdate(f, channel, u).Valid()
  {
    var r := Routed(f, channel);
    if r.Some? {
      ApplyIsLocal(f.books[r.value], u, Keep, Bid, 0);
      hide Apply;
      var f' := AfterUpdate(f, channel, u);
      assert f'.books.Keys == f.books.Keys;
    }
  }

  // ----- heartbeats -----

  /** A heartbeat arrives as the erasure of price 0 on a side that nobody has set. It leaves a book as it
      is, whatever the side, if and only if the book has no level at price 0. */
  lemma HeartbeatIsHarmlessIff(b: Book)
    requires b.Valid()
    ensures (forall qty: real :: Apply(b, Update(0, 0, qty), Keep) == b) <==>
            Lookup(b.bids, 0) == None && Lookup(b.asks, 0) == None
  {
    EraseIsMapRemove(b.bids, 0, 0);
    EraseIsMapRemove(b.asks, 0, 0);
    if Lookup(b.bids, 0) == None { EraseAbsent(b.bids, 0); }
    if Lookup(b.asks, 0) == None { EraseAbsent(b.asks, 0); }
    assert Apply(b, Update(0, 0, 1.0), Keep) == b.(bids := Erase(b.bids, 0));
    assert Apply(b, Update(0, 0, -1.0), Keep) == b.(asks := Erase(b.asks, 0));
  }

  /** A heartbeat of any channel changes nothing in a feed whose books have no level at price 0. */
  lemma HeartbeatLeavesFeed(f: FeedState, channel: nat, unset: real)
    requires f.Valid() && W.Heartbeat(channel).WellFormed()
    requires forall c :: c in f.books ==> Lookup(f.books[c].bids, 0) == None && Lookup(f.books[c].asks, 0) == None
    ensures |W.Heartbeat(channel).Calls()| == 1
    ensures AfterCall(f, W.Heartbeat(channel).Calls()[0], unset) == Some(f)
  {
    var r := Routed(f, channel);
    if r.Some? {
      HeartbeatIsHarmlessIff(f.books[r.value]);
      assert Apply(f.books[r.value], Update(0, 0, unset), Keep) == f.books[r.value];
      hide Apply;
      assert f.books[r.value := f.books[r.value]] == f.books;
    }
  }

  // ----- the feed as an object -----

  ghost function BookValues(books: map<nat, OrderBookP>): (m: map<nat, Book>)
    reads books.Values
    ensures m.Keys == books.Keys
  {
    map c | c in books :: books[c].Value()
  }

  twostate lemma SameBooks(books: map<nat, OrderBookP>)
    requires forall b :: b in books.Values ==> unchanged(b)
    ensures BookValues(books) == old(BookValues(books))
  {
  }

  lemma AddBook(books: map<nat, OrderBookP>, channel: nat, book: OrderBookP)
    ensures BookValues(books[channel := book]) == BookValues(books)[channel := book.Value()]
  {
  }

  lemma BookValueAt(books: map<nat, OrderBookP>, channel: nat)
    requires channel in books
    ensures BookValues(books)[channel] == books[channel].Value()
  {
  }

  lemma ValidAt(f: FeedState, channel: nat)
    requires f.Valid() && channel in f.books
    ensures f.books[channel].Valid()
  {
  }

  lemma PendingIsNotFulfilled(f: FeedState, id: int)
    requires f.Valid() && id in f.pending
    ensures id !in f.fulfilled
  {
  }

  lemma AddKey<T>(m: map<int, T>, k: int, x: T)
    ensures m[k := x].Keys == m.Keys + {k}
  {
  }

  lemma SameSize<T, U>(m: map<nat, T>, n: map<nat, U>)
    requires m.Keys == n.Keys
    ensures |m| == |n|
  {
    assert |m| == |m.Keys| && |n| == |n.Keys|;
  }

  class MarketDataFeed {
    var nextSubGuid: int
    var pending: set<int>
    /** The books that promises have been fulfilled with. */
    var fulfilled: map<int, OrderBookP>
    var books: map<nat, OrderBookP>
    var single: OrderBookP?

    ghost predicate Valid()
      reads this, books.Values
    {
      Linked() && Value().Valid()
    }

    /** Books are registered under their own channels, and the cached book is a registered one. */
    ghost predicate Linked()
      reads this
    {
      && (forall c :: c in books ==> books[c].channel == c)
      && (single != null ==> single.channel in books && books[single.channel] == single)
    }

    ghost function Value(): FeedState
      reads this, books.Values
    {
      FeedState(nextSubGuid, pending, fulfilled.Keys, BookValues(books),
                if single == null then None else Some(single.channel))
    }

    constructor ()
      ensures Valid() && Value() == START && books == map[]
    {
      nextSubGuid, pending, fulfilled, books, single := 1, {}, map[], map[], null;
    }

    /** The critical section of `subscribe`: a new id, with a pending promise. */
    method RegisterSubscription() returns (id: int)
      requires Valid()
      modifies this
      ensures Valid() && Value() == AfterSubscribe(old(Value())) && id == old(nextSubGuid)
      ensures fulfilled == old(fulfilled) && books == old(books) && id !in fulfilled
    {
      hide BookValues;
      ghost var was := Value();
      id := nextSubGuid;
      nextSubGuid := nextSubGuid + 1;
      pending := pending + {id};
      SameBooks(books);
      assert id !in was.fulfilled;
    }

    /** The assignments of an accepted answer. */
    method Assign(id: int, channel: nat) returns (book: OrderBookP)
      modifies this
      ensures fresh(book) && book.channel == channel && book.Value() == EMPTY_BOOK
      ensures nextSubGuid == old(nextSubGuid) && pending == old(pending) - {id}
      ensures single == if |old(books)| == 0 then book else null
      ensures books == if channel in old(books) then old(books) else old(books)[channel := book]
      ensures fulfilled == old(fulfilled)[id := book]
    {
      pending := pending - {id};
      book := new OrderBookP(channel);
      single := if |books| == 0 then book else null;
      if channel !in books {
        books := books[channel := book];
      }
      fulfilled := fulfilled[id := book];
    }

    /** What they do to the feed as a value. */
    lemma AssignIsAnswer(was: FeedState, before: map<nat, OrderBookP>, id: int, channel: nat, book: OrderBookP)
      requires was.books == BookValues(before) && forall c :: c in before ==> before[c].channel == c
      requires book.channel == channel && book.Value() == EMPTY_BOOK
      requires nextSubGuid == was.next && pending == was.pending - {id} && fulfilled.Keys == was.fulfilled + {id}
      requires single == if |before| == 0 then book else null
      requires books == if channel in before then before else before[channel := book]
      ensures Linked() && Value() == Answered(was, id, channel)
    {
      AddBook(before, channel, book);
      SameSize(was.books, before);
      hide BookValues;
    }

    /** An accepted answer: the promise of the pending id is fulfilled with a new book. */
    method Fulfil(id: int, channel: nat) returns (book: OrderBookP)
      requires Valid() && id in pending
      modifies this
      ensures Valid() && Value() == Answered(old(Value()), id, channel)
      ensures fresh(book) && book.channel == channel && book.Value() == EMPTY_BOOK
      ensures id !in old(fulfilled) && fulfilled == old(fulfilled)[id := book]
      ensures books == if channel in old(books) then old(books) else old(books)[channel := book]
    {
      hide Book.Valid, FeedState.Valid, Answered, BookValues, OrderBookP.Value;
      ghost var before, was := books, Value();
      AnsweredKeepsValid(was, id, channel);
      PendingIsNotFulfilled(was, id);
      book := Assign(id, channel);
      SameBooks(before);
      AddKey(old(fulfilled), id, book);
      AssignIsAnswer(was, before, id, channel, book);
    }

    /** A JSON event. `thrown` is the ParseError for a missing key. An answer that names a pending id
        fulfils its promise, once, with a new empty book that carries the channel of the answer. */
    method OnMessageEvent(json: J.JsonObj) returns (thrown: bool, ghost given: OrderBookP?)
      requires Valid()
      modifies this
      ensures Valid()
      ensures thrown <==> AfterEvent(old(Value()), json.keyValueMap) == None
      ensures var pairs := json.keyValueMap;
              var subscribed := "event" in pairs && pairs["event"] == "subscribed";
              && (thrown <==> subscribed && ("subId" !in pairs || "chanId" !in pairs))
              && (given != null <==> subscribed && !thrown && Atoi(pairs["subId"]) in old(pending))
      ensures given == null ==> Value() == old(Value())
      ensures !thrown ==> Some(Value()) == AfterEvent(old(Value()), json.keyValueMap)
      ensures given == null ==> fulfilled == old(fulfilled) && books == old(books)
      ensures given != null ==>
                var pairs := json.keyValueMap;
                && IsAnswer(pairs) && "subId" in pairs && "chanId" in pairs
                && var id, channel := Atoi(pairs["subId"]), ToChannel(Atoi(pairs["chanId"]));
                   && id in old(pending) && id !in old(fulfilled)
                   && fresh(given) && given.channel == channel && given.Value() == EMPTY_BOOK
                   && fulfilled == old(fulfilled)[id := given]
                   && books == if channel in old(books) then old(books) else old(books)[channel := given]
    {
      hide FeedState.Valid, Answered, ToChannel, Atoi, BookValues;
      thrown, given := false, null;
      var found, eventType := json.TryGet("event");
      if !found {
        return;
      }
      if eventType == "subscribed" {
        var hasId, subsId := json.TryGet("subId");
        var hasChannel, chanId := json.TryGet("chanId");
        if !hasId || !hasChannel {
          return true, null;
        }
        var id := Atoi(subsId);
        var channel := ToChannel(Atoi(chanId));
        if id !in pending {
          return;
        }
        given := Fulfil(id, channel);
      }
    }

    /** The book an update of a channel goes to: the cached one, or the one the map holds. */
    ghost function Target(channel: nat): OrderBookP?
      reads this
    {
      if single != null then single else if channel in books then books[channel] else null
    }

    /** One update: it changes one book, at one price of one side, or nothing. */
    method OnMessageUpdateP(channel: nat, price: nat, count: nat, qty: real)
      requires Valid()
      modifies if Target(channel) == null then {} else {Target(channel)}
      ensures Valid() && Value() == AfterUpdate(old(Value()), channel, Update(price, count, qty))
    {
      hide Book.Valid, Book.Assign, Book.Remove, FeedState.Valid;
      ghost var u := Update(price, count, qty);
      ghost var was := Value();
      UpdateKeepsValid(was, channel, u);
      var book := single;
      if book == null {
        if channel in books {
          book := books[channel];
        }
      }
      if book != null {
        BookValueAt(books, book.channel);
        assert book.Valid() by { ValidAt(was, book.channel); }
        if count == 0 {
          book.EraseLevel(price, qty);
        } else {
          book.AssignLevel(price, qty);
        }
        assert book.Value() == Apply(was.books[book.channel], u, Keep);
        assert BookValues(books) == was.books[book.channel := book.Value()];
      }
    }

    /** A callback of the parser; `unset` is the value that an unset quantity happens to have. */
    method HandleCall(call: W.Callback, unset: real) returns (thrown: bool)
      requires Valid()
      modifies this, books.Values
      ensures Valid()
      ensures thrown <==> AfterCall(old(Value()), call, unset) == None
      ensures !thrown ==> Some(Value()) == AfterCall(old(Value()), call, unset)
    {
      hide FeedState.Valid, AfterEvent, AfterUpdate;
      if call.OnEvent? {
        var json := new J.JsonObj.Holding(call.pairs);
        ghost var given;
        thrown, given := OnMessageEvent(json);
      } else {
        thrown := false;
        OnMessageUpdateP(call.channel, call.price, call.count, if call.qty.Some? then call.qty.value else unset);
      }
    }
  }

  // ----- from messages to books -----

  /** What happens to the feed: a client registers, or the parser makes a callback. */
  datatype Happening = Subscribing | Delivering(call: W.Callback, unset: real)

  function After(f: FeedState, h: Happening): Option<FeedState> {
    match h
    case Subscribing => Some(AfterSubscribe(f))
    case Delivering(call, unset) => AfterCall(f, call, unset)
  }

  function AfterAll(hs: seq<Happening>): Option<FeedState> {
    if hs == [] then Some(START)
    else
      match AfterAll(hs[..|hs| - 1])
      case None => None
      case Some(f) => After(f, hs[|hs| - 1])
  }

  /** What the exchange is assumed to do: it announces a channel before it sends updates of it, and
      never announces one twice. */
  ghost predicate Orderly(hs: seq<Happening>) {
    hs != [] ==>
      && Orderly(hs[..|hs| - 1])
      && (AfterAll(hs[..|hs| - 1]).Some? && hs[|hs| - 1].Delivering? ==>
            OrderlyCall(AfterAll(hs[..|hs| - 1]).value, hs[|hs| - 1].call))
  }

  ghost predicate OrderlyCall(f: FeedState, call: W.Callback) {
    match call
    case UpdateP(channel, _, _, _, _) => channel in f.books
    case OnEvent(pairs) =>
      IsAnswer(pairs) && "subId" in pairs && "chanId" in pairs && Atoi(pairs["subId"]) in f.pending ==>
        ToChannel(Atoi(pairs["chanId"])) !in f.books
  }

  /** The updates of one channel, in order. */
  function UpdatesOf(hs: seq<Happening>, channel: nat): seq<Update> {
    if hs == [] then []
    else
      var before, h := UpdatesOf(hs[..|hs| - 1], channel), hs[|hs| - 1];
      if h.Delivering? && h.call.UpdateP? && h.call.channel == channel
      then before + [UpdateOf(h.call, h.unset)] else before
  }

  lemma {:induction false} AfterAllIsValid(hs: seq<Happening>)
    requires AfterAll(hs).Some?
    ensures AfterAll(hs).value.Valid()
  {
    if hs != [] {
      AfterAllIsValid(hs[..|hs| - 1]);
      AfterIsValid(AfterAll(hs[..|hs| - 1]).value, hs[|hs| - 1]);
      hide After;
    }
  }

  lemma AfterIsValid(f: FeedState, h: Happening)
    requires f.Valid() && After(f, h).Some?
    ensures After(f, h).value.Valid()
  {
    if h.Delivering? && h.call.UpdateP? {
      UpdateKeepsValid(f, h.call.channel, UpdateOf(h.call, h.unset));
    } else if h.Delivering? && AfterEvent(f, h.call.pairs) != Some(f) {
      AnsweredKeepsValid(f, Atoi(h.call.pairs["subId"]), ToChannel(Atoi(h.call.pairs["chanId"])));
    }
  }

  /** In an orderly history every registered book is what the updates of its own channel make of the
      empty book, whichever path each update took and whatever happened to the other channels; and an
      unregistered channel has had no updates. */
  lemma {:induction false} BookIsReplay(hs: seq<Happening>, channel: nat)
    requires AfterAll(hs).Some? && Orderly(hs)
    ensures var f := AfterAll(hs).value;
            if channel in f.books then f.books[channel] == Replay(UpdatesOf(hs, channel), Keep)
            else UpdatesOf(hs, channel) == []
  {
    if hs != [] {
      var before, h := hs[..|hs| - 1], hs[|hs| - 1];
      BookIsReplay(before, channel);
      AfterAllIsValid(before);
      var f := AfterAll(before).value;
      StepIsReplay(f, h, UpdatesOf(before, channel), channel);
      hide After, OrderlyCall;
    }
  }

  ghost predicate IsReplay(f: FeedState, updates: seq<Update>, channel: nat) {
    if channel in f.books then f.books[channel] == Replay(updates, Keep) else updates == []
  }

  lemma StepIsReplay(f: FeedState, h: Happening, updates: seq<Update>, channel: nat)
    requires f.Valid() && After(f, h).Some? && IsReplay(f, updates, channel)
    requires h.Delivering? ==> OrderlyCall(f, h.call)
    ensures var updates' := if h.Delivering? && h.call.UpdateP? && h.call.channel == channel
                            then updates + [UpdateOf(h.call, h.unset)] else updates;
            IsReplay(After(f, h).value, updates', channel)
  {
    if h.Delivering? && h.call.UpdateP? {
      var u := UpdateOf(h.call, h.unset);
      assert Routed(f, h.call.channel) == Some(h.call.channel);
      assert (updates + [u])[..|updates|] == updates;
      hide Apply;
    } else if h.Delivering? {
      assert Replay([], Keep) == EMPTY_BOOK;
    }
  }

  function CallsIn(hs: seq<Happening>): seq<W.Callback> {
    if hs == [] then []
    else
      var before, h := CallsIn(hs[..|hs| - 1]), hs[|hs| - 1];
      if h.Delivering? then before + [h.call] else before
  }

  /** The update callbacks of one channel, in order. */
  function OfChannel(calls: seq<W.Callback>, channel: nat): seq<W.Callback> {
    if calls == [] then []
    else
      var before, call := OfChannel(calls[..|calls| - 1], channel), calls[|calls| - 1];
      if call.UpdateP? && call.channel == channel then before + [call] else before
  }

  /** The updates are those the callbacks carry, one for one; a quantity that a callback leaves unset may
      be any. */
  ghost predicate Carried(updates: seq<Update>, calls: seq<W.Callback>) {
    && |updates| == |calls|
    && forall i :: 0 <= i < |calls| ==>
         && calls[i].UpdateP? && updates[i].price == calls[i].price && updates[i].count == calls[i].count
         && (calls[i].qty.Some? ==> updates[i].qty == calls[i].qty.value)
  }

  lemma OneMoreCall(calls: seq<W.Callback>, call: W.Callback, channel: nat)
    ensures OfChannel(calls + [call], channel) ==
            OfChannel(calls, channel) + if call.UpdateP? && call.channel == channel then [call] else []
  {
    assert (calls + [call])[..|calls|] == calls;
  }

  lemma OneMoreCarried(updates: seq<Update>, calls: seq<W.Callback>, call: W.Callback, unset: real)
    requires Carried(updates, calls) && call.UpdateP?
    ensures Carried(updates + [UpdateOf(call, unset)], calls + [call])
  {
  }

  lemma {:induction false} UpdatesAreCarried(hs: seq<Happening>, channel: nat)
    ensures Carried(UpdatesOf(hs, channel), OfChannel(CallsIn(hs), channel))
  {
    if hs != [] {
      var before, h := hs[..|hs| - 1], hs[|hs| - 1];
      UpdatesAreCarried(before, channel);
      hide Carried, OfChannel, UpdateOf;
      if h.Delivering? {
        OneMoreCall(CallsIn(before), h.call, channel);
        if h.call.UpdateP? && h.call.channel == channel {
          OneMoreCarried(UpdatesOf(before, channel), OfChannel(CallsIn(before), channel), h.call, h.unset);
        }
      }
    } else {
      assert Carried([], []);
    }
  }

  /** End to end. Cut a stream of messages into reads anyhow and let clients subscribe in between: if
      the exchange is orderly, then the program receives exactly the complete messages; a price is in the
      book of a registered channel exactly when the latest update of that channel, side and price among
      those messages left orders there; and its quantity is that of the update that opened the level. */
  lemma EndToEnd(ms: seq<W.Message>, chunks: seq<R.Read>, hs: seq<Happening>, channel: nat, side: Side, price: nat)
    requires R.AllValid(ms) && R.Received(chunks) <= W.StreamText(ms)
    requires CallsIn(hs) == R.Turns(R.IDLE, chunks).calls
    requires AfterAll(hs).Some? && Orderly(hs) && channel in AfterAll(hs).value.books
    ensures CallsIn(hs) == R.CallsOf(ms[..R.CountDelivered(ms, chunks)])
    ensures Carried(UpdatesOf(hs, channel), OfChannel(R.CallsOf(ms[..R.CountDelivered(ms, chunks)]), channel))
    ensures var book := AfterAll(hs).value.books[channel];
            var updates := UpdatesOf(hs, channel);
            && book.Valid()
            && (Lookup(book.Levels(side), price).Some? <==> !Vacant(updates, side, price))
            && (!Vacant(updates, side, price) ==>
                  var k := Opening(updates, side, price).value;
                  Lookup(book.Levels(side), price) == Some(if side == Ask then -updates[k].qty else updates[k].qty))
  {
    hide Replay, Opens, Opening, Vacant, Lookup, UpdatesOf, Carried, OfChannel, AfterAll, Orderly, CallsIn;
    hide R.Turns, R.Received, R.CallsOf, R.CountDelivered, R.AllValid, W.StreamText;
    R.AnyChunkingDelivers(ms, chunks);
    UpdatesAreCarried(hs, channel);
    BookIsReplay(hs, channel);
    PricesAreTheLatest(UpdatesOf(hs, channel), Keep, side, price);
    QuantityIsTheOpening(UpdatesOf(hs, channel), side, price);
  }
}
