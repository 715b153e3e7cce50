/** The subscription protocol of bitfinex/market_data_feed.cpp under any interleaving: client threads
    register subscriptions and wait for them, the receive thread answers them and routes updates. */
module Subscription {
  import opened Wrappers

  /** A book, by the order of its creation, and the channel it was created for. */
  datatype BookRef = BookRef(serial: nat, channel: nat)

  /** A client's call of `subscribe`: still waiting, given up, or returned with a book. */
  datatype Client = Waiting | TimedOut | Given(book: BookRef)

  /** The receive thread between two critical sections: it has taken promise `id` out of the pending
      ones and has yet to create the book for `channel` and to fulfil the promise. */
  datatype Receiver = Listening | Answering(id: int, channel: nat)

  datatype Answer = Answer(id: int, channel: nat)

  datatype Feed = Feed(
    next: int,                    // m_next_sub_guid
    pending: set<int>,            // the keys of m_pending_subscriptions
    fulfilled: map<int, BookRef>, // the promises whose value is set
    clients: map<int, Client>,    // the calls of subscribe, by the id each was given
    receiver: Receiver,
    books: map<nat, BookRef>,     // m_books_p
    single: Option<BookRef>,      // m_single_book
    answers: seq<Answer>)         // the responses that were accepted, in order

  const START := Feed(1, {}, map[], map[], Listening, map[], None, [])

  // ----- the steps -----

  /** subscribe, first critical section: a new id with a pending promise. */
  function Register(f: Feed): Feed {
    f.(next := f.next + 1, pending := f.pending + {f.next}, clients := f.clients[f.next := Waiting])
  }

  /** subscribe, the wait runs out; at any time, since clocks are not modelled. */
  ghost predicate TimeOut(f: Feed, f': Feed, id: int) {
    && id in f.clients && f.clients[id].Waiting?
    && f' == f.(clients := f.clients[id := TimedOut])
  }

  /** subscribe returns the promised book. */
  ghost predicate Collect(f: Feed, f': Feed, id: int) {
    && id in f.clients && f.clients[id].Waiting? && id in f.fulfilled
    && f' == f.(clients := f.clients[id := Given(f.fulfilled[id])])
  }

  /** on_message_event, the critical section: a response that names no pending id is ignored. */
  function Take(f: Feed, id: int, channel: nat): Feed {
    if id !in f.pending then f
    else f.(pending := f.pending - {id}, receiver := Answering(id, channel))
  }

  /** The rest of on_message_event: create the book, cache or uncache it, register it, fulfil. */
  function Publish(f: Feed): Feed
    requires f.receiver.Answering?
  {
    var id, channel := f.receiver.id, f.receiver.channel;
    var book := BookRef(|f.answers|, channel);
    f.(receiver := Listening,
       single := if |f.books| == 0 then Some(book) else None,
       books := if channel in f.books then f.books else f.books[channel := book],
       fulfilled := f.fulfilled[id := book],
       answers := f.answers + [Answer(id, channel)])
  }

  ghost predicate Respond(f: Feed, f': Feed, id: int, channel: nat) {
    f.receiver.Listening? && f' == Take(f, id, channel)
  }

  datatype Step =
    | RegisterStep | TimeOutStep(id: int) | CollectStep(id: int)
    | RespondStep(id: int, channel: nat) | PublishStep

  ghost predicate NextStep(f: Feed, f': Feed, step: Step) {
    match step
    case RegisterStep => f' == Register(f)
    case TimeOutStep(id) => TimeOut(f, f', id)
    case CollectStep(id) => Collect(f, f', id)
    case RespondStep(id, channel) => Respond(f, f', id, channel)
    case PublishStep => f.receiver.Answering? && f' == Publish(f)
  }

  ghost predicate Next(f: Feed, f': Feed) {
    exists step :: NextStep(f, f', step)
  }

  ghost predicate Run(r: seq<Feed>) {
    && r != [] && r[0] == START
    && forall i :: 0 < i < |r| ==> Next(r[i - 1], r[i])
  }

  /** Which book on_message_update_p updates. */
  function Route(f: Feed, channel: nat): Option<BookRef> {
    if f.single.Some? then f.single else Lookup(f, channel)
  }

  function Lookup(f: Feed, channel: nat): Option<BookRef> {
    if channel in f.books then Some(f.books[channel]) else None
  }

  // ----- the invariant -----

  predicate InFlight(f: Feed, id: int) {
    f.receiver.Answering? && f.receiver.id == id
  }

  /** In how many places an id is: pending, being answered, fulfilled. */
  function Places(f: Feed, id: int): nat {
    (if id in f.pending then 1 else 0) + (if InFlight(f, id) then 1 else 0) + (if id in f.fulfilled then 1 else 0)
  }

  /** Every id given out so far is in exactly one place, and no other id is anywhere. */
  ghost predicate IdsInv(f: Feed) {
    && 1 <= f.next
    && (forall id :: Places(f, id) == if 1 <= id < f.next then 1 else 0)
    && (forall id :: id in f.clients <==> 1 <= id < f.next)
  }

  /** The answers tell which book each promise was fulfilled with. */
  ghost predicate AnswersInv(f: Feed) {
    && (forall i :: 0 <= i < |f.answers| ==>
          f.answers[i].id in f.fulfilled && f.fulfilled[f.answers[i].id] == BookRef(i, f.answers[i].channel))
    && (forall id :: id in f.fulfilled ==>
          f.fulfilled[id].serial < |f.answers| && f.answers[f.fulfilled[id].serial].id == id)
  }

  ghost predicate ClientsInv(f: Feed) {
    forall id :: id in f.clients && f.clients[id].Given? ==>
      id in f.fulfilled && f.clients[id].book == f.fulfilled[id]
  }

  /** The registered books are those of the first answer for each channel. */
  ghost predicate BooksInv(f: Feed) {
    && (forall i :: 0 <= i < |f.answers| ==> f.answers[i].channel in f.books)
    && (forall c :: c in f.books ==>
          && f.books[c].channel == c && f.books[c].serial < |f.answers|
          && f.answers[f.books[c].serial].channel == c
          && forall i :: 0 <= i < f.books[c].serial ==> f.answers[i].channel != c)
  }

  /** A book is cached while there has been one answer. */
  ghost predicate SingleInv(f: Feed) {
    f.single == (if |f.answers| == 1 then Some(BookRef(0, f.answers[0].channel)) else None)
  }

  ghost predicate Inv(f: Feed) {
    IdsInv(f) && AnswersInv(f) && ClientsInv(f) && BooksInv(f) && SingleInv(f)
  }

  lemma NoBooksNoAnswers(f: Feed)
    requires BooksInv(f)
    ensures |f.books| == 0 <==> |f.answers| == 0
  {
    if |f.answers| > 0 {
      assert f.answers[0].channel in f.books;
    }
    if |f.books| > 0 {
      var c :| c in f.books;
      assert f.books[c].serial < |f.answers|;
    }
  }

  lemma RegisterKeepsIds(f: Feed)
    requires IdsInv(f)
    ensures IdsInv(Register(f))
  {
    forall id
      ensures Places(Register(f), id) == Places(f, id) + if id == f.next then 1 else 0
    {
      assert Places(f, f.next) == 0;
    }
  }

  lemma TakeKeepsIds(f: Feed, id: int, channel: nat)
    requires IdsInv(f) && f.receiver.Listening?
    ensures IdsInv(Take(f, id, channel))
  {
    forall i
      ensures Places(Take(f, id, channel), i) == Places(f, i)
    {
    }
  }

  lemma PublishKeepsIds(f: Feed)
    requires IdsInv(f) && f.receiver.Answering?
    ensures IdsInv(Publish(f))
  {
    forall id
      ensures Places(Publish(f), id) == Places(f, id)
    {
      assert Places(f, f.receiver.id) <= 1;
    }
  }

  lemma PublishKeepsAnswers(f: Feed)
    requires f.receiver.Answering? && f.receiver.id !in f.fulfilled && AnswersInv(f) && ClientsInv(f)
    ensures AnswersInv(Publish(f)) && ClientsInv(Publish(f))
  {
    var f', id := Publish(f), f.receiver.id;
    assert f'.fulfilled == f.fulfilled[id := BookRef(|f.answers|, f.receiver.channel)];
    assert f'.answers == f.answers + [Answer(id, f.receiver.channel)] && f'.clients == f.clients;
    hide Publish;
  }

  lemma PublishKeepsBooks(f: Feed)
    requires f.receiver.Answering? && BooksInv(f) && SingleInv(f)
    ensures BooksInv(Publish(f)) && SingleInv(Publish(f))
  {
    NoBooksNoAnswers(f);
    var f', channel := Publish(f), f.receiver.channel;
    var book := BookRef(|f.answers|, channel);
    assert f'.books == if channel in f.books then f.books else f.books[channel := book];
    assert f'.answers == f.answers + [Answer(f.receiver.id, channel)];
    assert f'.single == if |f.answers| == 0 then Some(book) else None;
    hide Publish;
  }

  /** A step that answers nothing leaves everything about the answers alone. */
  lemma QuietStep(f: Feed, f': Feed)
    requires AnswersInv(f) && BooksInv(f) && SingleInv(f)
    requires f'.answers == f.answers && f'.fulfilled == f.fulfilled && f'.books == f.books && f'.single == f.single
    ensures AnswersInv(f') && BooksInv(f') && SingleInv(f')
  {
  }

  lemma ClientStep(f: Feed, f': Feed, id: int, client: Client)
    requires IdsInv(f) && ClientsInv(f) && id in f.clients
    requires client.Given? ==> id in f.fulfilled && client.book == f.fulfilled[id]
    requires f' == f.(clients := f.clients[id := client])
    ensures IdsInv(f') && ClientsInv(f')
  {
    assert forall i :: Places(f', i) == Places(f, i);
  }

  lemma StepKeepsInv(f: Feed, f': Feed, step: Step)
    requires Inv(f) && NextStep(f, f', step)
    ensures Inv(f')
  {
    hide IdsInv, AnswersInv, BooksInv, SingleInv, Places;
    match step {
      case PublishStep =>
        InFlightIsNotFulfilled(f);
        hide ClientsInv, Publish;
        PublishKeepsIds(f);
        PublishKeepsAnswers(f);
        PublishKeepsBooks(f);
      case RegisterStep =>
        RegisterKeepsIds(f);
        FreshId(f);
        QuietStep(f, f');
      case RespondStep(id, channel) =>
        TakeKeepsIds(f, id, channel);
        QuietStep(f, f');
      case TimeOutStep(id) =>
        QuietStep(f, f');
        ClientStep(f, f', id, TimedOut);
      case CollectStep(id) =>
        QuietStep(f, f');
        ClientStep(f, f', id, Given(f.fulfilled[id]));
    }
  }

  lemma InFlightIsNotFulfilled(f: Feed)
    requires IdsInv(f) && f.receiver.Answering?
    ensures f.receiver.id !in f.fulfilled
  {
    assert Places(f, f.receiver.id) <= 1;
  }

  lemma NextKeepsInv(f: Feed, f': Feed)
    requires Inv(f) && Next(f, f')
    ensures Inv(f')
  {
    var step :| NextStep(f, f', step);
    hide Inv, NextStep;
    StepKeepsInv(f, f', step);
  }

  lemma {:induction false} RunKeepsInv(r: seq<Feed>, i: nat)
    requires Run(r) && i < |r|
    ensures Inv(r[i])
  {
    hide Inv, Next;
    if i == 0 {
      StartInv();
    } else {
      RunKeepsInv(r, i - 1);
      NextKeepsInv(r[i - 1], r[i]);
    }
  }

  lemma StartInv()
    ensures Inv(START)
  {
  }

  /** In every run: the pending, the answered and the fulfilled ids partition 1..next-1, no id is
      answered twice, and every book delivered carries the channel of the answer that named its id. */
  lemma IdsArePartitioned(r: seq<Feed>, i: nat)
    requires Run(r) && i < |r|
    ensures var f := r[i];
            && (forall id :: Places(f, id) == if 1 <= id < f.next then 1 else 0)
            && (forall j, k :: 0 <= j < k < |f.answers| ==> f.answers[j].id != f.answers[k].id)
            && (forall j :: 0 <= j < |f.answers| ==>
                  f.answers[j].id in f.fulfilled && f.fulfilled[f.answers[j].id].channel == f.answers[j].channel)
            && (forall id :: id in f.clients && f.clients[id].Given? ==>
                  exists j :: 0 <= j < |f.answers| && f.answers[j] == Answer(id, f.clients[id].book.channel))
  {
    RunKeepsInv(r, i);
    var f := r[i];
    forall id | id in f.clients && f.clients[id].Given?
      ensures exists j :: 0 <= j < |f.answers| && f.answers[j] == Answer(id, f.clients[id].book.channel)
    {
      var j := f.fulfilled[id].serial;
      assert f.answers[j] == Answer(id, f.clients[id].book.channel);
    }
  }

  lemma StepKeepsPromises(f: Feed, f': Feed)
    requires IdsInv(f) && Next(f, f')
    ensures f.next <= f'.next
    ensures forall id :: id in f.fulfilled ==> id in f'.fulfilled && f'.fulfilled[id] == f.fulfilled[id]
    ensures forall id :: id in f.clients && !f.clients[id].Waiting? ==>
              id in f'.clients && f'.clients[id] == f.clients[id]
  {
    var step :| NextStep(f, f', step);
    if step.PublishStep? {
      InFlightIsNotFulfilled(f);
    } else if step.RegisterStep? {
      FreshId(f);
    }
    hide IdsInv;
  }

  lemma InvIds(f: Feed)
    requires Inv(f)
    ensures IdsInv(f)
  {
  }

  /** Promises are fulfilled at most once and for good, and what a call of subscribe has returned never
      changes, a time-out included. */
  lemma {:induction false} PromisesAreKept(r: seq<Feed>, i: nat, j: nat)
    requires Run(r) && i <= j < |r|
    ensures r[i].next <= r[j].next
    ensures forall id :: id in r[i].fulfilled ==> id in r[j].fulfilled && r[j].fulfilled[id] == r[i].fulfilled[id]
    ensures forall id :: id in r[i].clients && !r[i].clients[id].Waiting? ==>
              id in r[j].clients && r[j].clients[id] == r[i].clients[id]
    decreases j
  {
    hide Inv, Next;
    if i < j {
      PromisesAreKept(r, i, j - 1);
      assert IdsInv(r[j - 1]) by { RunKeepsInv(r, j - 1); InvIds(r[j - 1]); }
      hide IdsInv;
      StepKeepsPromises(r[j - 1], r[j]);
    }
  }

  /** Two calls of subscribe never get the same id. */
  lemma IdsAreUnique(r: seq<Feed>, i: nat, j: nat)
    requires Run(r) && i < j && j + 1 < |r|
    requires r[i + 1] == Register(r[i]) && r[j + 1] == Register(r[j])
    ensures r[i].next < r[j].next && r[i].next in r[i + 1].pending && r[j].next in r[j + 1].pending
    ensures r[i].next !in r[i].pending && r[i].next !in r[i].fulfilled && r[i].next !in r[i].clients
  {
    assert IdsInv(r[i]) by { RunKeepsInv(r, i); InvIds(r[i]); }
    hide Inv, Next, IdsInv;
    PromisesAreKept(r, i + 1, j);
    FreshId(r[i]);
  }

  lemma FreshId(f: Feed)
    requires IdsInv(f)
    ensures f.next !in f.pending && f.next !in f.fulfilled && f.next !in f.clients
  {
    assert Places(f, f.next) == 0;
  }

  // ----- the single-book fast path -----

  /** The exchange gives every subscription a channel of its own. */
  ghost predicate DistinctChannels(f: Feed) {
    forall i, j :: 0 <= i < j < |f.answers| ==> f.answers[i].channel != f.answers[j].channel
  }

  /** With distinct channels the registered books are those that the promises were fulfilled with. */
  lemma FulfilledIsRegistered(f: Feed)
    requires AnswersInv(f) && BooksInv(f) && DistinctChannels(f)
    ensures forall id :: id in f.fulfilled ==> Lookup(f, f.fulfilled[id].channel) == Some(f.fulfilled[id])
  {
    forall id | id in f.fulfilled
      ensures Lookup(f, f.fulfilled[id].channel) == Some(f.fulfilled[id])
    {
      var i := f.fulfilled[id].serial;
      assert f.fulfilled[id] == BookRef(i, f.answers[i].channel);
      var b := f.books[f.answers[i].channel];
      assert f.answers[b.serial].channel == f.answers[i].channel;
    }
  }

  /** And there are as many of them as answers. */
  lemma OneBookPerAnswer(f: Feed)
    requires BooksInv(f) && DistinctChannels(f)
    ensures |f.books| == |f.answers|
  {
    var channels := set i | 0 <= i < |f.answers| :: f.answers[i].channel;
    CountBooks(f, |f.answers|);
    forall c | c in f.books
      ensures c in channels
    {
      assert f.answers[f.books[c].serial].channel == c;
    }
    assert f.books.Keys == channels;
  }

  lemma {:induction false} CountBooks(f: Feed, n: nat)
    requires DistinctChannels(f) && n <= |f.answers|
    ensures |set i | 0 <= i < n :: f.answers[i].channel| == n
  {
    if n > 0 {
      CountBooks(f, n - 1);
      var before := set i | 0 <= i < n - 1 :: f.answers[i].channel;
      assert (set i | 0 <= i < n :: f.answers[i].channel) == before + {f.answers[n - 1].channel};
      assert f.answers[n - 1].channel !in before;
    }
  }

  /** Every client can be reached: updates of the channel of its book go to that very book. */
  ghost predicate BooksAreReached(f: Feed) {
    forall id :: id in f.fulfilled ==> Route(f, f.fulfilled[id].channel) == Some(f.fulfilled[id])
  }

  /** Some answer names another channel than the first one does. */
  ghost predicate SecondChannel(f: Feed) {
    exists j :: 0 < j < |f.answers| && f.answers[j].channel != f.answers[0].channel
  }

  /** The books, and with them the keys of the map, are the channels of the answers. */
  lemma OneBookIff(f: Feed)
    requires BooksInv(f)
    ensures |f.books| == 1 <==> |f.answers| > 0 && !SecondChannel(f)
  {
    assert |f.books| == |f.books.Keys|;
    if |f.answers| > 0 {
      var c := f.answers[0].channel;
      if SecondChannel(f) {
        var j :| 0 < j < |f.answers| && f.answers[j].channel != c;
        assert {c, f.answers[j].channel} <= f.books.Keys;
        assert |f.books.Keys - {c}| > 0 by { assert f.answers[j].channel in f.books.Keys - {c}; }
      } else {
        assert forall k :: k in f.books ==> k == f.answers[f.books[k].serial].channel == c;
        assert f.books.Keys == {c};
      }
    } else {
      NoBooksNoAnswers(f);
    }
  }

  /** A book created for a channel that an earlier answer named is unreachable. */
  lemma ReachedMeansDistinct(f: Feed)
    requires AnswersInv(f) && BooksAreReached(f)
    ensures DistinctChannels(f)
  {
    forall i, j | 0 <= i < j < |f.answers|
      ensures f.answers[i].channel != f.answers[j].channel
    {
      assert f.fulfilled[f.answers[i].id].serial == i && f.fulfilled[f.answers[j].id].serial == j;
    }
  }

  lemma SingleIsTheOnlyBook(f: Feed, c: nat)
    requires BooksInv(f) && SingleInv(f) && c in f.books
    ensures Route(f, c) == Lookup(f, c)
  {
    if f.single.Some? {
      assert f.books[c].serial == 0;
    }
  }

  /** In every reachable state: a book is cached exactly when there has been one answer, which is when
      one book is registered, unless all of several answers have named one channel; and every client's
      book is reached by the updates of its channel if and only if no two answers have named the same
      channel. */
  lemma FastPathIsLookup(r: seq<Feed>, i: nat)
    requires Run(r) && i < |r|
    ensures r[i].single.Some? <==> |r[i].answers| == 1
    ensures (r[i].single.Some? <==> |r[i].books| == 1) <==> (|r[i].answers| <= 1 || SecondChannel(r[i]))
    ensures BooksAreReached(r[i]) <==> DistinctChannels(r[i])
    ensures DistinctChannels(r[i]) ==> |r[i].books| == |r[i].answers|
  {
    var f := r[i];
    RunKeepsInv(r, i);
    OneBookIff(f);
    if BooksAreReached(f) {
      ReachedMeansDistinct(f);
    }
    if DistinctChannels(f) {
      OneBookPerAnswer(f);
      FulfilledIsRegistered(f);
      forall id | id in f.fulfilled
        ensures Route(f, f.fulfilled[id].channel) == Some(f.fulfilled[id])
      {
        SingleIsTheOnlyBook(f, f.fulfilled[id].channel);
      }
    }
  }

  /** In every reachable state the fast path and the lookup differ in exactly one case: there has been one
      answer, and the channel is not its. The book of that answer then gets the update. */
  lemma FastPathIsLookupIff(r: seq<Feed>, i: nat, channel: nat)
    requires Run(r) && i < |r|
    ensures Route(r[i], channel) == Lookup(r[i], channel) <==> channel in r[i].books || |r[i].answers| != 1
    ensures Route(r[i], channel) != Lookup(r[i], channel) ==>
              Lookup(r[i], channel) == None && Route(r[i], channel) == Lookup(r[i], r[i].answers[0].channel)
  {
    var f := r[i];
    RunKeepsInv(r, i);
    if channel in f.books {
      SingleIsTheOnlyBook(f, channel);
    }
    if |f.answers| == 1 {
      SingleIsTheOnlyBook(f, f.answers[0].channel);
    }
  }

  /** A run without distinct channels: after a second answer for the same channel, one book is registered,
      none is cached, and the second client was given a book that no update of the channel will reach. */
  lemma RepeatedChannel(channel: nat) returns (r: seq<Feed>)
    ensures Run(r)
    ensures var f := r[|r| - 1];
            && |f.books| == 1 && f.single == None
            && 2 in f.fulfilled && f.fulfilled[2].channel == channel
            && Route(f, channel) != Some(f.fulfilled[2])
  {
    var r1 := Register(START);
    var r2 := Register(r1);
    var r3 := Take(r2, 1, channel);
    var r4 := Publish(r3);
    var r5 := Take(r4, 2, channel);
    var r6 := Publish(r5);
    r := [START, r1, r2, r3, r4, r5, r6];
    assert r3.receiver == Answering(1, channel) && r4.books == map[channel := BookRef(0, channel)];
    assert r5.receiver == Answering(2, channel) && |r6.books| == 1;
    assert NextStep(START, r1, RegisterStep) && NextStep(r1, r2, RegisterStep);
    assert NextStep(r2, r3, RespondStep(1, channel)) && NextStep(r3, r4, PublishStep);
    assert NextStep(r4, r5, RespondStep(2, channel)) && NextStep(r5, r6, PublishStep);
    hide NextStep, Register, Take, Publish;
  }
}
