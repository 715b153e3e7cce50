/** The subscription protocol and the feed are two views of one thing: every history of the feed is a run
    of the protocol, in which the receive thread is never interrupted while it answers. */
module FeedProtocol {
  import opened Wrappers
  import F = MarketDataFeed
  import O = OrderBook
  import S = Subscription

  /** The feed between two happenings, seen through the protocol: the same ids in the same places, the
      same channels registered, and the same one cached. */
  predicate Shows(g: S.Feed, f: F.FeedState) {
    && g.receiver.Listening?
    && f.next == g.next && f.pending == g.pending && f.fulfilled == g.fulfilled.Keys
    && f.books.Keys == g.books.Keys
    && f.single == ChannelOf(g.single)
  }

  function ChannelOf(book: Option<S.BookRef>): Option<nat> {
    if book.None? then None else Some(book.value.channel)
  }

  /** An accepted answer is the two steps of the receive thread. */
  lemma AnswerShows(g: S.Feed, f: F.FeedState, id: int, channel: nat)
    requires Shows(g, f) && id in f.pending
    ensures Shows(S.Publish(S.Take(g, id, channel)), F.Answered(f, id, channel))
  {
    assert |f.books| == |f.books.Keys| && |g.books| == |g.books.Keys|;
    var g', f' := S.Publish(S.Take(g, id, channel)), F.Answered(f, id, channel);
    hide Shows;
    assert g'.books.Keys == f'.books.Keys && f'.single == ChannelOf(g'.single);
    assert g'.fulfilled.Keys == g.fulfilled.Keys + {id};
  }

  lemma UpdateShows(g: S.Feed, f: F.FeedState, channel: nat, u: O.Update)
    requires Shows(g, f)
    ensures Shows(g, F.AfterUpdate(f, channel, u))
  {
    assert F.AfterUpdate(f, channel, u).books.Keys == f.books.Keys;
  }

  /** An update goes to the book of the channel that the protocol routes it to. */
  lemma RouteShows(g: S.Feed, f: F.FeedState, channel: nat)
    requires Shows(g, f) && S.BooksInv(g)
    ensures F.Routed(f, channel) == ChannelOf(S.Route(g, channel))
  {
  }

  /** An answer for a channel that is not registered keeps the channels distinct. */
  lemma NewChannelIsDistinct(g: S.Feed, id: int, channel: nat)
    requires S.BooksInv(g) && S.DistinctChannels(g)
    requires g.receiver.Listening? && id in g.pending && channel !in g.books
    ensures S.DistinctChannels(S.Publish(S.Take(g, id, channel)))
  {
  }

  lemma InvBooks(g: S.Feed)
    requires S.Inv(g)
    ensures S.BooksInv(g)
  {
  }

  lemma Longer(r: seq<S.Feed>, g: S.Feed, step: S.Step)
    requires S.Run(r) && S.NextStep(r[|r| - 1], g, step)
    ensures S.Run(r + [g])
  {
    hide S.NextStep;
  }

  lemma AnswerIsSteps(r: seq<S.Feed>, f: F.FeedState, id: int, channel: nat) returns (r': seq<S.Feed>)
    requires S.Run(r) && Shows(r[|r| - 1], f) && id in f.pending
    ensures S.Run(r') && Shows(r'[|r'| - 1], F.Answered(f, id, channel)) && r <= r'
    ensures S.DistinctChannels(r[|r| - 1]) && channel !in f.books ==> S.DistinctChannels(r'[|r'| - 1])
  {
    var g := r[|r| - 1];
    var taken := S.Take(g, id, channel);
    assert taken.receiver.Answering?;
    assert S.NextStep(g, taken, S.RespondStep(id, channel));
    assert S.NextStep(taken, S.Publish(taken), S.PublishStep);
    AnswerShows(g, f, id, channel);
    assert S.BooksInv(g) by { S.RunKeepsInv(r, |r| - 1); InvBooks(g); }
    if S.DistinctChannels(g) && channel !in f.books {
      NewChannelIsDistinct(g, id, channel);
    }
    hide S.Inv, S.DistinctChannels, S.BooksInv, S.Run, S.NextStep, S.Take, S.Publish, F.Answered;
    Longer(r, taken, S.RespondStep(id, channel));
    Longer(r + [taken], S.Publish(taken), S.PublishStep);
    r' := r + [taken] + [S.Publish(taken)];
  }

  /** The steps of the protocol that a happening consists of. */
  lemma HappeningIsSteps(r: seq<S.Feed>, f: F.FeedState, h: F.Happening) returns (r': seq<S.Feed>)
    requires S.Run(r) && Shows(r[|r| - 1], f) && F.After(f, h).Some?
    ensures S.Run(r') && Shows(r'[|r'| - 1], F.After(f, h).value)
    ensures S.DistinctChannels(r[|r| - 1]) && (h.Delivering? ==> F.OrderlyCall(f, h.call)) ==>
              S.DistinctChannels(r'[|r'| - 1])
  {
    var g := r[|r| - 1];
    hide S.DistinctChannels, S.Run, F.Answered, F.Atoi, F.ToChannel, O.Apply;
    r' := r;
    if h.Subscribing? {
      Longer(r, S.Register(g), S.RegisterStep);
      r' := r + [S.Register(g)];
    } else if h.call.UpdateP? {
      UpdateShows(g, f, h.call.channel, F.UpdateOf(h.call, h.unset));
    } else if F.AfterEvent(f, h.call.pairs) != Some(f) {
      var id, channel := F.Atoi(h.call.pairs["subId"]), F.ToChannel(F.Atoi(h.call.pairs["chanId"]));
      r' := AnswerIsSteps(r, f, id, channel);
    }
  }

  /** Every history of the feed is a run of the protocol. */
  lemma {:induction false} HistoryIsRun(hs: seq<F.Happening>) returns (r: seq<S.Feed>)
    requires F.AfterAll(hs).Some?
    ensures S.Run(r) && Shows(r[|r| - 1], F.AfterAll(hs).value)
    ensures F.Orderly(hs) ==> S.DistinctChannels(r[|r| - 1])
  {
    if hs == [] {
      r := [S.START];
    } else {
      var before, h := hs[..|hs| - 1], hs[|hs| - 1];
      r := HistoryIsRun(before);
      hide S.Run, F.After, F.OrderlyCall, S.DistinctChannels, Shows;
      r := HappeningIsSteps(r, F.AfterAll(before).value, h);
    }
  }

  /** In every history the book an update is applied to is the registered book of its channel, except
      that a cached book gets the updates of unregistered channels too; and in an orderly history a book
      is cached exactly when one is registered. */
  lemma {:induction false} CacheIsExact(hs: seq<F.Happening>, channel: nat)
    requires F.AfterAll(hs).Some?
    ensures var f := F.AfterAll(hs).value;
            && (F.Routed(f, channel) == (if channel in f.books then Some(channel) else None) <==>
                channel in f.books || f.single == None)
            && (F.Orderly(hs) ==> (f.single.Some? <==> |f.books| == 1))
  {
    var f := F.AfterAll(hs).value;
    var r := HistoryIsRun(hs);
    var g := r[|r| - 1];
    S.RunKeepsInv(r, |r| - 1);
    S.FastPathIsLookup(r, |r| - 1);
    S.FastPathIsLookupIff(r, |r| - 1, channel);
    RouteShows(g, f, channel);
    assert |f.books| == |f.books.Keys| == |g.books.Keys| == |g.books|;
  }
}
