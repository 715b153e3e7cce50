/** bitfinex/order_book_p.h: the level-based order book. A side is a flat map, that is, a sequence of
    levels sorted by price; it is a value member of the book, hence a sequence here. */
module OrderBook {
  import opened Bytes
  import opened Wrappers

  datatype PxQx = PxQx(price: nat, qty: real)
  datatype Side = Bid | Ask

  const EMPTY_LEVEL := PxQx(0, 0.0)

  function QxToSide(qty: real): Side {
    if qty < 0.0 then Ask else Bid
  }

  function Abs(qty: real): real {
    if qty < 0.0 then -qty else qty
  }

  // ----- one side -----

  ghost predicate Sorted(levels: seq<PxQx>) {
    forall i, j :: 0 <= i < j < |levels| ==> levels[i].price < levels[j].price
  }

  /** What `emplace` does to a price the map already has: it keeps the old quantity. The comment above
      `assign_level` says that the quantity is overwritten. */
  datatype Policy = Keep | Overwrite

  function Put(levels: seq<PxQx>, price: nat, qty: real, policy: Policy): seq<PxQx> {
    if levels == [] then [PxQx(price, qty)]
    else if levels[0].price < price then [levels[0]] + Put(levels[1..], price, qty, policy)
    else if levels[0].price == price then
      if policy == Keep then levels else [PxQx(price, qty)] + levels[1..]
    else [PxQx(price, qty)] + levels
  }

  function Erase(levels: seq<PxQx>, price: nat): seq<PxQx> {
    if levels == [] then []
    else if levels[0].price == price then levels[1..]
    else [levels[0]] + Erase(levels[1..], price)
  }

  /** The quantity held at a price. */
  function Lookup(levels: seq<PxQx>, price: nat): Option<real> {
    if levels == [] then None
    else if levels[0].price == price then Some(levels[0].qty)
    else Lookup(levels[1..], price)
  }

  /** The level at rank `offset` from the best one: asks from the front, bids from the back. */
  function BestPx(levels: seq<PxQx>, offset: nat, side: Side): PxQx {
    if offset >= |levels| then EMPTY_LEVEL
    else levels[if side == Ask then offset else |levels| - 1 - offset]
  }

  ghost predicate Above(levels: seq<PxQx>, price: nat) {
    forall i :: 0 <= i < |levels| ==> price < levels[i].price
  }

  lemma SortedCons(level: PxQx, levels: seq<PxQx>)
    ensures Sorted([level] + levels) <==> Sorted(levels) && Above(levels, level.price)
  {
    var s := [level] + levels;
    assert forall i :: 0 <= i < |levels| ==> s[i + 1] == levels[i];
    if Sorted(s) {
      forall i | 0 <= i < |levels|
        ensures level.price < levels[i].price
      {
        assert s[0].price < s[i + 1].price;
      }
    }
  }

  lemma LookupCons(level: PxQx, levels: seq<PxQx>, price: nat)
    ensures Lookup([level] + levels, price) == if level.price == price then Some(level.qty) else Lookup(levels, price)
  {
    assert ([level] + levels)[1..] == levels;
  }

  lemma AboveCons(level: PxQx, levels: seq<PxQx>, low: nat)
    ensures Above([level] + levels, low) <==> low < level.price && Above(levels, low)
  {
    var s := [level] + levels;
    assert forall i :: 0 <= i < |levels| ==> s[i + 1] == levels[i];
    assert s[0] == level;
  }

  lemma {:induction false} LookupAbove(levels: seq<PxQx>, price: nat, low: nat)
    requires Above(levels, low) && price <= low
    ensures Lookup(levels, price) == None
  {
    if levels != [] {
      LookupAbove(levels[1..], price, low);
    }
  }

  /** `assign_level` keeps the side sorted and changes no price but the one given. */
  lemma {:induction false} PutIsMapUpdate(levels: seq<PxQx>, price: nat, qty: real, policy: Policy, p: nat)
    requires Sorted(levels)
    ensures var after := Put(levels, price, qty, policy);
            && Sorted(after)
            && (forall low: nat :: Above(levels, low) && low < price ==> Above(after, low))
            && Lookup(after, p) ==
               if p != price then Lookup(levels, p)
               else if policy == Keep && Lookup(levels, p).Some? then Lookup(levels, p)
               else Some(qty)
  {
    if levels == [] {
      assert Put(levels, price, qty, policy) == [PxQx(price, qty)] + levels;
      SortedCons(PxQx(price, qty), levels);
      LookupCons(PxQx(price, qty), levels, p);
    } else {
      var head, tail := levels[0], levels[1..];
      assert levels == [head] + tail;
      SortedCons(head, tail);
      LookupCons(head, tail, p);
      if price <= head.price {
        LookupAbove(tail, price, head.price);
      }
      hide Sorted, Above, Lookup;
      forall low: nat {
        AboveCons(head, tail, low);
      }
      if head.price < price {
        PutIsMapUpdate(tail, price, qty, policy, p);
        var after := Put(tail, price, qty, policy);
        SortedCons(head, after);
        LookupCons(head, after, p);
        forall low: nat {
          AboveCons(head, after, low);
        }
      } else if head.price == price {
        SortedCons(PxQx(price, qty), tail);
        LookupCons(PxQx(price, qty), tail, p);
        forall low: nat {
          AboveCons(PxQx(price, qty), tail, low);
        }
      } else {
        SortedCons(PxQx(price, qty), levels);
        LookupCons(PxQx(price, qty), levels, p);
        forall low: nat {
          AboveCons(PxQx(price, qty), levels, low);
        }
      }
    }
  }

  /** `erase_level` keeps the side sorted and removes the price given and no other. */
  lemma {:induction false} EraseIsMapRemove(levels: seq<PxQx>, price: nat, p: nat)
    requires Sorted(levels)
    ensures var after := Erase(levels, price);
            && Sorted(after)
            && (forall low: nat :: Above(levels, low) ==> Above(after, low))
            && Lookup(after, p) == if p == price then None else Lookup(levels, p)
  {
    if levels != [] {
      var head, tail := levels[0], levels[1..];
      assert levels == [head] + tail;
      SortedCons(head, tail);
      if head.price == price {
        LookupAbove(tail, price, price);
      } else {
        EraseIsMapRemove(tail, price, p);
        SortedCons(head, Erase(tail, price));
        assert ([head] + Erase(tail, price))[1..] == Erase(tail, price);
      }
    }
  }

  /** Erasing what is not there changes nothing. */
  lemma {:induction false} EraseAbsent(levels: seq<PxQx>, price: nat)
    requires Lookup(levels, price) == None
    ensures Erase(levels, price) == levels
  {
    if levels != [] {
      EraseAbsent(levels[1..], price);
    }
  }

  /** Better: lower for asks, higher for bids. */
  predicate Better(a: PxQx, b: PxQx, side: Side) {
    if side == Ask then a.price < b.price else a.price > b.price
  }

  /** The ranked queries list every level exactly once, strictly from best to worst; the two sides'
      orders are mirror images; ranks past the end give the empty level. */
  lemma RankedQueries(levels: seq<PxQx>, side: Side)
    requires Sorted(levels)
    ensures forall i, j :: 0 <= i < j < |levels| ==> Better(BestPx(levels, i, side), BestPx(levels, j, side), side)
    ensures forall k :: 0 <= k < |levels| ==>
              var i := if side == Ask then k else |levels| - 1 - k;
              0 <= i < |levels| && BestPx(levels, i, side) == levels[k]
    ensures forall i :: 0 <= i < |levels| ==> BestPx(levels, i, Ask) == BestPx(levels, |levels| - 1 - i, Bid)
    ensures forall i :: i >= |levels| ==> BestPx(levels, i, side) == PxQx(0, 0.0)
  {
  }

  // ----- the book -----

  datatype Book = Book(bids: seq<PxQx>, asks: seq<PxQx>) {
    function Levels(side: Side): seq<PxQx> {
      if side == Bid then bids else asks
    }

    function With(side: Side, levels: seq<PxQx>): Book {
      if side == Bid then this.(bids := levels) else this.(asks := levels)
    }

    ghost predicate Valid() {
      Sorted(bids) && Sorted(asks)
    }

    function Assign(price: nat, qty: real, policy: Policy): Book {
      With(QxToSide(qty), Put(Levels(QxToSide(qty)), price, Abs(qty), policy))
    }

    function Remove(price: nat, qty: real): Book {
      With(QxToSide(qty), Erase(Levels(QxToSide(qty)), price))
    }

    function Tob(offset: nat): TOB {
      TOB(BestPx(bids, offset, Bid), BestPx(asks, offset, Ask))
    }
  }

  const EMPTY_BOOK := Book([], [])

  /** Top of book, both sides taken at once. */
  datatype TOB = TOB(bid: PxQx, ask: PxQx) {
    predicate HasBoth() {
      bid.price != 0 && ask.price != 0
    }

    /** The difference of two unsigned 32-bit prices, read as a signed number. */
    function Spread(): int {
      if !HasBoth() then 0
      else
        var d: int := (ask.price - bid.price) % TWO_32;
        if d < TWO_31 then d else d - TWO_32
    }

    /** C++ division, toward zero. */
    function Half(x: int): int {
      if x < 0 then -(-x / 2) else x / 2
    }

    function Mid(): int {
      if !HasBoth() then 0 else (bid.price + Half(Spread())) % TWO_32
    }
  }

  /** The spread is the true difference if and only if that fits 31 bits and a sign; then the mid price
      lies between the two prices, at most half a tick from their mean and not nearer to the ask. Without
      prices on both sides both are zero. */
  lemma SpreadIsExactIff(t: TOB)
    requires t.bid.price < TWO_32 && t.ask.price < TWO_32
    ensures t.bid.price == 0 || t.ask.price == 0 ==> t.Spread() == 0 && t.Mid() == 0
    ensures t.bid.price != 0 && t.ask.price != 0 ==>
              (t.Spread() == t.ask.price - t.bid.price <==> -TWO_31 <= t.ask.price - t.bid.price < TWO_31)
    ensures t.bid.price != 0 && t.ask.price != 0 && -TWO_31 <= t.ask.price - t.bid.price < TWO_31 ==>
              && (t.bid.price <= t.Mid() <= t.ask.price || t.ask.price <= t.Mid() <= t.bid.price)
              && -1 <= 2 * t.Mid() - (t.bid.price + t.ask.price) <= 1
              && (t.bid.price <= t.ask.price ==> t.Mid() - t.bid.price <= t.ask.price - t.Mid())
              && (t.bid.price >= t.ask.price ==> t.bid.price - t.Mid() <= t.Mid() - t.ask.price)
  {
  }

  /** A difference that does not fit comes out 2^32 too large or too small. */
  lemma SpreadWraps(t: TOB)
    requires t.bid.price < TWO_32 && t.ask.price < TWO_32 && t.bid.price != 0 && t.ask.price != 0
    ensures t.ask.price - t.bid.price >= TWO_31 ==> t.Spread() == t.ask.price - t.bid.price - TWO_32
    ensures t.ask.price - t.bid.price < -TWO_31 ==> t.Spread() == t.ask.price - t.bid.price + TWO_32
  {
  }

  /** The book as an object. Each method is one critical section of the book's lock. */
  class OrderBookP {
    const channel: nat
    var bids: seq<PxQx>
    var asks: seq<PxQx>

    ghost function Value(): Book
      reads this
    {
      Book(bids, asks)
    }

    ghost predicate Valid()
      reads this
    {
      Value().Valid()
    }

    constructor (channel: nat)
      ensures this.channel == channel && Value() == EMPTY_BOOK && Valid()
    {
      this.channel := channel;
      bids, asks := [], [];
    }

    method Clear()
      modifies this
      ensures Value() == EMPTY_BOOK
    {
      bids := [];
      asks := [];
    }

    method AssignLevel(price: nat, qty: real)
      requires Valid()
      modifies this
      ensures Valid() && Value() == old(Value()).Assign(price, qty, Keep)
      ensures qty < 0.0 ==>
                && bids == old(bids)
                && forall p: nat :: Lookup(asks, p) ==
                               if p == price && old(Lookup(asks, p)) == None then Some(-qty) else old(Lookup(asks, p))
      ensures qty >= 0.0 ==>
                && asks == old(asks)
                && forall p: nat :: Lookup(bids, p) ==
                               if p == price && old(Lookup(bids, p)) == None then Some(qty) else old(Lookup(bids, p))
    {
      var side := QxToSide(qty);
      PutIsMapUpdate(Value().Levels(side), price, Abs(qty), Keep, price);
      forall p: nat {
        PutIsMapUpdate(Value().Levels(side), price, Abs(qty), Keep, p);
      }
      if side == Bid {
        bids := Put(bids, price, Abs(qty), Keep);
      } else {
        asks := Put(asks, price, Abs(qty), Keep);
      }
    }

    method EraseLevel(price: nat, qty: real)
      requires Valid()
      modifies this
      ensures Valid() && Value() == old(Value()).Remove(price, qty)
      ensures qty < 0.0 ==>
                && bids == old(bids)
                && forall p: nat :: Lookup(asks, p) == if p == price then None else old(Lookup(asks, p))
      ensures qty >= 0.0 ==>
                && asks == old(asks)
                && forall p: nat :: Lookup(bids, p) == if p == price then None else old(Lookup(bids, p))
    {
      var side := QxToSide(qty);
      EraseIsMapRemove(Value().Levels(side), price, price);
      forall p: nat {
        EraseIsMapRemove(Value().Levels(side), price, p);
      }
      if side == Bid {
        bids := Erase(bids, price);
      } else {
        asks := Erase(asks, price);
      }
    }

    method GetTob(offset: nat) returns (tob: TOB)
      ensures tob == Value().Tob(offset)
      ensures offset >= |asks| ==> tob.ask == PxQx(0, 0.0)
      ensures offset >= |bids| ==> tob.bid == PxQx(0, 0.0)
      ensures Valid() && offset < |asks| ==>
                forall i :: 0 <= i < |asks| ==> (asks[i].price < tob.ask.price <==> i < offset)
      ensures Valid() && offset < |bids| ==>
                forall i :: 0 <= i < |bids| ==> (bids[i].price > tob.bid.price <==> |bids| - 1 - i < offset)
    {
      tob := TOB(BestPx(bids, offset, Bid), BestPx(asks, offset, Ask));
    }
  }

  // ----- whole histories of updates -----

  /** One P0 update as the feed applies it: no orders left means erase. */
  datatype Update = Update(price: nat, count: nat, qty: real)

  function Apply(b: Book, u: Update, policy: Policy): Book {
    if u.count == 0 then b.Remove(u.price, u.qty) else b.Assign(u.price, u.qty, policy)
  }

  function Replay(h: seq<Update>, policy: Policy): Book {
    if h == [] then EMPTY_BOOK else Apply(Replay(h[..|h| - 1], policy), h[|h| - 1], policy)
  }

  /** Negative quantities are asks. */
  predicate Concerns(u: Update, side: Side, price: nat) {
    u.price == price && (u.qty < 0.0 <==> side == Ask)
  }

  /** The quantity without the sign that says the side. */
  function Amount(u: Update, side: Side): real {
    if side == Ask then -u.qty else u.qty
  }

  /** The latest update of a history that concerns a side and a price. */
  function Latest(h: seq<Update>, side: Side, price: nat): Option<Update> {
    if h == [] then None
    else if Concerns(h[|h| - 1], side, price) then Some(h[|h| - 1])
    else Latest(h[..|h| - 1], side, price)
  }

  /** There has been no update, or the latest one was an erasure. */
  predicate Vacant(h: seq<Update>, side: Side, price: nat) {
    var latest := Latest(h, side, price);
    latest.Some? ==> latest.value.count == 0
  }

  /** Update k leaves orders where there were none, and they have not been erased since. */
  predicate Opens(h: seq<Update>, side: Side, price: nat, k: nat)
    requires k < |h|
  {
    && Concerns(h[k], side, price) && h[k].count != 0 && Vacant(h[..k], side, price)
    && forall j :: k < j < |h| && Concerns(h[j], side, price) ==> h[j].count != 0
  }

  /** The update that opened the level now quoted at a side and a price. */
  function Opening(h: seq<Update>, side: Side, price: nat): (r: Option<nat>)
    ensures r.Some? ==> r.value < |h| && Opens(h, side, price, r.value)
    ensures r.None? <==> Vacant(h, side, price)
  {
    if h == [] then None
    else
      var before, u := h[..|h| - 1], h[|h| - 1];
      if !Concerns(u, side, price) then
        var r := Opening(before, side, price);
        assert r.Some? ==> before[..r.value] == h[..r.value];
        r
      else if u.count == 0 then None
      else
        var r := Opening(before, side, price);
        assert r.Some? ==> before[..r.value] == h[..r.value];
        if r.Some? then r else Some(|before|)
  }

  lemma {:induction false} OpeningIsUnique(h: seq<Update>, side: Side, price: nat, k: nat)
    requires k < |h| && Opens(h, side, price, k)
    ensures Opening(h, side, price) == Some(k)
    decreases |h|
  {
    var before := h[..|h| - 1];
    if k < |before| {
      assert before[..k] == h[..k];
      OpeningIsUnique(before, side, price, k);
    } else {
      assert before == h[..k];
    }
  }

  lemma ApplyIsLocal(b: Book, u: Update, policy: Policy, side: Side, price: nat)
    requires b.Valid()
    ensures var after := Apply(b, u, policy);
            && after.Valid()
            && Lookup(after.Levels(side), price) ==
               if !Concerns(u, side, price) then Lookup(b.Levels(side), price)
               else if u.count == 0 then None
               else if policy == Keep && Lookup(b.Levels(side), price).Some? then Lookup(b.Levels(side), price)
               else Some(Amount(u, side))
  {
    var s := QxToSide(u.qty);
    PutIsMapUpdate(b.Levels(s), u.price, Abs(u.qty), policy, price);
    EraseIsMapRemove(b.Levels(s), u.price, price);
  }

  /** After any updates, under either reading of `assign_level`, each side is strictly sorted and holds
      exactly the prices whose latest update on that side left orders there. */
  lemma {:induction false} PricesAreTheLatest(h: seq<Update>, policy: Policy, side: Side, price: nat)
    ensures Replay(h, policy).Valid()
    ensures Lookup(Replay(h, policy).Levels(side), price).Some? <==>
            !Vacant(h, side, price)
  {
    if h != [] {
      var before := h[..|h| - 1];
      PricesAreTheLatest(before, policy, side, price);
      ApplyIsLocal(Replay(before, policy), h[|h| - 1], policy, side, price);
      hide Apply;
    }
  }

  /** Under the documented overwriting, the quantity at a price is that of the latest update. */
  lemma {:induction false} QuantityIsTheLatest(h: seq<Update>, side: Side, price: nat)
    ensures Lookup(Replay(h, Overwrite).Levels(side), price) ==
            match Latest(h, side, price)
            case None => None
            case Some(u) => if u.count == 0 then None else Some(Amount(u, side))
  {
    if h != [] {
      var before := h[..|h| - 1];
      QuantityIsTheLatest(before, side, price);
      PricesAreTheLatest(before, Overwrite, side, price);
      ApplyIsLocal(Replay(before, Overwrite), h[|h| - 1], Overwrite, side, price);
      hide Apply;
    }
  }

  /** What the code does instead: the quantity at a price is that of the update that opened the level,
      whatever later updates said. */
  lemma {:induction false} QuantityIsTheOpening(h: seq<Update>, side: Side, price: nat)
    ensures Lookup(Replay(h, Keep).Levels(side), price) ==
            match Opening(h, side, price)
            case None => None
            case Some(k) => Some(Amount(h[k], side))
  {
    if h != [] {
      var before := h[..|h| - 1];
      QuantityIsTheOpening(before, side, price);
      PricesAreTheLatest(before, Keep, side, price);
      ApplyIsLocal(Replay(before, Keep), h[|h| - 1], Keep, side, price);
      hide Apply, Opens;
    }
  }

  lemma {:induction false} LookupAt(levels: seq<PxQx>, k: nat)
    requires Sorted(levels) && k < |levels|
    ensures Lookup(levels, levels[k].price) == Some(levels[k].qty)
  {
    if k > 0 {
      LookupAt(levels[1..], k - 1);
    }
  }

  lemma {:induction false} LookupFrom(levels: seq<PxQx>, price: nat) returns (k: nat)
    requires Lookup(levels, price).Some?
    ensures k < |levels| && levels[k].price == price
  {
    if levels[0].price == price {
      k := 0;
    } else {
      k := LookupFrom(levels[1..], price);
      k := k + 1;
    }
  }

  /** The price is that of a level whose rank is below the limit. */
  ghost predicate HasRankBelow(levels: seq<PxQx>, side: Side, price: nat, limit: nat) {
    exists k :: 0 <= k < limit && k < |levels| && BestPx(levels, k, side).price == price
  }

  lemma BetterHasRankBelow(levels: seq<PxQx>, side: Side, price: nat, offset: nat)
    requires Sorted(levels) && offset < |levels|
    ensures var better := Better(PxQx(price, 0.0), BestPx(levels, offset, side), side);
            HasRankBelow(levels, side, price, |levels|) && better <==> HasRankBelow(levels, side, price, offset)
  {
  }

  lemma HeldIsRanked(h: seq<Update>, side: Side, p: nat)
    ensures var levels := Replay(h, Keep).Levels(side);
            !Vacant(h, side, p) <==> HasRankBelow(levels, side, p, |levels|)
  {
    var levels := Replay(h, Keep).Levels(side);
    PricesAreTheLatest(h, Keep, side, p);
    hide Vacant, Replay;
    if Lookup(levels, p).Some? {
      var k := LookupFrom(levels, p);
      var rank := if side == Ask then k else |levels| - 1 - k;
      assert BestPx(levels, rank, side).price == p;
    }
    if k :| 0 <= k < |levels| && BestPx(levels, k, side).price == p {
      LookupAt(levels, if side == Ask then k else |levels| - 1 - k);
    }
  }

  /** A level by the history that made the book: it has the quantity of the update that opened it, and the
      better prices that have orders are those of the ranks below `offset`. The empty level means that the
      ranks below already hold all prices that have orders. */
  ghost predicate IsRankOf(level: PxQx, h: seq<Update>, side: Side, offset: nat) {
    var levels := Replay(h, Keep).Levels(side);
    if offset < |levels| then
      && !Vacant(h, side, level.price)
      && level.qty == Amount(h[Opening(h, side, level.price).value], side)
      && forall p: nat :: !Vacant(h, side, p) && Better(PxQx(p, 0.0), level, side) <==>
                     HasRankBelow(levels, side, p, offset)
    else
      && level == PxQx(0, 0.0)
      && forall p: nat :: !Vacant(h, side, p) <==> HasRankBelow(levels, side, p, offset)
  }

  lemma RankOfHistory(h: seq<Update>, side: Side, offset: nat)
    ensures IsRankOf(BestPx(Replay(h, Keep).Levels(side), offset, side), h, side, offset)
  {
    var levels := Replay(h, Keep).Levels(side);
    PricesAreTheLatest(h, Keep, side, 0);
    forall p: nat
      ensures !Vacant(h, side, p) <==> HasRankBelow(levels, side, p, |levels|)
    {
      HeldIsRanked(h, side, p);
    }
    hide Vacant, Replay, Opens, Lookup, Opening;
    if offset < |levels| {
      hide HasRankBelow;
      var at := if side == Ask then offset else |levels| - 1 - offset;
      LookupAt(levels, at);
      QuantityIsTheOpening(h, side, levels[at].price);
      PricesAreTheLatest(h, Keep, side, levels[at].price);
      forall p: nat {
        BetterHasRankBelow(levels, side, p, offset);
      }
    }
  }

  /** At the end of a history, code and documentation show the same quantity at a price if and only if the
      price is vacant or the update that opened its level and the latest one agree on the quantity. */
  lemma QuantityIsDocumentedIff(h: seq<Update>, side: Side, price: nat)
    ensures Lookup(Replay(h, Keep).Levels(side), price) == Lookup(Replay(h, Overwrite).Levels(side), price) <==>
            || Vacant(h, side, price)
            || Amount(h[Opening(h, side, price).value], side) == Amount(Latest(h, side, price).value, side)
  {
    QuantityIsTheOpening(h, side, price);
    QuantityIsTheLatest(h, side, price);
    hide Replay, Opening;
  }

  /** The update gives a new quantity to a price that the book already holds. */
  predicate Requotes(b: Book, u: Update) {
    && u.count != 0
    && Lookup(b.Levels(QxToSide(u.qty)), u.price).Some?
    && Lookup(b.Levels(QxToSide(u.qty)), u.price).value != Abs(u.qty)
  }

  lemma {:induction false} PutTwiceSame(levels: seq<PxQx>, price: nat, qty: real)
    requires Sorted(levels)
    ensures Put(levels, price, qty, Keep) == Put(levels, price, qty, Overwrite) <==>
            Lookup(levels, price) == None || Lookup(levels, price) == Some(qty)
  {
    if levels != [] {
      var head, tail := levels[0], levels[1..];
      assert levels == [head] + tail;
      SortedCons(head, tail);
      if head.price < price {
        PutTwiceSame(tail, price, qty);
        var k, o := Put(tail, price, qty, Keep), Put(tail, price, qty, Overwrite);
        assert ([head] + k)[1..] == k && ([head] + o)[1..] == o;
      } else if head.price == price {
        assert ([PxQx(price, qty)] + tail)[0] == PxQx(price, qty);
      } else {
        LookupAbove(levels, price, price);
      }
    }
  }

  lemma ApplySameIff(b: Book, u: Update)
    requires b.Valid()
    ensures Apply(b, u, Keep) == Apply(b, u, Overwrite) <==> !Requotes(b, u)
  {
    PutTwiceSame(b.Levels(QxToSide(u.qty)), u.price, Abs(u.qty));
  }

  /** The code's book and the documented one are the same after every prefix of the history. */
  ghost predicate SameThroughout(h: seq<Update>) {
    Replay(h, Keep) == Replay(h, Overwrite) && (h != [] ==> SameThroughout(h[..|h| - 1]))
  }

  /** No update of the history gives a new quantity to a price that the book then holds. */
  predicate NeverRequotes(h: seq<Update>) {
    h != [] ==> NeverRequotes(h[..|h| - 1]) && !Requotes(Replay(h[..|h| - 1], Keep), h[|h| - 1])
  }

  /** The code, which keeps, shows the documented book, which overwrites, throughout a history if and
      only if no update gives a new quantity to a price the book holds. */
  lemma {:induction false} KeepIsOverwriteIff(h: seq<Update>)
    ensures SameThroughout(h) <==> NeverRequotes(h)
  {
    if h != [] {
      var before := h[..|h| - 1];
      KeepIsOverwriteIff(before);
      PricesAreTheLatest(before, Keep, Bid, 0);
      ApplySameIff(Replay(before, Keep), h[|h| - 1]);
      hide Apply, Requotes;
    }
  }

  /** A history on which the code and its documentation differ: a price quoted twice. */
  lemma RequoteIsLost(price: nat)
    ensures var h := [Update(price, 1, 1.0), Update(price, 2, 3.0)];
            && Lookup(Replay(h, Keep).bids, price) == Some(1.0)
            && Lookup(Replay(h, Overwrite).bids, price) == Some(3.0)
  {
    var u, v := Update(price, 1, 1.0), Update(price, 2, 3.0);
    var h := [u, v];
    assert h[..1] == [u] && [u][..0] == [];
    assert Replay([u], Keep) == Replay([u], Overwrite) == Book([PxQx(price, 1.0)], []);
  }
}
