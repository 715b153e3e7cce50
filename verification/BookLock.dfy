/** The book's spin lock (core/thread_utils.h) under any interleaving of any number of threads: every
    operation on the book takes effect as if it happened at one instant. A step of the system is one
    access of one thread to shared memory. */
module BookLock {
  import opened OrderBook

  datatype Op = Assign(price: nat, qty: real) | Remove(price: nat, qty: real) | Clear | GetTob(offset: nat)
  datatype Result = Ack | Top(tob: TOB)

  /** Where a thread is in its current call. `since` is the number of operations that had taken effect
      when the call began; `pc` accesses to the book have been made, and `seen` is what was read. */
  datatype Thread =
    | Idle
    | Spinning(op: Op, since: nat)
    | Inside(op: Op, since: nat, pc: nat, seen: PxQx)
    | Leaving(op: Op, since: nat, result: Result)

  /** An operation that has taken effect, and what it returned. */
  datatype Entry = Entry(op: Op, result: Result)

  datatype System = System(flag: bool, book: Book, threads: map<nat, Thread>, log: seq<Entry>)

  // ----- the operations, access by access -----

  /** How many accesses to the book an operation makes while it holds the lock. */
  function Accesses(op: Op): nat {
    match op
    case Assign(_, _) => 1
    case Remove(_, _) => 1
    case Clear => 2
    case GetTob(_) => 2
  }

  /** The book after access number pc of an operation. */
  function Access(op: Op, pc: nat, b: Book): Book {
    match op
    case Assign(price, qty) => b.Assign(price, qty, Keep)
    case Remove(price, qty) => b.Remove(price, qty)
    case Clear => if pc == 0 then b.(bids := []) else b.(asks := [])
    case GetTob(_) => b
  }

  /** What the thread keeps in a local variable after access number pc. */
  function See(op: Op, pc: nat, b: Book, seen: PxQx): PxQx {
    if op.GetTob? && pc == 0 then BestPx(b.bids, op.offset, Bid) else seen
  }

  /** The result, when the last access finds the book in state b. */
  function ResultOf(op: Op, b: Book, seen: PxQx): Result {
    if op.GetTob? then Top(TOB(seen, BestPx(b.asks, op.offset, Ask))) else Ack
  }

  // ----- steps -----

  /** A thread enters an operation. */
  ghost predicate Call(s: System, s': System, t: nat, op: Op) {
    && t in s.threads && s.threads[t].Idle?
    && s' == s.(threads := s.threads[t := Spinning(op, |s.log|)])
  }

  /** The atomic test-and-set: the flag is set in any case, and the thread enters if it was clear. */
  ghost predicate TestAndSet(s: System, s': System, t: nat) {
    && t in s.threads && s.threads[t].Spinning?
    && var me := s.threads[t];
       s' == s.(flag := true,
                threads := if s.flag then s.threads
                           else s.threads[t := Inside(me.op, me.since, 0, EMPTY_LEVEL)])
  }

  /** One access to the book, not the last one. */
  ghost predicate Touch(s: System, s': System, t: nat) {
    && t in s.threads && s.threads[t].Inside?
    && var me := s.threads[t];
       && me.pc + 1 < Accesses(me.op)
       && s' == s.(book := Access(me.op, me.pc, s.book),
                   threads := s.threads[t := me.(pc := me.pc + 1, seen := See(me.op, me.pc, s.book, me.seen))])
  }

  /** The last access: the operation has now taken effect, and is logged. The lock is still held. */
  ghost predicate Finish(s: System, s': System, t: nat) {
    && t in s.threads && s.threads[t].Inside?
    && var me := s.threads[t];
       && me.pc + 1 == Accesses(me.op)
       && var result := ResultOf(me.op, s.book, me.seen);
          s' == s.(book := Access(me.op, me.pc, s.book),
                   threads := s.threads[t := Leaving(me.op, me.since, result)],
                   log := s.log + [Entry(me.op, result)])
  }

  /** The flag is cleared and the call returns. */
  ghost predicate Release(s: System, s': System, t: nat) {
    && t in s.threads && s.threads[t].Leaving?
    && s' == s.(flag := false, threads := s.threads[t := Idle])
  }

  ghost predicate Next(s: System, s': System) {
    exists t :: Call'(s, s', t) || TestAndSet(s, s', t) || Touch(s, s', t) || Finish(s, s', t) || Release(s, s', t)
  }

  ghost predicate Call'(s: System, s': System, t: nat) {
    exists op :: Call(s, s', t, op)
  }

  ghost predicate Init(s: System) {
    && !s.flag && s.book == EMPTY_BOOK && s.log == []
    && forall t :: t in s.threads ==> s.threads[t].Idle?
  }

  /** A run: any number of steps from an initial state. */
  ghost predicate Run(r: seq<System>) {
    && r != [] && Init(r[0])
    && forall i :: 0 < i < |r| ==> Next(r[i - 1], r[i])
  }

  // ----- the sequential book that the log is compared with -----

  /** The whole operation in one step. */
  function Effect(op: Op, b: Book): Book {
    match op
    case Assign(price, qty) => b.Assign(price, qty, Keep)
    case Remove(price, qty) => b.Remove(price, qty)
    case Clear => EMPTY_BOOK
    case GetTob(_) => b
  }

  function Outcome(op: Op, b: Book): Result {
    if op.GetTob? then Top(b.Tob(op.offset)) else Ack
  }

  /** The book after the logged operations, each done in one step. */
  function BookAfter(log: seq<Entry>): Book {
    if log == [] then EMPTY_BOOK else Effect(log[|log| - 1].op, BookAfter(log[..|log| - 1]))
  }

  /** Every logged result is what the operation returns when the logged operations are done one after
      another, each in one step. */
  ghost predicate Sequential(log: seq<Entry>) {
    log != [] ==>
      && Sequential(log[..|log| - 1])
      && log[|log| - 1].result == Outcome(log[|log| - 1].op, BookAfter(log[..|log| - 1]))
  }

  // ----- the invariant -----

  ghost predicate Holds(s: System, t: nat) {
    t in s.threads && (s.threads[t].Inside? || s.threads[t].Leaving?)
  }

  /** The book in the middle of an operation that found it as b. */
  function Midway(op: Op, pc: nat, b: Book): Book {
    if op.Clear? && pc == 1 then b.(bids := []) else b
  }

  ghost predicate Inv(s: System) {
    && (forall t, u :: Holds(s, t) && Holds(s, u) ==> t == u)
    && (s.flag <==> exists t :: Holds(s, t))
    && ((forall t :: t in s.threads ==> !s.threads[t].Inside?) ==> s.book == BookAfter(s.log))
    && (forall t :: t in s.threads && s.threads[t].Inside? ==> InsideInv(s.threads[t], s))
    && Sequential(s.log)
    && (forall t :: t in s.threads && !s.threads[t].Idle? ==> s.threads[t].since <= |s.log|)
    && (forall t :: t in s.threads && s.threads[t].Leaving? ==>
          && s.threads[t].since < |s.log|
          && s.log[|s.log| - 1] == Entry(s.threads[t].op, s.threads[t].result))
  }

  ghost predicate InsideInv(me: Thread, s: System)
    requires me.Inside?
  {
    && me.pc < Accesses(me.op)
    && s.book == Midway(me.op, me.pc, BookAfter(s.log))
    && (me.op.GetTob? && me.pc == 1 ==> me.seen == BestPx(s.book.bids, me.op.offset, Bid))
  }

  lemma InitInv(s: System)
    requires Init(s)
    ensures Inv(s)
  {
  }

  lemma CallKeepsInv(s: System, s': System, t: nat, op: Op)
    requires Inv(s) && Call(s, s', t, op)
    ensures Inv(s')
  {
    hide BookAfter, Sequential;
    assert forall u :: Holds(s', u) <==> Holds(s, u);
    assert forall u :: u in s'.threads && s'.threads[u].Inside? ==> s'.threads[u] == s.threads[u];
    assert forall u :: u in s.threads && s.threads[u].Inside? ==> s'.threads[u].Inside?;
  }

  lemma TestAndSetKeepsInv(s: System, s': System, t: nat)
    requires Inv(s) && TestAndSet(s, s', t)
    ensures Inv(s')
  {
    hide BookAfter, Sequential;
    if s.flag {
      assert s' == s;
    } else {
      forall u
        ensures !Holds(s, u) && (Holds(s', u) <==> u == t) && (u in s.threads ==> !s.threads[u].Inside?)
      {
        assert !Holds(s, u);
      }
    }
  }

  lemma TouchKeepsInv(s: System, s': System, t: nat)
    requires Inv(s) && Touch(s, s', t)
    ensures Inv(s')
  {
    hide BookAfter, Sequential;
    assert forall u :: Holds(s', u) <==> Holds(s, u);
    assert Holds(s, t);
    forall u | u in s'.threads && s'.threads[u].Inside?
      ensures u == t
    {
      assert Holds(s, u);
    }
    forall u | u in s'.threads
      ensures !s'.threads[u].Leaving?
    {
      assert Holds(s, u) ==> u == t;
    }
    assert s'.threads[t].Inside?;
  }

  lemma FinishKeepsInv(s: System, s': System, t: nat)
    requires Inv(s) && Finish(s, s', t)
    ensures Inv(s')
  {
    var me := s.threads[t];
    assert Holds(s, t) && InsideInv(me, s);
    assert s'.log[..|s'.log| - 1] == s.log;
    assert BookAfter(s'.log) == Effect(me.op, BookAfter(s.log)) == s'.book;
    assert Sequential(s'.log);
    hide BookAfter, Sequential;
    assert forall u :: Holds(s', u) <==> Holds(s, u);
    forall u | u in s'.threads && (s'.threads[u].Inside? || s'.threads[u].Leaving?)
      ensures u == t
    {
      assert Holds(s', u);
    }
  }

  lemma ReleaseKeepsInv(s: System, s': System, t: nat)
    requires Inv(s) && Release(s, s', t)
    ensures Inv(s')
  {
    hide BookAfter, Sequential;
    assert Holds(s, t);
    forall u
      ensures !Holds(s', u) && (u in s.threads ==> !s.threads[u].Inside?)
    {
      assert Holds(s, u) ==> u == t;
    }
    assert forall u :: u in s'.threads && s'.threads[u].Inside? ==> Holds(s', u);
    assert forall u :: u in s'.threads && s'.threads[u].Leaving? ==> Holds(s', u);
  }

  lemma NextKeepsInv(s: System, s': System)
    requires Inv(s) && Next(s, s')
    ensures Inv(s')
  {
    hide Inv;
    var t :| Call'(s, s', t) || TestAndSet(s, s', t) || Touch(s, s', t) || Finish(s, s', t) || Release(s, s', t);
    if Call'(s, s', t) {
      var op :| Call(s, s', t, op);
      CallKeepsInv(s, s', t, op);
    } else if TestAndSet(s, s', t) {
      TestAndSetKeepsInv(s, s', t);
    } else if Touch(s, s', t) {
      TouchKeepsInv(s, s', t);
    } else if Finish(s, s', t) {
      FinishKeepsInv(s, s', t);
    } else {
      ReleaseKeepsInv(s, s', t);
    }
  }

  lemma {:induction false} RunKeepsInv(r: seq<System>, i: nat)
    requires Run(r) && i < |r|
    ensures Inv(r[i])
  {
    if i == 0 {
      InitInv(r[0]);
    } else {
      RunKeepsInv(r, i - 1);
      NextKeepsInv(r[i - 1], r[i]);
    }
  }

  /** In every run, at most one thread holds the lock at a time. */
  lemma MutualExclusion(r: seq<System>, i: nat, t: nat, u: nat)
    requires Run(r) && i < |r| && Holds(r[i], t) && Holds(r[i], u)
    ensures t == u && r[i].flag
  {
    RunKeepsInv(r, i);
  }

  lemma {:induction false} SequentialAt(log: seq<Entry>, n: nat)
    requires Sequential(log) && n < |log|
    ensures log[n].result == Outcome(log[n].op, BookAfter(log[..n]))
    decreases |log|
  {
    var before := log[..|log| - 1];
    if n < |before| {
      SequentialAt(before, n);
      assert before[..n] == log[..n] && before[n] == log[n];
    } else {
      assert log[..n] == before;
    }
  }

  /** A thread that holds the lock and has begun to work held it before, in the same call. */
  lemma HeldBefore(s: System, s': System, t: nat)
    requires Inv(s) && Next(s, s') && Holds(s', t)
    requires s'.threads[t].Inside? ==> s'.threads[t].pc > 0
    ensures Holds(s, t) && s.threads[t].op == s'.threads[t].op
    ensures s'.threads[t].Inside? || s.threads[t].Leaving? ==>
              s.threads[t].Inside? == s'.threads[t].Inside? && s'.log == s.log
    ensures s'.threads[t].Leaving? && s.threads[t].Inside? ==>
              s'.log == s.log + [Entry(s'.threads[t].op, s'.threads[t].result)]
  {
    hide BookAfter, Sequential, InsideInv, ResultOf;
    var u :| Call'(s, s', u) || TestAndSet(s, s', u) || Touch(s, s', u) || Finish(s, s', u) || Release(s, s', u);
    assert Holds(s, t) && u != t ==> !Holds(s, u);
  }

  /** The state in which a thread that holds the lock got it. The book in memory is then the sequential
      one, and since then the thread has logged its own operation at most. */
  lemma {:induction false} Entered(r: seq<System>, i: nat, t: nat) returns (j: nat)
    requires Run(r) && i < |r| && Holds(r[i], t)
    ensures j <= i && forall k :: j <= k <= i ==> Holds(r[k], t) && r[k].threads[t].op == r[i].threads[t].op
    ensures r[j].book == BookAfter(r[j].log)
    ensures r[i].log == r[j].log + if r[i].threads[t].Leaving?
                                   then [Entry(r[i].threads[t].op, r[i].threads[t].result)] else []
  {
    RunKeepsInv(r, i);
    if r[i].threads[t].Inside? && r[i].threads[t].pc == 0 {
      j := i;
    } else {
      hide Inv, Next, BookAfter;
      assert i > 0 by { NobodyHoldsAtFirst(r[0], t); }
      RunKeepsInv(r, i - 1);
      HeldBefore(r[i - 1], r[i], t);
      j := Entered(r, i - 1, t);
    }
  }

  lemma NobodyHoldsAtFirst(s: System, t: nat)
    requires Init(s)
    ensures !Holds(s, t)
  {
  }

  /** While a thread is about to return, no other is at work, and the book is that of the log. */
  lemma LeavingBook(s: System, t: nat)
    requires Inv(s) && Holds(s, t) && s.threads[t].Leaving?
    ensures s.book == BookAfter(s.log) && Sequential(s.log) && s.threads[t].since < |s.log|
  {
    hide BookAfter, Sequential;
    forall u | u in s.threads
      ensures !s.threads[u].Inside?
    {
      assert Holds(s, u) ==> u == t;
    }
  }

  lemma BookAfterOne(log: seq<Entry>, e: Entry)
    ensures BookAfter(log + [e]) == Effect(e.op, BookAfter(log))
    ensures Sequential(log + [e]) ==> e.result == Outcome(e.op, BookAfter(log))
  {
    assert (log + [e])[..|log|] == log;
  }

  /** Linearizability. When a call of any run is about to return, there is a state j of the run, in the
      middle of the call, on whose book the operation has acted as one step: the result is the one it
      gives on that book, and the book is now what it makes of that book. In particular what get_tob
      returns is the top of one single state of the book in memory, the present one. The operation is
      the last in the log, and every result in the log is that of the logged operations done one at a
      time. */
  lemma CallsAreAtomic(r: seq<System>, i: nat, t: nat) returns (j: nat)
    requires Run(r) && i < |r| && t in r[i].threads && r[i].threads[t].Leaving?
    ensures j < i && forall k :: j <= k <= i ==> Holds(r[k], t) && r[k].threads[t].op == r[i].threads[t].op
    ensures var me := r[i].threads[t];
            && me.result == Outcome(me.op, r[j].book)
            && r[i].book == Effect(me.op, r[j].book)
            && (me.op.GetTob? ==> me.result == Top(r[i].book.Tob(me.op.offset)))
            && me.since < |r[i].log| && r[i].log == r[j].log + [Entry(me.op, me.result)]
    ensures forall n :: 0 <= n < |r[i].log| ==>
              r[i].log[n].result == Outcome(r[i].log[n].op, BookAfter(r[i].log[..n]))
  {
    hide Inv, Next, Init, BookAfter, Sequential, Effect;
    var log, me := r[i].log, r[i].threads[t];
    RunKeepsInv(r, i);
    LeavingBook(r[i], t);
    forall n | 0 <= n < |log|
      ensures log[n].result == Outcome(log[n].op, BookAfter(log[..n]))
    {
      SequentialAt(log, n);
    }
    j := Entered(r, i, t);
    BookAfterOne(r[j].log, Entry(me.op, me.result));
    if me.op.GetTob? {
      QueryKeepsBook(me.op, r[j].book);
    }
    assert |r[i].log| != |r[j].log|;
  }

  lemma QueryKeepsBook(op: Op, b: Book)
    requires op.GetTob?
    ensures Effect(op, b) == b
  {
  }

  lemma {:induction false} LogGrows(r: seq<System>, i: nat, j: nat)
    requires Run(r) && i <= j < |r|
    ensures r[i].log <= r[j].log
    decreases j
  {
    if i < j {
      LogGrows(r, i, j - 1);
      StepGrowsLog(r[j - 1], r[j]);
    }
  }

  lemma StepGrowsLog(s: System, s': System)
    requires Next(s, s')
    ensures s.log <= s'.log
  {
  }

  lemma StepKeepsCall(s: System, s': System, u: nat)
    requires Next(s, s') && u in s.threads && !s.threads[u].Idle? && u in s'.threads && !s'.threads[u].Idle?
    ensures s'.threads[u].op == s.threads[u].op && s'.threads[u].since == s.threads[u].since
  {
  }

  /** From its call step on and until it returns, a thread carries its operation and the length that the
      log had then. */
  lemma {:induction false} CallIsKept(r: seq<System>, j: nat, u: nat, op: Op, k: nat)
    requires Run(r) && j < k < |r| && Call(r[j], r[j + 1], u, op)
    requires forall x :: j < x <= k ==> u in r[x].threads && !r[x].threads[u].Idle?
    ensures r[k].threads[u].op == op && r[k].threads[u].since == |r[j].log|
    decreases k
  {
    if k > j + 1 {
      CallIsKept(r, j, u, op, k - 1);
      StepKeepsCall(r[k - 1], r[k], u);
    }
    hide Next;
  }

  /** The real-time half of linearizability. If thread u enters an operation after thread t was about to
      return from its own, then u's entry in the log comes behind t's. */
  lemma RealTimeOrder(r: seq<System>, i: nat, t: nat, j: nat, u: nat, op: Op, k: nat)
    requires Run(r) && i <= j < k < |r|
    requires t in r[i].threads && r[i].threads[t].Leaving?
    requires Call(r[j], r[j + 1], u, op)
    requires forall x :: j < x <= k ==> u in r[x].threads && !r[x].threads[u].Idle?
    requires r[k].threads[u].Leaving?
    ensures var first, second := |r[i].log| - 1, |r[k].log| - 1;
            && 0 <= first < second
            && r[k].log[first] == Entry(r[i].threads[t].op, r[i].threads[t].result)
            && r[k].log[second] == Entry(op, r[k].threads[u].result)
  {
    RunKeepsInv(r, i);
    RunKeepsInv(r, k);
    LogGrows(r, i, j);
    LogGrows(r, i, k);
    CallIsKept(r, j, u, op, k);
    hide Next, BookAfter, Sequential, InsideInv;
  }

  // ----- what a concurrent query returns, by the updates made so far -----

  /** The updates since the book was last cleared. */
  function Writes(log: seq<Entry>): seq<Update> {
    if log == [] then []
    else
      var before := Writes(log[..|log| - 1]);
      match log[|log| - 1].op
      case Assign(price, qty) => before + [Update(price, 1, qty)]
      case Remove(price, qty) => before + [Update(price, 0, qty)]
      case Clear => []
      case GetTob(_) => before
  }

  lemma ReplayOneMore(h: seq<Update>, u: Update)
    ensures Replay(h + [u], Keep) == Apply(Replay(h, Keep), u, Keep)
  {
    assert (h + [u])[..|h|] == h;
  }

  lemma {:induction false} LogIsReplay(log: seq<Entry>)
    ensures BookAfter(log) == Replay(Writes(log), Keep)
  {
    if log != [] {
      var before, op := log[..|log| - 1], log[|log| - 1].op;
      LogIsReplay(before);
      match op
      case Assign(price, qty) => ReplayOneMore(Writes(before), Update(price, 1, qty));
      case Remove(price, qty) => ReplayOneMore(Writes(before), Update(price, 0, qty));
      case Clear =>
      case GetTob(_) =>
    }
  }

  /** Whatever the other threads do, what get_tob returns of either side is the level of the rank asked
      for among the prices that the updates in effect have left orders at, with the quantity of the update
      that opened it, or the empty level if there are too few. */
  lemma TobIsOfHistory(r: seq<System>, i: nat, t: nat, side: Side) returns (level: PxQx)
    requires Run(r) && i < |r| && t in r[i].threads && r[i].threads[t].Leaving? && r[i].threads[t].op.GetTob?
    ensures r[i].threads[t].result.Top?
    ensures level == if side == Bid then r[i].threads[t].result.tob.bid else r[i].threads[t].result.tob.ask
    ensures IsRankOf(level, Writes(r[i].log), side, r[i].threads[t].op.offset)
  {
    var j := CallsAreAtomic(r, i, t);
    var log, offset := r[i].log, r[i].threads[t].op.offset;
    RunKeepsInv(r, i);
    LeavingBook(r[i], t);
    LogIsReplay(log);
    RankOfHistory(Writes(log), side, offset);
    hide Run, Inv, BookAfter, Replay, Writes, IsRankOf;
    level := BestPx(Replay(Writes(log), Keep).Levels(side), offset, side);
  }

  /** While no thread is inside, the book in memory is the sequential book of the log. */
  lemma QuietBookIsSequential(r: seq<System>, i: nat)
    requires Run(r) && i < |r| && !r[i].flag
    ensures r[i].book == BookAfter(r[i].log)
  {
    RunKeepsInv(r, i);
    forall t | t in r[i].threads
      ensures !r[i].threads[t].Inside?
    {
      assert !Holds(r[i], t);
    }
  }

  // ----- the lock as an object -----

  /** Each method is one step of the system whose flag is the object's. `lock` repeats the test-and-set
      of `TryLock` until it succeeds; other threads decide when that is. */
  class SpinMutex {
    var flag: bool

    constructor ()
      ensures !flag
    {
      flag := false;
    }

    /** The test-and-set of thread t: it succeeds exactly if t then holds the lock. In a reachable state t
        is then the only holder; if it fails, nothing has changed and another thread holds the lock. */
    method TryLock(ghost s: System, ghost t: nat) returns (acquired: bool, ghost s': System)
      requires s.flag == flag && t in s.threads && s.threads[t].Spinning?
      modifies this
      ensures TestAndSet(s, s', t) && s'.flag == flag
      ensures acquired <==> Holds(s', t)
      ensures Inv(s) ==>
                && Inv(s')
                && (acquired ==> forall u :: Holds(s', u) <==> u == t)
                && (!acquired ==> s' == s && exists u :: u != t && Holds(s, u))
    {
      acquired := !flag;
      flag := true;
      var me := s.threads[t];
      s' := s.(flag := true,
               threads := if s.flag then s.threads else s.threads[t := Inside(me.op, me.since, 0, EMPTY_LEVEL)]);
      if Inv(s) {
        TestAndSetKeepsInv(s, s', t);
        assert s.flag ==> s' == s && !Holds(s, t);
      }
      hide BookAfter, Sequential, InsideInv;
    }

    /** The holder leaves: in a reachable state nobody holds the lock afterwards. */
    method Unlock(ghost s: System, ghost t: nat) returns (ghost s': System)
      requires s.flag == flag && t in s.threads && s.threads[t].Leaving?
      modifies this
      ensures Release(s, s', t) && s'.flag == flag
      ensures Inv(s) ==> Inv(s') && forall u :: !Holds(s', u)
    {
      flag := false;
      s' := s.(flag := false, threads := s.threads[t := Idle]);
      if Inv(s) {
        ReleaseKeepsInv(s, s', t);
      }
      hide BookAfter, Sequential, InsideInv;
    }
  }
}
