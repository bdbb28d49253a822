/** The counters of the simulator against the history of a run: every counter, and the overflow
    count itself, is what the log alone says it should be; and the log answers every order once. */
module History {
  import opened Orders
  import opened MemorySpec
  import opened ExchangeSpec

  // What a log adds up to. Every trade of any symbol relieves the overflow page of one order
  // while it has one in use; highWater is the most it ever had.
  datatype Tally = Tally(answered: seq<Submission>, accepted: int, rejected: int, overflowed: int,
                         trades: int, partial: int, unreleased: int, relieved: int, inUse: int, highWater: int)

  const NOTHING := Tally([], 0, 0, 0, 0, 0, 0, 0, 0, 0)

  function Count(t: Tally, e: Event): Tally {
    match e
    case Accepted(symbol, order, false) =>
      t.(answered := t.answered + [Submission(symbol, order)], accepted := t.accepted + 1)
    case Accepted(symbol, order, true) =>
      t.(answered := t.answered + [Submission(symbol, order)], accepted := t.accepted + 1,
         overflowed := t.overflowed + 1, inUse := t.inUse + 1,
         highWater := if t.inUse + 1 > t.highWater then t.inUse + 1 else t.highWater)
    case Rejected(symbol, order) =>
      t.(answered := t.answered + [Submission(symbol, order)], rejected := t.rejected + 1)
    case Traded(_, bid, ask) =>
      t.(trades := t.trades + 1, partial := t.partial + (if bid.amount != ask.amount then 1 else 0),
         relieved := t.relieved + (if t.inUse > 0 then 1 else 0),
         inUse := if t.inUse > 0 then t.inUse - 1 else 0)
    case NothingReleased(_) => t.(unreleased := t.unreleased + 1)
  }

  function TallyOf(log: seq<Event>): Tally {
    if log == [] then NOTHING else Count(TallyOf(log[..|log| - 1]), log[|log| - 1])
  }

  lemma TallySnoc(log: seq<Event>, e: Event)
    ensures TallyOf(log + [e]) == Count(TallyOf(log), e)
  {
    assert (log + [e])[..|log|] == log;
  }

  /** The counters are those of the history; checks that did not trade are at most one for
      each accepted order, less the given number that are still to come. */
  ghost predicate Tallied(mem: Memory, stats: Stats, toCome: nat) {
    var t := TallyOf(stats.log);
    && mem.overflow == t.inUse && mem.hardRejects == t.rejected
    && stats.totalTrades == t.trades && stats.totalWrites == t.accepted + t.partial
    && stats.overflowAccesses == t.overflowed && stats.overflowMax == t.highWater
    && 2 * t.trades <= stats.totalReads <= 2 * (t.trades + t.accepted - toCome)
  }

  lemma InsertIsTallied(d: Desk, o: Order, b: int)
    requires Tallied(d.mem, d.stats, 0)
    ensures var (d', accepted) := Insert(d, o, b);
            && Tallied(d'.mem, d'.stats, if accepted then 1 else 0)
            && TallyOf(d'.stats.log).answered == TallyOf(d.stats.log).answered + [Submission(d.book.symbol, o)]
  {
    var c := ChargeSlot(d.mem, d.book.table, b);
    var e := if c.Refused? then Rejected(d.book.symbol, o) else Accepted(d.book.symbol, o, c.InOverflow?);
    assert Insert(d, o, b).0.stats.log == d.stats.log + [e];
    TallySnoc(d.stats.log, e);
  }

  lemma CleanUpCounts(m: Memory, t: PageTable)
    ensures var m' := CleanUp(m, t).0;
            && m'.overflow == (if m.overflow > 0 then m.overflow - 1 else m.overflow)
            && m'.hardRejects == m.hardRejects
  {
  }

  /** The statistics after a trade. */
  function AfterTrade(stats: Stats, e: Event): Stats
    requires e.Traded?
  {
    stats.(totalReads := stats.totalReads + 2, totalTrades := stats.totalTrades + 1,
           totalWrites := stats.totalWrites + (if e.bid.amount != e.ask.amount then 1 else 0)).Log(e)
  }

  lemma TradeIsTallied(mem: Memory, mem': Memory, stats: Stats, e: Event)
    requires Tallied(mem, stats, 1) && e.Traded?
    requires mem'.overflow == (if mem.overflow > 0 then mem.overflow - 1 else mem.overflow)
    requires mem'.hardRejects == mem.hardRejects
    requires mem.overflow >= 0
    ensures Tallied(mem', AfterTrade(stats, e), 1)
    ensures TallyOf(AfterTrade(stats, e).log).answered == TallyOf(stats.log).answered
  {
    TallySnoc(stats.log, e);
  }

  lemma SilenceIsTallied(mem: Memory, stats: Stats, symbol: string)
    requires Tallied(mem, stats, 1)
    ensures Tallied(mem, stats.Log(NothingReleased(symbol)), 1)
    ensures TallyOf(stats.Log(NothingReleased(symbol)).log).answered == TallyOf(stats.log).answered
  {
    TallySnoc(stats.log, NothingReleased(symbol));
  }

  lemma {:induction false} InUseIsNatural(log: seq<Event>)
    ensures TallyOf(log).inUse >= 0
  {
    if log != [] {
      InUseIsNatural(log[..|log| - 1]);
    }
  }

  /** One turn of the drain loop: between the trade and its cleanup the overflow count lags. */
  lemma TurnIsTallied(d: Desk)
    requires Tallied(d.mem, d.stats, 1) && MatchOnce(d).1
    ensures var d' := Settle(MatchOnce(d).0);
            Tallied(d'.mem, d'.stats, 1) && TallyOf(d'.stats.log).answered == TallyOf(d.stats.log).answered
  {
    var d1 := MatchOnce(d).0;
    var e := Traded(d.book.symbol, d.book.bids[0], d.book.asks[0]);
    var m' := CleanUp(d.mem, d.book.table).0;
    TradeChangesBothRoots(d.book, d.stats);
    assert d1.stats == AfterTrade(d.stats, e);
    assert Settle(d1).mem == m';
    CleanUpCounts(d.mem, d.book.table);
    InUseIsNatural(d.stats.log);
    TradeIsTallied(d.mem, m', d.stats, e);
    SilenceIsTallied(m', d1.stats, d.book.symbol);
  }

  lemma {:induction false} DrainIsTallied(d: Desk)
    requires Tallied(d.mem, d.stats, 1)
    ensures Tallied(Drain(d).mem, Drain(d).stats, 0)
    ensures TallyOf(Drain(d).stats.log).answered == TallyOf(d.stats.log).answered
    decreases |d.book.asks| + |d.book.bids|
  {
    if MatchOnce(d).1 {
      TurnIsTallied(d);
      DrainIsTallied(Settle(MatchOnce(d).0));
    }
  }

  lemma ProcessIsTallied(st: State, sub: Submission)
    requires Tallied(st.mem, st.stats, 0)
    ensures var st' := Process(st, sub);
            && Tallied(st'.mem, st'.stats, 0)
            && TallyOf(st'.stats.log).answered == TallyOf(st.stats.log).answered + [sub]
  {
    var b := FindBook(st.books, sub.symbol, 0);
    var d := Desk(WithBook(st.books, sub.symbol)[b], st.mem, st.stats);
    assert Submission(d.book.symbol, sub.order) == sub;
    InsertIsTallied(d, sub.order, b);
    if Insert(d, sub.order, b).1 {
      DrainIsTallied(Insert(d, sub.order, b).0);
    }
  }

  // ---------- reads ----------

  /** An order that was accepted and leaves its book with bids and asks that do not cross: the
      check that finds so reads both roots and trades nothing. */
  function StandsOff(st: State, sub: Submission): int {
    var b := FindBook(st.books, sub.symbol, 0);
    var st' := Process(st, sub);
    if Accepts(st, sub) && st'.books[b].asks != [] && st'.books[b].bids != [] then 1 else 0
  }

  function StandOffs(subs: seq<Submission>): int {
    if subs == [] then 0
    else StandOffs(subs[..|subs| - 1]) + StandsOff(Run(subs[..|subs| - 1]), subs[|subs| - 1])
  }

  lemma {:induction false} DrainReads(d: Desk)
    ensures var d' := Drain(d);
            d'.stats.totalReads - d.stats.totalReads
            == 2 * (d'.stats.totalTrades - d.stats.totalTrades)
               + (if d'.book.asks != [] && d'.book.bids != [] then 2 else 0)
    decreases |d.book.asks| + |d.book.bids|
  {
    if MatchOnce(d).1 {
      TradeChangesBothRoots(d.book, d.stats);
      DrainReads(Settle(MatchOnce(d).0));
    }
  }

  lemma InsertReads(d: Desk, o: Order, b: int)
    ensures var d' := Insert(d, o, b).0;
            d'.stats.totalReads == d.stats.totalReads && d'.stats.totalTrades == d.stats.totalTrades
  {
  }

  /** An order costs two reads for each of its trades, and two more iff it ends in a stand-off. */
  lemma OrderReads(st: State, sub: Submission)
    ensures var st' := Process(st, sub);
            st'.stats.totalReads - st.stats.totalReads
            == 2 * (st'.stats.totalTrades - st.stats.totalTrades) + 2 * StandsOff(st, sub)
  {
    var b := FindBook(st.books, sub.symbol, 0);
    var d := Desk(WithBook(st.books, sub.symbol)[b], st.mem, st.stats);
    InsertReads(d, sub.order, b);
    DrainReads(Insert(d, sub.order, b).0);
  }

  lemma {:induction false} RunReads(subs: seq<Submission>)
    ensures Run(subs).stats.totalReads == 2 * Run(subs).stats.totalTrades + 2 * StandOffs(subs)
  {
    if subs != [] {
      RunReads(subs[..|subs| - 1]);
      OrderReads(Run(subs[..|subs| - 1]), subs[|subs| - 1]);
    }
  }

  lemma {:induction false} RunCounts(subs: seq<Submission>)
    ensures Tallied(Run(subs).mem, Run(subs).stats, 0)
    ensures TallyOf(Run(subs).stats.log).answered == subs
  {
    if subs != [] {
      var n := |subs| - 1;
      RunCounts(subs[..n]);
      ProcessIsTallied(Run(subs[..n]), subs[n]);
      assert subs == subs[..n] + [subs[n]];
    }
  }

  /** In every run the log answers each submitted order once, in order, by acceptance or refusal,
      and every counter agrees with it, the overflow count and its high-water mark included; reads
      are two for each trade and two for each stand-off. */
  lemma {:induction false} RunIsTallied(subs: seq<Submission>)
    ensures Tallied(Run(subs).mem, Run(subs).stats, 0)
    ensures TallyOf(Run(subs).stats.log).answered == subs
    ensures Run(subs).stats.totalReads == 2 * Run(subs).stats.totalTrades + 2 * StandOffs(subs)
  {
    RunCounts(subs);
    RunReads(subs);
  }
}
