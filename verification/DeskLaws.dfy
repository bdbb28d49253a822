/** What every step at one book keeps: heap order, valid amounts, the charge of its slots, the
    conservation of its shares, its frames, and its share of the global ledgers. */
module DeskLaws {
  import opened Sums
  import opened Orders
  import opened HeapSpec
  import opened MemorySpec
  import opened ExchangeSpec

  // ---------- histories ----------

  function ForSymbol(log: seq<Event>, symbol: string): seq<Event> {
    if log == [] then []
    else
      var n := |log| - 1;
      ForSymbol(log[..n], symbol) + (if log[n].symbol == symbol then [log[n]] else [])
  }

  lemma ForSymbolSnoc(log: seq<Event>, e: Event, symbol: string)
    ensures ForSymbol(log + [e], symbol) == ForSymbol(log, symbol) + (if e.symbol == symbol then [e] else [])
  {
    assert (log + [e])[..|log|] == log;
  }

  function Fill(bid: Order, ask: Order): int {
    if bid.amount < ask.amount then bid.amount else ask.amount
  }

  function AcceptedShares(side: Side): Event -> int {
    (e: Event) => if e.Accepted? && e.order.side == side then e.order.amount else 0
  }

  function TradedShares(e: Event): int {
    if e.Traded? then Fill(e.bid, e.ask) else 0
  }

  function ExactTrade(e: Event): int {
    if e.Traded? && e.bid.amount == e.ask.amount then 1 else 0
  }

  function OverflowInsert(e: Event): int {
    if e.Accepted? && e.overflowed then 1 else 0
  }

  function Unreleased(e: Event): int {
    if e.NothingReleased? then 1 else 0
  }

  lemma EventSums(events: seq<Event>, e: Event)
    ensures SumBy(OverflowInsert, events + [e]) == SumBy(OverflowInsert, events) + OverflowInsert(e)
    ensures SumBy(ExactTrade, events + [e]) == SumBy(ExactTrade, events) + ExactTrade(e)
    ensures SumBy(Unreleased, events + [e]) == SumBy(Unreleased, events) + Unreleased(e)
    ensures SumBy(TradedShares, events + [e]) == SumBy(TradedShares, events) + TradedShares(e)
    ensures forall side :: SumBy(AcceptedShares(side), events + [e])
                           == SumBy(AcceptedShares(side), events) + AcceptedShares(side)(e)
  {
    SumSnoc(OverflowInsert, events, e);
    SumSnoc(ExactTrade, events, e);
    SumSnoc(Unreleased, events, e);
    SumSnoc(TradedShares, events, e);
    SumSnoc(AcceptedShares(Ask), events, e);
    SumSnoc(AcceptedShares(Bid), events, e);
  }

  lemma CountsAreNatural(events: seq<Event>)
    ensures SumBy(OverflowInsert, events) >= 0 && SumBy(ExactTrade, events) >= 0 && SumBy(Unreleased, events) >= 0
  {
    SumNonNegative(OverflowInsert, events);
    SumNonNegative(ExactTrade, events);
    SumNonNegative(Unreleased, events);
  }

  // ---------- the laws of one book, against the history of its symbol ----------

  function Amount(o: Order): int {
    o.amount
  }

  function SideOf(book: Book, side: Side): seq<Order> {
    if side == Ask then book.asks else book.bids
  }

  function Resting(book: Book): int {
    |book.asks| + |book.bids|
  }

  ghost predicate SideSound(book: Book, side: Side) {
    && HeapOrdered(side, SideOf(book, side))
    && forall o :: o in multiset(SideOf(book, side)) ==> ValidOrder(o) && o.side == side
  }

  /** Charged slots plus overflow inserts are the resting orders, plus one for every exact
      match (two orders leave, one slot is given back), plus one for every trade that found
      no slot to give back. */
  ghost predicate SlotLaw(book: Book, events: seq<Event>) {
    Slots(book.table) + SumBy(OverflowInsert, events)
    == Resting(book) + SumBy(ExactTrade, events) + SumBy(Unreleased, events)
  }

  /** Until an insert of the symbol overflows, every trade finds a slot to give back. */
  ghost predicate ReleaseLaw(events: seq<Event>) {
    SumBy(OverflowInsert, events) == 0 ==> SumBy(Unreleased, events) == 0
  }

  ghost predicate ShareLaw(book: Book, side: Side, events: seq<Event>) {
    SumBy(AcceptedShares(side), events) == SumBy(Amount, SideOf(book, side)) + SumBy(TradedShares, events)
  }

  ghost predicate BookLaws(book: Book, events: seq<Event>) {
    && SideSound(book, Ask) && SideSound(book, Bid)
    && SlotLaw(book, events) && ReleaseLaw(events)
    && ShareLaw(book, Ask, events) && ShareLaw(book, Bid, events)
  }

  ghost predicate Uncrossed(book: Book) {
    forall i, j :: 0 <= i < |book.bids| && 0 <= j < |book.asks| ==> book.bids[i].price < book.asks[j].price
  }

  ghost predicate DeskSound(d: Desk, b: int) {
    && b >= 0 && MemoryValid(d.mem) && BookFrames(d.mem.frames, d.book.table, b)
    && BookLaws(d.book, ForSymbol(d.stats.log, d.book.symbol))
  }

  /** What a step at book b leaves alone or moves in step: the other symbols' histories, the
      frames of the other books, and both global ledgers. */
  ghost predicate DeskStep(d: Desk, d': Desk, b: int) {
    && DeskSound(d', b)
    && d'.book.symbol == d.book.symbol
    && MemoryStep(d.mem, d.book.table, d'.mem, d'.book.table, b)
    && (forall other :: other != d.book.symbol ==>
          ForSymbol(d'.stats.log, other) == ForSymbol(d.stats.log, other))
    && d'.stats.totalWrites - Resting(d'.book) - 2 * d'.stats.totalTrades
       == d.stats.totalWrites - Resting(d.book) - 2 * d.stats.totalTrades
    && d'.stats.totalTrades - d'.book.trades == d.stats.totalTrades - d.book.trades
  }

  lemma DeskStepTransitive(d: Desk, d': Desk, d'': Desk, b: int)
    requires DeskStep(d, d', b) && DeskStep(d', d'', b)
    ensures DeskStep(d, d'', b)
  {
    MemoryStepTransitive(d.mem, d.book.table, d'.mem, d'.book.table, d''.mem, d''.book.table, b);
  }

  // ---------- the effect of a fill on one side ----------

  /** FillRoot on a plain bag of orders: o loses q shares, and leaves when none remain. */
  function Filled(m: multiset<Order>, o: Order, q: int): multiset<Order> {
    m - multiset{o} + (if o.amount > q then multiset{o.(amount := o.amount - q)} else multiset{})
  }

  lemma {:induction false} PopSum(side: Side, s: seq<Order>)
    requires s != [] && HeapOrdered(side, s)
    ensures SumBy(Amount, Pop(side, s)) == SumBy(Amount, s) - s[0].amount
  {
    var t := Pop(side, s);
    PopKeepsHeap(side, s);
    assert s[0] in multiset(s);
    assert multiset(t + [s[0]]) == multiset(t) + multiset{s[0]};
    SumPermutation(Amount, t + [s[0]], s);
    SumSnoc(Amount, t, s[0]);
  }

  lemma UpdateSum(side: Side, s: seq<Order>, q: int)
    requires s != [] && HeapOrdered(side, s) && q < s[0].amount
    ensures multiset(Update(s, s[0].amount - q)) == Filled(multiset(s), s[0], q)
    ensures SumBy(Amount, Update(s, s[0].amount - q)) == SumBy(Amount, s) - q
  {
    UpdateKeepsHeap(side, s, s[0].amount - q);
    SumUpdate(Amount, s, 0, s[0].(amount := s[0].amount - q));
  }

  lemma FillLaws(side: Side, s: seq<Order>, q: int)
    requires s != [] && HeapOrdered(side, s) && q <= s[0].amount
    ensures HeapOrdered(side, FillRoot(side, s, q))
    ensures multiset(FillRoot(side, s, q)) == Filled(multiset(s), s[0], q)
    ensures |FillRoot(side, s, q)| == if s[0].amount == q then |s| - 1 else |s|
    ensures SumBy(Amount, FillRoot(side, s, q)) == SumBy(Amount, s) - q
  {
    if s[0].amount == q {
      PopKeepsHeap(side, s);
      PopSum(side, s);
    } else {
      UpdateKeepsHeap(side, s, s[0].amount - q);
      UpdateSum(side, s, q);
    }
  }

  /** Filling part of the root keeps a side sound. */
  lemma FillKeepsSide(side: Side, s: seq<Order>, q: int)
    requires s != [] && HeapOrdered(side, s) && 0 < q <= s[0].amount
    requires forall o :: o in multiset(s) ==> ValidOrder(o) && o.side == side
    ensures HeapOrdered(side, FillRoot(side, s, q))
    ensures forall o :: o in multiset(FillRoot(side, s, q)) ==> ValidOrder(o) && o.side == side
  {
    FillLaws(side, s, q);
    assert s[0] in multiset(s);
  }

  /** Were trimming to fire, it would not undercharge a book: a pop that trims n orders and gives
      back a slot for each moves slots and resting orders apart by the popped order only. */
  lemma TrimmedPopKeepsCharge(side: Side, s: seq<Order>, now: int, trim: int, m: Memory, t: PageTable, b: int)
    requires b >= 0 && MemoryValid(m) && BookFrames(m.frames, t, b)
    requires s != [] && Slots(t) >= |s|
    ensures var (rest, gone) := PopTrim(side, s, now, trim);
            var (m', t') := ReleaseSlots(m, t, |gone|);
            && multiset(rest) + multiset(gone) == multiset(s) - multiset{s[0]}
            && (forall k :: 0 <= k < |gone| ==> Expired(gone[k], now, trim))
            && MemoryStep(m, t, m', t', b)
            && Slots(t') - |rest| == Slots(t) - |s| + 1
  {
    DropAtRemoves(s, 0);
    SiftDownConserves(side, DropAt(s, 0), 0, now, trim);
    ReleasesKeepMemory(m, t, |PopTrim(side, s, now, trim).1|, b);
  }

  lemma PushLaws(side: Side, s: seq<Order>, o: Order)
    requires HeapOrdered(side, s)
    ensures SumBy(Amount, Push(side, s, o)) == SumBy(Amount, s) + o.amount
  {
    PushKeepsHeap(side, s, o);
    assert multiset(s + [o]) == multiset(s) + multiset{o};
    SumPermutation(Amount, s + [o], Push(side, s, o));
    SumSnoc(Amount, s, o);
  }

  /** A trade fills both roots by the smaller of their amounts. */
  lemma MatchFillsBoth(d: Desk)
    requires MatchOnce(d).1
    ensures d.book.asks != [] && d.book.bids != [] && d.book.bids[0].price >= d.book.asks[0].price
    ensures var (bid, ask, d') := (d.book.bids[0], d.book.asks[0], MatchOnce(d).0);
            && d'.book == d.book.(bids := FillRoot(Bid, d.book.bids, Fill(bid, ask)),
                                  asks := FillRoot(Ask, d.book.asks, Fill(bid, ask)))
            && d'.mem == d.mem
            && d'.stats.log == d.stats.log + [Traded(d.book.symbol, bid, ask)]
            && d'.stats.totalTrades == d.stats.totalTrades + 1
            && d'.stats.totalWrites == d.stats.totalWrites + 1 - ExactTrade(Traded(d.book.symbol, bid, ask))
  {
  }

  // ---------- each step keeps the laws ----------

  lemma AddOrderLaws(book: Book, o: Order)
    requires SideSound(book, Ask) && SideSound(book, Bid) && ValidOrder(o)
    ensures SideSound(AddOrder(book, o), Ask) && SideSound(AddOrder(book, o), Bid)
    ensures Resting(AddOrder(book, o)) == Resting(book) + 1
    ensures forall side :: SumBy(Amount, SideOf(AddOrder(book, o), side))
                           == SumBy(Amount, SideOf(book, side)) + (if o.side == side then o.amount else 0)
  {
    var s := SideOf(book, o.side);
    PushKeepsHeap(o.side, s, o);
    PushLaws(o.side, s, o);
    var book' := AddOrder(book, o);
    assert SideOf(book', o.side) == Push(o.side, s, o);
    var other := if o.side == Ask then Bid else Ask;
    assert SideOf(book', other) == SideOf(book, other) && SideSound(book, other);
  }

  /** The laws after an accepted insert, from what it changed. */
  lemma LawsAfterInsert(book: Book, events: seq<Event>, table: PageTable, e: Event)
    requires BookLaws(book, events) && e.Accepted? && ValidOrder(e.order)
    requires Slots(table) == Slots(book.table) + 1 - OverflowInsert(e)
    ensures BookLaws(AddOrder(book.(table := table), e.order), events + [e])
  {
    var charged := book.(table := table);
    assert SideSound(charged, Ask) && SideSound(charged, Bid) by {
      assert SideOf(charged, Ask) == SideOf(book, Ask) && SideOf(charged, Bid) == SideOf(book, Bid);
    }
    AddOrderLaws(charged, e.order);
    EventSums(events, e);
    CountsAreNatural(events);
  }

  lemma {:induction false} InsertKeepsBook(d: Desk, o: Order, b: int)
    requires BookLaws(d.book, ForSymbol(d.stats.log, d.book.symbol)) && ValidOrder(o)
    requires match ChargeSlot(d.mem, d.book.table, b)
             case InPage(_, t') => Slots(t') == Slots(d.book.table) + 1
             case _ => true
    ensures var d' := Insert(d, o, b).0; BookLaws(d'.book, ForSymbol(d'.stats.log, d.book.symbol))
  {
    var events := ForSymbol(d.stats.log, d.book.symbol);
    var e := match ChargeSlot(d.mem, d.book.table, b)
      case InPage(_, _) => Accepted(d.book.symbol, o, false)
      case InOverflow(_) => Accepted(d.book.symbol, o, true)
      case Refused(_) => Rejected(d.book.symbol, o);
    ForSymbolSnoc(d.stats.log, e, d.book.symbol);
    match ChargeSlot(d.mem, d.book.table, b)
    case InPage(_, t') => LawsAfterInsert(d.book, events, t', e);
    case InOverflow(_) => LawsAfterInsert(d.book, events, d.book.table, e);
    case Refused(_) => LawsIgnoreRejection(d.book, events, e);
  }

  lemma LawsIgnoreRejection(book: Book, events: seq<Event>, e: Event)
    requires BookLaws(book, events) && e.Rejected?
    ensures BookLaws(book, events + [e])
  {
    EventSums(events, e);
  }

  lemma LoggedForOwnSymbol(log: seq<Event>, e: Event)
    ensures forall other :: other != e.symbol ==> ForSymbol(log + [e], other) == ForSymbol(log, other)
  {
    forall other | other != e.symbol
      ensures ForSymbol(log + [e], other) == ForSymbol(log, other)
    {
      ForSymbolSnoc(log, e, other);
    }
  }

  lemma InsertMovesLedgers(d: Desk, o: Order, b: int)
    ensures var (d', accepted) := Insert(d, o, b);
            && d'.book.symbol == d.book.symbol && d'.book.trades == d.book.trades
            && d'.stats.totalTrades == d.stats.totalTrades
            && d'.stats.totalWrites - Resting(d'.book) == d.stats.totalWrites - Resting(d.book)
            && |d'.stats.log| == |d.stats.log| + 1
            && var e := d'.stats.log[|d.stats.log|];
               d'.stats.log == d.stats.log + [e] && e.symbol == d.book.symbol
               && e == (if accepted then Accepted(d.book.symbol, o, e.Accepted? && e.overflowed) else Rejected(d.book.symbol, o))
  {
  }

  lemma {:induction false} InsertIsDeskStep(d: Desk, o: Order, b: int)
    requires DeskSound(d, b) && ValidOrder(o)
    ensures DeskStep(d, Insert(d, o, b).0, b)
  {
    var (d', accepted) := Insert(d, o, b);
    InsertMovesLedgers(d, o, b);
    ChargeKeepsMemory(d.mem, d.book.table, b);
    LoggedForOwnSymbol(d.stats.log, d'.stats.log[|d.stats.log|]);
    InsertKeepsBook(d, o, b);
  }

  lemma RootsAreSound(book: Book)
    requires SideSound(book, Ask) && SideSound(book, Bid) && book.asks != [] && book.bids != []
    ensures ValidOrder(book.asks[0]) && ValidOrder(book.bids[0])
    ensures HeapOrdered(Ask, book.asks) && HeapOrdered(Bid, book.bids)
    ensures forall o :: o in multiset(book.asks) ==> ValidOrder(o) && o.side == Ask
    ensures forall o :: o in multiset(book.bids) ==> ValidOrder(o) && o.side == Bid
  {
    assert SideOf(book, Ask) == book.asks && SideOf(book, Bid) == book.bids;
    assert book.asks[0] in multiset(book.asks) && book.bids[0] in multiset(book.bids);
  }

  lemma {:induction false} MatchKeepsSides(d: Desk)
    requires SideSound(d.book, Ask) && SideSound(d.book, Bid) && MatchOnce(d).1
    ensures var (book', q) := (MatchOnce(d).0.book, Fill(d.book.bids[0], d.book.asks[0]));
            && SideSound(book', Ask) && SideSound(book', Bid)
            && SumBy(Amount, book'.asks) == SumBy(Amount, d.book.asks) - q
            && SumBy(Amount, book'.bids) == SumBy(Amount, d.book.bids) - q
            && Resting(book') + 1 + ExactTrade(Traded(d.book.symbol, d.book.bids[0], d.book.asks[0])) == Resting(d.book)
  {
    MatchFillsBoth(d);
    var book' := MatchOnce(d).0.book;
    var q := Fill(d.book.bids[0], d.book.asks[0]);
    RootsAreSound(d.book);
    FillKeepsSide(Bid, d.book.bids, q);
    FillKeepsSide(Ask, d.book.asks, q);
    FillLaws(Bid, d.book.bids, q);
    FillLaws(Ask, d.book.asks, q);
    assert SideOf(book', Ask) == FillRoot(Ask, d.book.asks, q) && SideOf(book', Bid) == FillRoot(Bid, d.book.bids, q);
  }

  /** Sides and shares after a trade; the slots are one short until Settle. */
  lemma {:induction false} MatchKeepsBook(d: Desk, b: int)
    requires DeskSound(d, b) && MatchOnce(d).1
    ensures var (d', events') := (MatchOnce(d).0, ForSymbol(MatchOnce(d).0.stats.log, d.book.symbol));
            && SideSound(d'.book, Ask) && SideSound(d'.book, Bid)
            && ShareLaw(d'.book, Ask, events') && ShareLaw(d'.book, Bid, events') && ReleaseLaw(events')
            && Slots(d'.book.table) + SumBy(OverflowInsert, events')
               == Resting(d'.book) + 1 + SumBy(ExactTrade, events') + SumBy(Unreleased, events')
  {
    MatchFillsBoth(d);
    MatchKeepsSides(d);
    var events := ForSymbol(d.stats.log, d.book.symbol);
    var e := Traded(d.book.symbol, d.book.bids[0], d.book.asks[0]);
    ForSymbolSnoc(d.stats.log, e, d.book.symbol);
    LawsAfterMatch(d.book, MatchOnce(d).0.book, events, e);
  }

  lemma LawsAfterMatch(book: Book, book': Book, events: seq<Event>, e: Event)
    requires BookLaws(book, events) && e.Traded?
    requires book'.table == book.table
    requires SumBy(Amount, book'.asks) == SumBy(Amount, book.asks) - Fill(e.bid, e.ask)
    requires SumBy(Amount, book'.bids) == SumBy(Amount, book.bids) - Fill(e.bid, e.ask)
    requires Resting(book') + 1 + ExactTrade(e) == Resting(book)
    ensures ShareLaw(book', Ask, events + [e]) && ShareLaw(book', Bid, events + [e]) && ReleaseLaw(events + [e])
    ensures Slots(book'.table) + SumBy(OverflowInsert, events + [e])
            == Resting(book') + 1 + SumBy(ExactTrade, events + [e]) + SumBy(Unreleased, events + [e])
  {
    EventSums(events, e);
  }

  lemma SettleKeepsSlots(d: Desk, b: int)
    requires b >= 0 && MemoryValid(d.mem) && BookFrames(d.mem.frames, d.book.table, b)
    requires var events := ForSymbol(d.stats.log, d.book.symbol);
             && ShareLaw(d.book, Ask, events) && ShareLaw(d.book, Bid, events) && ReleaseLaw(events)
             && Slots(d.book.table) + SumBy(OverflowInsert, events)
                == Resting(d.book) + 1 + SumBy(ExactTrade, events) + SumBy(Unreleased, events)
    ensures var (d', events') := (Settle(d), ForSymbol(Settle(d).stats.log, d.book.symbol));
            && ShareLaw(d'.book, Ask, events') && ShareLaw(d'.book, Bid, events')
            && SlotLaw(d'.book, events') && ReleaseLaw(events')
  {
    CleanUpKeepsMemory(d.mem, d.book.table, b);
    var events := ForSymbol(d.stats.log, d.book.symbol);
    var e := NothingReleased(d.book.symbol);
    ForSymbolSnoc(d.stats.log, e, d.book.symbol);
    EventSums(events, e);
    CountsAreNatural(events);
  }

  lemma {:induction false} TradeIsDeskStep(d: Desk, b: int)
    requires DeskSound(d, b) && MatchOnce(d).1
    ensures DeskStep(d, Settle(MatchOnce(d).0), b)
  {
    var d1 := MatchOnce(d).0;
    var d2 := Settle(d1);
    MatchFillsBoth(d);
    MatchKeepsBook(d, b);
    SettleKeepsSlots(d1, b);
    CleanUpKeepsMemory(d1.mem, d1.book.table, b);
    assert SideSound(d2.book, Ask) && SideSound(d2.book, Bid) by {
      assert SideOf(d2.book, Ask) == SideOf(d1.book, Ask) && SideOf(d2.book, Bid) == SideOf(d1.book, Bid);
    }
    MatchKeepsSides(d);
    LoggedForOwnSymbol(d.stats.log, Traded(d.book.symbol, d.book.bids[0], d.book.asks[0]));
    LoggedForOwnSymbol(d1.stats.log, NothingReleased(d.book.symbol));
  }

  lemma {:induction false} NoTradeIsDeskStep(d: Desk, b: int)
    requires DeskSound(d, b) && !MatchOnce(d).1
    ensures DeskStep(d, MatchOnce(d).0, b) && MatchOnce(d).0.book == d.book
    ensures Uncrossed(d.book)
  {
    forall i, j | 0 <= i < |d.book.bids| && 0 <= j < |d.book.asks|
      ensures d.book.bids[i].price < d.book.asks[j].price
    {
      assert HeapOrdered(Bid, SideOf(d.book, Bid)) && HeapOrdered(Ask, SideOf(d.book, Ask));
      RootIsBest(Bid, d.book.bids, i);
      RootIsBest(Ask, d.book.asks, j);
    }
  }

  /** The drain loop keeps every law of its book and ends with no bid reaching any ask. */
  lemma {:induction false} DrainIsDeskStep(d: Desk, b: int)
    requires DeskSound(d, b)
    ensures DeskStep(d, Drain(d), b)
    ensures Uncrossed(Drain(d).book)
    decreases |d.book.asks| + |d.book.bids|
  {
    if MatchOnce(d).1 {
      var d' := Settle(MatchOnce(d).0);
      TradeIsDeskStep(d, b);
      DrainIsDeskStep(d', b);
      DeskStepTransitive(d, d', Drain(d'), b);
    } else {
      NoTradeIsDeskStep(d, b);
    }
  }

  lemma ReceiveIsDeskStep(d: Desk, o: Order, b: int)
    requires DeskSound(d, b) && ValidOrder(o) && Uncrossed(d.book)
    ensures DeskStep(d, Receive(d, o, b), b)
    ensures Uncrossed(Receive(d, o, b).book)
  {
    var (d', accepted) := Insert(d, o, b);
    InsertIsDeskStep(d, o, b);
    if accepted {
      DrainIsDeskStep(d', b);
      DeskStepTransitive(d, d', Drain(d'), b);
    }
  }
}
