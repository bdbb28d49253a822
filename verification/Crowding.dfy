/** A run that leaves more orders resting than there are places charged for them: 8200 bids of one
    symbol fill its 128 pages and the overflow page, and then a partial fill of another symbol
    gives one overflow place back although all eight orders in it still rest. */
module Crowding {
  import opened Sums
  import opened Orders
  import opened HeapSpec
  import opened MemorySpec
  import opened ExchangeSpec
  import opened DeskLaws
  import opened ExchangeLaws
  import opened Capacity

  const PAGED := PAGE_SIZE * MAX_PAGES_PER_SYMBOL

  /** A bid that is not refused rests, where there is no ask. */
  lemma BidRests(d: Desk, o: Order, b: nat)
    requires DeskSound(d, b) && o.side == Bid && d.book.asks == []
    requires !ChargeSlot(d.mem, d.book.table, b).Refused?
    ensures var (d', c) := (Receive(d, o, b), ChargeSlot(d.mem, d.book.table, b));
            && d'.book.symbol == d.book.symbol && d'.book.asks == [] && |d'.book.bids| == |d.book.bids| + 1
            && Slots(d'.book.table) == Slots(d.book.table) + (if c.InPage? then 1 else 0)
            && d'.mem.overflow == d.mem.overflow + (if c.InPage? then 0 else 1)
  {
    ChargeKeepsMemory(d.mem, d.book.table, b);
    var d1 := Insert(d, o, b).0;
    assert d1.book.asks == [];
    assert Drain(d1) == d1;
  }

  /** A book below its page limit gets a page while a frame is free, else the overflow page. */
  lemma ChargeOfTable(m: Memory, t: PageTable, b: int)
    requires TableShape(t) && FirstFree(m.frames, 0) < MAX_PAGES
    ensures var c := ChargeSlot(m, t, b);
            && (c.InPage? <==> Slots(t) < PAGED)
            && (Slots(t) >= PAGED && m.overflow < OVERFLOW_PAGE_SIZE ==> c.InOverflow?)
  {
  }

  lemma FrameIsFree(st: State)
    requires AllFrames(st) && SumBy(PageCount, st.books) < MAX_PAGES
    ensures FirstFree(st.mem.frames, 0) < MAX_PAGES
  {
    NoFrameLeft(st.mem.frames);
  }

  lemma ChargeOf(st: State, b: nat)
    requires Sound(st) && b < |st.books| && SumBy(PageCount, st.books) < MAX_PAGES
    ensures var c := ChargeSlot(st.mem, st.books[b].table, b);
            && (c.InPage? <==> Slots(st.books[b].table) < PAGED)
            && (Slots(st.books[b].table) >= PAGED && st.mem.overflow < OVERFLOW_PAGE_SIZE ==> c.InOverflow?)
  {
    FrameIsFree(st);
    DeskIsSound(st, b);
    ChargeOfTable(st.mem, st.books[b].table, b);
  }

  lemma RunSnoc(subs: seq<Submission>, sub: Submission)
    ensures Run(subs + [sub]) == Process(Run(subs), sub)
  {
    assert (subs + [sub])[..|subs|] == subs;
  }

  /** One bid of a symbol that has no asks, in an exchange with a free frame. */
  lemma BidIsProcessed(st: State, symbol: string, o: Order)
    requires Sound(st) && SumBy(PageCount, WithBook(st.books, symbol)) < MAX_PAGES && o.side == Bid
    requires Sound(st.(books := WithBook(st.books, symbol)))
    requires var book := WithBook(st.books, symbol)[FindBook(st.books, symbol, 0)];
             book.asks == [] && (Slots(book.table) < PAGED || st.mem.overflow < OVERFLOW_PAGE_SIZE)
    ensures var b := FindBook(st.books, symbol, 0);
            var book := WithBook(st.books, symbol)[b];
            var st' := Process(st, Submission(symbol, o));
            && |st'.books| == |WithBook(st.books, symbol)|
            && st'.books == WithBook(st.books, symbol)[b := st'.books[b]]
            && st'.books[b].symbol == book.symbol
            && st'.books[b].asks == [] && |st'.books[b].bids| == |book.bids| + 1
            && Slots(st'.books[b].table) == (if Slots(book.table) < PAGED then Slots(book.table) + 1 else Slots(book.table))
            && st'.mem.overflow == (if Slots(book.table) < PAGED then st.mem.overflow else st.mem.overflow + 1)
  {
    var b := FindBook(st.books, symbol, 0);
    var st1 := st.(books := WithBook(st.books, symbol));
    ChargeOf(st1, b);
    DeskIsSound(st1, b);
    BidRests(Desk(st1.books[b], st.mem, st.stats), o, b);
  }

  function Bids(n: nat, symbol: string, o: Order): seq<Submission> {
    seq(n, _ => Submission(symbol, o))
  }

  /** n bids of one symbol, up to what its pages and the overflow page take. */
  ghost predicate Crowded(st: State, symbol: string, n: nat) {
    && |st.books| == 1 && st.books[0].symbol == symbol
    && st.books[0].asks == [] && |st.books[0].bids| == n
    && Slots(st.books[0].table) == (if n < PAGED then n else PAGED)
    && st.mem.overflow == (if n < PAGED then 0 else n - PAGED)
  }

  lemma {:induction false} BidsCrowd(n: nat, symbol: string, o: Order)
    requires 0 < n <= PAGED + OVERFLOW_PAGE_SIZE && ValidOrder(o) && o.side == Bid
    ensures ValidSubmissions(Bids(n, symbol, o)) && Crowded(Run(Bids(n, symbol, o)), symbol, n)
    decreases n
  {
    if n > 1 {
      assert Bids(n, symbol, o) == Bids(n - 1, symbol, o) + [Submission(symbol, o)];
      BidsCrowd(n - 1, symbol, o);
      OneMoreBid(Bids(n - 1, symbol, o), symbol, n - 1, o);
    } else {
      assert Bids(1, symbol, o) == [Submission(symbol, o)];
      FirstBid(symbol, o);
    }
  }

  lemma OneMoreBid(subs: seq<Submission>, symbol: string, n: nat, o: Order)
    requires ValidSubmissions(subs) && Crowded(Run(subs), symbol, n)
    requires 0 < n < PAGED + OVERFLOW_PAGE_SIZE && o.side == Bid
    ensures Crowded(Run(subs + [Submission(symbol, o)]), symbol, n + 1)
  {
    var st := Run(subs);
    RunIsSound(subs);
    RunSnoc(subs, Submission(symbol, o));
    OnePageCount(st);
    OneIsFound(st.books, symbol, 0);
    BidIsProcessed(st, symbol, o);
  }

  lemma FirstBid(symbol: string, o: Order)
    requires ValidOrder(o) && o.side == Bid
    ensures Crowded(Run([Submission(symbol, o)]), symbol, 1)
  {
    NewBid([], symbol, o);
    assert [] + [Submission(symbol, o)] == [Submission(symbol, o)];
  }

  lemma OnePageCount(st: State)
    requires Sound(st) && |st.books| == 1
    ensures SumBy(PageCount, st.books) == PageCount(st.books[0]) <= MAX_PAGES_PER_SYMBOL
  {
    DeskIsSound(st, 0);
    assert st.books[..0] == [];
  }

  // ---------- the other symbol ----------

  lemma AskIsInserted(d: Desk, ask: Order, b: nat)
    requires DeskSound(d, b) && ValidOrder(ask) && d.book.asks == [] && Slots(d.book.table) == 1 && ask.side == Ask
    ensures var (d', accepted) := Insert(d, ask, b);
            && accepted && DeskSound(d', b)
            && d'.book.asks == [ask] && d'.book.bids == d.book.bids
            && Slots(d'.book.table) == 2 && d'.mem.overflow == d.mem.overflow
  {
    ChargeKeepsMemory(d.mem, d.book.table, b);
    InsertIsDeskStep(d, ask, b);
    assert [] + [ask] == [ask];
  }

  /** A partial fill of the only two orders: the ask goes, and with it a slot and a place in the
      overflow page. */
  lemma AskFillsPartly(d: Desk, b: nat)
    requires b >= 0 && MemoryValid(d.mem) && BookFrames(d.mem.frames, d.book.table, b)
    requires |d.book.asks| == 1 && |d.book.bids| == 1 && Slots(d.book.table) == 2 && d.mem.overflow > 0
    requires d.book.bids[0].price >= d.book.asks[0].price && d.book.bids[0].amount > d.book.asks[0].amount
    ensures var d' := Drain(d);
            && Resting(d'.book) == 1 && Slots(d'.book.table) == 1 && d'.mem.overflow == d.mem.overflow - 1
  {
    var d1 := MatchOnce(d).0;
    assert MatchOnce(d).1 && d1.book.asks == [] && |d1.book.bids| == 1;
    assert d1.mem == d.mem && d1.book.table == d.book.table;
    CleanUpKeepsMemory(d.mem, d.book.table, b);
    assert !MatchOnce(Settle(d1)).1 && Drain(Settle(d1)) == Settle(d1);
  }

  lemma OtherIsNew(books: seq<Book>, other: string)
    requires |books| == 1 && books[0].symbol != other
    ensures FindBook(books, other, 0) == 1 && WithBook(books, other) == books + [NewBook(other)]
  {
    assert FindBook(books, other, 1) == 1;
  }

  lemma OneIsFound(books: seq<Book>, symbol: string, b: nat)
    requires b < |books| <= 2 && books[b].symbol == symbol && (b == 1 ==> books[0].symbol != symbol)
    ensures FindBook(books, symbol, 0) == b && WithBook(books, symbol) == books
  {
    assert b == 1 ==> FindBook(books, symbol, 1) == 1;
  }

  /** The first bid of a symbol rests in a page of its own. */
  lemma NewBid(subs: seq<Submission>, symbol: string, bid: Order)
    requires ValidSubmissions(subs) && ValidOrder(bid) && bid.side == Bid
    requires FindBook(Run(subs).books, symbol, 0) == |Run(subs).books|
    requires SumBy(PageCount, Run(subs).books) < MAX_PAGES
    ensures var (st, st') := (Run(subs), Run(subs + [Submission(symbol, bid)]));
            var b := |st.books|;
            && |st'.books| == b + 1 && st'.books[..b] == st.books && st'.books[b].symbol == symbol
            && st'.books[b].asks == [] && st'.books[b].bids == [bid] && Slots(st'.books[b].table) == 1
            && st'.mem.overflow == st.mem.overflow
  {
    RunIsSound(subs);
    RunSnoc(subs, Submission(symbol, bid));
    NewBidIsProcessed(Run(subs), symbol, bid);
  }

  lemma NewBidIsProcessed(st: State, symbol: string, bid: Order)
    requires Sound(st) && bid.side == Bid
    requires FindBook(st.books, symbol, 0) == |st.books| && SumBy(PageCount, st.books) < MAX_PAGES
    ensures var st' := Process(st, Submission(symbol, bid));
            var b := |st.books|;
            && |st'.books| == b + 1 && st'.books[..b] == st.books && st'.books[b].symbol == symbol
            && st'.books[b].asks == [] && st'.books[b].bids == [bid] && Slots(st'.books[b].table) == 1
            && st'.mem.overflow == st.mem.overflow
  {
    WithBookIsSound(st, symbol);
    SumSnoc(PageCount, st.books, NewBook(symbol));
    assert WithBook(st.books, symbol) == st.books + [NewBook(symbol)];
    BidIsProcessed(st, symbol, bid);
    OnlyBid(Desk(NewBook(symbol), st.mem, st.stats), bid, |st.books|);
  }

  /** A bid of another symbol. */
  lemma OtherBid(subs: seq<Submission>, symbol: string, other: string, bid: Order)
    requires ValidSubmissions(subs) && Crowded(Run(subs), symbol, PAGED + OVERFLOW_PAGE_SIZE) && other != symbol
    requires ValidOrder(bid) && bid.side == Bid
    ensures var (st, st') := (Run(subs), Run(subs + [Submission(other, bid)]));
            && |st'.books| == 2 && st'.books[0] == st.books[0] && st'.books[1].symbol == other
            && st'.books[1].asks == [] && st'.books[1].bids == [bid] && Slots(st'.books[1].table) == 1
            && st'.mem.overflow == OVERFLOW_PAGE_SIZE
  {
    var st := Run(subs);
    RunIsSound(subs);
    OtherIsNew(st.books, other);
    OnePageCount(st);
    NewBid(subs, other, bid);
    assert Run(subs + [Submission(other, bid)]).books[..1][0] == st.books[0];
  }

  /** The one bid that rests is the one submitted. */
  lemma OnlyBid(d: Desk, bid: Order, b: nat)
    requires d.book.asks == [] && d.book.bids == [] && bid.side == Bid
    ensures |Receive(d, bid, b).book.bids| == 1 ==> Receive(d, bid, b).book.bids == [bid]
  {
    var (d1, accepted) := Insert(d, bid, b);
    assert Push(Bid, [], bid) == [bid] by {
      assert [] + [bid] == [bid];
    }
    assert accepted ==> Drain(d1) == d1;
  }

  lemma OtherAsk(subs: seq<Submission>, other: string, ask: Order)
    requires ValidSubmissions(subs) && |Run(subs).books| == 2
    requires Run(subs).books[0].symbol != other && Run(subs).books[1].symbol == other
    requires var book := Run(subs).books[1];
             book.asks == [] && |book.bids| == 1 && Slots(book.table) == 1 &&
             book.bids[0].price >= ask.price && book.bids[0].amount > ask.amount
    requires ValidOrder(ask) && ask.side == Ask && Run(subs).mem.overflow > 0
    ensures var (st, st') := (Run(subs), Run(subs + [Submission(other, ask)]));
            && |st'.books| == 2 && st'.books[0] == st.books[0]
            && Resting(st'.books[1]) == 1 && Slots(st'.books[1].table) == 1
            && st'.mem.overflow == st.mem.overflow - 1
  {
    var st := Run(subs);
    RunIsSound(subs);
    DeskIsSound(st, 1);
    RunSnoc(subs, Submission(other, ask));
    OneIsFound(st.books, other, 1);
    AskIsInserted(Desk(st.books[1], st.mem, st.stats), ask, 1);
    AskFillsPartly(Insert(Desk(st.books[1], st.mem, st.stats), ask, 1).0, 1);
  }

  /** More orders rest than there are places charged. */
  lemma PlacesRunShort(symbol: string, other: string, bid: Order, ask: Order)
    requires other != symbol && ValidOrder(bid) && ValidOrder(ask) && bid.side == Bid && ask.side == Ask
    requires bid.price >= ask.price && bid.amount > ask.amount
    ensures var subs := Bids(PAGED + OVERFLOW_PAGE_SIZE, symbol, bid) + [Submission(other, bid)] + [Submission(other, ask)];
            var st := Run(subs);
            ValidSubmissions(subs) && SumBy(Resting, st.books) > SumBy(BookSlots, st.books) + st.mem.overflow
  {
    var n := PAGED + OVERFLOW_PAGE_SIZE;
    BidsCrowd(n, symbol, bid);
    TwoMore(Bids(n, symbol, bid), symbol, other, bid, ask);
  }

  lemma TwoMore(many: seq<Submission>, symbol: string, other: string, bid: Order, ask: Order)
    requires ValidSubmissions(many) && Crowded(Run(many), symbol, PAGED + OVERFLOW_PAGE_SIZE) && other != symbol
    requires ValidOrder(bid) && ValidOrder(ask) && bid.side == Bid && ask.side == Ask
    requires bid.price >= ask.price && bid.amount > ask.amount
    ensures ValidSubmissions(many + [Submission(other, bid)] + [Submission(other, ask)])
    ensures var st := Run(many + [Submission(other, bid)] + [Submission(other, ask)]);
            SumBy(Resting, st.books) > SumBy(BookSlots, st.books) + st.mem.overflow
  {
    OtherBid(many, symbol, other, bid);
    OtherAsk(many + [Submission(other, bid)], other, ask);
    TwoBooks(Run(many + [Submission(other, bid)] + [Submission(other, ask)]));
  }

  lemma TwoBooks(st: State)
    requires |st.books| == 2
    ensures SumBy(Resting, st.books) == Resting(st.books[0]) + Resting(st.books[1])
    ensures SumBy(BookSlots, st.books) == BookSlots(st.books[0]) + BookSlots(st.books[1])
  {
    var (a, b) := (st.books[0], st.books[1]);
    assert st.books == [] + [a] + [b];
    SumSnoc(Resting, [], a);
    SumSnoc(Resting, [] + [a], b);
    SumSnoc(BookSlots, [], a);
    SumSnoc(BookSlots, [] + [a], b);
  }
}
