/** The per-order transition of the simulator (sw_sim/mmu.h, sw_sim/memory_sim.c) as functions.
    The log is a history variable: nothing reads it, the run-level laws are stated over it. */
module ExchangeSpec {
  import opened Orders
  import opened HeapSpec
  import opened MemorySpec

  datatype Book = Book(symbol: string, asks: seq<Order>, bids: seq<Order>, table: PageTable, trades: int)

  datatype Event = Accepted(symbol: string, order: Order, overflowed: bool)
                 | Rejected(symbol: string, order: Order)
                 | Traded(symbol: string, bid: Order, ask: Order)
                 | NothingReleased(symbol: string)

  datatype Stats = Stats(totalTrades: int, totalReads: int, totalWrites: int,
                         overflowAccesses: int, overflowMax: int, log: seq<Event>)
  {
    function Log(e: Event): Stats {
      this.(log := log + [e])
    }
  }

  // What one order of a symbol can touch: its book, the memory and the statistics.
  datatype Desk = Desk(book: Book, mem: Memory, stats: Stats)

  datatype State = State(books: seq<Book>, mem: Memory, stats: Stats)

  datatype Submission = Submission(symbol: string, order: Order)

  function NewBook(symbol: string): Book {
    Book(symbol, [], [], PageTable([], 0), 0)
  }

  function EmptyState(): State {
    State([], EmptyMemory(), Stats(0, 0, 0, 0, 0, []))
  }

  function AddOrder(book: Book, o: Order): Book {
    if o.side == Ask then book.(asks := Push(Ask, book.asks, o))
    else book.(bids := Push(Bid, book.bids, o))
  }

  /** The statistics after an insert that was charged as c. */
  function Charged(stats: Stats, symbol: string, o: Order, c: Charge): Stats {
    match c
    case InPage(_, _) =>
      stats.(totalWrites := stats.totalWrites + 1).Log(Accepted(symbol, o, false))
    case InOverflow(mem) =>
      stats.(totalWrites := stats.totalWrites + 1,
             overflowAccesses := stats.overflowAccesses + 1,
             overflowMax := if mem.overflow > stats.overflowMax then mem.overflow else stats.overflowMax)
      .Log(Accepted(symbol, o, true))
    case Refused(_) =>
      stats.Log(Rejected(symbol, o))
  }

  /** mem_aware_insert, with its return value. */
  function Insert(d: Desk, o: Order, symId: int): (Desk, bool) {
    var c := ChargeSlot(d.mem, d.book.table, symId);
    var stats := Charged(d.stats, d.book.symbol, o, c);
    match c
    case InPage(mem, table) => (Desk(AddOrder(d.book.(table := table), o), mem, stats), true)
    case InOverflow(mem) => (Desk(AddOrder(d.book, o), mem, stats), true)
    case Refused(mem) => (Desk(d.book, mem, stats), false)
  }

  /** The four branches of the insert are one: charge the order, count it and, unless it was
      refused, rest it. */
  lemma InsertRestsOrRefuses(d: Desk, o: Order, symId: int)
    ensures var c := ChargeSlot(d.mem, d.book.table, symId);
            var book := if c.InPage? then d.book.(table := c.table) else d.book;
            Insert(d, o, symId) == (Desk(if c.Refused? then book else AddOrder(book, o), c.mem,
                                         Charged(d.stats, d.book.symbol, o, c)), !c.Refused?)
  {
  }

  /** check_for_trade_multi on a book and the statistics, with its return value. */
  function MatchBook(book: Book, stats: Stats): (r: (Book, Stats, bool))
    ensures r.2 ==> |r.0.asks| + |r.0.bids| < |book.asks| + |book.bids|
    ensures r.1.totalReads - stats.totalReads == if book.asks == [] || book.bids == [] then 0 else 2
    ensures r.1.totalTrades - stats.totalTrades == if r.2 then 1 else 0
  {
    if book.asks == [] || book.bids == [] then (book, stats, false)
    else
      var bid, ask := book.bids[0], book.asks[0];
      var seen := stats.(totalReads := stats.totalReads + 2);
      if bid.price < ask.price then (book, seen, false)
      else
        var done := seen.(totalTrades := seen.totalTrades + 1).Log(Traded(book.symbol, bid, ask));
        if bid.amount == ask.amount then
          (book.(bids := Pop(Bid, book.bids), asks := Pop(Ask, book.asks)), done, true)
        else if bid.amount > ask.amount then
          (book.(bids := Update(book.bids, bid.amount - ask.amount), asks := Pop(Ask, book.asks)),
           done.(totalWrites := done.totalWrites + 1), true)
        else
          (book.(asks := Update(book.asks, ask.amount - bid.amount), bids := Pop(Bid, book.bids)),
           done.(totalWrites := done.totalWrites + 1), true)
  }

  /** A heap whose root loses up to the given shares: the root is popped unless it has some left. */
  function FillRoot(side: Side, s: seq<Order>, shares: int): seq<Order>
    requires s != []
  {
    if s[0].amount <= shares then Pop(side, s) else Update(s, s[0].amount - shares)
  }

  /** The statistics after a trade of the two orders. */
  function Recorded(stats: Stats, symbol: string, bid: Order, ask: Order): Stats {
    stats.(totalTrades := stats.totalTrades + 1,
           totalWrites := stats.totalWrites + (if bid.amount != ask.amount then 1 else 0))
    .Log(Traded(symbol, bid, ask))
  }

  /** The three kinds of trade are one: each root loses what the other has. */
  lemma TradeChangesBothRoots(book: Book, stats: Stats)
    requires MatchBook(book, stats).2
    ensures var (bid, ask) := (book.bids[0], book.asks[0]);
            MatchBook(book, stats) ==
              (book.(bids := FillRoot(Bid, book.bids, ask.amount), asks := FillRoot(Ask, book.asks, bid.amount)),
               Recorded(stats.(totalReads := stats.totalReads + 2), book.symbol, bid, ask),
               true)
  {
  }

  function MatchOnce(d: Desk): (r: (Desk, bool))
    ensures r.1 ==> |r.0.book.asks| + |r.0.book.bids| < |d.book.asks| + |d.book.bids|
  {
    var (book, stats, traded) := MatchBook(d.book, d.stats);
    (Desk(book, d.mem, stats), traded)
  }

  /** The body of the drain loop: one more trade of the book, then post_trade_cleanup. */
  function Settle(d: Desk): (r: Desk)
    ensures r.book.asks == d.book.asks && r.book.bids == d.book.bids
  {
    var (mem, table) := CleanUp(d.mem, d.book.table);
    Desk(d.book.(table := table, trades := d.book.trades + 1), mem,
         if d.book.table.inCurr <= 0 then d.stats.Log(NothingReleased(d.book.symbol)) else d.stats)
  }

  /** The drain loop: trade while the best bid reaches the best ask. */
  function Drain(d: Desk): Desk
    decreases |d.book.asks| + |d.book.bids|
  {
    var (d', traded) := MatchOnce(d);
    if traded then Drain(Settle(d')) else d'
  }

  lemma DrainTurns(d: Desk)
    ensures var (d', traded) := MatchOnce(d);
            Drain(d) == if traded then Drain(Settle(d')) else d'
  {
  }

  /** Everything that happens at one book when it receives an order. */
  function Receive(d: Desk, o: Order, symId: int): Desk {
    var (d', accepted) := Insert(d, o, symId);
    if accepted then Drain(d') else d'
  }

  /** The first book with the symbol; the number of books when there is none. */
  function FindBook(books: seq<Book>, symbol: string, from: nat): (b: nat)
    requires from <= |books|
    ensures from <= b <= |books|
    ensures b < |books| ==> books[b].symbol == symbol
    ensures forall k :: from <= k < b ==> books[k].symbol != symbol
    decreases |books| - from
  {
    if from == |books| || books[from].symbol == symbol then from else FindBook(books, symbol, from + 1)
  }

  /** find_or_create_book. */
  function WithBook(books: seq<Book>, symbol: string): (r: seq<Book>)
    ensures FindBook(books, symbol, 0) < |r|
  {
    if FindBook(books, symbol, 0) < |books| then books else books + [NewBook(symbol)]
  }

  function Process(st: State, sub: Submission): State {
    var b := FindBook(st.books, sub.symbol, 0);
    var books := WithBook(st.books, sub.symbol);
    var d := Receive(Desk(books[b], st.mem, st.stats), sub.order, b);
    State(books[b := d.book], d.mem, d.stats)
  }

  /** Is the order inserted? */
  function Accepts(st: State, sub: Submission): bool {
    Insert(Desk(WithBook(st.books, sub.symbol)[FindBook(st.books, sub.symbol, 0)], st.mem, st.stats), sub.order,
           FindBook(st.books, sub.symbol, 0)).1
  }

  function Run(subs: seq<Submission>): State {
    if subs == [] then EmptyState() else Process(Run(subs[..|subs| - 1]), subs[|subs| - 1])
  }
}
