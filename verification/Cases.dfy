/** Short runs, followed to the end: which of two orders is filled first, and what an exact match
    leaves of a book's memory. */
module Cases {
  import opened Orders
  import opened HeapSpec
  import opened MemorySpec
  import opened ExchangeSpec
  import opened DeskLaws

  /** A book with one page that has room, on a memory with that page charged. */
  ghost predicate OnePage(book: Book, mem: Memory, n: int) {
    book.table == PageTable([0], n) && mem.frames[0] == Frame(false, 0, n) && 0 < n < PAGE_SIZE
  }

  lemma FirstFrame()
    ensures FirstFree(EmptyMemory().frames, 0) == 0
  {
  }

  /** The first order of all rests in a book with one page. */
  lemma FirstRests(symbol: string, o: Order)
    ensures var st := Run([Submission(symbol, o)]);
            && |st.books| == 1 && OnePage(st.books[0], st.mem, 1)
            && st.books[0].symbol == symbol && st.stats.log == [Accepted(symbol, o, false)]
            && st.books[0].asks == (if o.side == Ask then [o] else [])
            && st.books[0].bids == (if o.side == Bid then [o] else [])
  {
    FirstFrame();
    var d := Desk(NewBook(symbol), EmptyMemory(), EmptyState().stats);
    assert [Submission(symbol, o)][..0] == [];
    assert WithBook([], symbol) == [NewBook(symbol)] && FindBook([], symbol, 0) == 0;
    PushOnEmpty(o);
    var d' := Insert(d, o, 0).0;
    assert d'.book == AddOrder(d.book.(table := PageTable([0], 1)), o);
    NothingToTrade(d');
  }

  lemma PushOnEmpty(o: Order)
    ensures Push(o.side, [], o) == [o]
  {
    assert [] + [o] == [o];
  }

  lemma NothingToTrade(d: Desk)
    requires d.book.asks == [] || d.book.bids == []
    ensures Drain(d) == d
  {
  }

  /** A later order of the one symbol is charged to that page. */
  lemma NextIsInserted(st: State, book: Book, o: Order, n: int)
    requires st.books == [book] && OnePage(book, st.mem, n) && n + 1 < PAGE_SIZE
    ensures var d := Inserted(st, book, o, n);
            && OnePage(d.book, d.mem, n + 1) && d.book.symbol == book.symbol
            && (d.book.asks, d.book.bids) == (AddOrder(book, o).asks, AddOrder(book, o).bids)
            && d.stats.log == st.stats.log + [Accepted(book.symbol, o, false)]
            && Process(st, Submission(book.symbol, o)) == State([Drain(d).book], Drain(d).mem, Drain(d).stats)
  {
    var d := Desk(book, st.mem, st.stats);
    assert FindBook([book], book.symbol, 0) == 0 && WithBook(st.books, book.symbol) == [book];
    assert Insert(d, o, 0) == (Inserted(st, book, o, n), true);
    assert [book][0 := Drain(Inserted(st, book, o, n)).book] == [Drain(Inserted(st, book, o, n)).book];
  }

  function Inserted(st: State, book: Book, o: Order, n: int): Desk {
    Desk(AddOrder(book.(table := PageTable([0], n + 1)), o),
         st.mem.(frames := st.mem.frames[0 := Frame(false, 0, n + 1)]),
         st.stats.(totalWrites := st.stats.totalWrites + 1).Log(Accepted(book.symbol, o, false)))
  }

  /** The drain loop only adds to the log, and starts with the trade of the roots. */
  lemma {:induction false} DrainExtends(d: Desk)
    ensures |d.stats.log| <= |Drain(d).stats.log| && Drain(d).stats.log[..|d.stats.log|] == d.stats.log
    ensures MatchOnce(d).1 ==>
              && |d.stats.log| < |Drain(d).stats.log|
              && Drain(d).stats.log[|d.stats.log|] == Traded(d.book.symbol, d.book.bids[0], d.book.asks[0])
    decreases |d.book.asks| + |d.book.bids|
  {
    if MatchOnce(d).1 {
      MatchFillsBoth(d);
      var d' := Settle(MatchOnce(d).0);
      assert d'.stats.log[..|d.stats.log| + 1] == MatchOnce(d).0.stats.log;
      DrainExtends(d');
      var log := Drain(d).stats.log;
      assert log[..|d'.stats.log|][..|d.stats.log| + 1] == log[..|d.stats.log| + 1];
      assert log[..|d.stats.log| + 1][..|d.stats.log|] == log[..|d.stats.log|];
    }
  }

  // ---------- two orders of one price ----------

  lemma PushSecond(o1: Order, o2: Order)
    requires o1.side == o2.side
    ensures Push(o1.side, [o1], o2) == if Beats(o1.side, o2, o1) then [o2, o1] else [o1, o2]
  {
    assert [o1] + [o2] == [o1, o2];
    assert Swap([o1, o2], 1, 0) == [o2, o1];
  }

  /** Two orders of one side rest in the order of the comparator. */
  lemma TwoRest(symbol: string, o1: Order, o2: Order)
    requires o1.side == o2.side
    ensures var st := Run([Submission(symbol, o1), Submission(symbol, o2)]);
            && |st.books| == 1 && OnePage(st.books[0], st.mem, 2) && st.books[0].symbol == symbol
            && |st.stats.log| == 2
            && SideOf(st.books[0], o1.side) == (if Beats(o1.side, o2, o1) then [o2, o1] else [o1, o2])
            && (if o1.side == Ask then st.books[0].bids == [] else st.books[0].asks == [])
  {
    var subs := [Submission(symbol, o1), Submission(symbol, o2)];
    assert subs[..1] == [Submission(symbol, o1)];
    var st := Run(subs[..1]);
    FirstRests(symbol, o1);
    NextIsInserted(st, st.books[0], o2, 1);
    PushSecond(o1, o2);
    NothingToTrade(Inserted(st, st.books[0], o2, 1));
  }

  /** Does a resting order reach an order of the other side? */
  predicate Reaches(o: Order, c: Order) {
    if o.side == Bid then o.price >= c.price else c.price >= o.price
  }

  /** Of two resting orders with one price, the counter-order c meets the second iff that one has
      the lower timestamp, or the same and more shares. */
  lemma PairIsFilled(symbol: string, o1: Order, o2: Order, c: Order)
    requires o1.side == o2.side != c.side && o1.price == o2.price && Reaches(o1, c)
    ensures var log := Run([Submission(symbol, o1), Submission(symbol, o2), Submission(symbol, c)]).stats.log;
            var second := o2.timestamp < o1.timestamp || (o2.timestamp == o1.timestamp && o2.amount > o1.amount);
            var o := if second then o2 else o1;
            && |log| > 3
            && log[3] == (if o1.side == Bid then Traded(symbol, o, c) else Traded(symbol, c, o))
  {
    var subs := [Submission(symbol, o1), Submission(symbol, o2), Submission(symbol, c)];
    assert subs[..2] == [Submission(symbol, o1), Submission(symbol, o2)];
    var st := Run(subs[..2]);
    TwoRest(symbol, o1, o2);
    NextIsInserted(st, st.books[0], c, 2);
    PushOnEmpty(c);
    DrainExtends(Inserted(st, st.books[0], c, 2));
  }

  /** First come, first served fails exactly so. */
  lemma FirstIsFilledFirstIff(symbol: string, o1: Order, o2: Order, c: Order)
    requires o1.side == o2.side != c.side && o1.price == o2.price && Reaches(o1, c) && o1 != o2
    ensures var log := Run([Submission(symbol, o1), Submission(symbol, o2), Submission(symbol, c)]).stats.log;
            && |log| > 3 && log[3].Traded?
            && ((if o1.side == Bid then log[3].bid else log[3].ask) == o1 <==>
                  o1.timestamp < o2.timestamp || (o1.timestamp == o2.timestamp && o2.amount <= o1.amount))
  {
    PairIsFilled(symbol, o1, o2, c);
  }

  /** A case: the second order comes just after the nanosecond part of the clock has wrapped. */
  lemma SecondIsFilledFirst(symbol: string, o1: Order, o2: Order, c: Order)
    requires o1 == Order(0, Bid, 10, 999_999_990, 5) && o2 == Order(1, Bid, 10, 20, 5) && c == Order(2, Ask, 10, 30, 5)
    ensures var log := Run([Submission(symbol, o1), Submission(symbol, o2), Submission(symbol, c)]).stats.log;
            |log| > 3 && log[3] == Traded(symbol, o2, c)
  {
    PairIsFilled(symbol, o1, o2, c);
  }

  // ---------- an exact match ----------

  /** A bid and an ask that match exactly leave no order, and a page. */
  lemma ExactMatchKeepsPage(symbol: string, bid: Order, ask: Order)
    requires bid.side == Bid && ask.side == Ask && bid.amount == ask.amount && bid.price >= ask.price
    ensures var st := Run([Submission(symbol, bid), Submission(symbol, ask)]);
            && |st.books| == 1 && Resting(st.books[0]) == 0
            && st.books[0].table == PageTable([0], 1) && !st.mem.frames[0].free
  {
    var subs := [Submission(symbol, bid), Submission(symbol, ask)];
    assert subs[..1] == [Submission(symbol, bid)];
    var st := Run(subs[..1]);
    FirstRests(symbol, bid);
    NextIsInserted(st, st.books[0], ask, 1);
    PushOnEmpty(ask);
    ExactTradeKeepsPage(Inserted(st, st.books[0], ask, 1), bid, ask);
  }

  lemma ExactTradeKeepsPage(d: Desk, bid: Order, ask: Order)
    requires d.book.bids == [bid] && d.book.asks == [ask] && OnePage(d.book, d.mem, 2)
    requires bid.amount == ask.amount && bid.price >= ask.price
    ensures var d' := Drain(d);
            && d'.book.asks == [] && d'.book.bids == []
            && d'.book.table == PageTable([0], 1) && !d'.mem.frames[0].free
  {
    PopLast(Bid, bid);
    PopLast(Ask, ask);
    var d1 := MatchOnce(d).0;
    assert d1.book == d.book.(bids := [], asks := []) && d1.mem == d.mem;
    OneSlotReleased(d1);
    NothingToTrade(Settle(d1));
  }

  lemma OneSlotReleased(d: Desk)
    requires OnePage(d.book, d.mem, 2)
    ensures Settle(d).book.table == PageTable([0], 1) && !Settle(d).mem.frames[0].free
  {
  }

  lemma PopLast(side: Side, o: Order)
    ensures Pop(side, [o]) == []
  {
  }
}
