/** Who trades first. In every run each trade is between the best orders that the history leaves
    resting; where timestamps ascend with arrival these are the oldest of their price, and where
    they do not, exactly when is said here too. */
module Arrivals {
  import opened Orders
  import opened HeapSpec
  import opened ExchangeSpec
  import opened DeskLaws
  import opened ExchangeLaws
  import opened Reference
  import opened Refinement

  // ---------- the history determines what rests ----------

  /** The orders of one symbol and side that its history leaves, with the shares they have left. */
  function Left(events: seq<Event>, side: Side): multiset<Order> {
    if events == [] then multiset{} else LeftAfter(Left(events[..|events| - 1], side), events[|events| - 1], side)
  }

  function LeftAfter(m: multiset<Order>, e: Event, side: Side): multiset<Order> {
    if e.Accepted? && e.order.side == side then m + multiset{e.order}
    else if e.Traded? then Filled(m, Trader(e, side), Fill(e.bid, e.ask))
    else m
  }

  function Trader(e: Event, side: Side): Order
    requires e.Traded?
  {
    if side == Bid then e.bid else e.ask
  }

  lemma LeftSnoc(log: seq<Event>, e: Event, side: Side)
    ensures Left(ForSymbol(log + [e], e.symbol), side) == LeftAfter(Left(ForSymbol(log, e.symbol), side), e, side)
  {
    ForSymbolSnoc(log, e, e.symbol);
    var events := ForSymbol(log, e.symbol);
    assert (events + [e])[..|events|] == events;
  }

  ghost predicate RestsAsLeft(book: Book, log: seq<Event>) {
    && multiset(book.bids) == Left(ForSymbol(log, book.symbol), Bid)
    && multiset(book.asks) == Left(ForSymbol(log, book.symbol), Ask)
  }

  /** The trade at n is between a best bid and a best ask of all orders then resting. */
  ghost predicate TradesBest(log: seq<Event>, n: nat)
    requires n < |log| && log[n].Traded?
  {
    && IsBest(Bid, Left(ForSymbol(log[..n], log[n].symbol), Bid), log[n].bid)
    && IsBest(Ask, Left(ForSymbol(log[..n], log[n].symbol), Ask), log[n].ask)
  }

  ghost predicate AllTradeBest(log: seq<Event>) {
    forall n :: 0 <= n < |log| && log[n].Traded? ==> TradesBest(log, n)
  }

  lemma OneMoreTrade(log: seq<Event>, e: Event)
    requires AllTradeBest(log)
    requires e.Traded? ==>
               && IsBest(Bid, Left(ForSymbol(log, e.symbol), Bid), e.bid)
               && IsBest(Ask, Left(ForSymbol(log, e.symbol), Ask), e.ask)
    ensures AllTradeBest(log + [e])
  {
    var longer := log + [e];
    forall n | 0 <= n < |longer| && longer[n].Traded?
      ensures TradesBest(longer, n)
    {
      if n < |log| {
        assert longer[..n] == log[..n] && TradesBest(log, n);
      } else {
        assert longer[..n] == log;
      }
    }
  }

  lemma InsertIsTraced(d: Desk, o: Order, b: int)
    requires HeapOrdered(Ask, d.book.asks) && HeapOrdered(Bid, d.book.bids)
    requires RestsAsLeft(d.book, d.stats.log) && AllTradeBest(d.stats.log)
    ensures var d' := Insert(d, o, b).0;
            RestsAsLeft(d'.book, d'.stats.log) && AllTradeBest(d'.stats.log)
  {
    InsertMovesLedgers(d, o, b);
    InsertReports(d, o, b);
    var d' := Insert(d, o, b).0;
    var e := d'.stats.log[|d.stats.log|];
    OneMoreTrade(d.stats.log, e);
    LeftSnoc(d.stats.log, e, Bid);
    LeftSnoc(d.stats.log, e, Ask);
    AddOrderAdds(d.book, o);
  }

  lemma AddOrderAdds(book: Book, o: Order)
    requires HeapOrdered(Ask, book.asks) && HeapOrdered(Bid, book.bids)
    ensures multiset(AddOrder(book, o).asks) == multiset(book.asks) + (if o.side == Ask then multiset{o} else multiset{})
    ensures multiset(AddOrder(book, o).bids) == multiset(book.bids) + (if o.side == Bid then multiset{o} else multiset{})
  {
    if o.side == Ask {
      PushKeepsHeap(Ask, book.asks, o);
    } else {
      PushKeepsHeap(Bid, book.bids, o);
    }
  }

  lemma TradeLeaves(book: Book, log: seq<Event>, e: Event)
    requires RestsAsLeft(book, log) && book.asks != [] && book.bids != []
    requires HeapOrdered(Ask, book.asks) && HeapOrdered(Bid, book.bids)
    requires e == Traded(book.symbol, book.bids[0], book.asks[0])
    ensures var q := Fill(e.bid, e.ask);
            RestsAsLeft(book.(bids := FillRoot(Bid, book.bids, q), asks := FillRoot(Ask, book.asks, q)), log + [e])
  {
    var q := Fill(e.bid, e.ask);
    FillLaws(Bid, book.bids, q);
    FillLaws(Ask, book.asks, q);
    LeftSnoc(log, e, Bid);
    LeftSnoc(log, e, Ask);
  }

  lemma TradeIsBest(book: Book, log: seq<Event>, e: Event)
    requires RestsAsLeft(book, log) && AllTradeBest(log) && book.asks != [] && book.bids != []
    requires HeapOrdered(Ask, book.asks) && HeapOrdered(Bid, book.bids)
    requires e == Traded(book.symbol, book.bids[0], book.asks[0])
    ensures AllTradeBest(log + [e])
  {
    RootIsABest(Bid, book.bids);
    RootIsABest(Ask, book.asks);
    OneMoreTrade(log, e);
  }

  lemma TurnIsTraced(d: Desk)
    requires HeapOrdered(Ask, d.book.asks) && HeapOrdered(Bid, d.book.bids) && MatchOnce(d).1
    requires RestsAsLeft(d.book, d.stats.log) && AllTradeBest(d.stats.log)
    ensures var d' := Settle(MatchOnce(d).0);
            RestsAsLeft(d'.book, d'.stats.log) && AllTradeBest(d'.stats.log)
  {
    MatchFillsBoth(d);
    var e := Traded(d.book.symbol, d.book.bids[0], d.book.asks[0]);
    TradeLeaves(d.book, d.stats.log, e);
    TradeIsBest(d.book, d.stats.log, e);
    SettleIsTraced(MatchOnce(d).0);
  }

  lemma SettleIsTraced(d: Desk)
    requires RestsAsLeft(d.book, d.stats.log) && AllTradeBest(d.stats.log)
    ensures RestsAsLeft(Settle(d).book, Settle(d).stats.log) && AllTradeBest(Settle(d).stats.log)
  {
    var e := NothingReleased(d.book.symbol);
    OneMoreTrade(d.stats.log, e);
    LeftSnoc(d.stats.log, e, Bid);
    LeftSnoc(d.stats.log, e, Ask);
  }

  lemma {:induction false} DrainIsTraced(d: Desk, b: int)
    requires DeskSound(d, b) && RestsAsLeft(d.book, d.stats.log) && AllTradeBest(d.stats.log)
    ensures RestsAsLeft(Drain(d).book, Drain(d).stats.log) && AllTradeBest(Drain(d).stats.log)
    decreases |d.book.asks| + |d.book.bids|
  {
    if MatchOnce(d).1 {
      HeapsAreOrdered(d, b);
      TurnIsTraced(d);
      TradeIsDeskStep(d, b);
      DrainIsTraced(Settle(MatchOnce(d).0), b);
    } else {
      NoTradeIsDeskStep(d, b);
    }
  }

  ghost predicate AllRestAsLeft(st: State) {
    forall b :: 0 <= b < |st.books| ==> RestsAsLeft(st.books[b], st.stats.log)
  }

  lemma ReceiveIsTraced(d: Desk, o: Order, b: int)
    requires DeskSound(d, b) && ValidOrder(o) && RestsAsLeft(d.book, d.stats.log) && AllTradeBest(d.stats.log)
    ensures RestsAsLeft(Receive(d, o, b).book, Receive(d, o, b).stats.log) && AllTradeBest(Receive(d, o, b).stats.log)
  {
    HeapsAreOrdered(d, b);
    InsertIsTraced(d, o, b);
    InsertIsDeskStep(d, o, b);
    if Insert(d, o, b).1 {
      DrainIsTraced(Insert(d, o, b).0, b);
    }
  }

  lemma HeapsAreOrdered(d: Desk, b: int)
    requires DeskSound(d, b)
    ensures HeapOrdered(Ask, d.book.asks) && HeapOrdered(Bid, d.book.bids)
  {
    assert SideSound(d.book, Ask) && SideSound(d.book, Bid);
  }

  /** Putting back a book leaves the other symbols' histories, and so their books, as they were. */
  lemma OthersRestAsLeft(books: seq<Book>, b: nat, book: Book, log: seq<Event>, log': seq<Event>)
    requires b < |books| && DistinctSymbols(books) && book.symbol == books[b].symbol
    requires forall j :: 0 <= j < |books| ==> RestsAsLeft(books[j], log)
    requires RestsAsLeft(book, log')
    requires forall other :: other != book.symbol ==> ForSymbol(log', other) == ForSymbol(log, other)
    ensures var books' := books[b := book]; forall j :: 0 <= j < |books'| ==> RestsAsLeft(books'[j], log')
  {
    forall j | 0 <= j < |books| && j != b
      ensures RestsAsLeft(books[j], log')
    {
      assert books[j].symbol != book.symbol;
      assert RestsAsLeft(books[j], log);
    }
  }

  lemma ProcessIsTraced(st: State, sub: Submission)
    requires Sound(st) && ValidOrder(sub.order) && AllRestAsLeft(st) && AllTradeBest(st.stats.log)
    ensures AllRestAsLeft(Process(st, sub)) && AllTradeBest(Process(st, sub).stats.log)
  {
    var b := FindBook(st.books, sub.symbol, 0);
    var books := WithBook(st.books, sub.symbol);
    WithBookIsSound(st, sub.symbol);
    NewBookIsTraced(st, sub.symbol);
    var d := Desk(books[b], st.mem, st.stats);
    var d' := Receive(d, sub.order, b);
    DeskIsSound(st.(books := books), b);
    assert RestsAsLeft(books[b], st.stats.log);
    ReceiveIsTraced(d, sub.order, b);
    ReceiveIsDeskStep(d, sub.order, b);
    OthersRestAsLeft(books, b, d'.book, st.stats.log, d'.stats.log);
  }

  lemma NewBookIsTraced(st: State, symbol: string)
    requires AllBooks(st) && AllRestAsLeft(st)
    ensures AllRestAsLeft(st.(books := WithBook(st.books, symbol)))
  {
    if FindBook(st.books, symbol, 0) == |st.books| {
      UnlistedIsSilent(st, symbol);
      assert RestsAsLeft(NewBook(symbol), st.stats.log);
      OneMoreRests(st.books, NewBook(symbol), st.stats.log);
    }
  }

  lemma UnlistedIsSilent(st: State, symbol: string)
    requires AllBooks(st) && FindBook(st.books, symbol, 0) == |st.books|
    ensures ForSymbol(st.stats.log, symbol) == []
  {
    assert Unlisted(st.books, symbol);
  }

  lemma OneMoreRests(books: seq<Book>, book: Book, log: seq<Event>)
    requires RestsAsLeft(book, log) && forall b :: 0 <= b < |books| ==> RestsAsLeft(books[b], log)
    ensures forall b :: 0 <= b < |books + [book]| ==> RestsAsLeft((books + [book])[b], log)
  {
    forall b | 0 <= b < |books + [book]|
      ensures RestsAsLeft((books + [book])[b], log)
    {
      assert b < |books| ==> RestsAsLeft(books[b], log);
    }
  }

  /** In every run, what rests is what the history leaves, and every trade was a best one. */
  lemma {:induction false} RunTradesBest(subs: seq<Submission>)
    requires ValidSubmissions(subs)
    ensures AllRestAsLeft(Run(subs)) && AllTradeBest(Run(subs).stats.log)
  {
    if subs != [] {
      var n := |subs| - 1;
      RunTradesBest(subs[..n]);
      RunIsSound(subs[..n]);
      ProcessIsTraced(Run(subs[..n]), subs[n]);
    }
  }

  // ---------- age ----------

  /** o is what is left of the i-th order of a stream. */
  ghost predicate From(stream: seq<Submission>, i: nat, symbol: string, side: Side, o: Order) {
    i < |stream| && o.side == side && stream[i] == Submission(symbol, o.(amount := stream[i].order.amount))
  }

  ghost predicate Arrived(stream: seq<Submission>, symbol: string, side: Side, o: Order) {
    exists i :: From(stream, i, symbol, side, o)
  }

  /** No order of o's price among those resting arrived before o. */
  ghost predicate Oldest(stream: seq<Submission>, symbol: string, side: Side, m: multiset<Order>, o: Order) {
    && o in m && Arrived(stream, symbol, side, o)
    && forall p, i, j :: p in m && p.price == o.price && From(stream, i, symbol, side, o) && From(stream, j, symbol, side, p) ==>
         i <= j
  }

  predicate SameQueue(a: Submission, b: Submission) {
    a.symbol == b.symbol && a.order.side == b.order.side && a.order.price == b.order.price
  }

  /** Within symbol, side and price, timestamps ascend with arrival. */
  ghost predicate Ascending(stream: seq<Submission>) {
    forall i, j :: 0 <= i < j < |stream| && SameQueue(stream[i], stream[j]) ==>
                     stream[i].order.timestamp < stream[j].order.timestamp
  }

  lemma BestIsOldest(stream: seq<Submission>, symbol: string, side: Side, m: multiset<Order>, o: Order)
    requires Ascending(stream) && IsBest(side, m, o) && Arrived(stream, symbol, side, o)
    ensures Oldest(stream, symbol, side, m, o)
  {
    forall p, i: nat, j: nat | p in m && p.price == o.price &&
                               From(stream, i, symbol, side, o) && From(stream, j, symbol, side, p)
      ensures i <= j
    {
      assert NoWorse(side, o, p);
    }
  }

  lemma StreamSnoc(log: seq<Event>, e: Event, symbol: string, side: Side, o: Order)
    ensures Arrived(AcceptedStream(log), symbol, side, o) ==> Arrived(AcceptedStream(log + [e]), symbol, side, o)
    ensures e.Accepted? && e.symbol == symbol && e.order == o && o.side == side ==>
              Arrived(AcceptedStream(log + [e]), symbol, side, o)
  {
    LogSnoc(log, e);
    var (stream, longer) := (AcceptedStream(log), AcceptedStream(log + [e]));
    if i :| From(stream, i, symbol, side, o) {
      assert From(longer, i, symbol, side, o);
    }
    if e.Accepted? && e.symbol == symbol && e.order == o && o.side == side {
      assert From(longer, |stream|, symbol, side, o);
    }
  }

  /** What an event leaves was left before it, or is its order, or remains of its trader. */
  lemma LeftAfterHasArrived(stream: seq<Submission>, m: multiset<Order>, e: Event, side: Side, o: Order)
    requires forall p :: p in m ==> Arrived(stream, e.symbol, side, p)
    requires e.Traded? ==> Trader(e, side) in m
    requires o in LeftAfter(m, e, side)
    ensures Arrived(stream, e.symbol, side, o) || (e.Accepted? && e.order == o && o.side == side)
  {
    if e.Traded? && o !in m {
      var t := Trader(e, side);
      assert o == t.(amount := o.amount);
      var i: nat :| From(stream, i, e.symbol, side, t);
      assert From(stream, i, e.symbol, side, o);
    }
  }

  /** Whatever the history leaves was accepted once. */
  lemma {:induction false} LeftHasArrived(log: seq<Event>, symbol: string, side: Side)
    requires AllTradeBest(log)
    ensures forall o :: o in Left(ForSymbol(log, symbol), side) ==> Arrived(AcceptedStream(log), symbol, side, o)
    decreases |log|
  {
    if log != [] {
      var (before, e) := (log[..|log| - 1], log[|log| - 1]);
      assert log == before + [e];
      PrefixTradesBest(log, |log| - 1);
      LeftHasArrived(before, symbol, side);
      ForSymbolSnoc(before, e, symbol);
      forall o | o in Left(ForSymbol(log, symbol), side)
        ensures Arrived(AcceptedStream(log), symbol, side, o)
      {
        StreamSnoc(before, e, symbol, side, o);
        if e.symbol == symbol {
          LeftSnoc(before, e, side);
          assert log[..|before|] == before && (e.Traded? ==> TradesBest(log, |before|));
          assert e.Traded? ==> Trader(e, side) in Left(ForSymbol(before, symbol), side);
          LeftAfterHasArrived(AcceptedStream(before), Left(ForSymbol(before, symbol), side), e, side, o);
        } else {
          assert ForSymbol(log, symbol) == ForSymbol(before, symbol);
        }
      }
    }
  }

  lemma PrefixTradesBest(log: seq<Event>, n: nat)
    requires AllTradeBest(log) && n <= |log|
    ensures AllTradeBest(log[..n])
  {
    forall k | 0 <= k < n && log[..n][k].Traded?
      ensures TradesBest(log[..n], k)
    {
      assert log[..n][..k] == log[..k] && TradesBest(log, k);
    }
  }

  lemma {:induction false} LaterArrived(log: seq<Event>, n: nat, symbol: string, side: Side, o: Order)
    requires n <= |log| && Arrived(AcceptedStream(log[..n]), symbol, side, o)
    ensures Arrived(AcceptedStream(log), symbol, side, o)
    decreases |log|
  {
    if n == |log| {
      assert log[..n] == log;
    } else {
      var before := log[..|log| - 1];
      assert before[..n] == log[..n] && log == before + [log[|log| - 1]];
      LaterArrived(before, n, symbol, side, o);
      StreamSnoc(before, log[|log| - 1], symbol, side, o);
    }
  }

  /** An order adds itself to the accepted ones, or nothing. */
  lemma RunStream(subs: seq<Submission>)
    requires subs != []
    ensures var (n, before) := (|subs| - 1, AcceptedStream(Run(subs[..|subs| - 1]).stats.log));
            AcceptedStream(Run(subs).stats.log) == before || AcceptedStream(Run(subs).stats.log) == before + [subs[n]]
  {
    ProcessStream(Run(subs[..|subs| - 1]), subs[|subs| - 1]);
  }

  /** The orders accepted in a run are some of those submitted, in the same order. */
  lemma {:induction false} AcceptedAscend(subs: seq<Submission>)
    requires Ascending(subs)
    ensures Ascending(AcceptedStream(Run(subs).stats.log))
    ensures forall i :: 0 <= i < |AcceptedStream(Run(subs).stats.log)| ==> AcceptedStream(Run(subs).stats.log)[i] in subs
  {
    if subs != [] {
      var before := subs[..|subs| - 1];
      AcceptedAscend(before);
      RunStream(subs);
      OneMoreAscends(AcceptedStream(Run(before).stats.log), subs);
    }
  }

  lemma OneMoreAscends(stream: seq<Submission>, subs: seq<Submission>)
    requires subs != [] && Ascending(subs) && Ascending(stream)
    requires forall i :: 0 <= i < |stream| ==> stream[i] in subs[..|subs| - 1]
    ensures Ascending(stream + [subs[|subs| - 1]])
  {
    var last := |subs| - 1;
    var longer := stream + [subs[last]];
    forall i | 0 <= i < |stream|
      ensures exists k :: 0 <= k < last && subs[k] == longer[i]
    {
      var k :| 0 <= k < last && subs[..last][k] == stream[i];
      assert subs[k] == longer[i];
    }
  }

  /** The trade at n takes the oldest resting order of its price on that side. */
  ghost predicate TakesOldest(log: seq<Event>, n: nat, side: Side)
    requires n < |log| && log[n].Traded?
  {
    Oldest(AcceptedStream(log), log[n].symbol, side, Left(ForSymbol(log[..n], log[n].symbol), side), Trader(log[n], side))
  }

  lemma TraderArrived(subs: seq<Submission>, n: nat, side: Side)
    requires ValidSubmissions(subs) && n < |Run(subs).stats.log| && Run(subs).stats.log[n].Traded?
    ensures var (log, e) := (Run(subs).stats.log, Run(subs).stats.log[n]);
            && IsBest(side, Left(ForSymbol(log[..n], e.symbol), side), Trader(e, side))
            && forall o :: o in Left(ForSymbol(log[..n], e.symbol), side) ==> Arrived(AcceptedStream(log), e.symbol, side, o)
  {
    var (log, e) := (Run(subs).stats.log, Run(subs).stats.log[n]);
    RunTradesBest(subs);
    assert TradesBest(log, n);
    PrefixTradesBest(log, n);
    LeftHasArrived(log[..n], e.symbol, side);
    forall o | o in Left(ForSymbol(log[..n], e.symbol), side)
      ensures Arrived(AcceptedStream(log), e.symbol, side, o)
    {
      LaterArrived(log, n, e.symbol, side, o);
    }
  }

  /** Oldest first: where timestamps ascend with arrival, every trade of the run takes, on both
      sides, the oldest resting order of its price. */
  lemma OldestFirst(subs: seq<Submission>, n: nat, side: Side)
    requires ValidSubmissions(subs) && Ascending(subs)
    requires n < |Run(subs).stats.log| && Run(subs).stats.log[n].Traded?
    ensures TakesOldest(Run(subs).stats.log, n, side)
  {
    var (log, e) := (Run(subs).stats.log, Run(subs).stats.log[n]);
    TraderArrived(subs, n, side);
    AcceptedAscend(subs);
    BestIsOldest(AcceptedStream(log), e.symbol, side, Left(ForSymbol(log[..n], e.symbol), side), Trader(e, side));
  }

  /** So the root of each heap is the oldest of its price when the run ends. */
  lemma RootIsOldest(subs: seq<Submission>, b: nat, side: Side)
    requires ValidSubmissions(subs) && Ascending(subs) && b < |Run(subs).books|
    requires SideOf(Run(subs).books[b], side) != []
    ensures var (st, s) := (Run(subs), SideOf(Run(subs).books[b], side));
            Oldest(AcceptedStream(st.stats.log), st.books[b].symbol, side, multiset(s), s[0])
  {
    var (st, s) := (Run(subs), SideOf(Run(subs).books[b], side));
    RunIsSound(subs);
    RunTradesBest(subs);
    DeskIsSound(st, b);
    RootIsABest(side, s);
    assert RestsAsLeft(st.books[b], st.stats.log);
    LeftHasArrived(st.stats.log, st.books[b].symbol, side);
    AcceptedAscend(subs);
    BestIsOldest(AcceptedStream(st.stats.log), st.books[b].symbol, side, multiset(s), s[0]);
  }

  /** With distinct keys, but whatever the clock: a trade takes the oldest resting order of its
      price iff no younger one of that price has a lower timestamp than the oldest, q. */
  lemma OldestIff(subs: seq<Submission>, n: nat, side: Side, q: Order)
    requires ValidSubmissions(subs) && DistinctKeys(AcceptedStream(Run(subs).stats.log))
    requires n < |Run(subs).stats.log| && Run(subs).stats.log[n].Traded?
    requires var (log, e) := (Run(subs).stats.log, Run(subs).stats.log[n]);
             q.price == Trader(e, side).price &&
             Oldest(AcceptedStream(log), e.symbol, side, Left(ForSymbol(log[..n], e.symbol), side), q)
    ensures var (log, e) := (Run(subs).stats.log, Run(subs).stats.log[n]);
            TakesOldest(log, n, side) <==>
              forall p :: p in Left(ForSymbol(log[..n], e.symbol), side) && p.price == q.price ==> q.timestamp <= p.timestamp
  {
    var (log, e) := (Run(subs).stats.log, Run(subs).stats.log[n]);
    TraderArrived(subs, n, side);
    BestIsOldestIff(AcceptedStream(log), e.symbol, side, Left(ForSymbol(log[..n], e.symbol), side), Trader(e, side), q);
  }

  lemma BestIsOldestIff(stream: seq<Submission>, symbol: string, side: Side, m: multiset<Order>, o: Order, q: Order)
    requires DistinctKeys(stream) && IsBest(side, m, o) && Arrived(stream, symbol, side, o)
    requires Oldest(stream, symbol, side, m, q) && q.price == o.price
    ensures Oldest(stream, symbol, side, m, o) <==>
              forall p :: p in m && p.price == q.price ==> q.timestamp <= p.timestamp
  {
    var i: nat :| From(stream, i, symbol, side, o);
    var j: nat :| From(stream, j, symbol, side, q);
    if Oldest(stream, symbol, side, m, o) {
      assert i == j;
      forall p | p in m && p.price == q.price
        ensures q.timestamp <= p.timestamp
      {
        assert NoWorse(side, o, p);
      }
    }
    if forall p :: p in m && p.price == q.price ==> q.timestamp <= p.timestamp {
      assert NoWorse(side, o, q) && q.timestamp <= o.timestamp;
      forall p, k: nat, l: nat | p in m && p.price == o.price &&
                                 From(stream, k, symbol, side, o) && From(stream, l, symbol, side, p)
        ensures k <= l
      {
        assert Key(stream[k].order) == Key(stream[j].order);
        assert k == j;
      }
    }
  }
}
