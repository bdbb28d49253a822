/** A plain price-time matching engine on bags of orders, without heaps, pages or books in an
    array; and the proof that the simulator trades exactly as it does. */
module Reference {
  import opened Orders
  import opened HeapSpec
  import opened ExchangeSpec
  import opened DeskLaws

  // One trade as it is reported: who bought from whom, how much and at what price.
  datatype Ticket = Ticket(symbol: string, buyer: nat, seller: nat, quantity: int, price: int)

  datatype Pool = Pool(bids: multiset<Order>, asks: multiset<Order>)

  ghost predicate IsBest(side: Side, m: multiset<Order>, o: Order) {
    o in m && forall p :: p in m ==> NoWorse(side, o, p)
  }

  lemma {:induction false} BestExists(side: Side, m: multiset<Order>)
    requires m != multiset{}
    ensures exists o :: IsBest(side, m, o)
    decreases |m|
  {
    var x :| x in m;
    var rest := m - multiset{x};
    if rest == multiset{} {
      assert m == rest + multiset{x};
      assert IsBest(side, m, x);
    } else {
      BestExists(side, rest);
      var y :| IsBest(side, rest, y);
      var best := if NoWorse(side, x, y) then x else y;
      forall p | p in m
        ensures NoWorse(side, best, p)
      {
        NoWorseIsTotalPreorder(side, x, y, p);
        if p != x {
          assert p in rest;
        }
      }
      assert IsBest(side, m, best);
    }
  }

  ghost function Best(side: Side, m: multiset<Order>): (o: Order)
    requires m != multiset{}
    ensures IsBest(side, m, o)
  {
    BestExists(side, m);
    var o :| IsBest(side, m, o);
    o
  }

  ghost predicate Crossed(p: Pool) {
    p.bids != multiset{} && p.asks != multiset{} && Best(Bid, p.bids).price >= Best(Ask, p.asks).price
  }

  /** The best bid meets the best ask: both lose the smaller of the two amounts. */
  ghost function MatchBest(symbol: string, p: Pool): (r: (Pool, Ticket))
    requires Crossed(p)
    ensures |r.0.bids| + |r.0.asks| < |p.bids| + |p.asks|
  {
    var bid, ask := Best(Bid, p.bids), Best(Ask, p.asks);
    var q := Fill(bid, ask);
    (Pool(Filled(p.bids, bid, q), Filled(p.asks, ask, q)), Ticket(symbol, bid.id, ask.id, q, bid.price))
  }

  ghost function MatchAll(symbol: string, p: Pool): (Pool, seq<Ticket>)
    decreases |p.bids| + |p.asks|
  {
    if !Crossed(p) then (p, [])
    else
      var (p', ticket) := MatchBest(symbol, p);
      var (p'', tickets) := MatchAll(symbol, p');
      (p'', [ticket] + tickets)
  }

  ghost function Submit(p: Pool, o: Order): Pool {
    if o.side == Ask then p.(asks := p.asks + multiset{o}) else p.(bids := p.bids + multiset{o})
  }

  ghost function PoolOf(pools: map<string, Pool>, symbol: string): Pool {
    if symbol in pools then pools[symbol] else Pool(multiset{}, multiset{})
  }

  /** The reference engine on a stream of orders, from empty pools. */
  ghost function Trade(stream: seq<Submission>): (map<string, Pool>, seq<Ticket>) {
    if stream == [] then (map[], [])
    else
      var n := |stream| - 1;
      var sub := stream[n];
      var (pools, tickets) := Trade(stream[..n]);
      var (p, more) := MatchAll(sub.symbol, Submit(PoolOf(pools, sub.symbol), sub.order));
      (pools[sub.symbol := p], tickets + more)
  }

  /** Distinct keys or not, every trade is between a best bid and a best ask. */
  lemma TradesBestAgainstBest(d: Desk)
    requires SideSound(d.book, Ask) && SideSound(d.book, Bid) && MatchOnce(d).1
    ensures var e := MatchOnce(d).0.stats.log[|d.stats.log|];
            && e.Traded? && e.symbol == d.book.symbol && e.bid.price >= e.ask.price
            && IsBest(Bid, multiset(d.book.bids), e.bid)
            && IsBest(Ask, multiset(d.book.asks), e.ask)
  {
    MatchFillsBoth(d);
    RootsAreSound(d.book);
    RootIsABest(Bid, d.book.bids);
    RootIsABest(Ask, d.book.asks);
  }

  lemma RootIsABest(side: Side, s: seq<Order>)
    requires s != [] && HeapOrdered(side, s)
    ensures IsBest(side, multiset(s), s[0])
  {
    assert s[0] in multiset(s);
    forall p | p in multiset(s)
      ensures NoWorse(side, s[0], p)
    {
      var k :| 0 <= k < |s| && s[k] == p;
      RootIsBest(side, s, k);
    }
  }

  // ---------- what the simulator's log says ----------

  function Tickets(log: seq<Event>): seq<Ticket> {
    if log == [] then []
    else
      var n := |log| - 1;
      var e := log[n];
      Tickets(log[..n])
      + (if e.Traded? then [Ticket(e.symbol, e.bid.id, e.ask.id, Fill(e.bid, e.ask), e.bid.price)] else [])
  }

  function AcceptedStream(log: seq<Event>): seq<Submission> {
    if log == [] then []
    else
      var n := |log| - 1;
      AcceptedStream(log[..n]) + (if log[n].Accepted? then [Submission(log[n].symbol, log[n].order)] else [])
  }

  lemma LogSnoc(log: seq<Event>, e: Event)
    ensures Tickets(log + [e]) == Tickets(log)
              + (if e.Traded? then [Ticket(e.symbol, e.bid.id, e.ask.id, Fill(e.bid, e.ask), e.bid.price)] else [])
    ensures AcceptedStream(log + [e]) == AcceptedStream(log)
              + (if e.Accepted? then [Submission(e.symbol, e.order)] else [])
  {
    assert (log + [e])[..|log|] == log;
  }

  // ---------- distinct keys ----------

  /** No two orders of a stream share symbol, side, price and timestamp. */
  ghost predicate DistinctKeys(stream: seq<Submission>) {
    forall i, j :: 0 <= i < j < |stream| ==>
      stream[i].symbol != stream[j].symbol || stream[i].order.side != stream[j].order.side ||
      Key(stream[i].order) != Key(stream[j].order)
  }

  ghost predicate DistinctIn(m: multiset<Order>) {
    && (forall o :: o in m ==> m[o] == 1)
    && (forall o, p :: o in m && p in m && Key(o) == Key(p) ==> o == p)
  }

  /** The keys of the stream's orders for one symbol and side. */
  function KeysOf(stream: seq<Submission>, symbol: string, side: Side): set<(int, int)> {
    set k | 0 <= k < |stream| && stream[k].symbol == symbol && stream[k].order.side == side :: Key(stream[k].order)
  }

  ghost predicate KeysWithin(m: multiset<Order>, keys: set<(int, int)>) {
    forall o :: o in m ==> Key(o) in keys
  }

  /** With distinct keys there is only one best order, and a heap has it at its root. */
  lemma RootIsTheBest(side: Side, s: seq<Order>)
    requires s != [] && HeapOrdered(side, s) && DistinctIn(multiset(s))
    ensures Best(side, multiset(s)) == s[0]
  {
    var best := Best(side, multiset(s));
    assert s[0] in multiset(s);
    var k :| 0 <= k < |s| && s[k] == best;
    RootIsBest(side, s, k);
    NoWorseIsTotalPreorder(side, s[0], best, s[0]);
  }

  lemma FilledStaysDistinct(m: multiset<Order>, o: Order, q: int)
    requires DistinctIn(m) && o in m
    ensures DistinctIn(Filled(m, o, q))
  {
    var o' := o.(amount := o.amount - q);
    var m' := Filled(m, o, q);
    assert Key(o') == Key(o);
    assert m[o'] <= 1 && (o' in m ==> o' == o);
    forall p | p in m'
      ensures p == o' || (p in m && p != o && m'[p] == 1)
    {
    }
  }

  lemma FilledKeepsKeys(m: multiset<Order>, o: Order, q: int, keys: set<(int, int)>)
    requires KeysWithin(m, keys) && o in m
    ensures KeysWithin(Filled(m, o, q), keys)
  {
    forall p | p in Filled(m, o, q)
      ensures Key(p) in keys
    {
      assert p in m || Key(p) == Key(o);
    }
  }

  // ---------- simulation ----------

  function PoolIn(book: Book): Pool {
    Pool(multiset(book.bids), multiset(book.asks))
  }

  ghost predicate DistinctBook(book: Book) {
    DistinctIn(multiset(book.bids)) && DistinctIn(multiset(book.asks))
  }

  ghost predicate BookKeysWithin(book: Book, bidKeys: set<(int, int)>, askKeys: set<(int, int)>) {
    KeysWithin(multiset(book.bids), bidKeys) && KeysWithin(multiset(book.asks), askKeys)
  }

  ghost predicate OrderedBook(book: Book) {
    SideSound(book, Ask) && SideSound(book, Bid)
  }

  /** The roots of the two heaps are the best orders of the two bags. */
  lemma RootsAreBest(book: Book)
    requires OrderedBook(book) && DistinctBook(book)
    ensures book.bids != [] ==> Best(Bid, multiset(book.bids)) == book.bids[0] && book.bids[0] in multiset(book.bids)
    ensures book.asks != [] ==> Best(Ask, multiset(book.asks)) == book.asks[0] && book.asks[0] in multiset(book.asks)
  {
    assert SideOf(book, Ask) == book.asks && SideOf(book, Bid) == book.bids;
    if book.bids != [] {
      RootIsTheBest(Bid, book.bids);
    }
    if book.asks != [] {
      RootIsTheBest(Ask, book.asks);
    }
  }

  lemma CrossedIsMatched(d: Desk)
    requires OrderedBook(d.book) && DistinctBook(d.book)
    ensures MatchOnce(d).1 <==> Crossed(PoolIn(d.book))
  {
    RootsAreBest(d.book);
    assert d.book.bids == [] <==> multiset(d.book.bids) == multiset{} by {
      assert d.book.bids != [] ==> d.book.bids[0] in multiset(d.book.bids);
    }
    assert d.book.asks == [] <==> multiset(d.book.asks) == multiset{} by {
      assert d.book.asks != [] ==> d.book.asks[0] in multiset(d.book.asks);
    }
  }

  /** One trade of the simulator is one match of the reference. */
  lemma {:induction false} MatchSimulates(d: Desk)
    requires OrderedBook(d.book) && DistinctBook(d.book) && MatchOnce(d).1
    requires Crossed(PoolIn(d.book))
    ensures var (p, ticket) := MatchBest(d.book.symbol, PoolIn(d.book));
            && PoolIn(MatchOnce(d).0.book) == p
            && DistinctBook(MatchOnce(d).0.book)
            && Tickets(MatchOnce(d).0.stats.log) == Tickets(d.stats.log) + [ticket]
            && AcceptedStream(MatchOnce(d).0.stats.log) == AcceptedStream(d.stats.log)
  {
    MatchFillsBoth(d);
    RootsAreBest(d.book);
    RootsAreSound(d.book);
    var (bid, ask) := (d.book.bids[0], d.book.asks[0]);
    FillLaws(Bid, d.book.bids, Fill(bid, ask));
    FillLaws(Ask, d.book.asks, Fill(bid, ask));
    FilledStaysDistinct(multiset(d.book.bids), bid, Fill(bid, ask));
    FilledStaysDistinct(multiset(d.book.asks), ask, Fill(bid, ask));
    LogSnoc(d.stats.log, Traded(d.book.symbol, bid, ask));
  }

  lemma SettleIsSilent(d: Desk)
    ensures PoolIn(Settle(d).book) == PoolIn(d.book) && Settle(d).book.symbol == d.book.symbol
    ensures Tickets(Settle(d).stats.log) == Tickets(d.stats.log)
    ensures AcceptedStream(Settle(d).stats.log) == AcceptedStream(d.stats.log)
  {
    LogSnoc(d.stats.log, NothingReleased(d.book.symbol));
  }

  lemma {:induction false} MatchKeepsKeys(d: Desk, bidKeys: set<(int, int)>, askKeys: set<(int, int)>)
    requires OrderedBook(d.book) && MatchOnce(d).1 && BookKeysWithin(d.book, bidKeys, askKeys)
    ensures BookKeysWithin(MatchOnce(d).0.book, bidKeys, askKeys)
  {
    MatchFillsBoth(d);
    RootsAreSound(d.book);
    var (bid, ask) := (d.book.bids[0], d.book.asks[0]);
    assert bid in multiset(d.book.bids) && ask in multiset(d.book.asks);
    FillLaws(Bid, d.book.bids, Fill(bid, ask));
    FillLaws(Ask, d.book.asks, Fill(bid, ask));
    FilledKeepsKeys(multiset(d.book.bids), bid, Fill(bid, ask), bidKeys);
    FilledKeepsKeys(multiset(d.book.asks), ask, Fill(bid, ask), askKeys);
  }

  lemma SettleKeepsOrder(d: Desk)
    requires OrderedBook(d.book)
    ensures OrderedBook(Settle(d).book)
  {
    assert SideOf(Settle(d).book, Ask) == SideOf(d.book, Ask) && SideOf(Settle(d).book, Bid) == SideOf(d.book, Bid);
  }

  /** The simulator went from d to d' with these tickets, ending with the reference pool p. */
  ghost predicate Reported(d: Desk, d': Desk, p: Pool, tickets: seq<Ticket>, bidKeys: set<(int, int)>, askKeys: set<(int, int)>) {
    && OrderedBook(d'.book) && DistinctBook(d'.book) && BookKeysWithin(d'.book, bidKeys, askKeys)
    && PoolIn(d'.book) == p && d'.book.symbol == d.book.symbol
    && Tickets(d'.stats.log) == Tickets(d.stats.log) + tickets
    && AcceptedStream(d'.stats.log) == AcceptedStream(d.stats.log)
  }

  lemma ReportedCompose(d: Desk, d': Desk, d'': Desk, p: Pool, ticket: Ticket, p': Pool, tickets: seq<Ticket>,
                        bidKeys: set<(int, int)>, askKeys: set<(int, int)>)
    requires Reported(d, d', p, [ticket], bidKeys, askKeys) && Reported(d', d'', p', tickets, bidKeys, askKeys)
    ensures Reported(d, d'', p', [ticket] + tickets, bidKeys, askKeys)
  {
  }

  /** One turn of the drain loop is one match of the reference. */
  lemma {:induction false} TurnSimulates(d: Desk, bidKeys: set<(int, int)>, askKeys: set<(int, int)>)
    requires OrderedBook(d.book) && DistinctBook(d.book) && BookKeysWithin(d.book, bidKeys, askKeys)
    requires MatchOnce(d).1
    ensures Crossed(PoolIn(d.book))
    ensures var (p, ticket) := MatchBest(d.book.symbol, PoolIn(d.book));
            Reported(d, Settle(MatchOnce(d).0), p, [ticket], bidKeys, askKeys)
  {
    CrossedIsMatched(d);
    MatchSimulates(d);
    MatchKeepsSides(d);
    MatchKeepsKeys(d, bidKeys, askKeys);
    MatchFillsBoth(d);
    SettleIsSilent(MatchOnce(d).0);
    SettleKeepsOrder(MatchOnce(d).0);
  }

  lemma {:induction false} NoTurnSimulates(d: Desk, bidKeys: set<(int, int)>, askKeys: set<(int, int)>)
    requires OrderedBook(d.book) && DistinctBook(d.book) && BookKeysWithin(d.book, bidKeys, askKeys)
    requires !MatchOnce(d).1
    ensures !Crossed(PoolIn(d.book)) && Reported(d, MatchOnce(d).0, PoolIn(d.book), [], bidKeys, askKeys)
  {
    CrossedIsMatched(d);
    assert MatchOnce(d).0.book == d.book && MatchOnce(d).0.stats.log == d.stats.log;
  }

  lemma MatchAllUnfolds(symbol: string, p: Pool)
    ensures MatchAll(symbol, p) == if !Crossed(p) then (p, []) else
              var (p', ticket) := MatchBest(symbol, p);
              (MatchAll(symbol, p').0, [ticket] + MatchAll(symbol, p').1)
  {
  }

  /** The drain loop of the simulator is the matching loop of the reference. */
  lemma {:induction false} DrainSimulates(d: Desk, bidKeys: set<(int, int)>, askKeys: set<(int, int)>)
    requires OrderedBook(d.book) && DistinctBook(d.book) && BookKeysWithin(d.book, bidKeys, askKeys)
    ensures var (p, tickets) := MatchAll(d.book.symbol, PoolIn(d.book));
            Reported(d, Drain(d), p, tickets, bidKeys, askKeys)
    decreases |d.book.asks| + |d.book.bids|
  {
    MatchAllUnfolds(d.book.symbol, PoolIn(d.book));
    if MatchOnce(d).1 {
      var d' := Settle(MatchOnce(d).0);
      TurnSimulates(d, bidKeys, askKeys);
      DrainSimulates(d', bidKeys, askKeys);
      var (p, ticket) := MatchBest(d.book.symbol, PoolIn(d.book));
      var (p', tickets) := MatchAll(d.book.symbol, p);
      ReportedCompose(d, d', Drain(d'), p, ticket, p', tickets, bidKeys, askKeys);
      assert Drain(d) == Drain(d');
    } else {
      NoTurnSimulates(d, bidKeys, askKeys);
    }
  }
}
