/** The simulator refines the plain price-time engine of Reference, over whole runs. */
module Refinement {
  import opened Orders
  import opened HeapSpec
  import opened ExchangeSpec
  import opened DeskLaws
  import opened ExchangeLaws
  import opened Reference

  /** One book agrees with the reference pool of its symbol. */
  ghost predicate BookAgrees(book: Book, stream: seq<Submission>, pools: map<string, Pool>) {
    && DistinctBook(book)
    && BookKeysWithin(book, KeysOf(stream, book.symbol, Bid), KeysOf(stream, book.symbol, Ask))
    && PoolOf(pools, book.symbol) == PoolIn(book)
  }

  ghost predicate Agrees(books: seq<Book>, stream: seq<Submission>, pools: map<string, Pool>) {
    && (forall b :: 0 <= b < |books| ==> BookAgrees(books[b], stream, pools))
    && (forall symbol :: Unlisted(books, symbol) ==> PoolOf(pools, symbol) == Pool(multiset{}, multiset{}))
  }

  ghost predicate Refines(st: State) {
    var stream := AcceptedStream(st.stats.log);
    Agrees(st.books, stream, Trade(stream).0) && Tickets(st.stats.log) == Trade(stream).1
  }

  lemma NewKeyIsFresh(stream: seq<Submission>, sub: Submission)
    requires DistinctKeys(stream + [sub])
    ensures Key(sub.order) !in KeysOf(stream, sub.symbol, sub.order.side)
  {
    var longer := stream + [sub];
    forall k | 0 <= k < |stream| && stream[k].symbol == sub.symbol && stream[k].order.side == sub.order.side
      ensures Key(stream[k].order) != Key(sub.order)
    {
      assert longer[k] == stream[k] && longer[|stream|] == sub;
    }
  }

  lemma KeysGrow(stream: seq<Submission>, sub: Submission, symbol: string, side: Side)
    ensures KeysOf(stream, symbol, side) <= KeysOf(stream + [sub], symbol, side)
    ensures sub.symbol == symbol && sub.order.side == side ==> Key(sub.order) in KeysOf(stream + [sub], symbol, side)
  {
    var longer := stream + [sub];
    forall k | 0 <= k < |stream| && stream[k].symbol == symbol && stream[k].order.side == side
      ensures Key(stream[k].order) in KeysOf(longer, symbol, side)
    {
      assert longer[k] == stream[k];
    }
    assert longer[|stream|] == sub;
  }

  lemma AddStaysDistinct(m: multiset<Order>, o: Order, keys: set<(int, int)>)
    requires DistinctIn(m) && KeysWithin(m, keys) && Key(o) !in keys
    ensures DistinctIn(m + multiset{o})
  {
    assert o !in m;
  }

  /** Adding an accepted order to a book that agrees. */
  lemma {:induction false} AddAgrees(book: Book, o: Order, stream: seq<Submission>)
    requires OrderedBook(book) && DistinctBook(book) && ValidOrder(o)
    requires BookKeysWithin(book, KeysOf(stream, book.symbol, Bid), KeysOf(stream, book.symbol, Ask))
    requires DistinctKeys(stream + [Submission(book.symbol, o)])
    ensures var (book', longer) := (AddOrder(book, o), stream + [Submission(book.symbol, o)]);
            && OrderedBook(book') && DistinctBook(book')
            && BookKeysWithin(book', KeysOf(longer, book.symbol, Bid), KeysOf(longer, book.symbol, Ask))
            && PoolIn(book') == Submit(PoolIn(book), o)
  {
    var sub := Submission(book.symbol, o);
    var s := SideOf(book, o.side);
    AddOrderLaws(book, o);
    NewKeyIsFresh(stream, sub);
    KeysGrow(stream, sub, book.symbol, Bid);
    KeysGrow(stream, sub, book.symbol, Ask);
    PushKeepsHeap(o.side, s, o);
    AddStaysDistinct(multiset(s), o, KeysOf(stream, book.symbol, o.side));
    AddStaysWithin(multiset(s), o, KeysOf(stream, book.symbol, o.side), KeysOf(stream + [sub], book.symbol, o.side));
  }

  lemma AddStaysWithin(m: multiset<Order>, o: Order, keys: set<(int, int)>, keys': set<(int, int)>)
    requires KeysWithin(m, keys) && keys <= keys' && Key(o) in keys'
    ensures KeysWithin(m + multiset{o}, keys')
  {
  }

  /** What insert does to the log and to the book, as far as the reference is concerned. */
  lemma InsertReports(d: Desk, o: Order, b: int)
    ensures var (d', accepted) := Insert(d, o, b);
            && d'.book.symbol == d.book.symbol
            && Tickets(d'.stats.log) == Tickets(d.stats.log)
            && AcceptedStream(d'.stats.log)
               == AcceptedStream(d.stats.log) + (if accepted then [Submission(d.book.symbol, o)] else [])
            && PoolIn(d'.book) == (if accepted then PoolIn(AddOrder(d.book, o)) else PoolIn(d.book))
            && d'.book.asks == (if accepted then AddOrder(d.book, o).asks else d.book.asks)
            && d'.book.bids == (if accepted then AddOrder(d.book, o).bids else d.book.bids)
  {
    InsertMovesLedgers(d, o, b);
    LogSnoc(d.stats.log, Insert(d, o, b).0.stats.log[|d.stats.log|]);
  }

  lemma SameHeapsSameOrder(book: Book, book': Book)
    requires OrderedBook(book) && book'.asks == book.asks && book'.bids == book.bids
    ensures OrderedBook(book')
  {
    assert SideOf(book', Ask) == SideOf(book, Ask) && SideOf(book', Bid) == SideOf(book, Bid);
  }

  /** Receiving an order: one step of the reference if it is accepted, none if not. */
  lemma {:induction false} ReceiveAccepted(d: Desk, o: Order, b: int, stream: seq<Submission>)
    requires OrderedBook(d.book) && DistinctBook(d.book) && ValidOrder(o) && Insert(d, o, b).1
    requires BookKeysWithin(d.book, KeysOf(stream, d.book.symbol, Bid), KeysOf(stream, d.book.symbol, Ask))
    requires DistinctKeys(stream + [Submission(d.book.symbol, o)])
    ensures var (d', longer) := (Receive(d, o, b), stream + [Submission(d.book.symbol, o)]);
            var (p, tickets) := MatchAll(d.book.symbol, Submit(PoolIn(d.book), o));
            && DistinctBook(d'.book) && d'.book.symbol == d.book.symbol
            && BookKeysWithin(d'.book, KeysOf(longer, d.book.symbol, Bid), KeysOf(longer, d.book.symbol, Ask))
            && PoolIn(d'.book) == p
            && Tickets(d'.stats.log) == Tickets(d.stats.log) + tickets
            && AcceptedStream(d'.stats.log) == AcceptedStream(d.stats.log) + [Submission(d.book.symbol, o)]
  {
    var longer := stream + [Submission(d.book.symbol, o)];
    var d' := Insert(d, o, b).0;
    AddAgrees(d.book, o, stream);
    InsertReports(d, o, b);
    SameHeapsSameOrder(AddOrder(d.book, o), d'.book);
    DrainSimulates(d', KeysOf(longer, d.book.symbol, Bid), KeysOf(longer, d.book.symbol, Ask));
  }

  /** The log only grows, so the accepted stream of a run is a prefix of every longer one. */
  lemma {:induction false} DrainAcceptsNothing(d: Desk)
    ensures AcceptedStream(Drain(d).stats.log) == AcceptedStream(d.stats.log)
    decreases |d.book.asks| + |d.book.bids|
  {
    if MatchOnce(d).1 {
      MatchFillsBoth(d);
      LogSnoc(d.stats.log, Traded(d.book.symbol, d.book.bids[0], d.book.asks[0]));
      SettleIsSilent(MatchOnce(d).0);
      DrainAcceptsNothing(Settle(MatchOnce(d).0));
    }
  }

  lemma {:induction false} ProcessStream(st: State, sub: Submission)
    ensures AcceptedStream(Process(st, sub).stats.log)
            == AcceptedStream(st.stats.log) + (if Accepts(st, sub) then [sub] else [])
  {
    var b := FindBook(st.books, sub.symbol, 0);
    var d := Desk(WithBook(st.books, sub.symbol)[b], st.mem, st.stats);
    InsertReports(d, sub.order, b);
    DrainAcceptsNothing(Insert(d, sub.order, b).0);
  }

  lemma {:induction false} WithBookAgrees(books: seq<Book>, symbol: string, stream: seq<Submission>, pools: map<string, Pool>)
    requires Agrees(books, stream, pools)
    ensures Agrees(WithBook(books, symbol), stream, pools)
  {
    var books' := WithBook(books, symbol);
    if FindBook(books, symbol, 0) == |books| {
      assert Unlisted(books, symbol);
      assert BookAgrees(books'[|books|], stream, pools);
      forall other | Unlisted(books', other)
        ensures Unlisted(books, other)
      {
        forall b | 0 <= b < |books|
          ensures books[b].symbol != other
        {
          assert books'[b] == books[b];
        }
      }
    }
  }

  /** Agreement after one accepted order at book b. */
  lemma {:induction false} StepAgrees(books: seq<Book>, b: nat, book': Book, stream: seq<Submission>, sub: Submission,
                   pools: map<string, Pool>, p: Pool)
    requires Agrees(books, stream, pools) && DistinctSymbols(books)
    requires b < |books| && book'.symbol == books[b].symbol == sub.symbol
    requires DistinctBook(book') && PoolIn(book') == p
    requires BookKeysWithin(book', KeysOf(stream + [sub], sub.symbol, Bid), KeysOf(stream + [sub], sub.symbol, Ask))
    ensures Agrees(books[b := book'], stream + [sub], pools[sub.symbol := p])
  {
    var (books', pools') := (books[b := book'], pools[sub.symbol := p]);
    assert BookAgrees(book', stream + [sub], pools');
    forall j | 0 <= j < |books'| && j != b
      ensures BookAgrees(books'[j], stream + [sub], pools')
    {
      OtherBookAgrees(books[j], stream, sub, pools, p);
    }
    forall symbol | Unlisted(books', symbol)
      ensures PoolOf(pools', symbol) == Pool(multiset{}, multiset{})
    {
      UnlistedAfterUpdate(books, b, book', symbol);
    }
  }

  lemma OtherBookAgrees(book: Book, stream: seq<Submission>, sub: Submission, pools: map<string, Pool>, p: Pool)
    requires BookAgrees(book, stream, pools) && book.symbol != sub.symbol
    ensures BookAgrees(book, stream + [sub], pools[sub.symbol := p])
  {
    KeysGrow(stream, sub, book.symbol, Bid);
    KeysGrow(stream, sub, book.symbol, Ask);
    StaysWithin(book, KeysOf(stream, book.symbol, Bid), KeysOf(stream, book.symbol, Ask),
                KeysOf(stream + [sub], book.symbol, Bid), KeysOf(stream + [sub], book.symbol, Ask));
  }

  lemma StaysWithin(book: Book, bidKeys: set<(int, int)>, askKeys: set<(int, int)>,
                    bidKeys': set<(int, int)>, askKeys': set<(int, int)>)
    requires BookKeysWithin(book, bidKeys, askKeys) && bidKeys <= bidKeys' && askKeys <= askKeys'
    ensures BookKeysWithin(book, bidKeys', askKeys')
  {
  }

  lemma TradeUnfolds(stream: seq<Submission>, sub: Submission)
    ensures var (pools, tickets) := Trade(stream);
            var (p, more) := MatchAll(sub.symbol, Submit(PoolOf(pools, sub.symbol), sub.order));
            Trade(stream + [sub]) == (pools[sub.symbol := p], tickets + more)
  {
    assert (stream + [sub])[..|stream|] == stream;
  }

  /** The engines agree on an accepted order. */
  lemma AcceptedRefines(st: State, sub: Submission, pools: map<string, Pool>)
    requires Accepts(st, sub) && ValidOrder(sub.order)
    requires DistinctSymbols(WithBook(st.books, sub.symbol))
    requires OrderedBook(WithBook(st.books, sub.symbol)[FindBook(st.books, sub.symbol, 0)])
    requires Agrees(WithBook(st.books, sub.symbol), AcceptedStream(st.stats.log), pools)
    requires WithBook(st.books, sub.symbol)[FindBook(st.books, sub.symbol, 0)].symbol == sub.symbol
    requires DistinctKeys(AcceptedStream(st.stats.log) + [sub])
    ensures var (p, more) := MatchAll(sub.symbol, Submit(PoolOf(pools, sub.symbol), sub.order));
            && Agrees(Process(st, sub).books, AcceptedStream(st.stats.log) + [sub], pools[sub.symbol := p])
            && Tickets(Process(st, sub).stats.log) == Tickets(st.stats.log) + more
  {
    var b := FindBook(st.books, sub.symbol, 0);
    var books := WithBook(st.books, sub.symbol);
    var stream := AcceptedStream(st.stats.log);
    var d := Desk(books[b], st.mem, st.stats);
    assert BookAgrees(books[b], stream, pools);
    assert Submission(d.book.symbol, sub.order) == sub;
    ReceiveAccepted(d, sub.order, b, stream);
    var (p, more) := MatchAll(sub.symbol, Submit(PoolIn(books[b]), sub.order));
    StepAgrees(books, b, Receive(d, sub.order, b).book, stream, sub, pools, p);
  }

  lemma AcceptedStillRefines(st: State, st': State, stream: seq<Submission>, sub: Submission)
    requires AcceptedStream(st'.stats.log) == stream + [sub]
    requires var (pools, tickets) := Trade(stream);
             var (p, more) := MatchAll(sub.symbol, Submit(PoolOf(pools, sub.symbol), sub.order));
             && Agrees(st'.books, stream + [sub], pools[sub.symbol := p])
             && Tickets(st'.stats.log) == tickets + more
    ensures Refines(st')
  {
    TradeUnfolds(stream, sub);
  }

  lemma {:induction false} ProcessRefines(st: State, sub: Submission)
    requires Sound(st) && Refines(st) && ValidOrder(sub.order)
    requires DistinctKeys(AcceptedStream(Process(st, sub).stats.log))
    ensures Refines(Process(st, sub))
  {
    var stream := AcceptedStream(st.stats.log);
    var pools := Trade(stream).0;
    ProcessStream(st, sub);
    WithBookAgrees(st.books, sub.symbol, stream, pools);
    if Accepts(st, sub) {
      WithBookIsOrdered(st, sub.symbol);
      AcceptedRefines(st, sub, pools);
      AcceptedStillRefines(st, Process(st, sub), stream, sub);
    } else {
      RefusalKeepsState(st, sub);
      RefusedStillRefines(Process(st, sub), stream);
    }
  }

  lemma RefusedStillRefines(st': State, stream: seq<Submission>)
    requires AcceptedStream(st'.stats.log) == stream
    requires Agrees(st'.books, stream, Trade(stream).0) && Tickets(st'.stats.log) == Trade(stream).1
    ensures Refines(st')
  {
  }

  lemma {:induction false} WithBookIsOrdered(st: State, symbol: string)
    requires Sound(st)
    ensures var books := WithBook(st.books, symbol);
            var b := FindBook(st.books, symbol, 0);
            DistinctSymbols(books) && OrderedBook(books[b]) && books[b].symbol == symbol
  {
    WithBookIsSound(st, symbol);
    assert BookSound(WithBook(st.books, symbol)[FindBook(st.books, symbol, 0)], st.stats.log);
  }

  lemma RefusalKeepsState(st: State, sub: Submission)
    requires !Accepts(st, sub)
    ensures Process(st, sub).books == WithBook(st.books, sub.symbol)
    ensures Tickets(Process(st, sub).stats.log) == Tickets(st.stats.log)
  {
    var b := FindBook(st.books, sub.symbol, 0);
    var books := WithBook(st.books, sub.symbol);
    var d := Desk(books[b], st.mem, st.stats);
    var d' := Insert(d, sub.order, b).0;
    InsertReports(d, sub.order, b);
    assert d'.book == d.book && Receive(d, sub.order, b) == d';
    assert books[b := books[b]] == books;
  }

  lemma {:induction false} RunRefines(subs: seq<Submission>)
    requires ValidSubmissions(subs) && DistinctKeys(AcceptedStream(Run(subs).stats.log))
    ensures Refines(Run(subs))
  {
    if subs != [] {
      var n := |subs| - 1;
      var st := Run(subs[..n]);
      ProcessStream(st, subs[n]);
      var stream := AcceptedStream(st.stats.log);
      assert DistinctKeys(stream) by {
        var longer := AcceptedStream(Run(subs).stats.log);
        assert forall k :: 0 <= k < |stream| ==> longer[k] == stream[k];
      }
      RunIsSound(subs[..n]);
      RunRefines(subs[..n]);
      ProcessRefines(st, subs[n]);
    }
  }

  /** The simulator trades exactly like the price-time engine run on the orders it accepted:
      the same tickets in the same order, and the same orders left in every book. */
  lemma {:induction false} TradesLikeTheReference(subs: seq<Submission>)
    requires ValidSubmissions(subs) && DistinctKeys(AcceptedStream(Run(subs).stats.log))
    ensures var st := Run(subs);
            var (pools, tickets) := Trade(AcceptedStream(st.stats.log));
            && Tickets(st.stats.log) == tickets
            && forall b :: 0 <= b < |st.books| ==>
                 PoolOf(pools, st.books[b].symbol) == Pool(multiset(st.books[b].bids), multiset(st.books[b].asks))
  {
    RunRefines(subs);
    var st := Run(subs);
    var pools := Trade(AcceptedStream(st.stats.log)).0;
    forall b | 0 <= b < |st.books|
      ensures PoolOf(pools, st.books[b].symbol) == Pool(multiset(st.books[b].bids), multiset(st.books[b].asks))
    {
      assert BookAgrees(st.books[b], AcceptedStream(st.stats.log), pools);
    }
  }
}
