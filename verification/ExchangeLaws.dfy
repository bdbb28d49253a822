/** What holds in every reachable state of the whole exchange. */
module ExchangeLaws {
  import opened Sums
  import opened Orders
  import opened MemorySpec
  import opened ExchangeSpec
  import opened DeskLaws

  function PageCount(book: Book): int {
    |book.table.pages|
  }

  function Trades(book: Book): int {
    book.trades
  }

  ghost predicate AllFrames(st: State) {
    && MemoryValid(st.mem)
    && (forall b :: 0 <= b < |st.books| ==> BookFrames(st.mem.frames, st.books[b].table, b))
    && (forall f :: 0 <= f < MAX_PAGES ==> st.mem.frames[f].owner < |st.books|)
    && SumBy(FreeBit, st.mem.frames) + SumBy(PageCount, st.books) == MAX_PAGES
  }

  ghost predicate Unlisted(books: seq<Book>, symbol: string) {
    forall b :: 0 <= b < |books| ==> books[b].symbol != symbol
  }

  ghost predicate DistinctSymbols(books: seq<Book>) {
    forall b, c :: 0 <= b < c < |books| ==> books[b].symbol != books[c].symbol
  }

  ghost predicate BookSound(book: Book, log: seq<Event>) {
    BookLaws(book, ForSymbol(log, book.symbol)) && Uncrossed(book)
  }

  ghost predicate AllBooks(st: State) {
    && DistinctSymbols(st.books)
    && (forall b :: 0 <= b < |st.books| ==> BookSound(st.books[b], st.stats.log))
    && (forall symbol :: Unlisted(st.books, symbol) ==> ForSymbol(st.stats.log, symbol) == [])
  }

  /** Every accepted order is one write, every partial fill another; every trade removes one
      order, an exact one two. */
  ghost predicate Ledgers(st: State) {
    && st.stats.totalWrites == SumBy(Resting, st.books) + 2 * st.stats.totalTrades
    && st.stats.totalTrades == SumBy(Trades, st.books)
  }

  ghost predicate Sound(st: State) {
    AllFrames(st) && AllBooks(st) && Ledgers(st)
  }

  ghost predicate ValidSubmissions(subs: seq<Submission>) {
    forall i :: 0 <= i < |subs| ==> ValidOrder(subs[i].order)
  }

  // ---------- the invariant ----------

  lemma {:induction false} AllFree(frames: seq<Frame>)
    requires forall f :: 0 <= f < |frames| ==> frames[f] == FREE_FRAME
    ensures SumBy(FreeBit, frames) == |frames|
  {
    if frames != [] {
      AllFree(frames[..|frames| - 1]);
    }
  }

  lemma EmptyIsSound()
    ensures Sound(EmptyState())
  {
    AllFree(EmptyMemory().frames);
  }

  /** find_or_create_book keeps the invariant: a new book owns no frame and has no history. */
  lemma {:induction false} WithBookIsSound(st: State, symbol: string)
    requires Sound(st)
    ensures Sound(st.(books := WithBook(st.books, symbol)))
  {
    if FindBook(st.books, symbol, 0) == |st.books| {
      NewBookKeepsFrames(st, symbol);
      NewBookKeepsBooks(st, symbol);
      SumSnoc(Resting, st.books, NewBook(symbol));
      SumSnoc(Trades, st.books, NewBook(symbol));
    }
  }

  lemma NewBookKeepsFrames(st: State, symbol: string)
    requires AllFrames(st)
    ensures AllFrames(st.(books := st.books + [NewBook(symbol)]))
  {
    var books' := st.books + [NewBook(symbol)];
    SumSnoc(PageCount, st.books, NewBook(symbol));
    forall b | 0 <= b < |books'|
      ensures BookFrames(st.mem.frames, books'[b].table, b)
    {
      assert b < |st.books| ==> books'[b] == st.books[b];
    }
  }

  lemma NewBookKeepsBooks(st: State, symbol: string)
    requires AllBooks(st) && Unlisted(st.books, symbol)
    ensures AllBooks(st.(books := st.books + [NewBook(symbol)]))
  {
    var books' := st.books + [NewBook(symbol)];
    NewBookIsSound(symbol, st.stats.log);
    forall other | Unlisted(books', other)
      ensures Unlisted(st.books, other)
    {
      forall b | 0 <= b < |st.books|
        ensures st.books[b].symbol != other
      {
        assert books'[b] == st.books[b];
      }
    }
  }

  lemma NewBookIsSound(symbol: string, log: seq<Event>)
    requires ForSymbol(log, symbol) == []
    ensures BookSound(NewBook(symbol), log)
  {
    assert SideOf(NewBook(symbol), Ask) == [] && SideOf(NewBook(symbol), Bid) == [];
  }

  /** What the invariant says where one book meets memory and statistics. */
  lemma DeskIsSound(st: State, b: nat)
    requires Sound(st) && b < |st.books|
    ensures DeskSound(Desk(st.books[b], st.mem, st.stats), b) && Uncrossed(st.books[b])
    ensures DistinctSymbols(st.books)
  {
    assert BookSound(st.books[b], st.stats.log);
  }

  /** Putting back a book after a step at it keeps the invariant of every other book. */
  lemma {:induction false} StepIsSound(st: State, b: nat, d: Desk)
    requires Sound(st) && b < |st.books|
    requires DeskStep(Desk(st.books[b], st.mem, st.stats), d, b) && Uncrossed(d.book)
    ensures Sound(State(st.books[b := d.book], d.mem, d.stats))
  {
    StepKeepsFrames(st, b, d);
    StepKeepsBooks(st, b, d);
    SumUpdate(Resting, st.books, b, d.book);
    SumUpdate(Trades, st.books, b, d.book);
  }

  lemma StepKeepsFrames(st: State, b: int, d: Desk)
    requires AllFrames(st) && 0 <= b < |st.books|
    requires MemoryStep(st.mem, st.books[b].table, d.mem, d.book.table, b)
    ensures AllFrames(State(st.books[b := d.book], d.mem, d.stats))
  {
    var books' := st.books[b := d.book];
    SumUpdate(PageCount, st.books, b, d.book);
    forall j | 0 <= j < |books'|
      ensures BookFrames(d.mem.frames, books'[j].table, j)
    {
      if j != b {
        OtherBookUnharmed(st.mem.frames, d.mem.frames, b, st.books[j].table, j);
      }
    }
    forall f | 0 <= f < MAX_PAGES
      ensures d.mem.frames[f].owner < |books'|
    {
      assert st.mem.frames[f] != d.mem.frames[f] ==> d.mem.frames[f].owner in {-1, b};
    }
  }

  lemma {:induction false} StepKeepsBooks(st: State, b: nat, d: Desk)
    requires AllBooks(st) && b < |st.books|
    requires d.book.symbol == st.books[b].symbol && BookSound(d.book, d.stats.log)
    requires forall other :: other != d.book.symbol ==>
               ForSymbol(d.stats.log, other) == ForSymbol(st.stats.log, other)
    ensures AllBooks(State(st.books[b := d.book], d.mem, d.stats))
  {
    StepKeepsSound(st.books, b, d.book, st.stats.log, d.stats.log);
    StepKeepsUnlisted(st, b, d);
  }

  lemma StepKeepsSound(books: seq<Book>, b: nat, book: Book, log: seq<Event>, log': seq<Event>)
    requires b < |books| && DistinctSymbols(books) && book.symbol == books[b].symbol && BookSound(book, log')
    requires forall j :: 0 <= j < |books| ==> BookSound(books[j], log)
    requires forall other :: other != book.symbol ==> ForSymbol(log', other) == ForSymbol(log, other)
    ensures var books' := books[b := book];
            DistinctSymbols(books') && forall j :: 0 <= j < |books'| ==> BookSound(books'[j], log')
  {
    forall j | 0 <= j < |books| && j != b
      ensures BookSound(books[j], log')
    {
      assert books[j].symbol != book.symbol;
      OtherBookSound(books[j], book.symbol, log, log');
    }
  }

  lemma StepKeepsUnlisted(st: State, b: nat, d: Desk)
    requires b < |st.books| && d.book.symbol == st.books[b].symbol
    requires forall symbol :: Unlisted(st.books, symbol) ==> ForSymbol(st.stats.log, symbol) == []
    requires forall other :: other != d.book.symbol ==>
               ForSymbol(d.stats.log, other) == ForSymbol(st.stats.log, other)
    ensures forall symbol :: Unlisted(st.books[b := d.book], symbol) ==> ForSymbol(d.stats.log, symbol) == []
  {
    forall symbol | Unlisted(st.books[b := d.book], symbol)
      ensures ForSymbol(d.stats.log, symbol) == []
    {
      UnlistedAfterUpdate(st.books, b, d.book, symbol);
    }
  }

  lemma UnlistedAfterUpdate(books: seq<Book>, b: nat, book: Book, symbol: string)
    requires b < |books| && book.symbol == books[b].symbol
    requires Unlisted(books[b := book], symbol)
    ensures Unlisted(books, symbol) && symbol != book.symbol
  {
    var books' := books[b := book];
    assert books'[b].symbol != symbol;
    forall j | 0 <= j < |books|
      ensures books[j].symbol != symbol
    {
      assert books'[j].symbol == books[j].symbol;
    }
  }

  lemma OtherBookSound(book: Book, symbol: string, log: seq<Event>, log': seq<Event>)
    requires BookSound(book, log) && book.symbol != symbol
    requires forall other :: other != symbol ==> ForSymbol(log', other) == ForSymbol(log, other)
    ensures BookSound(book, log')
  {
    assert ForSymbol(log', book.symbol) == ForSymbol(log, book.symbol);
  }

  lemma {:induction false} ProcessIsSound(st: State, sub: Submission)
    requires Sound(st) && ValidOrder(sub.order)
    ensures Sound(Process(st, sub))
  {
    var b := FindBook(st.books, sub.symbol, 0);
    var st1 := st.(books := WithBook(st.books, sub.symbol));
    WithBookIsSound(st, sub.symbol);
    var d := Desk(st1.books[b], st.mem, st.stats);
    ReceiveIsDeskStep(d, sub.order, b);
    StepIsSound(st1, b, Receive(d, sub.order, b));
  }

  lemma {:induction false} RunIsSound(subs: seq<Submission>)
    requires ValidSubmissions(subs)
    ensures Sound(Run(subs))
  {
    if subs == [] {
      EmptyIsSound();
    } else {
      RunIsSound(subs[..|subs| - 1]);
      ProcessIsSound(Run(subs[..|subs| - 1]), subs[|subs| - 1]);
    }
  }

  // ---------- what it means, state by state ----------

  /** Frame ownership: a frame's bit is clear iff it occurs in some book's page table; it then
      occurs at one index of one book, its recorded owner; and no frame is lost. */
  lemma {:induction false} FrameOwnership(subs: seq<Submission>)
    requires ValidSubmissions(subs)
    ensures var st := Run(subs);
            && (forall f :: 0 <= f < MAX_PAGES ==>
                  (!st.mem.frames[f].free <==>
                   exists b, p :: 0 <= b < |st.books| && 0 <= p < |st.books[b].table.pages| && st.books[b].table.pages[p] == f))
            && (forall b, p, c, q ::
                  0 <= b < |st.books| && 0 <= p < |st.books[b].table.pages| &&
                  0 <= c < |st.books| && 0 <= q < |st.books[c].table.pages| &&
                  st.books[b].table.pages[p] == st.books[c].table.pages[q] ==>
                    b == c == st.mem.frames[st.books[b].table.pages[p]].owner && p == q)
            && SumBy(FreeBit, st.mem.frames) + SumBy(PageCount, st.books) == MAX_PAGES
  {
    var st := Run(subs);
    RunIsSound(subs);
    forall f | 0 <= f < MAX_PAGES && !st.mem.frames[f].free
      ensures exists b, p :: 0 <= b < |st.books| && 0 <= p < |st.books[b].table.pages| && st.books[b].table.pages[p] == f
    {
      var b := st.mem.frames[f].owner;
      assert 0 <= b < |st.books| && BookFrames(st.mem.frames, st.books[b].table, b);
      var p :| 0 <= p < |st.books[b].table.pages| && st.books[b].table.pages[p] == f;
    }
    forall b, p | 0 <= b < |st.books| && 0 <= p < |st.books[b].table.pages|
      ensures !st.mem.frames[st.books[b].table.pages[p]].free
      ensures st.mem.frames[st.books[b].table.pages[p]].owner == b
    {
      assert BookFrames(st.mem.frames, st.books[b].table, b);
    }
    forall b, p, c, q | 0 <= b < |st.books| && 0 <= p < |st.books[b].table.pages| &&
                        0 <= c < |st.books| && 0 <= q < |st.books[c].table.pages| &&
                        st.books[b].table.pages[p] == st.books[c].table.pages[q]
      ensures b == c == st.mem.frames[st.books[b].table.pages[p]].owner && p == q
    {
      assert BookFrames(st.mem.frames, st.books[b].table, b);
    }
  }

  /** Page shape: only a book's last page is partly filled, and its node counts add up to the
      slots charged to the book. */
  lemma {:induction false} PageShape(subs: seq<Submission>, b: nat)
    requires ValidSubmissions(subs) && b < |Run(subs).books|
    ensures var (frames, t) := (Run(subs).mem.frames, Run(subs).books[b].table);
            && (|t.pages| == 0 <==> t.inCurr == 0)
            && |t.pages| <= MAX_PAGES_PER_SYMBOL
            && (forall p :: 0 <= p < |t.pages| - 1 ==> frames[t.pages[p]].nodes == PAGE_SIZE)
            && (t.pages != [] ==> frames[t.pages[|t.pages| - 1]].nodes == t.inCurr && 1 <= t.inCurr <= PAGE_SIZE)
            && NodesOf(frames, t.pages) == Slots(t)
  {
    RunIsSound(subs);
    var (frames, t) := (Run(subs).mem.frames, Run(subs).books[b].table);
    assert BookFrames(frames, t, b);
    NodesAddUp(frames, t, b, |t.pages|);
    assert t.pages[..|t.pages|] == t.pages;
  }

  function NodesOf(frames: FrameTable, pages: seq<FrameIndex>): int {
    if pages == [] then 0 else NodesOf(frames, pages[..|pages| - 1]) + frames[pages[|pages| - 1]].nodes
  }

  lemma {:induction false} NodesAddUp(frames: FrameTable, t: PageTable, b: int, n: nat)
    requires BookFrames(frames, t, b) && n <= |t.pages|
    ensures NodesOf(frames, t.pages[..n]) == if n == |t.pages| then Slots(t) else PAGE_SIZE * n
  {
    if n > 0 {
      NodesAddUp(frames, t, b, n - 1);
      assert t.pages[..n][..n - 1] == t.pages[..n - 1];
    }
  }

  /** The charge of a book in every run. Where no insert of its symbol overflowed, the book is
      charged one slot more than it holds orders for every exact match so far, and never less:
      a book emptied by an exact match keeps a page it has no order in. */
  lemma {:induction false} ChargedSlots(subs: seq<Submission>, b: nat)
    requires ValidSubmissions(subs) && b < |Run(subs).books|
    ensures var (st, book) := (Run(subs), Run(subs).books[b]);
            var events := ForSymbol(st.stats.log, book.symbol);
            && Slots(book.table) + SumBy(OverflowInsert, events)
               == Resting(book) + SumBy(ExactTrade, events) + SumBy(Unreleased, events)
            && (SumBy(OverflowInsert, events) == 0 ==>
                  Slots(book.table) == Resting(book) + SumBy(ExactTrade, events) >= Resting(book))
            && (SumBy(OverflowInsert, events) == 0 && Resting(book) == 0 ==>
                  (book.table.pages == [] <==> SumBy(ExactTrade, events) == 0))
  {
    RunIsSound(subs);
    var (st, book) := (Run(subs), Run(subs).books[b]);
    var events := ForSymbol(st.stats.log, book.symbol);
    assert BookLaws(book, events);
    CountsAreNatural(events);
    assert BookFrames(st.mem.frames, book.table, b);
  }

  /** Uncrossed: after every order, no resting bid of a symbol reaches any of its resting asks. */
  lemma {:induction false} NeverCrossed(subs: seq<Submission>, b: nat, i: nat, j: nat)
    requires ValidSubmissions(subs) && b < |Run(subs).books|
    requires i < |Run(subs).books[b].bids| && j < |Run(subs).books[b].asks|
    ensures Run(subs).books[b].bids[i].price < Run(subs).books[b].asks[j].price
  {
    RunIsSound(subs);
  }

  /** Shares are conserved, side by side, and every resting order still has some. */
  lemma {:induction false} SharesConserved(subs: seq<Submission>, b: nat, side: Side)
    requires ValidSubmissions(subs) && b < |Run(subs).books|
    ensures var book := Run(subs).books[b];
            var events := ForSymbol(Run(subs).stats.log, book.symbol);
            && SumBy(AcceptedShares(side), events) == SumBy(Amount, SideOf(book, side)) + SumBy(TradedShares, events)
            && SumBy(AcceptedShares(Ask), events) - SumBy(Amount, book.asks)
               == SumBy(AcceptedShares(Bid), events) - SumBy(Amount, book.bids)
            && forall k :: 0 <= k < |SideOf(book, side)| ==> 1 <= SideOf(book, side)[k].amount <= MAX_AMOUNT
  {
    RunIsSound(subs);
    var book := Run(subs).books[b];
    assert BookLaws(book, ForSymbol(Run(subs).stats.log, book.symbol));
    assert SideOf(book, Ask) == book.asks && SideOf(book, Bid) == book.bids;
    forall k | 0 <= k < |SideOf(book, side)|
      ensures 1 <= SideOf(book, side)[k].amount <= MAX_AMOUNT
    {
      assert SideOf(book, side)[k] in multiset(SideOf(book, side));
    }
  }

  /** Writes and trades in every reachable state, overflow or not. */
  lemma {:induction false} LedgerIdentity(subs: seq<Submission>)
    requires ValidSubmissions(subs)
    ensures var st := Run(subs);
            && st.stats.totalWrites == SumBy(Resting, st.books) + 2 * st.stats.totalTrades
            && st.stats.totalTrades == SumBy(Trades, st.books)
  {
    RunIsSound(subs);
  }

  /** An order touches no other symbol's book, nor the frames in its page table. */
  lemma {:induction false} OrdersAreIsolated(st: State, sub: Submission, j: nat)
    requires Sound(st) && ValidOrder(sub.order)
    requires j < |st.books| && st.books[j].symbol != sub.symbol
    ensures var st' := Process(st, sub);
            && j < |st'.books| && st'.books[j] == st.books[j]
            && (forall p :: 0 <= p < |st.books[j].table.pages| ==>
                  st'.mem.frames[st.books[j].table.pages[p]] == st.mem.frames[st.books[j].table.pages[p]])
            && ForSymbol(st'.stats.log, st.books[j].symbol) == ForSymbol(st.stats.log, st.books[j].symbol)
  {
    var b := FindBook(st.books, sub.symbol, 0);
    WithBookKeeps(st.books, sub.symbol, j);
    WithBookIsSound(st, sub.symbol);
    ReceiveIsIsolated(st.(books := WithBook(st.books, sub.symbol)), b, sub.order, j);
  }

  lemma WithBookKeeps(books: seq<Book>, symbol: string, j: nat)
    requires j < |books| && books[j].symbol != symbol
    ensures j < |WithBook(books, symbol)| && WithBook(books, symbol)[j] == books[j]
    ensures FindBook(books, symbol, 0) != j && WithBook(books, symbol)[FindBook(books, symbol, 0)].symbol == symbol
  {
  }

  lemma ReceiveIsIsolated(st: State, b: nat, o: Order, j: nat)
    requires Sound(st) && ValidOrder(o) && b < |st.books| && j < |st.books| && st.books[j].symbol != st.books[b].symbol
    ensures var (d, other) := (Receive(Desk(st.books[b], st.mem, st.stats), o, b), st.books[j]);
            && (forall p :: 0 <= p < |other.table.pages| ==>
                  d.mem.frames[other.table.pages[p]] == st.mem.frames[other.table.pages[p]])
            && ForSymbol(d.stats.log, other.symbol) == ForSymbol(st.stats.log, other.symbol)
  {
    var d := Desk(st.books[b], st.mem, st.stats);
    DeskIsSound(st, b);
    DeskIsSound(st, j);
    ReceiveIsDeskStep(d, o, b);
    StepIsIsolated(d, Receive(d, o, b), b, st.books[j], j);
  }

  lemma StepIsIsolated(d: Desk, d': Desk, b: nat, other: Book, j: nat)
    requires DeskStep(d, d', b) && j != b && other.symbol != d.book.symbol
    requires BookFrames(d.mem.frames, other.table, j)
    ensures forall p :: 0 <= p < |other.table.pages| ==>
              d'.mem.frames[other.table.pages[p]] == d.mem.frames[other.table.pages[p]]
    ensures ForSymbol(d'.stats.log, other.symbol) == ForSymbol(d.stats.log, other.symbol)
  {
    OtherBookUnharmed(d.mem.frames, d'.mem.frames, b, other.table, j);
  }

  // ---------- admission ----------

  /** An order is refused iff its book's pages are full, it may not or cannot have another,
      and the overflow page is full; a refusal changes the reject counter only. */
  lemma {:induction false} AdmissionIsExact(st: State, o: Order, b: nat)
    requires Sound(st) && b < |st.books|
    ensures var d := Desk(st.books[b], st.mem, st.stats);
            var (d', accepted) := Insert(d, o, b);
            && (!accepted <==>
                && Slots(d.book.table) == PAGE_SIZE * PageCount(d.book)
                && (PageCount(d.book) == MAX_PAGES_PER_SYMBOL || SumBy(PageCount, st.books) == MAX_PAGES)
                && st.mem.overflow == OVERFLOW_PAGE_SIZE)
            && (!accepted ==> d'.book == d.book && d'.mem.frames == st.mem.frames && d'.mem.overflow == st.mem.overflow)
  {
    assert BookFrames(st.mem.frames, st.books[b].table, b);
    NoFrameLeft(st.mem.frames);
    RefusalMeansFull(st.mem, st.books[b].table, b);
  }

  lemma RefusalMeansFull(m: Memory, t: PageTable, b: int)
    requires TableShape(t) && 0 <= m.overflow <= OVERFLOW_PAGE_SIZE
    ensures ChargeSlot(m, t, b).Refused? <==>
              && Slots(t) == PAGE_SIZE * |t.pages|
              && (|t.pages| == MAX_PAGES_PER_SYMBOL || FirstFree(m.frames, 0) == MAX_PAGES)
              && m.overflow == OVERFLOW_PAGE_SIZE
    ensures ChargeSlot(m, t, b).Refused? ==>
              ChargeSlot(m, t, b).mem.frames == m.frames && ChargeSlot(m, t, b).mem.overflow == m.overflow
  {
  }

  /** Where a charge goes, on any memory: room in the last page comes first, then a page on the
      lowest free frame, then the overflow page; nothing else of the memory changes. */
  lemma ChargeGoesTo(m: Memory, t: PageTable, b: int)
    requires TableShape(t)
    ensures var (c, n, f) := (ChargeSlot(m, t, b), |t.pages|, FirstFree(m.frames, 0));
            if Slots(t) < PAGE_SIZE * n then
              && c.InPage? && c.table == PageTable(t.pages, t.inCurr + 1) && c.mem.overflow == m.overflow
              && c.mem.frames[t.pages[n - 1]].nodes == m.frames[t.pages[n - 1]].nodes + 1
              && forall g :: 0 <= g < MAX_PAGES && g != t.pages[n - 1] ==> c.mem.frames[g] == m.frames[g]
            else if n < MAX_PAGES_PER_SYMBOL && f < MAX_PAGES then
              && c.InPage? && c.table == PageTable(t.pages + [f], 1) && c.mem.overflow == m.overflow
              && c.mem.frames[f] == Frame(false, b, 1)
              && forall g :: 0 <= g < MAX_PAGES && g != f ==> c.mem.frames[g] == m.frames[g]
            else
              && !c.InPage? && c.mem.frames == m.frames && (c.InOverflow? <==> m.overflow < OVERFLOW_PAGE_SIZE)
              && c.mem.overflow == (if c.InOverflow? then m.overflow + 1 else m.overflow)
  {
  }

  lemma NoFrameLeft(frames: FrameTable)
    ensures FirstFree(frames, 0) == MAX_PAGES <==> SumBy(FreeBit, frames) == 0
  {
    var f := FirstFree(frames, 0);
    if f < MAX_PAGES {
      SumNonNegative(FreeBit, frames);
      assert FreeBit(frames[f]) == 1;
    } else {
      NoneFree(frames);
    }
  }

  lemma {:induction false} NoneFree(frames: seq<Frame>)
    requires forall f :: 0 <= f < |frames| ==> !frames[f].free
    ensures SumBy(FreeBit, frames) == 0
  {
    if frames != [] {
      NoneFree(frames[..|frames| - 1]);
    }
  }

  /** A book that grows by a page gets the lowest free frame. */
  lemma LowestFrameFirst(m: Memory, t: PageTable, b: int)
    requires ChargeSlot(m, t, b).InPage? && |ChargeSlot(m, t, b).table.pages| > |t.pages|
    ensures var t' := ChargeSlot(m, t, b).table;
            var f := t'.pages[|t.pages|];
            t'.pages[..|t.pages|] == t.pages && m.frames[f].free && forall g :: 0 <= g < f ==> !m.frames[g].free
  {
  }
}
