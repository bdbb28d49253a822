/** How many orders rest for the places they are charged to. A trade may give back a place twice,
    in its book and in the overflow page, and may take two orders off for one place; over all
    books the two errors are set against each other here. */
module Capacity {
  import opened Sums
  import opened MemorySpec
  import opened ExchangeSpec
  import opened DeskLaws
  import opened ExchangeLaws
  import opened History

  function BookSlots(book: Book): int {
    Slots(book.table)
  }

  /** What the events of a book's symbol weigh. */
  function ShareOf(weight: Event -> int, log: seq<Event>): Book -> int {
    (book: Book) => SumBy(weight, ForSymbol(log, book.symbol))
  }

  /** One more event weighs in the share of its symbol's book. */
  lemma ShareSnoc(weight: Event -> int, log: seq<Event>, e: Event, book: Book)
    ensures ShareOf(weight, log + [e])(book) == ShareOf(weight, log)(book) + (if book.symbol == e.symbol then weight(e) else 0)
  {
    ForSymbolSnoc(log, e, book.symbol);
    if book.symbol == e.symbol {
      SumSnoc(weight, ForSymbol(log, e.symbol), e);
    } else {
      assert ForSymbol(log + [e], book.symbol) == ForSymbol(log, book.symbol);
    }
  }

  lemma UnlistedSnoc(books: seq<Book>, book: Book, symbol: string)
    ensures Unlisted(books + [book], symbol) <==> Unlisted(books, symbol) && book.symbol != symbol
  {
    if Unlisted(books + [book], symbol) {
      forall b | 0 <= b < |books|
        ensures books[b].symbol != symbol
      {
        assert (books + [book])[b] == books[b];
      }
      assert (books + [book])[|books|] == book;
    }
  }

  lemma {:induction false} OneShare(weight: Event -> int, log: seq<Event>, e: Event, books: seq<Book>)
    requires DistinctSymbols(books)
    ensures SumBy(ShareOf(weight, log + [e]), books)
            == SumBy(ShareOf(weight, log), books) + (if Unlisted(books, e.symbol) then 0 else weight(e))
    decreases |books|
  {
    if books != [] {
      var (rest, last) := (books[..|books| - 1], books[|books| - 1]);
      assert books == rest + [last];
      OneShare(weight, log, e, rest);
      ShareSnoc(weight, log, e, last);
      UnlistedSnoc(rest, last, e.symbol);
      assert last.symbol == e.symbol ==> Unlisted(rest, e.symbol);
    }
  }

  /** Every event weighs in the share of one book. */
  lemma {:induction false} SharesAddUp(weight: Event -> int, log: seq<Event>, books: seq<Book>)
    requires DistinctSymbols(books) && forall k :: 0 <= k < |log| ==> !Unlisted(books, log[k].symbol)
    ensures SumBy(ShareOf(weight, log), books) == SumBy(weight, log)
    decreases |log|
  {
    if log == [] {
      NoShares(weight, books);
    } else {
      var (before, e) := (log[..|log| - 1], log[|log| - 1]);
      assert log == before + [e];
      SharesAddUp(weight, before, books);
      OneShare(weight, before, e, books);
      SumSnoc(weight, before, e);
    }
  }

  lemma {:induction false} NoShares(weight: Event -> int, books: seq<Book>)
    ensures SumBy(ShareOf(weight, []), books) == 0
    decreases |books|
  {
    if books != [] {
      NoShares(weight, books[..|books| - 1]);
    }
  }

  lemma {:induction false} SlotLawsAddUp(books: seq<Book>, log: seq<Event>)
    requires forall b :: 0 <= b < |books| ==> SlotLaw(books[b], ForSymbol(log, books[b].symbol))
    ensures SumBy(BookSlots, books) + SumBy(ShareOf(OverflowInsert, log), books)
            == SumBy(Resting, books) + SumBy(ShareOf(ExactTrade, log), books) + SumBy(ShareOf(Unreleased, log), books)
    decreases |books|
  {
    if books != [] {
      var rest := books[..|books| - 1];
      assert forall b :: 0 <= b < |rest| ==> rest[b] == books[b];
      SlotLawsAddUp(rest, log);
      assert SlotLaw(books[|books| - 1], ForSymbol(log, books[|books| - 1].symbol));
    }
  }

  lemma {:induction false} EventsAreListed(st: State, k: nat)
    requires AllBooks(st) && k < |st.stats.log|
    ensures !Unlisted(st.books, st.stats.log[k].symbol)
  {
    HasItsEvent(st.stats.log, k);
  }

  lemma {:induction false} HasItsEvent(log: seq<Event>, k: nat)
    requires k < |log|
    ensures ForSymbol(log, log[k].symbol) != []
    decreases |log|
  {
    if k < |log| - 1 {
      HasItsEvent(log[..|log| - 1], k);
    }
  }

  lemma {:induction false} TallyIsSums(log: seq<Event>)
    ensures var t := TallyOf(log);
            && t.overflowed == SumBy(OverflowInsert, log) && t.trades - t.partial == SumBy(ExactTrade, log)
            && t.unreleased == SumBy(Unreleased, log)
            && t.inUse == t.overflowed - t.relieved && t.inUse >= 0
  {
    if log != [] {
      TallyIsSums(log[..|log| - 1]);
    }
  }

  /** In every run, the resting orders of all books against the places charged: slots in pages,
      and the overflow count. There are more of them iff more trades relieved the overflow page
      than were exact or found no slot to give back; by that much capacity can be exceeded. */
  lemma {:induction false} Oversubscription(subs: seq<Submission>)
    requires ValidSubmissions(subs)
    ensures var st := Run(subs);
            var (t, places) := (TallyOf(st.stats.log), SumBy(BookSlots, st.books) + st.mem.overflow);
            var exact := t.trades - t.partial;
            && SumBy(Resting, st.books) == places + t.relieved - exact - t.unreleased
            && (SumBy(Resting, st.books) > places <==> t.relieved > exact + t.unreleased)
            && SumBy(Resting, st.books) <= PAGE_SIZE * MAX_PAGES + OVERFLOW_PAGE_SIZE + t.relieved - exact - t.unreleased
  {
    var st := Run(subs);
    RunIsSound(subs);
    RunIsTallied(subs);
    PlacesAddUp(st);
    PagesBoundSlots(st);
  }

  lemma PlacesAddUp(st: State)
    requires AllBooks(st)
    ensures SumBy(BookSlots, st.books) + TallyOf(st.stats.log).inUse + TallyOf(st.stats.log).relieved
            == SumBy(Resting, st.books) + (TallyOf(st.stats.log).trades - TallyOf(st.stats.log).partial)
               + TallyOf(st.stats.log).unreleased
  {
    var log := st.stats.log;
    forall k | 0 <= k < |log|
      ensures !Unlisted(st.books, log[k].symbol)
    {
      EventsAreListed(st, k);
    }
    forall b | 0 <= b < |st.books|
      ensures SlotLaw(st.books[b], ForSymbol(log, st.books[b].symbol))
    {
      assert BookSound(st.books[b], log);
    }
    SlotLawsAddUp(st.books, log);
    SharesAddUp(OverflowInsert, log, st.books);
    SharesAddUp(ExactTrade, log, st.books);
    SharesAddUp(Unreleased, log, st.books);
    TallyIsSums(log);
  }

  lemma PagesBoundSlots(st: State)
    requires AllFrames(st)
    ensures SumBy(BookSlots, st.books) <= PAGE_SIZE * MAX_PAGES
  {
    forall b | 0 <= b < |st.books|
      ensures BookSlots(st.books[b]) <= PAGE_SIZE * PageCount(st.books[b])
    {
      assert BookFrames(st.mem.frames, st.books[b].table, b);
    }
    SlotsWithinPages(st.books);
    SumNonNegative(FreeBit, st.mem.frames);
  }

  lemma {:induction false} SlotsWithinPages(books: seq<Book>)
    requires forall b :: 0 <= b < |books| ==> BookSlots(books[b]) <= PAGE_SIZE * PageCount(books[b])
    ensures SumBy(BookSlots, books) <= PAGE_SIZE * SumBy(PageCount, books)
    decreases |books|
  {
    if books != [] {
      var rest := books[..|books| - 1];
      assert forall b :: 0 <= b < |rest| ==> rest[b] == books[b];
      SlotsWithinPages(rest);
    }
  }

  /** One book holds more orders than it is charged for iff more of them went to the overflow page
      than there were exact matches and trades that found no slot to give back. */
  lemma UnderchargedIff(subs: seq<Submission>, b: nat)
    requires ValidSubmissions(subs) && b < |Run(subs).books|
    ensures var (st, book) := (Run(subs), Run(subs).books[b]);
            var events := ForSymbol(st.stats.log, book.symbol);
            Slots(book.table) < Resting(book) <==>
              SumBy(OverflowInsert, events) > SumBy(ExactTrade, events) + SumBy(Unreleased, events)
  {
    ChargedSlots(subs, b);
  }
}
