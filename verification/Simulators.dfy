/** The exchange and the order loop of sw_sim/memory_sim.c on objects: every order leaves the
    simulator in the state that ExchangeSpec.Process computes, and so every theorem about
    ExchangeSpec.Run is one about the simulator. */
module Simulators {
  import opened Orders
  import opened Memories
  import opened OrderBooks
  import opened ExchangeSpec
  import opened ExchangeLaws
  import opened Reference
  import opened Refinement

  class Simulator {
    var books: seq<OrderBook>
    const mm: MemoryManager
    const stats: SimStats
    ghost var state: State
    ghost var Repr: set<object>

    /** Book b is sound, apart from memory and statistics, and shows the given view. */
    ghost predicate Holds(ob: OrderBook, view: Book)
      reads `Repr, Repr, ob
    {
      && ob in Repr && ob.asks in Repr && ob.bids in Repr
      && ob.Repr() <= Repr && ob.Valid()
      && mm.Repr() !! ob.Repr() && stats !in ob.Repr()
      && ob.View() == view
    }

    ghost predicate Apart(ob: OrderBook, other: OrderBook)
      reads `Repr, Repr, ob, other
    {
      && ob.asks in Repr && ob.bids in Repr && other.asks in Repr && other.bids in Repr
      && ob.Repr() !! other.Repr()
    }

    ghost predicate AllHold(all: seq<OrderBook>, views: seq<Book>)
      reads `Repr, Repr, all
    {
      |all| == |views| && forall b :: 0 <= b < |all| ==> Holds(all[b], views[b])
    }

    ghost predicate AllApart(all: seq<OrderBook>)
      reads `Repr, Repr, all
    {
      forall b, c :: 0 <= b < |all| && 0 <= c < |all| && b != c ==> Apart(all[b], all[c])
    }

    lemma OneMore(all: seq<OrderBook>, views: seq<Book>, ob: OrderBook, view: Book)
      requires AllHold(all, views) && AllApart(all) && Holds(ob, view)
      requires forall b :: 0 <= b < |all| ==> Apart(all[b], ob) && Apart(ob, all[b])
      ensures AllHold(all + [ob], views + [view]) && AllApart(all + [ob])
    {
    }

    lemma Replaced(all: seq<OrderBook>, views: seq<Book>, b: nat, view: Book)
      requires b < |all| == |views| && Holds(all[b], view)
      requires forall j :: 0 <= j < |all| && j != b ==>
                 Holds(all[j], views[j]) && Apart(all[j], all[b]) && Apart(all[b], all[j])
      requires forall j, k :: 0 <= j < |all| && 0 <= k < |all| && j != k && j != b && k != b ==>
                 Apart(all[j], all[k])
      ensures AllHold(all, views[b := view]) && AllApart(all)
    {
    }

    ghost predicate Valid()
      reads this, Repr, books
    {
      && this !in Repr && mm.Repr() <= Repr && stats in Repr
      && stats !in mm.Repr() && mm.Valid()
      && AllHold(books, state.books) && AllApart(books)
      && state.mem == mm.View() && state.stats == stats.View()
    }

    constructor ()
      ensures Valid() && fresh(Repr)
      ensures state == EmptyState()
    {
      books := [];
      mm := new MemoryManager();
      stats := new SimStats();
      state := EmptyState();
      new;
      Repr := {stats} + mm.Repr();
    }

    /** Work that leaves the other books' objects alone leaves those books as they were. */
    twostate lemma OthersKept(b: nat)
      requires old(Valid()) && b <= |books| && books == old(books) && old(Repr) <= Repr
      requires forall j :: 0 <= j < |books| && j != b ==> unchanged(old(books[j].Repr()))
      ensures forall j :: 0 <= j < |books| && j != b ==>
                Holds(books[j], old(state).books[j]) && books[j].Repr() == old(books[j].Repr())
      ensures forall j, k :: 0 <= j < |books| && 0 <= k < |books| && j != k && j != b && k != b ==>
                Apart(books[j], books[k])
    {
      forall j | 0 <= j < |books| && j != b
        ensures Holds(books[j], old(state).books[j]) && books[j].Repr() == old(books[j].Repr())
      {
        assert old(Holds(books[j], state.books[j]));
      }
      forall j, k | 0 <= j < |books| && 0 <= k < |books| && j != k && j != b && k != b
        ensures Apart(books[j], books[k])
      {
        assert old(Holds(books[j], state.books[j]) && Holds(books[k], state.books[k]) && Apart(books[j], books[k]));
      }
    }

    /** The index of the symbol's book; the number of books when there is none. */
    method IndexOf(symbol: string) returns (b: nat)
      requires Valid()
      ensures b == FindBook(state.books, symbol, 0)
    {
      for i := 0 to |books|
        invariant forall k :: 0 <= k < i ==> state.books[k].symbol != symbol
      {
        assert Holds(books[i], state.books[i]);
        if books[i].symbol == symbol {
          FindBookIs(state.books, symbol, i);
          return i;
        }
      }
      FindBookIs(state.books, symbol, |books|);
      return |books|;
    }

    /** A new book, apart from all others but not yet in the exchange. */
    method MakeBook(symbol: string) returns (ob: OrderBook)
      requires Valid()
      modifies `Repr
      ensures fresh(Repr - old(Repr)) && old(Repr) <= Repr
      ensures Holds(ob, NewBook(symbol))
      ensures forall j :: 0 <= j < |books| ==> unchanged(old(books[j].Repr()))
      ensures forall j :: 0 <= j < |books| ==> Apart(books[j], ob) && Apart(ob, books[j])
    {
      ob := new OrderBook(symbol);
      Repr := Repr + ob.Repr();
      forall j | 0 <= j < |books|
        ensures Apart(books[j], ob) && Apart(ob, books[j])
      {
        assert old(Holds(books[j], state.books[j]));
      }
    }

    method MakeBookAmong(symbol: string) returns (ob: OrderBook)
      requires Valid()
      modifies `Repr
      ensures fresh(Repr - old(Repr)) && old(Repr) <= Repr && mm.Valid()
      ensures AllHold(books + [ob], state.books + [NewBook(symbol)]) && AllApart(books + [ob])
      ensures mm.View() == state.mem && stats.View() == state.stats
    {
      ob := MakeBook(symbol);
      OthersKept(|books|);
      OneMore(books, state.books, ob, NewBook(symbol));
    }

    method AddBook(symbol: string)
      requires Valid()
      modifies this
      ensures Valid() && fresh(Repr - old(Repr))
      ensures state == old(state).(books := old(state).books + [NewBook(symbol)])
    {
      var ob := MakeBookAmong(symbol);
      books, state := books + [ob], state.(books := state.books + [NewBook(symbol)]);
    }

    /** find_or_create_book, and the search that follows it for the book's index. */
    method FindOrCreateBook(symbol: string) returns (b: nat)
      requires Valid()
      modifies this
      ensures Valid() && fresh(Repr - old(Repr))
      ensures b == FindBook(old(state).books, symbol, 0) < |books|
      ensures state == old(state).(books := WithBook(old(state).books, symbol))
    {
      b := IndexOf(symbol);
      if b == |books| {
        AddBook(symbol);
      }
    }

    static lemma FindBookIs(all: seq<Book>, symbol: string, b: nat)
      requires b <= |all| && (b < |all| ==> all[b].symbol == symbol)
      requires forall k :: 0 <= k < b ==> all[k].symbol != symbol
      ensures FindBook(all, symbol, 0) == b
    {
    }

    /** One order: its book is found or made, it is inserted, and the book is drained. */
    method Submit(symbol: string, o: Order)
      requires Valid()
      modifies this, Repr
      ensures Valid() && fresh(Repr - old(Repr))
      ensures state == Process(old(state), Submission(symbol, o))
    {
      var b := FindOrCreateBook(symbol);
      Receive(b, o);
    }

    /** The work of Receive, before the simulator's own view of it. */
    method ReceiveAt(b: nat, o: Order)
      requires Valid() && b < |books|
      modifies `Repr, Repr
      ensures fresh(Repr - old(Repr)) && old(Repr) <= Repr && mm.Valid()
      ensures Holds(books[b], ExchangeSpec.Receive(DeskOf(old(state), b), o, b).book)
      ensures mm.View() == ExchangeSpec.Receive(DeskOf(old(state), b), o, b).mem
      ensures stats.View() == ExchangeSpec.Receive(DeskOf(old(state), b), o, b).stats
      ensures forall j :: 0 <= j < |books| && j != b ==> unchanged(old(books[j].Repr()))
      ensures forall j :: 0 <= j < |books| && j != b ==> Apart(books[j], books[b]) && Apart(books[b], books[j])
    {
      var ob := books[b];
      assert Holds(ob, state.books[b]);
      assert ob.AtDesk(mm, stats);
      assert ob.Desk(mm, stats) == DeskOf(state, b);
      ob.Receive(mm, o, b, stats);
      Repr := Repr + ob.Repr();
      forall j | 0 <= j < |books| && j != b
        ensures unchanged(old(books[j].Repr()))
        ensures Apart(books[j], ob) && Apart(ob, books[j])
      {
        assert old(Holds(books[j], state.books[j])) && old(Apart(ob, books[j]));
      }
    }

    /** What that leaves is sound for the new views of the books. */
    method ReceiveAmong(b: nat, o: Order)
      requires Valid() && b < |books|
      modifies `Repr, Repr
      ensures fresh(Repr - old(Repr)) && old(Repr) <= Repr && mm.Valid()
      ensures var d := ExchangeSpec.Receive(DeskOf(old(state), b), o, b);
              && this !in Repr && AllHold(books, old(state).books[b := d.book]) && AllApart(books)
              && mm.View() == d.mem && stats.View() == d.stats
    {
      ReceiveAt(b, o);
      OthersKept(b);
      Replaced(books, state.books, b, ExchangeSpec.Receive(DeskOf(state, b), o, b).book);
    }

    method Receive(b: nat, o: Order)
      requires Valid() && b < |books|
      modifies this, Repr
      ensures Valid() && fresh(Repr - old(Repr)) && books == old(books)
      ensures var d := ExchangeSpec.Receive(DeskOf(old(state), b), o, b);
              state == State(old(state).books[b := d.book], d.mem, d.stats)
    {
      ghost var d := ExchangeSpec.Receive(DeskOf(state, b), o, b);
      ghost var after := State(state.books[b := d.book], d.mem, d.stats);
      ReceiveAmong(b, o);
      state := after;
    }
  }

  ghost function DeskOf(st: State, b: nat): Desk
    requires b < |st.books|
  {
    Desk(st.books[b], st.mem, st.stats)
  }

  /** The order loop. */
  method RunSimulator(subs: seq<Submission>) returns (sim: Simulator)
    ensures sim.Valid() && sim.state == Run(subs)
    ensures ValidSubmissions(subs) ==> Sound(sim.state)
    ensures ValidSubmissions(subs) && DistinctKeys(AcceptedStream(sim.state.stats.log)) ==> Refines(sim.state)
  {
    sim := new Simulator();
    for i := 0 to |subs|
      invariant sim.Valid() && fresh(sim) && fresh(sim.Repr) && sim.state == Run(subs[..i])
    {
      assert subs[..i + 1][..i] == subs[..i];
      sim.Submit(subs[i].symbol, subs[i].order);
    }
    assert subs[..|subs|] == subs;
    if ValidSubmissions(subs) {
      RunIsSound(subs);
      if DistinctKeys(AcceptedStream(sim.state.stats.log)) {
        RunRefines(subs);
      }
    }
  }
}
