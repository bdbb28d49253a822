/** One symbol's book and the operations the simulator runs on it (sw_sim/mmu.h,
    sw_sim/memory_sim.c). Each leaves book, memory and statistics as the function of
    ExchangeSpec with the same name says. */
module OrderBooks {
  import opened Orders
  import opened MemorySpec
  import opened Heaps
  import opened Memories
  import opened SymbolMemories
  import ExchangeSpec

  class OrderBook {
    const symbol: string
    const asks: Heap
    const bids: Heap
    const mem: SymbolMemory
    var trades: int

    ghost function Repr(): set<object>
      reads this, asks, bids
    {
      {this, asks, asks.data, bids, bids.data, mem, mem.virtualPages}
    }

    ghost predicate Valid()
      reads this, asks, bids, mem
    {
      && asks != bids && asks.data != bids.data
      && asks.Valid() && bids.Valid() && asks.side == Ask && bids.side == Bid
      && mem.Valid()
    }

    ghost function View(): ExchangeSpec.Book
      requires Valid()
      reads this, asks, asks.data, bids, bids.data, mem, mem.virtualPages
    {
      ExchangeSpec.Book(symbol, asks.Contents(), bids.Contents(), mem.Table(), trades)
    }

    /** The book with the memory and the statistics it works on. */
    ghost predicate AtDesk(mm: MemoryManager, stats: SimStats)
      reads this, asks, bids, mem, mm, mm.freeBitmap, mm.owner, mm.nodes
    {
      Valid() && mm.Valid()
    }

    ghost function Desk(mm: MemoryManager, stats: SimStats): ExchangeSpec.Desk
      requires AtDesk(mm, stats)
      reads this, asks, asks.data, bids, bids.data, mem, mem.virtualPages
      reads mm, mm.freeBitmap, mm.owner, mm.nodes, stats
    {
      ExchangeSpec.Desk(View(), mm.View(), stats.View())
    }

    constructor (symbol: string)
      ensures Valid() && fresh(Repr())
      ensures View() == ExchangeSpec.NewBook(symbol)
    {
      this.symbol := symbol;
      asks := new Heap(Ask, 10);
      bids := new Heap(Bid, 10);
      mem := new SymbolMemory();
      trades := 0;
    }

    method Rest(o: Order)
      requires Valid()
      modifies asks, asks.data, bids, bids.data
      ensures Valid() && fresh(Repr() - old(Repr()))
      ensures asks.data == old(asks.data) || fresh(asks.data)
      ensures bids.data == old(bids.data) || fresh(bids.data)
      ensures View() == ExchangeSpec.AddOrder(old(View()), o)
    {
      if o.side == Ask {
        asks.Push(o);
      } else {
        bids.Push(o);
      }
    }

    /** mem_aware_insert */
    method Insert(mm: MemoryManager, o: Order, symId: int, stats: SimStats) returns (accepted: bool)
      requires AtDesk(mm, stats)
      modifies asks, asks.data, bids, bids.data, this, mem, mem.virtualPages
      modifies mm, mm.freeBitmap, mm.owner, mm.nodes, stats
      ensures AtDesk(mm, stats) && fresh(Repr() - old(Repr()))
      ensures asks.data == old(asks.data) || fresh(asks.data)
      ensures bids.data == old(bids.data) || fresh(bids.data)
      ensures (Desk(mm, stats), accepted) == ExchangeSpec.Insert(old(Desk(mm, stats)), o, symId)
    {
      ghost var c := ChargeSlot(mm.View(), mem.Table(), symId);
      ghost var after := ExchangeSpec.Insert(Desk(mm, stats), o, symId).0;
      ExchangeSpec.InsertRestsOrRefuses(Desk(mm, stats), o, symId);
      var paged;
      paged, accepted := mem.Charge(mm, symId);
      stats.RecordInsert(symbol, o, c, paged, accepted, mm.overflow);
      assert View() == old(View()).(table := mem.Table());
      if accepted {
        Rest(o);
      }
      assert View() == after.book && mm.View() == after.mem && stats.View() == after.stats;
    }

    /** One root loses up to the given shares: it stays with what it has left, or goes. Each pop
        reads the clock, and trims nothing as the heap is shipped. */
    method FillRoot(h: Heap, shares: int, mm: MemoryManager)
      requires Valid() && mem.Backed(mm) && h in {asks, bids} && h.size > 0
      modifies h`size, h.data, mem, mm`frames, mm.freeBitmap, mm.owner, mm.nodes
      ensures Valid() && mem.Backed(mm)
      ensures h.Contents() == ExchangeSpec.FillRoot(h.side, old(h.Contents()), shares)
      ensures mm.View() == old(mm.View()) && mem.Table() == old(mem.Table())
    {
      var top := h.Peek();
      if top.amount > shares {
        h.Update(top.amount - shares);
      } else {
        var now: int := *;
        var _ := h.Pop(now, mem, mm);
      }
    }

    /** The three kinds of trade between the two roots. */
    method Trade(mm: MemoryManager, stats: SimStats)
      requires AtDesk(mm, stats) && asks.size > 0 && bids.size > 0
      modifies asks`size, asks.data, bids`size, bids.data, mem, mm`frames, mm.freeBitmap, mm.owner, mm.nodes
      modifies stats`totalTrades, stats`totalWrites, stats`log
      ensures AtDesk(mm, stats) && mm.View() == old(mm.View())
      ensures var (bid, ask) := (old(bids.Contents())[0], old(asks.Contents())[0]);
              && View() == old(View()).(bids := ExchangeSpec.FillRoot(Bid, old(bids.Contents()), ask.amount),
                                        asks := ExchangeSpec.FillRoot(Ask, old(asks.Contents()), bid.amount))
              && stats.View() == ExchangeSpec.Recorded(old(stats.View()), symbol, bid, ask)
    {
      var bid := bids.Peek();
      var ask := asks.Peek();
      FillRoot(bids, ask.amount, mm);
      FillRoot(asks, bid.amount, mm);
      stats.RecordTrade(symbol, bid, ask);
    }

    /** check_for_trade_multi */
    method CheckForTrade(mm: MemoryManager, stats: SimStats) returns (traded: bool)
      requires AtDesk(mm, stats)
      modifies asks`size, asks.data, bids`size, bids.data, mem, mm`frames, mm.freeBitmap, mm.owner, mm.nodes, stats
      ensures AtDesk(mm, stats) && Repr() == old(Repr()) && mm.View() == old(mm.View())
      ensures (View(), stats.View(), traded) == ExchangeSpec.MatchBook(old(View()), old(stats.View()))
    {
      if asks.size == 0 || bids.size == 0 {
        return false;
      }
      var cross := RootsCross(stats);
      if !cross {
        return false;
      }
      ExchangeSpec.TradeChangesBothRoots(old(View()), old(stats.View()));
      Trade(mm, stats);
      return true;
    }

    /** Both roots are read: does the bid reach the ask? */
    method RootsCross(stats: SimStats) returns (cross: bool)
      requires Valid() && asks.size > 0 && bids.size > 0
      modifies stats`totalReads
      ensures cross == (bids.Contents()[0].price >= asks.Contents()[0].price)
      ensures stats.totalReads == old(stats.totalReads) + 2
    {
      var bid := bids.Peek();
      var ask := asks.Peek();
      stats.totalReads := stats.totalReads + 2;
      return bid.price >= ask.price;
    }

    /** One turn of the drain loop after a trade: count it, then clean up. */
    method Settle(mm: MemoryManager, stats: SimStats)
      requires AtDesk(mm, stats)
      modifies this`trades, mem, mm, mm.freeBitmap, mm.owner, mm.nodes, stats`log
      ensures AtDesk(mm, stats) && Repr() == old(Repr())
      ensures Desk(mm, stats) == ExchangeSpec.Settle(old(Desk(mm, stats)))
    {
      ghost var after := ExchangeSpec.Settle(Desk(mm, stats));
      trades := trades + 1;
      stats.RecordRelease(symbol, mem.nodesInCurrPage > 0);
      mem.PostTradeCleanup(mm);
      assert View() == after.book && mm.View() == after.mem && stats.View() == after.stats;
    }

    /** What the simulator does with one order: insert it and, if it was accepted, drain. */
    method Receive(mm: MemoryManager, o: Order, symId: int, stats: SimStats)
      requires AtDesk(mm, stats)
      modifies asks, asks.data, bids, bids.data, this, mem, mem.virtualPages
      modifies mm, mm.freeBitmap, mm.owner, mm.nodes, stats
      ensures AtDesk(mm, stats) && fresh(Repr() - old(Repr()))
      ensures Desk(mm, stats) == ExchangeSpec.Receive(old(Desk(mm, stats)), o, symId)
    {
      ghost var before := Desk(mm, stats);
      var accepted := Insert(mm, o, symId, stats);
      if accepted {
        Drain(mm, stats);
      }
      assert Desk(mm, stats) == ExchangeSpec.Receive(before, o, symId);
    }

    /** The drain loop. */
    method Drain(mm: MemoryManager, stats: SimStats)
      requires AtDesk(mm, stats)
      modifies asks`size, asks.data, bids`size, bids.data, this`trades, mem
      modifies mm, mm.freeBitmap, mm.owner, mm.nodes, stats
      ensures AtDesk(mm, stats) && Repr() == old(Repr())
      ensures Desk(mm, stats) == ExchangeSpec.Drain(old(Desk(mm, stats)))
    {
      ghost var drained := ExchangeSpec.Drain(Desk(mm, stats));
      var traded := true;
      while traded
        invariant AtDesk(mm, stats) && Repr() == old(Repr())
        invariant drained == if traded then ExchangeSpec.Drain(Desk(mm, stats)) else Desk(mm, stats)
        decreases traded, asks.size + bids.size
      {
        ghost var d := Desk(mm, stats);
        ExchangeSpec.DrainTurns(d);
        traded := CheckForTrade(mm, stats);
        assert (Desk(mm, stats), traded) == ExchangeSpec.MatchOnce(d);
        if traded {
          Settle(mm, stats);
        }
      }
    }
  }
}
