/** A symbol's page table on the objects of sw_sim/mmu.h: how an order is charged to a page and
    how a slot is given back. Each method leaves page table and memory as the function of
    MemorySpec says. */
module SymbolMemories {
  import opened MemorySpec
  import opened Memories

  class SymbolMemory {
    const virtualPages: array<FrameIndex>
    var pageCount: nat
    var nodesInCurrPage: int

    ghost function Repr(): set<object> {
      {this, virtualPages}
    }

    ghost predicate Valid()
      reads this
    {
      virtualPages.Length == MAX_PAGES_PER_SYMBOL && pageCount <= MAX_PAGES_PER_SYMBOL
    }

    ghost function Table(): PageTable
      requires Valid()
      reads this, virtualPages
    {
      PageTable(virtualPages[..pageCount], nodesInCurrPage)
    }

    /** The table with the memory it takes its frames from. */
    ghost predicate Backed(mm: MemoryManager)
      reads this, mm, mm.freeBitmap, mm.owner, mm.nodes
    {
      Valid() && mm.Valid()
    }

    constructor ()
      ensures Valid() && fresh(Repr())
      ensures Table() == PageTable([], 0)
    {
      virtualPages := new FrameIndex[MAX_PAGES_PER_SYMBOL];
      pageCount, nodesInCurrPage := 0, 0;
    }

    method Translate(page: nat) returns (f: int)
      requires Valid()
      ensures f == if page < pageCount then Table().pages[page] else -1
    {
      if page < pageCount {
        return virtualPages[page];
      }
      return -1;
    }

    method AddPage(frame: FrameIndex)
      requires Valid() && pageCount < MAX_PAGES_PER_SYMBOL
      modifies this, virtualPages
      ensures Valid()
      ensures Table() == PageTable(old(Table()).pages + [frame], 1)
    {
      ghost var before := Table().pages;
      virtualPages[pageCount] := frame;
      pageCount := pageCount + 1;
      nodesInCurrPage := 1;
      assert Table().pages == before + [frame];
    }

    /** A fresh page for the book, with one node; false when there is no frame for it. */
    method OpenPage(mm: MemoryManager, symId: int) returns (found: bool)
      requires Backed(mm) && pageCount < MAX_PAGES_PER_SYMBOL
      modifies this, virtualPages, mm`frames, mm.freeBitmap, mm.owner, mm.nodes
      ensures Backed(mm)
      ensures var f := FirstFree(old(mm.frames), 0);
              && found == (f < MAX_PAGES)
              && mm.frames == (if found then old(mm.frames)[f := Frame(false, symId, 1)] else old(mm.frames))
              && Table() == (if found then PageTable(old(Table()).pages + [f], 1) else old(Table()))
    {
      var frame := mm.AllocateFrame(symId);
      ghost var before := Table().pages;
      found := frame >= 0;
      if found {
        AddPage(frame);
        mm.SetNodes(frame, 1);
        assert mm.frames == old(mm.frames)[frame := Frame(false, symId, 1)];
        assert Table() == PageTable(before + [frame], 1);
      }
    }

    /** One more node in the book's last page. */
    method ChargeLastPage(mm: MemoryManager)
      requires Backed(mm) && pageCount > 0
      modifies this`nodesInCurrPage, mm`frames, mm.nodes
      ensures Backed(mm)
      ensures var f := old(Table()).pages[pageCount - 1];
              && mm.frames == old(mm.frames)[f := old(mm.frames)[f].(nodes := old(mm.frames)[f].nodes + 1)]
              && Table() == old(Table()).(inCurr := old(nodesInCurrPage) + 1)
    {
      var frame := Translate(pageCount - 1);
      if frame < 0 {
        assert false;  // the order would be lost here, uncounted
      }
      nodesInCurrPage := nodesInCurrPage + 1;
      var _ := mm.AddNodes(frame, 1);
    }

    /** The charge of an order to a page: the one in use, or else a new one. */
    method ChargePage(mm: MemoryManager, symId: int) returns (charged: bool)
      requires Backed(mm)
      modifies this, virtualPages, mm`frames, mm.freeBitmap, mm.owner, mm.nodes
      ensures Backed(mm)
      ensures charged <==> ChargeSlot(old(mm.View()), old(Table()), symId).InPage?
      ensures charged ==> ChargeSlot(old(mm.View()), old(Table()), symId) == InPage(mm.View(), Table())
      ensures !charged ==> mm.View() == old(mm.View()) && Table() == old(Table())
    {
      charged := true;
      ghost var c := ChargeSlot(mm.View(), Table(), symId);
      if pageCount > 0 && nodesInCurrPage < PAGE_SIZE {
        assert c.InPage?;
        ChargeLastPage(mm);
      } else if pageCount < MAX_PAGES_PER_SYMBOL {
        assert c.InPage? <==> FirstFree(mm.frames, 0) < MAX_PAGES;
        charged := OpenPage(mm, symId);
      } else {
        charged := false;
      }
    }

    /** Where mem_aware_insert charges an order: to a page, to the shared overflow page, or nowhere. */
    method Charge(mm: MemoryManager, symId: int) returns (paged: bool, accepted: bool)
      requires Backed(mm)
      modifies this, virtualPages, mm, mm.freeBitmap, mm.owner, mm.nodes
      ensures Backed(mm)
      ensures var c := ChargeSlot(old(mm.View()), old(Table()), symId);
              && paged == c.InPage? && accepted == !c.Refused?
              && mm.View() == c.mem
              && Table() == if paged then c.table else old(Table())
    {
      paged := ChargePage(mm, symId);
      accepted := paged || mm.overflow < OVERFLOW_PAGE_SIZE;
      if !paged {
        if accepted {
          mm.SetOverflow(mm.overflow + 1);
        } else {
          mm.CountReject();
        }
      }
    }

    /** The book's last page becomes free. */
    method FreeLastPage(mm: MemoryManager)
      requires Backed(mm) && pageCount > 0
      modifies this, mm`frames, mm.freeBitmap, mm.owner, mm.nodes
      ensures Backed(mm)
      ensures var last := old(pageCount) - 1;
              && mm.frames == old(mm.frames)[old(Table()).pages[last] := FREE_FRAME]
              && Table() == PageTable(old(Table()).pages[..last], if last > 0 then PAGE_SIZE else 0)
    {
      var frame := Translate(pageCount - 1);
      mm.FreeFrame(frame);
      pageCount := pageCount - 1;
      nodesInCurrPage := if pageCount > 0 then PAGE_SIZE else 0;
    }

    /** free_node_memory, which post_trade_cleanup repeats. */
    method FreeNodeMemory(mm: MemoryManager)
      requires Backed(mm)
      modifies this, mm`frames, mm.freeBitmap, mm.owner, mm.nodes
      ensures Backed(mm)
      ensures (mm.View(), Table()) == ReleaseSlot(old(mm.View()), old(Table()))
    {
      if nodesInCurrPage > 0 {
        nodesInCurrPage := nodesInCurrPage - 1;
        if pageCount > 0 {
          var frame := Translate(pageCount - 1);
          var count := mm.AddNodes(frame, -1);
          if count == 0 {
            FreeLastPage(mm);
            assert mm.frames == old(mm.frames)[frame := FREE_FRAME];
          }
        }
      }
    }

    /** post_trade_cleanup */
    method PostTradeCleanup(mm: MemoryManager)
      requires Backed(mm)
      modifies this, mm, mm.freeBitmap, mm.owner, mm.nodes
      ensures Backed(mm)
      ensures (mm.View(), Table()) == CleanUp(old(mm.View()), old(Table()))
    {
      if mm.overflow > 0 {
        mm.SetOverflow(mm.overflow - 1);
      }
      FreeNodeMemory(mm);
    }
  }
}
