/** The page allocator of sw_sim/mmu.h, with its bitmap of four 64-bit words. */
module Memories {
  import opened Orders
  import opened MemorySpec
  import opened ExchangeSpec
  import opened Bitmaps

  const BITMAP_WORDS := 4
  const WORD_BITS := 64

  lemma SameWordSameFrame(k: nat, f: nat)
    ensures k / 64 == f / 64 && k % 64 == f % 64 <==> k == f
  {
  }

  /** A word with bit b set or cleared. */
  method WithBit(w: nat, b: nat, free: bool) returns (r: nat)
    requires w <= AllOnes(WORD_BITS) && b < WORD_BITS
    ensures r <= AllOnes(WORD_BITS)
    ensures forall k: nat :: Bit(r, k) == if k == b then free else Bit(w, k)
  {
    WordStaysInRange(w, b, WORD_BITS);
    forall k: nat
      ensures Bit(SetBit(w, b), k) == (k == b || Bit(w, k))
      ensures Bit(ClearBit(w, b), k) == (k != b && Bit(w, k))
    {
      SetChangesOneBit(w, b, k);
      ClearChangesOneBit(w, b, k);
    }
    r := if free then SetBit(w, b) else ClearBit(w, b);
  }

  class SimStats {
    var totalTrades: int
    var totalReads: int
    var totalWrites: int
    var overflowAccesses: int
    var overflowMax: int
    ghost var log: seq<Event>

    ghost function View(): Stats
      reads this
    {
      Stats(totalTrades, totalReads, totalWrites, overflowAccesses, overflowMax, log)
    }

    constructor ()
      ensures View() == Stats(0, 0, 0, 0, 0, [])
    {
      totalTrades, totalReads, totalWrites, overflowAccesses, overflowMax := 0, 0, 0, 0, 0;
      log := [];
    }

    /** The counters that mem_aware_insert keeps for an order charged as c. */
    method RecordInsert(symbol: string, o: Order, ghost c: Charge, paged: bool, accepted: bool, inUse: int)
      requires paged == c.InPage? && accepted == !c.Refused? && (c.InOverflow? ==> inUse == c.mem.overflow)
      modifies this
      ensures View() == Charged(old(View()), symbol, o, c)
    {
      if accepted {
        totalWrites := totalWrites + 1;
        log := log + [Accepted(symbol, o, !paged)];
        if !paged {
          overflowAccesses := overflowAccesses + 1;
          if inUse > overflowMax {
            overflowMax := inUse;
          }
        }
      } else {
        log := log + [Rejected(symbol, o)];
      }
    }

    method RecordTrade(symbol: string, bid: Order, ask: Order)
      modifies this`totalTrades, this`totalWrites, this`log
      ensures View() == Recorded(old(View()), symbol, bid, ask)
    {
      totalTrades := totalTrades + 1;
      if bid.amount != ask.amount {
        totalWrites := totalWrites + 1;
      }
      log := log + [Traded(symbol, bid, ask)];
    }

    /** History only: a trade that finds no slot to give back. */
    method RecordRelease(symbol: string, released: bool)
      modifies this`log
      ensures View() == if released then old(View()) else old(View()).Log(NothingReleased(symbol))
    {
      if !released {
        log := log + [NothingReleased(symbol)];
      }
    }
  }

  class MemoryManager {
    const freeBitmap: array<nat>
    const owner: array<int>
    const nodes: array<int>
    var overflow: int
    var hardRejects: int
    ghost var frames: FrameTable

    ghost predicate Valid()
      reads this, freeBitmap, owner, nodes
    {
      && freeBitmap.Length == BITMAP_WORDS && owner.Length == MAX_PAGES && nodes.Length == MAX_PAGES
      && owner != nodes
      && (forall w :: 0 <= w < BITMAP_WORDS ==> freeBitmap[w] <= AllOnes(WORD_BITS))
      && (forall f :: 0 <= f < MAX_PAGES ==> FrameIs(f, frames[f]))
    }

    /** What the bitmap and the two tables say about frame f. */
    ghost predicate FrameIs(f: int, frame: Frame)
      requires freeBitmap.Length == BITMAP_WORDS && owner.Length == MAX_PAGES && nodes.Length == MAX_PAGES
      requires 0 <= f < MAX_PAGES
      reads freeBitmap, owner, nodes
    {
      frame == Frame(Bit(freeBitmap[f / 64], f % 64), owner[f], nodes[f])
    }

    ghost function View(): Memory
      reads this
    {
      Memory(frames, overflow, hardRejects)
    }

    ghost function Repr(): set<object>
    {
      {this, freeBitmap, owner, nodes}
    }

    constructor ()
      ensures Valid() && fresh(Repr())
      ensures View() == EmptyMemory()
    {
      freeBitmap := new nat[BITMAP_WORDS](_ => AllOnes(WORD_BITS));
      owner := new int[MAX_PAGES](_ => -1);
      nodes := new int[MAX_PAGES](_ => 0);
      overflow, hardRejects := 0, 0;
      frames := EmptyMemory().frames;
      new;
      forall f | 0 <= f < MAX_PAGES
        ensures FrameIs(f, frames[f])
      {
        AllOnesIsFull(WORD_BITS, f % 64);
      }
    }

    /** The lowest free frame, marked as used and empty; -1 when there is none. */
    method AllocateFrame(symId: int) returns (f: int)
      requires Valid()
      modifies this`frames, freeBitmap, owner, nodes
      ensures Valid()
      ensures var first := FirstFree(old(frames), 0);
              if first == MAX_PAGES then f == -1 && frames == old(frames)
              else f == first && frames == old(frames)[f := Frame(false, symId, 0)]
    {
      for i := 0 to MAX_PAGES
        invariant Valid() && frames == old(frames)
        invariant forall k :: 0 <= k < i ==> !frames[k].free
      {
        assert FrameIs(i, frames[i]);
        if Bit(freeBitmap[i / 64], i % 64) {
          assert FirstFree(frames, 0) == i;
          Assign(i, false, symId);
          return i;
        }
      }
      return -1;
    }

    /** free_frame, given the frame its page translates to. */
    method FreeFrame(f: int)
      requires Valid() && 0 <= f < MAX_PAGES
      modifies this`frames, freeBitmap, owner, nodes
      ensures Valid()
      ensures frames == old(frames)[f := FREE_FRAME]
    {
      Assign(f, true, -1);
    }

    /** f's bit is set or cleared. */
    method WriteBit(f: int, free: bool)
      requires Valid() && 0 <= f < MAX_PAGES
      modifies freeBitmap
      ensures forall w :: 0 <= w < BITMAP_WORDS ==> freeBitmap[w] <= AllOnes(WORD_BITS)
      ensures forall k :: 0 <= k < MAX_PAGES ==>
                Bit(freeBitmap[k / 64], k % 64) == if k == f then free else old(Bit(freeBitmap[k / 64], k % 64))
    {
      var before := freeBitmap[f / 64];
      var word := WithBit(before, f % 64, free);
      freeBitmap[f / 64] := word;
      forall k | 0 <= k < MAX_PAGES
        ensures Bit(freeBitmap[k / 64], k % 64) == if k == f then free else old(Bit(freeBitmap[k / 64], k % 64))
      {
        SameWordSameFrame(k, f);
      }
    }

    /** f's bit is set or cleared, and f gets a new owner and no nodes. */
    method Assign(f: int, free: bool, symId: int)
      requires Valid() && 0 <= f < MAX_PAGES
      modifies this`frames, freeBitmap, owner, nodes
      ensures Valid()
      ensures frames == old(frames)[f := Frame(free, symId, 0)]
    {
      WriteBit(f, free);
      owner[f] := symId;
      nodes[f] := 0;
      frames := frames[f := Frame(free, symId, 0)];
      forall k | 0 <= k < MAX_PAGES
        ensures FrameIs(k, frames[k])
      {
        assert old(FrameIs(k, frames[k]));
      }
    }

    /** The node count of a frame changes. */
    method SetNodes(f: int, count: int)
      requires Valid() && 0 <= f < MAX_PAGES
      modifies this`frames, nodes
      ensures Valid()
      ensures frames == old(frames)[f := old(frames)[f].(nodes := count)]
    {
      nodes[f] := count;
      frames := frames[f := frames[f].(nodes := count)];
      forall k | 0 <= k < MAX_PAGES
        ensures FrameIs(k, frames[k])
      {
        assert old(FrameIs(k, frames[k]));
      }
    }

    /** node_count++ or node_count--, with the count that results. */
    method AddNodes(f: int, delta: int) returns (count: int)
      requires Valid() && 0 <= f < MAX_PAGES
      modifies this`frames, nodes
      ensures Valid() && count == old(frames)[f].nodes + delta
      ensures frames == old(frames)[f := old(frames)[f].(nodes := count)]
    {
      assert FrameIs(f, frames[f]);
      count := nodes[f] + delta;
      SetNodes(f, count);
    }

    method SetOverflow(count: int)
      requires Valid()
      modifies this`overflow
      ensures Valid() && View() == old(View()).(overflow := count)
    {
      overflow := count;
    }

    method CountReject()
      requires Valid()
      modifies this`hardRejects
      ensures Valid() && View() == old(View()).(hardRejects := old(hardRejects) + 1)
    {
      hardRejects := hardRejects + 1;
    }
  }
}
