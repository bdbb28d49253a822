/** The array heap of sw_sim/heap.h, in place. */
module Heaps {
  import opened Orders
  import opened MemorySpec
  import opened Memories
  import opened SymbolMemories
  import HeapSpec

  lemma TrimmedSoFar(gone: seq<Order>, o: Order, rest: seq<Order>)
    ensures (gone + [o]) + rest == gone + ([o] + rest)
  {
  }

  class Heap {
    const side: Side
    var data: array<Order>
    var size: nat

    ghost predicate Valid()
      reads this
    {
      0 < data.Length && size <= data.Length
    }

    ghost function Contents(): (s: seq<Order>)
      requires Valid()
      reads this, data
      ensures |s| == size
    {
      data[..size]
    }

    constructor (side: Side, capacity: nat)
      requires capacity > 0
      ensures Valid() && fresh(data)
      ensures this.side == side && Contents() == []
    {
      this.side := side;
      data := new Order[capacity];
      size := 0;
    }

    method Swap(i: nat, j: nat)
      requires i < data.Length && j < data.Length
      modifies data
      ensures forall n :: i < n <= data.Length && j < n ==> data[..n] == HeapSpec.Swap(old(data[..n]), i, j)
      ensures forall k :: 0 <= k < data.Length && k != i && k != j ==> data[k] == old(data[k])
    {
      data[i], data[j] := data[j], data[i];
    }

    method SiftUp(i: nat)
      requires i < data.Length
      modifies data
      ensures data[..i + 1] == HeapSpec.SiftUp(side, old(data[..i + 1]), i)
      ensures forall k :: i < k < data.Length ==> data[k] == old(data[k])
    {
      var j: int := i;
      while j > 0
        invariant 0 <= j <= i
        invariant HeapSpec.SiftUp(side, data[..i + 1], j) == HeapSpec.SiftUp(side, old(data[..i + 1]), i)
        invariant forall k :: i < k < data.Length ==> data[k] == old(data[k])
      {
        var parent := (j - 1) / 2;
        if !Beats(side, data[j], data[parent]) {
          break;
        }
        Swap(j, parent);
        j := parent;
      }
    }

    /** The order in slot k makes room for the last one. */
    method Trim(k: nat) returns (o: Order)
      requires Valid() && k < size
      modifies this`size, data
      ensures Valid() && size == old(size) - 1
      ensures o == old(Contents())[k] && Contents() == HeapSpec.DropAt(old(Contents()), k)
    {
      o := data[k];
      size := size - 1;
      data[k] := data[size];
    }

    method BestOfThree(i: nat) returns (best: nat)
      requires Valid() && i < size
      ensures best == HeapSpec.BestOfThree(side, Contents(), i)
    {
      best := i;
      var left, right := 2 * i + 1, 2 * i + 2;
      if left < size && Beats(side, data[left], data[best]) {
        best := left;
      }
      if right < size && Beats(side, data[right], data[best]) {
        best := right;
      }
    }

    /** The next expired child of i, left before right, is trimmed and its slot given back. */
    method TrimChild(i: nat, now: int, trim: int, mem: SymbolMemory, mm: MemoryManager) returns (trimmed: seq<Order>)
      requires Valid() && mem.Backed(mm)
      modifies this`size, data, mem, mm`frames, mm.freeBitmap, mm.owner, mm.nodes
      ensures Valid() && mem.Backed(mm)
      ensures var k := HeapSpec.ExpiredChild(old(Contents()), i, now, trim);
              && trimmed == (if k == 0 then [] else [old(Contents())[k]])
              && Contents() == (if k == 0 then old(Contents()) else HeapSpec.DropAt(old(Contents()), k))
      ensures (mm.View(), mem.Table())
              == if trimmed == [] then (old(mm.View()), old(mem.Table())) else ReleaseSlot(old(mm.View()), old(mem.Table()))
    {
      var left, right := 2 * i + 1, 2 * i + 2;
      var k := if left < size && HeapSpec.Expired(data[left], now, trim) then left
               else if right < size && HeapSpec.Expired(data[right], now, trim) then right
               else 0;
      assert k == HeapSpec.ExpiredChild(Contents(), i, now, trim);
      if k == 0 {
        return [];
      }
      var o := Trim(k);
      mem.FreeNodeMemory(mm);
      return [o];
    }

    /** i changes places with the best of it and its children; no order of the book's memory moves. */
    method Descend(i: nat, ghost mem: SymbolMemory, ghost mm: MemoryManager) returns (best: nat)
      requires Valid() && i < size && mem.Backed(mm)
      modifies data
      ensures best == HeapSpec.BestOfThree(side, old(Contents()), i)
      ensures Contents() == if best == i then old(Contents()) else HeapSpec.Swap(old(Contents()), i, best)
      ensures mem.Backed(mm) && mm.View() == old(mm.View()) && mem.Table() == old(mem.Table())
    {
      best := BestOfThree(i);
      if best != i {
        Swap(i, best);
      }
    }

    /** Each order it trims gives back a slot of the book's memory. */
    method SiftDown(i: nat, now: int, trim: int, mem: SymbolMemory, mm: MemoryManager) returns (gone: seq<Order>)
      requires Valid() && mem.Backed(mm)
      modifies this`size, data, mem, mm`frames, mm.freeBitmap, mm.owner, mm.nodes
      ensures Valid() && mem.Backed(mm)
      ensures (Contents(), gone) == HeapSpec.SiftDown(side, old(Contents()), i, now, trim)
      ensures (mm.View(), mem.Table()) == ReleaseSlots(old(mm.View()), old(mem.Table()), |gone|)
    {
      gone := [];
      var j: int := i;
      ghost var all := HeapSpec.SiftDown(side, Contents(), i, now, trim);
      assert [] + all.1 == all.1;
      while j < size
        invariant Valid() && j >= 0 && mem.Backed(mm)
        invariant var r := HeapSpec.SiftDown(side, Contents(), j, now, trim);
                  r.0 == all.0 && gone + r.1 == all.1
        invariant (mm.View(), mem.Table()) == ReleaseSlots(old(mm.View()), old(mem.Table()), |gone|)
        decreases 2 * size - j
      {
        ghost var before := Contents();
        var trimmed := TrimChild(j, now, trim, mem, mm);
        if trimmed != [] {
          HeapSpec.TrimStep(side, before, j, now, trim);
          TrimmedSoFar(gone, trimmed[0], HeapSpec.SiftDown(side, Contents(), j, now, trim).1);
          ReleasesSnoc(old(mm.View()), old(mem.Table()), |gone|);
          gone := gone + trimmed;
        } else {
          HeapSpec.SiftStep(side, before, j, now, trim);
          var best := Descend(j, mem, mm);
          if best == j {
            break;
          }
          j := best;
        }
      }
      assert gone + [] == gone;
    }

    method Push(o: Order)
      requires Valid()
      modifies this, data
      ensures Valid() && (data == old(data) || fresh(data))
      ensures Contents() == HeapSpec.Push(side, old(Contents()), o)
    {
      if size == data.Length {
        var longer := new Order[2 * data.Length];
        forall k | 0 <= k < size {
          longer[k] := data[k];
        }
        assert longer[..size] == data[..size];
        data := longer;
      }
      data[size] := o;
      assert data[..size + 1] == old(Contents()) + [o];
      SiftUp(size);
      size := size + 1;
    }

    /** As shipped, whatever the clock reads, pop removes the root, trims nothing and so gives
        back no slot. */
    method Pop(now: int, mem: SymbolMemory, mm: MemoryManager) returns (top: Order)
      requires Valid() && size > 0 && mem.Backed(mm)
      modifies this`size, data, mem, mm`frames, mm.freeBitmap, mm.owner, mm.nodes
      ensures Valid() && mem.Backed(mm)
      ensures top == old(Contents())[0]
      ensures Contents() == HeapSpec.Pop(side, old(Contents()))
      ensures mm.View() == old(mm.View()) && mem.Table() == old(mem.Table())
    {
      top := data[0];
      size := size - 1;
      data[0] := data[size];
      assert Contents() == HeapSpec.DropAt(old(Contents()), 0);
      HeapSpec.SiftDownIgnoresClock(side, Contents(), 0, now);
      var gone := SiftDown(0, now, HeapSpec.TRIM_TIME, mem, mm);
      assert gone == [];
    }

    /** update: the root's amount changes where it stands. */
    method Update(amount: int)
      requires Valid() && size > 0
      modifies data
      ensures Contents() == HeapSpec.Update(old(Contents()), amount)
    {
      data[0] := data[0].(amount := amount);
    }

    method Peek() returns (top: Order)
      requires Valid() && size > 0
      ensures top == Contents()[0]
    {
      top := data[0];
    }
  }
}
