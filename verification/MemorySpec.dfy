/** Frames, page tables and the charging of orders to pages (sw_sim/mmu.h) as functions. */
module MemorySpec {
  import opened Sums

  const PAGE_SIZE := 64
  const MAX_PAGES := 256
  const MAX_PAGES_PER_SYMBOL := 128
  const OVERFLOW_PAGE_SIZE := 8

  // A frame together with its bit of the free bitmap.
  datatype Frame = Frame(free: bool, owner: int, nodes: int)

  const FREE_FRAME := Frame(true, -1, 0)

  type FrameIndex = f: int | 0 <= f < MAX_PAGES
  type FrameTable = s: seq<Frame> | |s| == MAX_PAGES witness seq(MAX_PAGES, _ => FREE_FRAME)

  datatype Memory = Memory(frames: FrameTable, overflow: int, hardRejects: int)

  // The entries of virtual_pages below page_count, and nodes_in_curr_page.
  datatype PageTable = PageTable(pages: seq<FrameIndex>, inCurr: int)

  function EmptyMemory(): Memory {
    Memory(seq(MAX_PAGES, _ => FREE_FRAME), 0, 0)
  }

  /** The lowest free frame at or above from; MAX_PAGES when there is none. */
  function FirstFree(frames: FrameTable, from: nat): (f: int)
    requires from <= MAX_PAGES
    ensures from <= f <= MAX_PAGES
    ensures f < MAX_PAGES ==> frames[f].free
    ensures forall k :: from <= k < f ==> !frames[k].free
    decreases MAX_PAGES - from
  {
    if from == MAX_PAGES || frames[from].free then from else FirstFree(frames, from + 1)
  }

  /** How an insert is charged: to the page in use, to a fresh page, to the shared overflow
      page, or not at all. */
  datatype Charge = InPage(mem: Memory, table: PageTable)
                  | InOverflow(mem: Memory)
                  | Refused(mem: Memory)

  function ChargeSlot(m: Memory, t: PageTable, symId: int): Charge {
    if t.pages != [] && t.inCurr < PAGE_SIZE then
      var f := t.pages[|t.pages| - 1];
      InPage(m.(frames := m.frames[f := m.frames[f].(nodes := m.frames[f].nodes + 1)]),
             t.(inCurr := t.inCurr + 1))
    else
      var f := FirstFree(m.frames, 0);
      if |t.pages| < MAX_PAGES_PER_SYMBOL && f < MAX_PAGES then
        InPage(m.(frames := m.frames[f := Frame(false, symId, 1)]), PageTable(t.pages + [f], 1))
      else if m.overflow < OVERFLOW_PAGE_SIZE then
        InOverflow(m.(overflow := m.overflow + 1))
      else
        Refused(m.(hardRejects := m.hardRejects + 1))
  }

  /** free_node_memory: one slot of the book's last page is given back. */
  function ReleaseSlot(m: Memory, t: PageTable): (Memory, PageTable) {
    if t.inCurr <= 0 then (m, t)
    else if t.pages == [] then (m, t.(inCurr := t.inCurr - 1))
    else
      var last := |t.pages| - 1;
      var f := t.pages[last];
      var left := m.frames[f].nodes - 1;
      if left == 0 then
        (m.(frames := m.frames[f := FREE_FRAME]),
         PageTable(t.pages[..last], if last > 0 then PAGE_SIZE else 0))
      else
        (m.(frames := m.frames[f := m.frames[f].(nodes := left)]), t.(inCurr := t.inCurr - 1))
  }

  /** post_trade_cleanup: the overflow count drops whoever used it, and the book gives back a slot. */
  function CleanUp(m: Memory, t: PageTable): (Memory, PageTable) {
    ReleaseSlot(if m.overflow > 0 then m.(overflow := m.overflow - 1) else m, t)
  }

  // ---------- shape of one book's pages ----------

  ghost predicate TableShape(t: PageTable) {
    && (t.pages == [] <==> t.inCurr == 0)
    && 0 <= t.inCurr <= PAGE_SIZE
    && |t.pages| <= MAX_PAGES_PER_SYMBOL
  }

  /** The slots charged to a book. */
  function Slots(t: PageTable): int {
    if t.pages == [] then 0 else PAGE_SIZE * (|t.pages| - 1) + t.inCurr
  }

  function NodesAt(t: PageTable, p: nat): int {
    if p == |t.pages| - 1 then t.inCurr else PAGE_SIZE
  }

  /** The frames of book b are exactly those owned by b, once each, and count its nodes. */
  ghost predicate BookFrames(frames: FrameTable, t: PageTable, b: int) {
    && TableShape(t)
    && (forall p :: 0 <= p < |t.pages| ==> frames[t.pages[p]] == Frame(false, b, NodesAt(t, p)))
    && (forall p, q :: 0 <= p < q < |t.pages| ==> t.pages[p] != t.pages[q])
    && (forall f :: 0 <= f < MAX_PAGES && frames[f].owner == b ==> f in t.pages)
  }

  /** Free frames carry no owner and no nodes; the others have an owner. */
  ghost predicate FramesClean(frames: FrameTable) {
    forall f :: 0 <= f < MAX_PAGES ==>
      if frames[f].free then frames[f] == FREE_FRAME else frames[f].owner >= 0
  }

  /** Only frames that are free or owned by b differ, before and after. */
  ghost predicate OnlyTouches(before: FrameTable, after: FrameTable, b: int) {
    forall f :: 0 <= f < MAX_PAGES && before[f] != after[f] ==>
      before[f].owner in {-1, b} && after[f].owner in {-1, b}
  }

  function FreeBit(f: Frame): int {
    if f.free then 1 else 0
  }

  ghost predicate MemoryValid(m: Memory) {
    FramesClean(m.frames) && 0 <= m.overflow <= OVERFLOW_PAGE_SIZE
  }

  /** What every step of book b does to memory: it keeps the invariants, touches only its own
      and free frames, and turns free frames into pages one for one. */
  ghost predicate MemoryStep(m: Memory, t: PageTable, m': Memory, t': PageTable, b: int) {
    && MemoryValid(m') && BookFrames(m'.frames, t', b)
    && OnlyTouches(m.frames, m'.frames, b)
    && SumBy(FreeBit, m'.frames) + |t'.pages| == SumBy(FreeBit, m.frames) + |t.pages|
  }

  lemma MemoryStepTransitive(m: Memory, t: PageTable, m': Memory, t': PageTable, m'': Memory, t'': PageTable, b: int)
    requires MemoryStep(m, t, m', t', b) && MemoryStep(m', t', m'', t'', b)
    ensures MemoryStep(m, t, m'', t'', b)
  {
    forall f | 0 <= f < MAX_PAGES && m.frames[f] != m''.frames[f]
      ensures m.frames[f].owner in {-1, b} && m''.frames[f].owner in {-1, b}
    {
      if m.frames[f] == m'.frames[f] {
        assert m'.frames[f] != m''.frames[f];
      }
    }
  }

  lemma ChargeWithinPage(m: Memory, t: PageTable, b: int)
    requires b >= 0 && MemoryValid(m) && BookFrames(m.frames, t, b) && 0 < t.inCurr < PAGE_SIZE
    ensures var f := t.pages[|t.pages| - 1];
            var m' := m.(frames := m.frames[f := m.frames[f].(nodes := m.frames[f].nodes + 1)]);
            MemoryStep(m, t, m', t.(inCurr := t.inCurr + 1), b)
  {
    var f := t.pages[|t.pages| - 1];
    SumUpdate(FreeBit, m.frames, f, m.frames[f].(nodes := m.frames[f].nodes + 1));
  }

  lemma ChargeNewPage(m: Memory, t: PageTable, b: int, f: FrameIndex)
    requires b >= 0 && MemoryValid(m) && BookFrames(m.frames, t, b)
    requires t.inCurr in {0, PAGE_SIZE} && |t.pages| < MAX_PAGES_PER_SYMBOL && m.frames[f].free
    ensures var m' := m.(frames := m.frames[f := Frame(false, b, 1)]);
            MemoryStep(m, t, m', PageTable(t.pages + [f], 1), b)
  {
    var t' := PageTable(t.pages + [f], 1);
    SumUpdate(FreeBit, m.frames, f, Frame(false, b, 1));
    assert f !in t.pages;
    assert t'.pages[|t.pages|] == f;
  }

  /** A refusal leaves frames and overflow alone; an acceptance charges one slot, or none when
      it goes to the overflow page. */
  lemma ChargeKeepsMemory(m: Memory, t: PageTable, b: int)
    requires b >= 0 && MemoryValid(m) && BookFrames(m.frames, t, b)
    ensures match ChargeSlot(m, t, b)
            case InPage(m', t') => MemoryStep(m, t, m', t', b) && Slots(t') == Slots(t) + 1
            case InOverflow(m') => MemoryStep(m, t, m', t, b) && m'.frames == m.frames
            case Refused(m') => MemoryStep(m, t, m', t, b) && m' == m.(hardRejects := m'.hardRejects)
  {
    if t.pages != [] && t.inCurr < PAGE_SIZE {
      ChargeWithinPage(m, t, b);
    } else if |t.pages| < MAX_PAGES_PER_SYMBOL && FirstFree(m.frames, 0) < MAX_PAGES {
      ChargeNewPage(m, t, b, FirstFree(m.frames, 0));
    }
  }

  lemma ReleaseWithinPage(m: Memory, t: PageTable, b: int)
    requires b >= 0 && MemoryValid(m) && BookFrames(m.frames, t, b) && t.inCurr > 1
    ensures var (m', t') := ReleaseSlot(m, t);
            MemoryStep(m, t, m', t', b) && Slots(t') == Slots(t) - 1
  {
    var f := t.pages[|t.pages| - 1];
    var fr := m.frames[f].(nodes := t.inCurr - 1);
    assert ReleaseSlot(m, t) == (m.(frames := m.frames[f := fr]), t.(inCurr := t.inCurr - 1));
    SumUpdate(FreeBit, m.frames, f, fr);
  }

  lemma LastPageFreed(frames: FrameTable, t: PageTable, b: int)
    requires b >= 0 && BookFrames(frames, t, b) && t.pages != []
    ensures var last := |t.pages| - 1;
            BookFrames(frames[t.pages[last] := FREE_FRAME],
                       PageTable(t.pages[..last], if last > 0 then PAGE_SIZE else 0), b)
  {
    var last := |t.pages| - 1;
    var f := t.pages[last];
    var frames' := frames[f := FREE_FRAME];
    forall g | 0 <= g < MAX_PAGES && frames'[g].owner == b
      ensures g in t.pages[..last]
    {
      assert g != f && g in t.pages;
      assert t.pages == t.pages[..last] + [f];
    }
  }

  lemma ReleaseLastOfPage(m: Memory, t: PageTable, b: int)
    requires b >= 0 && MemoryValid(m) && BookFrames(m.frames, t, b) && t.inCurr == 1
    ensures var (m', t') := ReleaseSlot(m, t);
            MemoryStep(m, t, m', t', b) && Slots(t') == Slots(t) - 1
  {
    var last := |t.pages| - 1;
    var f := t.pages[last];
    LastPageFreed(m.frames, t, b);
    SumUpdate(FreeBit, m.frames, f, FREE_FRAME);
    assert ReleaseSlot(m, t) == (m.(frames := m.frames[f := FREE_FRAME]),
                                 PageTable(t.pages[..last], if last > 0 then PAGE_SIZE else 0));
  }

  /** One slot of the book is given back, unless it has none. */
  lemma ReleaseKeepsMemory(m: Memory, t: PageTable, b: int)
    requires b >= 0 && MemoryValid(m) && BookFrames(m.frames, t, b)
    ensures var (m', t') := ReleaseSlot(m, t);
            && MemoryStep(m, t, m', t', b)
            && Slots(t') == (if Slots(t) > 0 then Slots(t) - 1 else 0)
  {
    if t.inCurr == 1 {
      ReleaseLastOfPage(m, t, b);
    } else if t.inCurr > 1 {
      ReleaseWithinPage(m, t, b);
    }
  }

  /** So too for a trade, which also lowers the overflow count. */
  lemma CleanUpKeepsMemory(m: Memory, t: PageTable, b: int)
    requires b >= 0 && MemoryValid(m) && BookFrames(m.frames, t, b)
    ensures var (m', t') := CleanUp(m, t);
            && MemoryStep(m, t, m', t', b)
            && Slots(t') == (if Slots(t) > 0 then Slots(t) - 1 else 0)
            && m'.overflow == (if m.overflow > 0 then m.overflow - 1 else 0)
  {
    ReleaseKeepsMemory(if m.overflow > 0 then m.(overflow := m.overflow - 1) else m, t, b);
  }

  /** free_node_memory for each of n trimmed orders. */
  function ReleaseSlots(m: Memory, t: PageTable, n: nat): (Memory, PageTable)
    decreases n
  {
    if n == 0 then (m, t)
    else
      var (m', t') := ReleaseSlot(m, t);
      ReleaseSlots(m', t', n - 1)
  }

  lemma {:induction false} ReleasesSnoc(m: Memory, t: PageTable, n: nat)
    ensures var (m', t') := ReleaseSlots(m, t, n);
            ReleaseSlots(m, t, n + 1) == ReleaseSlot(m', t')
    decreases n
  {
    if n > 0 {
      ReleasesSnoc(ReleaseSlot(m, t).0, ReleaseSlot(m, t).1, n - 1);
    }
  }

  lemma {:induction false} ReleasesKeepMemory(m: Memory, t: PageTable, n: nat, b: int)
    requires b >= 0 && MemoryValid(m) && BookFrames(m.frames, t, b)
    ensures var (m', t') := ReleaseSlots(m, t, n);
            && MemoryStep(m, t, m', t', b)
            && Slots(t') == (if Slots(t) > n then Slots(t) - n else 0)
    decreases n
  {
    if n > 0 {
      var (m', t') := ReleaseSlot(m, t);
      ReleaseKeepsMemory(m, t, b);
      ReleasesKeepMemory(m', t', n - 1, b);
      var (m'', t'') := ReleaseSlots(m', t', n - 1);
      MemoryStepTransitive(m, t, m', t', m'', t'', b);
    }
  }

  /** Another book's frames survive a step that touches only b's and free ones. */
  lemma OtherBookUnharmed(before: FrameTable, after: FrameTable, b: int, other: PageTable, j: int)
    requires OnlyTouches(before, after, b) && j != b && j >= 0
    requires BookFrames(before, other, j)
    ensures BookFrames(after, other, j)
    ensures forall p :: 0 <= p < |other.pages| ==> after[other.pages[p]] == before[other.pages[p]]
  {
  }
}
