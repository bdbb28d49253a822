# Order books on virtualized pages, and DDR3 window centring

This project models and proves two parts of the repository.

**The exchange simulator** (`sw_sim/`). Every symbol has a heap of bids and a heap of asks. Each
order is charged to a page of its book, to the overflow page that all books share, or refused;
after an accepted order the book trades until its roots no longer cross. The project has three
layers:

- functions: `HeapSpec` (the array heaps), `MemorySpec` (frames and page tables) and
  `ExchangeSpec` (insert, match, clean up, drain, and whole runs: `Process`, `Run`);
- laws of those functions: `DeskLaws` for one book and `ExchangeLaws` for every reachable state;
  `Reference` and `Refinement` for the comparison with a price-time engine on bags of orders that
  knows no heaps and no pages; `Arrivals` for who trades first; `History` and `Capacity` for the
  counters and for what they say about places and orders; `Cases` and `Crowding` for runs followed
  to their end;
- objects: `Heaps`, `Memories` (the bitmap in four words, over `Bitmaps`), `SymbolMemories` (a
  book's page table), `OrderBooks` and `Simulators` update arrays and fields in place as the C code
  does. Every method leaves the state its function says, so the laws are laws of the objects;
  `Simulators.RunSimulator` says so for the order loop.

**The calibration sequencer** (`sequencer.pre.c`). `Windows` and `Deskews` are the two-direction
sweeps that find each bit's passing window, `Centring` (with the arithmetic in `TapMath`) places
DQ taps and DQS and decides success, `DmSearch` is the data-mask search with its early exit, and
`DqsEnable` splits the DQS-enable centre into phase and delay taps.

`Orders` holds orders and comparators, `Sums` the sums over sequences.

## What is assumed

- Amounts are 1 to 32767, prices fit in `short`, timestamps in `uint32_t` (`Orders.ValidOrder`).
  A timestamp is an opaque key. Symbols are already cut to three characters.
- Only the comparison with the reference engine assumes distinct (price, timestamp) keys per
  symbol and side, and only oldest-first that timestamps ascend. All other laws hold without.
- A hardware test is a fixed function of bit and skew, the DQS delay beyond its start less the DQ
  delay; for the per-bit windows its passing skews are an interval. The data mask's test is any
  fixed function of the DQ taps, the DQS tap and the DM tap. Tap maxima are parameters with
  maxDqs <= maxDq, and equal for writes; as shipped all are 31.
- Number and size of the DQS-enable taps are parameters, with at least two phases and sums that fit
  in 32 bits (`DqsEnable.Taps.Valid`).
- The compiled configuration is the shipped one: DDRX, `ENABLE_DQS_IN_CENTERING` 1,
  `ENABLE_DQS_OUT_CENTERING` 0, `IO_SHIFT_DQS_EN_WHEN_SHIFT_DQS` 0, `SKIP_PTAP_0_DQS_EN_CAL` 1,
  one read group per write group.

## What the proofs show about the code

- *Slots used* is not *orders resting*. A trade gives back one slot, an exact match takes two
  orders off, so every exact match costs its book one slot for good, and a book emptied by one
  keeps a page (`Cases.ExactMatchKeepsPage`). The repository's README (line 42) says that an empty
  page is taken back; the exact law is `ExchangeLaws.ChargedSlots`.
- Any trade lowers the shared overflow count, whoever used the overflow page. So more orders can
  rest than places are charged: exactly when is `Capacity.Oversubscription`, and a run that does
  it is `Crowding.PlacesRunShort`.
- The repository's README (line 30) promises the *oldest* best order. The code keeps that promise
  wherever timestamps ascend with arrival (`Arrivals.OldestFirst`). They are the nanosecond part of
  a clock, which wraps every second: `Cases.SecondIsFilledFirst` is a run that breaks the promise,
  `Arrivals.OldestIff` says for every trade, and `Cases.FirstIsFilledFirstIff` for every pair of
  orders, exactly when it is kept.
- The amount tie-break of the comparators is not kept: a partial fill does not sift.
  `HeapSpec.AmountTieBreakIsLost` is a case, `HeapSpec.UpdateKeepsFullOrder` says exactly when it
  survives, and push and pop always keep it (`HeapSpec.PushAndPopKeepFullOrder`). Heap order is
  therefore on price and timestamp.
- Trimming never fires as shipped. Were it to fire it would not undercharge a book, but it could
  break heap order: `HeapSpec.TrimmingBreaksOrder` is a case, `HeapSpec.TrimKeepsOrder` says when.
- The branch of the insert that would lose an order on a failed translation is unreachable.
- Read centring can fail although every bit has a window: exactly when DQS moves so far to the
  right that the longest DQ delay cannot bring some bit back into its window, which the windows
  alone decide (`Centring.ReadAcceptance`, with a case in `Centring.ReadsCanFail`). Write centring
  fails exactly when some bit passes nowhere at or left of zero skew, or the first longest run of
  the data mask is empty or begins right of zero: DQS does not move, and a DQ or mask delay only
  moves left (`Centring.CentreWrites`, with a case in `Centring.WritesCanFail`).
- A DQS-enable centre of 0 gives a phase of 2^32 - 1; for all others the phase is in range, and the
  delay as well iff the delay taps cover one phase tap, as they do as shipped.

## Model

| member | source | states |
|---|---|---|
| `Refinement.TradesLikeTheReference` | sw_sim/memory_sim.c:215-239 | In every run whose accepted orders have distinct (price, timestamp) keys per symbol and side, the trades, with buyer, seller, quantity and price, are those of a price-time engine on plain bags, in the same order, and every book ends with the orders that engine keeps. |
| `Refinement.RunRefines` | sw_sim/memory_sim.c:215-239 | The same as an invariant of runs, symbols without a book included: the reference has nothing for them. |
| `Refinement.ReceiveAccepted` | sw_sim/memory_sim.c:233-238 | One accepted order and its drain loop are one step of the reference: same tickets, same bags. |
| `Reference.TradesBestAgainstBest` | sw_sim/mmu.h:265-333 | With or without distinct keys, every trade is between a best bid and a best ask of all resting orders, and the bid reaches the ask. |
| `Reference.RootIsTheBest` | sw_sim/mmu.h:265-266 | With distinct keys the root of a heap is the one best order of its bag. |
| `Reference.CrossedIsMatched` | sw_sim/mmu.h:256-270 | A matching step trades iff the best bid of the bag reaches the best ask of the bag. |
| `Reference.MatchSimulates` | sw_sim/mmu.h:270-333 | One matching step changes the two bags, and reports, as the reference does. |
| `Reference.DrainSimulates` | sw_sim/memory_sim.c:234-237 | The drain loop trades exactly until the bags are uncrossed, with the reference's tickets in order. |
| `Arrivals.OldestFirst` | sw_sim/memory_sim.c:233-238 | Where timestamps ascend with submission within symbol, side and price, every trade of the run takes, on both sides, the oldest resting order of its price, as the repository's README (line 30) promises. |
| `Arrivals.OldestIff` | sw_sim/heap.h:168-206 | With distinct keys and any timestamps, a trade takes the oldest resting order of its price iff no other of that price has a lower timestamp than the oldest. |
| `Arrivals.RootIsOldest` | sw_sim/heap.h:155-157 | With ascending timestamps the root of every heap is the oldest of its price. |
| `Arrivals.RunTradesBest` | sw_sim/mmu.h:265-333 | In every run, what rests on each side is what the history of acceptances and trades leaves, and every trade is between a best bid and a best ask of that. |
| `Arrivals.LeftHasArrived` | sw_sim/mmu.h:184-188 | Whatever the history leaves is what is left of an accepted order. |
| `Arrivals.AcceptedAscend` | sw_sim/memory_sim.c:233-238 | The accepted orders of a run ascend if the submitted ones do. |
| `Cases.FirstIsFilledFirstIff` | sw_sim/heap.h:168-206 | Of two orders of one symbol, side and price, an order that crosses them meets the first iff it has the lower timestamp, or the same and no fewer shares. |
| `Cases.PairIsFilled` | sw_sim/memory_sim.c:233-238 | Which of the two it meets, followed through the three orders. |
| `Cases.SecondIsFilledFirst` | sw_sim/heap.h:45-47 | A run in which the second order is filled first, as the nanosecond part of the clock has wrapped between them. |
| `Cases.ExactMatchKeepsPage` | sw_sim/mmu.h:340-366 | A bid and an ask that match exactly leave a book without orders and with a page. |
| `Cases.DrainExtends` | sw_sim/memory_sim.c:234-237 | The drain loop only adds to the log, and first the trade of the two roots. |
| `Capacity.Oversubscription` | sw_sim/mmu.h:340-366 | In every run, over all books: resting orders are the places charged (page slots and overflow count) plus the trades that relieved the overflow page, less exact matches and trades without a slot to release; they exceed the places iff the first outnumber the others, and 256 pages and the overflow page by no more than that. |
| `Capacity.UnderchargedIff` | sw_sim/mmu.h:340-366 | A book holds more orders than it has slots iff more of its orders went to the overflow page than it had exact matches and trades without a slot to release. |
| `Capacity.SharesAddUp` | sw_sim/memory_sim.c:233-238 | The histories of the listed symbols make up the whole history. |
| `Crowding.PlacesRunShort` | sw_sim/mmu.h:340-343 | A run of 8202 orders that leaves more orders resting than places charged: a partial fill of one symbol gives back an overflow place of another. |
| `Crowding.BidsCrowd` | sw_sim/mmu.h:173-246 | Up to 8200 bids of one symbol are all accepted: 8192 fill its 128 pages, the rest the overflow page. |
| `ExchangeLaws.RunIsSound` | sw_sim/memory_sim.c:196-240 | One invariant holds after every run from the empty exchange: heap order, frames, page shape, slot and share laws, ledgers, uncrossed books. |
| `ExchangeLaws.ProcessIsSound` | sw_sim/memory_sim.c:215-238 | That invariant survives any order from any state that meets it. |
| `ExchangeLaws.FrameOwnership` | sw_sim/mmu.h:91-116 | In every reachable state a frame's bit is clear iff it is in some page table, it is then at one index of one book, whose exchange index is its owner, and free frames plus page counts are 256. |
| `ExchangeLaws.PageShape` | sw_sim/mmu.h:173-212 | In every reachable state page_count is 0 iff nodes_in_curr_page is, is at most 128, all pages but the last hold 64 nodes and the last nodes_in_curr_page, and node counts add up to the slots charged. |
| `ExchangeLaws.ChargedSlots` | sw_sim/mmu.h:340-366 | In every reachable state charged slots plus overflow inserts are resting orders plus exact matches plus trades that found no slot to release. Without overflow inserts: charged slots are resting orders plus exact matches, and an empty book has no page iff it never had an exact match. |
| `ExchangeLaws.NeverCrossed` | sw_sim/memory_sim.c:233-238 | After every order all bids of a symbol, not only the root, are priced strictly below all its asks. |
| `ExchangeLaws.SharesConserved` | sw_sim/mmu.h:270-333 | Per symbol and side, accepted shares are resting shares plus traded shares, both sides trade the same number, and every resting amount is in 1..32767. |
| `ExchangeLaws.LedgerIdentity` | sw_sim/mmu.h:285-330 | In every reachable state writes are resting orders plus twice the trades, and total trades are the sum over the books. |
| `ExchangeLaws.OrdersAreIsolated` | sw_sim/memory_sim.c:233-238 | An order for one symbol leaves every other book, the frames in its page table and its history as they were. |
| `ExchangeLaws.AdmissionIsExact` | sw_sim/mmu.h:173-246 | In a sound state an order is refused iff the book's pages are full, it has 128 pages or all 256 frames are in page tables, and the overflow count is 8; a refusal leaves heaps, pages, frames and overflow count unchanged. |
| `ExchangeLaws.RefusalMeansFull` | sw_sim/mmu.h:173-246 | The same for any table of the right shape, in terms of the bitmap. |
| `ExchangeLaws.ChargeGoesTo` | sw_sim/mmu.h:173-246 | On any memory an order takes room in the last page first, then a new page on the lowest free frame, then the overflow page, then none; no other frame changes. |
| `ExchangeLaws.NoFrameLeft` | sw_sim/mmu.h:91-103 | The scan of the bitmap finds nothing iff no frame is free. |
| `ExchangeLaws.LowestFrameFirst` | sw_sim/mmu.h:91-103 | A book that grows by a page keeps its others and gets the lowest free frame. |
| `History.RunIsTallied` | sw_sim/memory_sim.c:196-240 | In every run, valid amounts or not, each submitted order is answered exactly once and in order, accepted or refused; every counter is what the history adds up to; reads are two for each trade and two for each order that was accepted and left its book with bids and asks. |
| `History.OrderReads` | sw_sim/mmu.h:265-268 | An order costs two reads for each of its trades, and two more iff it was accepted and its book then holds both bids and asks. |
| `History.DrainIsTallied` | sw_sim/memory_sim.c:234-237 | The drain loop keeps the counters true, answers no order and ends with at most one check that does not trade. |
| `History.TurnIsTallied` | sw_sim/mmu.h:340-343 | A trade with its cleanup keeps the counters true; the overflow count drops by one for a trade of any symbol, down to 0. |
| `History.InsertIsTallied` | sw_sim/mmu.h:173-246 | So does an insert, on all four branches. |
| `ExchangeLaws.StepIsSound` | sw_sim/memory_sim.c:233-238 | A step at one book, put back into the exchange, keeps the invariant of all the others. |
| `ExchangeLaws.WithBookIsSound` | sw_sim/mmu.h:146-161 | A new empty book keeps the invariant. |
| `DeskLaws.InsertIsDeskStep` | sw_sim/mmu.h:173-246 | An insert, on any of its four branches, keeps every law of its book, touches only its own and free frames, and moves both ledgers in step. |
| `DeskLaws.TradeIsDeskStep` | sw_sim/memory_sim.c:234-237 | So does a trade with its cleanup. |
| `DeskLaws.NoTradeIsDeskStep` | sw_sim/mmu.h:334-337 | When the roots do not trade the book is unchanged and no bid reaches any ask. |
| `DeskLaws.DrainIsDeskStep` | sw_sim/memory_sim.c:234-237 | The drain loop keeps every law of the book and ends with it uncrossed. |
| `DeskLaws.ReceiveIsDeskStep` | sw_sim/memory_sim.c:233-238 | So does a whole order, accepted or refused. |
| `DeskLaws.FillLaws` | sw_sim/mmu.h:285-330 | A fill of q shares, by pop or by update of the root, keeps heap order, lowers the root's shares by q and loses the order only when nothing is left of it. |
| `DeskLaws.MatchFillsBoth` | sw_sim/mmu.h:270-333 | A trade fills both roots by the smaller amount and logs the two orders as they stood. |
| `DeskLaws.TrimmedPopKeepsCharge` | sw_sim/heap.h:93-132 | For any clock and threshold, a pop that trims n expired orders, each with its release, conserves the rest, and slots and resting orders move apart by the popped order only. |
| `ExchangeSpec.MatchBook` | sw_sim/mmu.h:248-338 | A check reads both roots iff there are two; a trade counts once and takes at least one order off the book, so the drain loop ends. |
| `ExchangeSpec.TradeChangesBothRoots` | sw_sim/mmu.h:270-333 | The three kinds of trade are one rule: each root loses what the other has, and a partial fill is one write. |
| `ExchangeSpec.InsertRestsOrRefuses` | sw_sim/mmu.h:173-246 | The four branches of the insert are one rule: charge, count and, unless refused, rest. |
| `ExchangeSpec.FindBook` | sw_sim/mmu.h:147-151 | The index found is the first with the symbol, and none has it when the count is returned. |
| `HeapSpec.RootIsBest` | sw_sim/heap.h:155-157 | In a heap ordered on (price, timestamp) the root is no worse than any stored order. |
| `HeapSpec.SiftUpRestoresOrder` | sw_sim/heap.h:77-87 | sift_up repairs a heap that is out of order only above the given index, by key and by the comparators' own order. |
| `HeapSpec.SiftUpKeepsOrders` | sw_sim/heap.h:77-87 | sift_up permutes. |
| `HeapSpec.SiftDownRestoresOrder` | sw_sim/heap.h:93-132 | With nothing expired, sift_down repairs a heap that is out of order only below the given index, by key and by the comparators' own order, and trims nothing. |
| `HeapSpec.SiftDownConserves` | sw_sim/heap.h:89-132 | For any clock and threshold, sift_down removes only expired orders and conserves the others. |
| `HeapSpec.ShippedNeverExpires` | sw_sim/heap.h:14 | No order expires under the shipped 48-bit threshold, as ages are 32-bit. |
| `HeapSpec.ExpiredIsAge` | sw_sim/heap.h:89-91 | An order has expired iff more than the threshold has passed since its timestamp, on a clock that may have wrapped once. |
| `HeapSpec.SiftDownIgnoresClock` | sw_sim/heap.h:89-132 | As shipped, sift_down trims nothing and its result does not depend on the clock. |
| `HeapSpec.TrimKeepsOrder` | sw_sim/heap.h:104-117 | Trimming a child of the sifted position keeps the order around that position iff the child was the last order, or the order moved into its place fits between the position's parent and the child's children. |
| `HeapSpec.TrimmingBreaksOrder` | sw_sim/heap.h:104-117 | With a threshold that fires there is a heap that pop leaves out of order. |
| `HeapSpec.PushKeepsHeap` | sw_sim/heap.h:138-146 | push keeps heap order and adds that one order. |
| `HeapSpec.PopKeepsHeap` | sw_sim/heap.h:148-153 | pop keeps heap order and removes the root and nothing else. |
| `HeapSpec.UpdateKeepsHeap` | sw_sim/heap.h:134-136 | A new root amount keeps heap order on (price, timestamp) and changes that one order. |
| `HeapSpec.PushAndPopKeepFullOrder` | sw_sim/heap.h:138-153 | push and pop keep the order of the comparators, larger amounts first among equal keys; only update can lose it. |
| `HeapSpec.UpdateKeepsFullOrder` | sw_sim/heap.h:134-136 | update keeps the order of the comparators, amount included, iff no child of the root with its key has more shares than the new amount. |
| `HeapSpec.AmountTieBreakIsLost` | sw_sim/heap.h:174-179 | A heap for which it does not. |
| `Orders.BeatsIsNoWorse` | sw_sim/heap.h:168-206 | The comparators decide price, then timestamp: the one picked is no worse, and when the first is not picked the second is no worse. |
| `Orders.NoWorseIsTotalPreorder` | sw_sim/heap.h:168-206 | That priority is total and transitive, and ties only orders with the same key. |
| `Heaps.Heap.SiftUp` | sw_sim/heap.h:77-87 | The loop on the array does what HeapSpec.SiftUp says and leaves the rest of the array alone. |
| `Heaps.Heap.SiftDown` | sw_sim/heap.h:93-132 | The loop with its two trimming branches leaves the contents of HeapSpec.SiftDown and gives back one slot of the book for every order it trims; it ends for any threshold. |
| `Heaps.Heap.TrimChild` | sw_sim/heap.h:104-117 | The next expired child, left before right, makes room for the last order and its slot is given back; nothing changes when neither has expired. |
| `Heaps.Heap.BestOfThree` | sw_sim/heap.h:119-124 | The child the loop descends to. |
| `Heaps.Heap.Push` | sw_sim/heap.h:138-146 | Growing the array when full, the contents become those of HeapSpec.Push. |
| `Heaps.Heap.Pop` | sw_sim/heap.h:148-153 | Returns the old root; the contents become those of HeapSpec.Pop whatever the clock reads, and no slot is given back. |
| `Heaps.Heap.Update` | sw_sim/heap.h:134-136 | Only the root's amount changes, in its place. |
| `Heaps.Heap.Peek` | sw_sim/heap.h:155-157 | Returns the root. |
| `MemorySpec.FirstFree` | sw_sim/mmu.h:91-103 | The lowest free frame, with none free below it. |
| `MemorySpec.ChargeKeepsMemory` | sw_sim/mmu.h:173-246 | Charging an order keeps the frame invariants; it takes exactly one slot in a page, none in the overflow page, and a refusal changes the reject counter alone. |
| `MemorySpec.ReleaseKeepsMemory` | sw_sim/memory_sim.c:6-25 | free_node_memory keeps the frame invariants and gives back one slot of its book, or none if it has none. |
| `MemorySpec.ReleasesKeepMemory` | sw_sim/memory_sim.c:6-25 | Any number of them in a row gives back as many slots as there are. |
| `MemorySpec.CleanUpKeepsMemory` | sw_sim/mmu.h:340-366 | A cleanup does the same and lowers the shared overflow count, unless that is 0. |
| `MemorySpec.OtherBookUnharmed` | sw_sim/mmu.h:91-116 | A step that touches only a book's own and free frames leaves another book's frames alone. |
| `MemorySpec.MemoryStepTransitive` | sw_sim/mmu.h:340-366 | Such steps compose. |
| `Bitmaps.SetChangesOneBit` | sw_sim/mmu.h:111-113 | Setting a bit changes that bit only. |
| `Bitmaps.ClearChangesOneBit` | sw_sim/mmu.h:95-96 | Clearing a bit changes that bit only. |
| `Bitmaps.WordStaysInRange` | sw_sim/mmu.h:26 | Both stay within the width of the word. |
| `Bitmaps.AllOnesIsFull` | sw_sim/mmu.h:73-75 | The initial word has every bit set. |
| `Memories.WithBit` | sw_sim/mmu.h:91-116 | A bitmap word with one bit changed stays a 64-bit word and keeps its other bits. |
| `Memories.MemoryManager.constructor` | sw_sim/mmu.h:64-81 | All 256 frames free, no overflow. |
| `Memories.MemoryManager.AllocateFrame` | sw_sim/mmu.h:91-103 | The scan takes the lowest free frame, marks it used, owned and empty, or returns -1 and changes nothing. |
| `Memories.MemoryManager.FreeFrame` | sw_sim/mmu.h:105-116 | The frame becomes free, without owner or nodes, and no other changes. |
| `SymbolMemories.SymbolMemory.Translate` | sw_sim/mmu.h:83-89 | The frame at a page index below page_count, else -1. |
| `SymbolMemories.SymbolMemory.ChargeLastPage` | sw_sim/mmu.h:174-183 | One more node in the book's last page; the branch for a failed translation is unreachable. |
| `SymbolMemories.SymbolMemory.OpenPage` | sw_sim/mmu.h:197-204 | A fresh page, on the lowest free frame, with one node; or nothing changes. |
| `SymbolMemories.SymbolMemory.ChargePage` | sw_sim/mmu.h:174-204 | Memory and page table become those of MemorySpec.ChargeSlot, if that finds a page, and else stay. |
| `SymbolMemories.SymbolMemory.Charge` | sw_sim/mmu.h:173-246 | All four branches: memory and page table become those of MemorySpec.ChargeSlot, and the results say which branch it was. |
| `OrderBooks.OrderBook.Insert` | sw_sim/mmu.h:173-246 | Book, memory, statistics and return value become those of ExchangeSpec.Insert. |
| `OrderBooks.OrderBook.FillRoot` | sw_sim/mmu.h:285-330 | One root loses up to the given shares: it is popped, or reduced in place when shares are left; memory stays, as nothing is trimmed. |
| `OrderBooks.OrderBook.Trade` | sw_sim/mmu.h:270-333 | Each root loses what the other has, nothing else of the book changes, and the counters record it. |
| `OrderBooks.OrderBook.CheckForTrade` | sw_sim/mmu.h:248-338 | Book, statistics and return value become those of ExchangeSpec.MatchBook. |
| `SymbolMemories.SymbolMemory.FreeLastPage` | sw_sim/mmu.h:354-361 | The book's last page is freed and the one before it is the current one, taken as full. |
| `SymbolMemories.SymbolMemory.FreeNodeMemory` | sw_sim/memory_sim.c:6-25 | Memory and page table become those of MemorySpec.ReleaseSlot. |
| `SymbolMemories.SymbolMemory.PostTradeCleanup` | sw_sim/mmu.h:340-366 | Memory and page table become those of MemorySpec.CleanUp. |
| `OrderBooks.OrderBook.Settle` | sw_sim/memory_sim.c:235-236 | The trade is counted and cleaned up as ExchangeSpec.Settle says. |
| `OrderBooks.OrderBook.Drain` | sw_sim/memory_sim.c:234-237 | The loop ends and leaves book, memory and statistics as ExchangeSpec.Drain says. |
| `OrderBooks.OrderBook.Receive` | sw_sim/memory_sim.c:233-238 | Insert and drain loop end, and leave book, memory and statistics as ExchangeSpec.Receive says. |
| `Simulators.Simulator.IndexOf` | sw_sim/memory_sim.c:218-224 | The loop finds the first book with the symbol. |
| `Simulators.Simulator.FindOrCreateBook` | sw_sim/mmu.h:146-161 | The symbol's book, appended when it had none; no other book changes. |
| `Simulators.Simulator.Submit` | sw_sim/memory_sim.c:215-238 | The simulator's state becomes that of ExchangeSpec.Process. |
| `Simulators.Simulator.Receive` | sw_sim/memory_sim.c:233-238 | Only the one book, memory and statistics change, although all books share the memory. |
| `Simulators.RunSimulator` | sw_sim/memory_sim.c:196-240 | The order loop on objects ends in the state of ExchangeSpec.Run; that state is sound and refines the reference. |
| `Centring.CentreReads` | hw/soc_system/synthesis/submodules/sequencer/sequencer.pre.c:5130-5443 | Reports a missing edge iff some bit passes nowhere in the swept range, naming the first and restoring DQS. Otherwise every bit's edges are its window; DQS is moved left by half the least left - right, rounded up, or to 0; unless it comes to 0 some bit has no DQ delay; every bit's skew is the centre of its window, with a known rounding, or the DQ tap nearest to it; the margins are the least distances to the window ends. It succeeds iff, for all bits i and k, half of right_k - left_k less right_i is at most the longest DQ delay. Taps stay in range; on success every bit's test passes. |
| `Centring.ReadAcceptance` | hw/soc_system/synthesis/submodules/sequencer/sequencer.pre.c:5301-5443 | That condition, on the windows alone; the upper DQS clamp never acts. |
| `Centring.ReadsCanFail` | hw/soc_system/synthesis/submodules/sequencer/sequencer.pre.c:5301-5443 | Windows [20, 30] and [-31, -20] with 31 taps: both bits have one, and reads are refused. |
| `Centring.CentreWrites` | hw/soc_system/synthesis/submodules/sequencer/sequencer.pre.c:7264-7943 | Reports a missing edge iff some bit passes nowhere, naming the first; else DQS stays, every bit's skew is the centre of its window, with a known rounding, or the DQ tap nearest to it, the margins are the least distances to the window ends, and the mask tap centres the first longest data-mask run as far as it can. Succeeds iff every bit passes somewhere at or left of zero skew and that run begins at or left of zero; all bits and the masked test then pass at the taps that are left. |
| `Centring.WritesCanFail` | hw/soc_system/synthesis/submodules/sequencer/sequencer.pre.c:7414-7491 | Window [5, 10]: the bit has one, and writes are refused. |
| `Centring.CentreMask` | hw/soc_system/synthesis/submodules/sequencer/sequencer.pre.c:7645-7763 | The data-mask part, on the placed taps: the first longest run; a tap that halves its distance from zero, rounded down, or 0 when its centre is right of zero; acceptable iff the run begins at or left of zero, and the masked test then passes. |
| `Centring.AcceptedMeansInside` | hw/soc_system/synthesis/submodules/sequencer/sequencer.pre.c:5372-5443 | Both margins are non-negative iff every bit's applied skew is in its window, and its test then passes. |
| `Centring.BitsAreBalanced` | hw/soc_system/synthesis/submodules/sequencer/sequencer.pre.c:5352-5379 | A bit whose DQ tap is not clamped has margins that differ by at most one tap; for reads that holds of every bit below the longest DQ delay. |
| `Centring.FirstMissing` | hw/soc_system/synthesis/submodules/sequencer/sequencer.pre.c:5274-5298 | The first bit without both edges has no window, and all before it have theirs. |
| `Centring.FindMinMid` | hw/soc_system/synthesis/submodules/sequencer/sequencer.pre.c:5300-5309 | The smallest left - right over the bits. |
| `Centring.FindEdges` | hw/soc_system/synthesis/submodules/sequencer/sequencer.pre.c:5130-5260 | Both sweeps: each bit's edges are its passing interval clipped to the swept range, or one of them is missing and nothing passes there. |
| `Centring.PlaceBits` | hw/soc_system/synthesis/submodules/sequencer/sequencer.pre.c:5348-5379 | Every bit's tap brings its skew to the centre of its window, with a known rounding, or as near as a tap can; the two margins are the least distances of the applied skews from the window ends. |
| `Centring.TapIsPlaced` | hw/soc_system/synthesis/submodules/sequencer/sequencer.pre.c:5352-5366 | The clamped shift, from values taken before the division by 2, is that tap: margins equal when left - right is even, else one more on the left for an even least mid and on the right for an odd one. |
| `Centring.CentredIsExact` | hw/soc_system/synthesis/submodules/sequencer/sequencer.pre.c:5348-5379 | Taps and margins of a centred group in terms of its windows alone. |
| `Centring.ReadMove` | hw/soc_system/synthesis/submodules/sequencer/sequencer.pre.c:5319-5330 | DQS moves as far as it should or can before any DQ delay is spent. |
| `Centring.CentreOnWindows` | hw/soc_system/synthesis/submodules/sequencer/sequencer.pre.c:5300-5417 | DQS moves left by half the smallest left - right, rounded up, or to 0, and the bits are placed against it. |
| `Centring.WriteAcceptance` | hw/soc_system/synthesis/submodules/sequencer/sequencer.pre.c:7414-7491 | Write centring accepts the data bits iff each passes somewhere at or left of zero skew; DQ taps stay in range. |
| `TapMath.BalancedMargins` | hw/soc_system/synthesis/submodules/sequencer/sequencer.pre.c:5301-5356 | Under C division the unclamped margins of a bit differ by at most one tap, for all edges and any DQS move. |
| `TapMath.ReadBitCentred` | hw/soc_system/synthesis/submodules/sequencer/sequencer.pre.c:5322-5366 | For reads, a bit's applied skew is never left of its window and lies in it iff the longest DQ delay can undo the DQS move. |
| `TapMath.IdleReadClamps` | hw/soc_system/synthesis/submodules/sequencer/sequencer.pre.c:5323-5363 | For reads, the upper DQS clamp and the lower DQ clamp never act. |
| `TapMath.WriteBitCentred` | hw/soc_system/synthesis/submodules/sequencer/sequencer.pre.c:7463-7491 | For writes, a bit's applied skew lies in its window iff the window begins at or left of zero. |
| `Deskews.SweepLeft` | hw/soc_system/synthesis/submodules/sequencer/sequencer.pre.c:5138-5200 | After the left sweep with its sticky early stop and the reset, each bit's edges describe what passes at skews up to zero. |
| `Deskews.SweepRight` | hw/soc_system/synthesis/submodules/sequencer/sequencer.pre.c:5202-5260 | After the right sweep with its early stop, each bit's edges are its window in the swept range. |
| `Deskews.EdgeTable.LeftTested` | hw/soc_system/synthesis/submodules/sequencer/sequencer.pre.c:5159-5172 | The bits of one left test. |
| `Deskews.EdgeTable.RightTested` | hw/soc_system/synthesis/submodules/sequencer/sequencer.pre.c:5232-5258 | The bits of one right test. |
| `Deskews.EdgeTable.ResetEdges` | hw/soc_system/synthesis/submodules/sequencer/sequencer.pre.c:5178-5200 | Right edges without a left edge are dropped, and the sticky bits restart, by read or by write rule. |
| `Deskews.EdgeTable.MarkMarginal` | hw/soc_system/synthesis/submodules/sequencer/sequencer.pre.c:7351-7359 | The write sweep's marking of marginal bits when it stops at once. |
| `Windows.LeftStepSees` | hw/soc_system/synthesis/submodules/sequencer/sequencer.pre.c:5159-5172 | One test of the left sweep extends what a bit's edges describe by one skew. |
| `Windows.LeftStopIsSafe` | hw/soc_system/synthesis/submodules/sequencer/sequencer.pre.c:5144-5157 | A bit that has passed and now fails can be left there: nothing further left passes. |
| `Windows.ResetFinishesLeft` | hw/soc_system/synthesis/submodules/sequencer/sequencer.pre.c:5178-5188 | The reset turns the left sweep's edges into the window so far. |
| `Windows.FirstRightStepSees` | hw/soc_system/synthesis/submodules/sequencer/sequencer.pre.c:5243-5250 | The first right test, marginal bits included, gives the window up to zero skew. |
| `Windows.RightStepSees` | hw/soc_system/synthesis/submodules/sequencer/sequencer.pre.c:5233-5242 | Each later right test extends the window by one skew. |
| `Windows.RightStopIsSafe` | hw/soc_system/synthesis/submodules/sequencer/sequencer.pre.c:5216-5230 | A trusted bit that fails has its whole window, and the marking of marginal bits changes nothing. |
| `DmSearch.SearchDm` | hw/soc_system/synthesis/submodules/sequencer/sequencer.pre.c:7647-7734 | The two stitched sweeps with early exit return the first longest run of passing skews in [-max, max - new_dqs]. |
| `DmSearch.SweepDm` | hw/soc_system/synthesis/submodules/sequencer/sequencer.pre.c:7656-7683 | The data-mask delay sweep, from the longest delay down, covers the skews up to zero. |
| `DmSearch.SweepDqs` | hw/soc_system/synthesis/submodules/sequencer/sequencer.pre.c:7689-7730 | The DQS sweep goes on from there, testing zero a second time, to the end or to the early exit. |
| `DmSearch.StepTries` | hw/soc_system/synthesis/submodules/sequencer/sequencer.pre.c:7661-7680 | One test keeps the first longest run and the run in progress. |
| `DmSearch.EarlyExitIsSafe` | hw/soc_system/synthesis/submodules/sequencer/sequencer.pre.c:7724-7727 | The early exit never loses a longer run. |
| `DmSearch.DmCentred` | hw/soc_system/synthesis/submodules/sequencer/sequencer.pre.c:7732-7763 | The data-mask margin is non-negative iff a run was found that begins at or left of zero; the applied tap is half the run's distance from zero, rounded down, or 0 when its centre is right of zero or there is none, is in range, and then lies in the run. |
| `DqsEnable.SplitCentre` | hw/soc_system/synthesis/submodules/sequencer/sequencer.pre.c:4556-4580 | For any number and size of taps: the phase is in range iff the centre is not 0. With whole cycles taken off the centre, one to a cycle's length is left; phase 0 becomes phase 1 with delay 0, and else the phase is the last one before what is left and the delay the fewest taps that reach it from there, or one more than there are. The delay is in range iff the delay taps reach the centre. |
| `DqsEnable.InRangeIff` | hw/soc_system/synthesis/submodules/sequencer/sequencer.pre.c:4556-4565 | The delay of a split is in range iff the centre lies in the first phase tap of a cycle or within all delay taps beyond the last phase tap before it. |
| `DqsEnable.DelayInRangeIffTapsCover` | hw/soc_system/synthesis/submodules/sequencer/sequencer.pre.c:4561-4565 | The delay is in range for every centre iff the delay taps cover one phase tap. |
| `DqsEnable.ShippedTapsCover` | hw/soc_system/synthesis/submodules/sequencer/sequencer_defines.pre.h:88-96 | As shipped 13 of 31 delay taps cover a phase tap, so it always is. |
| `DqsEnable.ReduceToCycle` | hw/soc_system/synthesis/submodules/sequencer/sequencer.pre.c:4556-4559 | The centre is what is left of it, at most one cycle and 0 only for 0, plus a number of whole cycles. |
| `DqsEnable.CountPhases` | hw/soc_system/synthesis/submodules/sequencer/sequencer.pre.c:4561-4562 | The first phase tap not before the reduced centre. |
| `DqsEnable.CountDelays` | hw/soc_system/synthesis/submodules/sequencer/sequencer.pre.c:4565 | The fewest delay taps that reach the reduced centre, or one more than there are when they do not. |

## Left out

- HeapSpec.TrimKeepsOrder: the exact condition for one trim, not for all trims of one sift_down, where a later trim may undo what an earlier one broke; the shipped threshold never reaches that code.
- Simulators.RunSimulator: a sequence of orders with their timestamps stands for the CSV file, the random orders and the clock.
- DqsEnable.SplitCentre: starts from work_mid; the sum of window ends that gives it, which may wrap, is not modelled.
- Orders are values with an id, not objects that the order list shares with the heaps; the amount update writes the root's place in the array.
- The bitmap words are numbers taken apart digit by digit, not machine words; `bit_chk` and `sticky_bit_chk` are sequences of Booleans.
- `Exchange.books` is a sequence that grows, without the doubling of its capacity; the heaps' doubling is modelled.
- The log of accepted, refused and traded orders is a history variable that no operation reads.
- `int` counters and sizes are unbounded numbers.
- Cycle counts, `stats.hazards`, `stats.hard_rejects`, `trade_in_progress`, `insert_pending` and `overflow.data`: summed up or never written, and no branch depends on them.
- Printing and `results.txt`, which is opened anew for each check, not closed when a heap is empty, and ends the program when it cannot be opened.
- Freeing memory, argument and CSV parsing, manual mode and `no_memory_sim.c`: the same heap with one trade check per event.
- `check_for_trade` in heap.h, which the memory simulator does not call.
- TLB, hazard stalls and per-symbol parallelism, which the software does not have; the drivers in `sw/` and the wiring in `hw/HFT_SIM.sv`.
- The read-after-write variant of read centring (`use_read_test` 0), which masks the test result of a wider group; the sweeps and the arithmetic are the same.
- Register writes and their latency, recovery after DQS violations, rank and shadow-register loops, figures of merit, reports.
- Other protocols and configurations of the sequencer, the disabled alternative algorithms, and the earlier steps of the DQS-enable search.
