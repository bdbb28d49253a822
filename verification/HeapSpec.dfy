/** The binary heap of sw_sim/heap.h as functions on the stored sequence, and what they keep. */
module HeapSpec {
  import opened Orders

  const TRIM_TIME := 0xFFFF_FFFF_FFFF

  function Parent(i: int): int
    requires i > 0
  {
    (i - 1) / 2
  }

  function Swap(s: seq<Order>, i: nat, j: nat): (r: seq<Order>)
    requires i < |s| && j < |s|
    ensures |r| == |s| && multiset(r) == multiset(s)
  {
    s[i := s[j]][j := s[i]]
  }

  function SiftUp(side: Side, s: seq<Order>, i: nat): (r: seq<Order>)
    requires i < |s|
    ensures |r| == |s|
    decreases i
  {
    if i > 0 && Beats(side, s[i], s[Parent(i)])
    then SiftUp(side, Swap(s, i, Parent(i)), Parent(i))
    else s
  }

  /** The age is a 32-bit difference, so it wraps around. */
  predicate Expired(o: Order, now: int, trim: int) {
    (now - o.timestamp) % 0x1_0000_0000 > trim
  }

  /** The age is the time since the timestamp, on a clock that wraps around once at most. */
  lemma ExpiredIsAge(o: Order, now: int, trim: int)
    requires 0 <= o.timestamp < 0x1_0000_0000 && 0 <= now < 0x1_0000_0000
    ensures Expired(o, now, trim) <==>
              if o.timestamp <= now then now - o.timestamp > trim else now + 0x1_0000_0000 - o.timestamp > trim
  {
  }

  /** Slot k is overwritten by the last order and the heap shrinks by one. */
  function DropAt(s: seq<Order>, k: nat): (r: seq<Order>)
    requires k < |s|
    ensures |r| == |s| - 1
  {
    s[k := s[|s| - 1]][..|s| - 1]
  }

  /** The child of i, or i itself, that sift_down moves to. */
  function BestOfThree(side: Side, s: seq<Order>, i: nat): (best: nat)
    requires i < |s|
    ensures best == i || (best < |s| && (best == 2 * i + 1 || best == 2 * i + 2))
  {
    var left, right := 2 * i + 1, 2 * i + 2;
    var b := if left < |s| && Beats(side, s[left], s[i]) then left else i;
    if right < |s| && Beats(side, s[right], s[b]) then right else b
  }

  /** The child of i that sift_down trims next, left before right; 0 when neither has expired. */
  function ExpiredChild(s: seq<Order>, i: nat, now: int, trim: int): (k: nat)
    ensures k != 0 ==> k < |s| && Parent(k) == i && Expired(s[k], now, trim)
    ensures forall j :: 0 < j < |s| && Parent(j) == i && (k == 0 || j < k) ==> !Expired(s[j], now, trim)
  {
    var left, right := 2 * i + 1, 2 * i + 2;
    if left < |s| && Expired(s[left], now, trim) then left
    else if right < |s| && Expired(s[right], now, trim) then right
    else 0
  }

  /** sift_down with its trimming: the heap that remains, and the orders trimmed on the way. */
  function SiftDown(side: Side, s: seq<Order>, i: nat, now: int, trim: int): (r: (seq<Order>, seq<Order>))
    ensures |r.0| + |r.1| == |s|
    decreases 2 * |s| - i
  {
    if i >= |s| then (s, [])
    else
      var k := ExpiredChild(s, i, now, trim);
      var best := BestOfThree(side, s, i);
      if k != 0 then
        var r := SiftDown(side, DropAt(s, k), i, now, trim);
        (r.0, [s[k]] + r.1)
      else if best != i then SiftDown(side, Swap(s, i, best), best, now, trim)
      else (s, [])
  }

  function Push(side: Side, s: seq<Order>, o: Order): (r: seq<Order>)
    ensures |r| == |s| + 1
  {
    SiftUp(side, s + [o], |s|)
  }

  /** What is left after pop, and what its sift_down trimmed. */
  function PopTrim(side: Side, s: seq<Order>, now: int, trim: int): (r: (seq<Order>, seq<Order>))
    requires s != []
    ensures |r.0| + |r.1| == |s| - 1
  {
    SiftDown(side, DropAt(s, 0), 0, now, trim)
  }

  /** pop as shipped. SiftDownIgnoresClock shows that the clock reading (here 0) does not matter. */
  function Pop(side: Side, s: seq<Order>): (r: seq<Order>)
    requires s != []
    ensures |r| <= |s| - 1
  {
    PopTrim(side, s, 0, TRIM_TIME).0
  }

  function Update(s: seq<Order>, amount: int): (r: seq<Order>)
    requires s != []
    ensures |r| == |s|
  {
    s[0 := s[0].(amount := amount)]
  }

  // ---------- heap order ----------

  ghost predicate HeapOrdered(side: Side, s: seq<Order>) {
    forall k :: 0 < k < |s| ==> NoWorse(side, s[Parent(k)], s[k])
  }

  /** Every stored order is no better than the root. */
  lemma {:induction false} RootIsBest(side: Side, s: seq<Order>, k: nat)
    requires HeapOrdered(side, s) && k < |s|
    ensures NoWorse(side, s[0], s[k])
  {
    if k > 0 {
      RootIsBest(side, s, Parent(k));
      NoWorseIsTotalPreorder(side, s[0], s[Parent(k)], s[k]);
    }
  }

  lemma {:induction false} SiftUpKeepsOrders(side: Side, s: seq<Order>, i: nat)
    requires i < |s|
    ensures multiset(SiftUp(side, s, i)) == multiset(s)
    decreases i
  {
    if i > 0 && Beats(side, s[i], s[Parent(i)]) {
      SiftUpKeepsOrders(side, Swap(s, i, Parent(i)), Parent(i));
    }
  }

  // The two orders a heap can be in: by key alone, or as the comparators have it, where larger
  // amounts come first among equal keys.
  datatype Rank = ByKey | ByAmountToo

  predicate Ahead(rank: Rank, side: Side, a: Order, b: Order) {
    if rank == ByKey then NoWorse(side, a, b) else !Beats(side, b, a)
  }

  lemma AheadIsTotalPreorder(rank: Rank, side: Side, a: Order, b: Order, c: Order)
    ensures Ahead(rank, side, a, b) || Ahead(rank, side, b, a)
    ensures Ahead(rank, side, a, b) && Ahead(rank, side, b, c) ==> Ahead(rank, side, a, c)
  {
  }

  lemma BeatsIsAhead(rank: Rank, side: Side, a: Order, b: Order)
    ensures if Beats(side, a, b) then Ahead(rank, side, a, b) else Ahead(rank, side, b, a)
  {
    BeatsIsNoWorse(side, a, b);
  }

  ghost predicate OrderedBy(rank: Rank, side: Side, s: seq<Order>) {
    forall k :: 0 < k < |s| ==> Ahead(rank, side, s[Parent(k)], s[k])
  }

  /** Heap order except above i, and i's children are no better than i's parent. */
  ghost predicate OrderedButAbove(rank: Rank, side: Side, s: seq<Order>, i: nat) {
    && (forall k :: 0 < k < |s| && k != i ==> Ahead(rank, side, s[Parent(k)], s[k]))
    && (forall k :: 0 < k < |s| && Parent(k) == i && i > 0 ==> Ahead(rank, side, s[Parent(i)], s[k]))
  }

  lemma {:induction false} SiftUpRestoresOrder(rank: Rank, side: Side, s: seq<Order>, i: nat)
    requires i < |s| && OrderedButAbove(rank, side, s, i)
    ensures OrderedBy(rank, side, SiftUp(side, s, i))
    decreases i
  {
    if i > 0 {
      var p := Parent(i);
      BeatsIsAhead(rank, side, s[i], s[p]);
      if Beats(side, s[i], s[p]) {
        var t := Swap(s, i, p);
        forall k | 0 < k < |t| && k != p
          ensures Ahead(rank, side, t[Parent(k)], t[k])
        {
          if Parent(k) == p && k != i {
            AheadIsTotalPreorder(rank, side, s[i], s[p], s[k]);
          }
        }
        forall k | 0 < k < |t| && Parent(k) == p && p > 0
          ensures Ahead(rank, side, t[Parent(p)], t[k])
        {
          AheadIsTotalPreorder(rank, side, s[Parent(p)], s[p], s[k]);
        }
        SiftUpRestoresOrder(rank, side, t, p);
      }
    }
  }

  /** Heap order except below i, and i's children are no better than i's parent. */
  ghost predicate OrderedButBelow(rank: Rank, side: Side, s: seq<Order>, i: nat) {
    && (forall k :: 0 < k < |s| && Parent(k) != i ==> Ahead(rank, side, s[Parent(k)], s[k]))
    && (forall k :: 0 < k < |s| && Parent(k) == i && 0 < i < |s| ==> Ahead(rank, side, s[Parent(i)], s[k]))
  }

  /** sift_down restores heap order and loses nothing, provided nothing it holds has expired. */
  lemma {:induction false} SiftDownRestoresOrder(rank: Rank, side: Side, s: seq<Order>, i: nat, now: int, trim: int)
    requires OrderedButBelow(rank, side, s, i)
    requires forall k :: 0 <= k < |s| ==> !Expired(s[k], now, trim)
    ensures SiftDown(side, s, i, now, trim).1 == []
    ensures OrderedBy(rank, side, SiftDown(side, s, i, now, trim).0)
    decreases 2 * |s| - i
  {
    if i < |s| {
      var best := BestOfThree(side, s, i);
      BestIsAhead(rank, side, s, i);
      if best != i {
        var t := Swap(s, i, best);
        forall k | 0 < k < |t| && Parent(k) != best
          ensures Ahead(rank, side, t[Parent(k)], t[k])
        {
          assert k != best ==> Parent(k) != best;
        }
        SiftDownRestoresOrder(rank, side, t, best, now, trim);
      }
    }
  }

  lemma BestIsAhead(rank: Rank, side: Side, s: seq<Order>, i: nat)
    requires i < |s|
    ensures Ahead(rank, side, s[BestOfThree(side, s, i)], s[i])
    ensures forall k :: 0 < k < |s| && Parent(k) == i ==> Ahead(rank, side, s[BestOfThree(side, s, i)], s[k])
  {
    var left, right := 2 * i + 1, 2 * i + 2;
    forall k | 0 < k < |s| && Parent(k) == i
      ensures k == left || k == right
    {
    }
    var b := if left < |s| && Beats(side, s[left], s[i]) then left else i;
    if left < |s| {
      BeatsIsAhead(rank, side, s[left], s[i]);
    }
    AheadIsTotalPreorder(rank, side, s[i], s[i], s[i]);
    if right < |s| {
      BeatsIsAhead(rank, side, s[right], s[b]);
      AheadIsTotalPreorder(rank, side, s[right], s[b], s[i]);
      if left < |s| {
        AheadIsTotalPreorder(rank, side, s[right], s[b], s[left]);
        AheadIsTotalPreorder(rank, side, s[left], s[left], s[left]);
      }
    } else if left < |s| {
      AheadIsTotalPreorder(rank, side, s[left], s[left], s[left]);
    }
  }

  lemma DropAtRemoves(s: seq<Order>, k: nat)
    requires k < |s|
    ensures multiset(DropAt(s, k)) + multiset{s[k]} == multiset(s)
  {
    var n := |s| - 1;
    assert s == s[..n] + [s[n]];
    var t := s[k := s[n]];
    assert t == t[..n] + [s[n]];
    assert multiset(t) == multiset(s) - multiset{s[k]} + multiset{s[n]};
  }

  ghost predicate Conserved(s: seq<Order>, r: (seq<Order>, seq<Order>), now: int, trim: int) {
    && multiset(r.0) + multiset(r.1) == multiset(s)
    && forall k :: 0 <= k < |r.1| ==> Expired(r.1[k], now, trim)
  }

  lemma TrimConserves(s: seq<Order>, k: nat, r: (seq<Order>, seq<Order>), now: int, trim: int)
    requires k < |s| && Expired(s[k], now, trim)
    requires Conserved(DropAt(s, k), r, now, trim)
    ensures Conserved(s, (r.0, [s[k]] + r.1), now, trim)
  {
    DropAtRemoves(s, k);
    assert multiset([s[k]] + r.1) == multiset{s[k]} + multiset(r.1);
  }

  /** For any threshold: what sift_down trims has expired, and the rest is conserved. */
  lemma {:induction false} SiftDownConserves(side: Side, s: seq<Order>, i: nat, now: int, trim: int)
    ensures Conserved(s, SiftDown(side, s, i, now, trim), now, trim)
    decreases 2 * |s| - i
  {
    if i < |s| {
      var k := ExpiredChild(s, i, now, trim);
      var best := BestOfThree(side, s, i);
      if k != 0 {
        var t := DropAt(s, k);
        SiftDownConserves(side, t, i, now, trim);
        TrimConserves(s, k, SiftDown(side, t, i, now, trim), now, trim);
      } else if best != i {
        SiftDownConserves(side, Swap(s, i, best), best, now, trim);
      }
    }
  }

  /** The shipped threshold is wider than the 32-bit age: nothing ever expires. */
  lemma ShippedNeverExpires(o: Order, now: int)
    ensures !Expired(o, now, TRIM_TIME)
  {
  }

  /** As shipped, the outcome of sift_down does not depend on the clock and nothing is trimmed. */
  lemma {:induction false} SiftDownIgnoresClock(side: Side, s: seq<Order>, i: nat, now: int)
    ensures SiftDown(side, s, i, now, TRIM_TIME) == (SiftDown(side, s, i, 0, TRIM_TIME).0, [])
    decreases 2 * |s| - i
  {
    if i < |s| {
      var best := BestOfThree(side, s, i);
      if best != i {
        SiftDownIgnoresClock(side, Swap(s, i, best), best, now);
      }
    }
  }

  /** What one trim costs: in a heap ordered but below i, dropping i's child k keeps that iff k was
      the last order, or the order moved into its place fits between i's parent and k's children. */
  lemma TrimKeepsOrder(rank: Rank, side: Side, s: seq<Order>, i: nat, k: nat)
    requires OrderedButBelow(rank, side, s, i) && 0 < k < |s| && Parent(k) == i
    ensures var n := |s| - 1;
            OrderedButBelow(rank, side, DropAt(s, k), i) <==>
              || k == n
              || ((i > 0 ==> Ahead(rank, side, s[Parent(i)], s[n]))
                  && forall c :: 0 < c < n && Parent(c) == k ==> Ahead(rank, side, s[n], s[c]))
  {
    var n := |s| - 1;
    var t := DropAt(s, k);
    assert forall c :: 0 <= c < n && c != k ==> t[c] == s[c];
    if k < n && OrderedButBelow(rank, side, t, i) {
      assert t[k] == s[n];
      forall c | 0 < c < n && Parent(c) == k
        ensures Ahead(rank, side, s[n], s[c])
      {
        assert Ahead(rank, side, t[Parent(c)], t[c]);
      }
    }
  }

  function Quote(price: int, timestamp: int): Order {
    Order(0, Ask, price, timestamp, 1)
  }

  lemma TrimStep(side: Side, s: seq<Order>, i: nat, now: int, trim: int)
    requires i < |s| && ExpiredChild(s, i, now, trim) != 0
    ensures var k := ExpiredChild(s, i, now, trim);
            var r := SiftDown(side, DropAt(s, k), i, now, trim);
            SiftDown(side, s, i, now, trim) == (r.0, [s[k]] + r.1)
  {
  }

  lemma SiftStep(side: Side, s: seq<Order>, i: nat, now: int, trim: int)
    requires i < |s| && ExpiredChild(s, i, now, trim) == 0
    ensures var best := BestOfThree(side, s, i);
            SiftDown(side, s, i, now, trim)
            == if best == i then (s, []) else SiftDown(side, Swap(s, i, best), best, now, trim)
  {
  }

  /** Were trimming to fire, heap order would not survive it: the order moved into the trimmed
      slot is not sifted. Popping this heap at time 100 with threshold 90 trims the order of
      price 2 and leaves price 5 above price 4. */
  lemma TrimmingBreaksOrder(s: seq<Order>, now: int, trim: int)
    requires now == 100 && trim == 90
    requires s == [Quote(1, 50), Quote(2, 5), Quote(3, 50), Quote(4, 50), Quote(5, 50), Quote(10, 50)]
    ensures HeapOrdered(Ask, s) && !HeapOrdered(Ask, PopTrim(Ask, s, now, trim).0)
  {
    var s1 := DropAt(s, 0);
    assert s1 == [Quote(10, 50), Quote(2, 5), Quote(3, 50), Quote(4, 50), Quote(5, 50)];
    assert ExpiredChild(s1, 0, now, trim) == 1;
    TrimStep(Ask, s1, 0, now, trim);
    var s2 := DropAt(s1, 1);
    assert s2 == [Quote(10, 50), Quote(5, 50), Quote(3, 50), Quote(4, 50)];
    SiftStep(Ask, s2, 0, now, trim);
    var s3 := Swap(s2, 0, 2);
    SiftStep(Ask, s3, 2, now, trim);
    assert !NoWorse(Ask, s3[Parent(3)], s3[3]);
  }

  // ---------- the three operations of the shipped heap ----------

  lemma PushKeepsHeap(side: Side, s: seq<Order>, o: Order)
    requires HeapOrdered(side, s)
    ensures HeapOrdered(side, Push(side, s, o))
    ensures multiset(Push(side, s, o)) == multiset(s) + multiset{o}
  {
    SiftUpRestoresOrder(ByKey, side, s + [o], |s|);
    SiftUpKeepsOrders(side, s + [o], |s|);
  }

  /** pop removes the root, and that one order only. */
  lemma PopKeepsHeap(side: Side, s: seq<Order>)
    requires s != [] && HeapOrdered(side, s)
    ensures |Pop(side, s)| == |s| - 1
    ensures HeapOrdered(side, Pop(side, s))
    ensures multiset(Pop(side, s)) == multiset(s) - multiset{s[0]}
  {
    var t := DropAt(s, 0);
    SiftDownRestoresOrder(ByKey, side, t, 0, 0, TRIM_TIME);
    SiftDownConserves(side, t, 0, 0, TRIM_TIME);
    DropAtRemoves(s, 0);
  }

  lemma UpdateKeepsHeap(side: Side, s: seq<Order>, amount: int)
    requires s != [] && HeapOrdered(side, s)
    ensures HeapOrdered(side, Update(s, amount))
    ensures multiset(Update(s, amount)) == multiset(s) - multiset{s[0]} + multiset{s[0].(amount := amount)}
  {
  }

  // ---------- the amount tie-break ----------

  /** The order the comparators themselves would keep, with larger amounts first among equal keys. */
  ghost predicate FullyOrdered(side: Side, s: seq<Order>) {
    forall k :: 0 < k < |s| ==> !Beats(side, s[k], s[Parent(k)])
  }

  /** push and pop keep that order; only a partial fill can lose it. */
  lemma PushAndPopKeepFullOrder(side: Side, s: seq<Order>, o: Order)
    requires FullyOrdered(side, s)
    ensures FullyOrdered(side, Push(side, s, o)) && (s != [] ==> FullyOrdered(side, Pop(side, s)))
  {
    SiftUpRestoresOrder(ByAmountToo, side, s + [o], |s|);
    if s != [] {
      SiftDownRestoresOrder(ByAmountToo, side, DropAt(s, 0), 0, 0, TRIM_TIME);
    }
  }

  /** A partial fill keeps the comparators' own order iff no child of the root with the root's
      key is left with more shares than the root. */
  lemma UpdateKeepsFullOrder(side: Side, s: seq<Order>, amount: int)
    requires s != [] && FullyOrdered(side, s)
    ensures FullyOrdered(side, Update(s, amount)) <==>
              forall k :: 1 <= k <= 2 && k < |s| && Key(s[k]) == Key(s[0]) ==> s[k].amount <= amount
  {
    var t := Update(s, amount);
    forall k | 0 < k < |s| && k > 2
      ensures !Beats(side, t[k], t[Parent(k)])
    {
      assert t[k] == s[k] && t[Parent(k)] == s[Parent(k)];
    }
    forall k | 0 < k < |s| && k <= 2
      ensures !Beats(side, t[k], t[0]) <==> (Key(s[k]) == Key(s[0]) ==> s[k].amount <= amount)
    {
      assert Parent(k) == 0 && !Beats(side, s[k], s[0]);
    }
    if FullyOrdered(side, t) {
      forall k | 1 <= k <= 2 && k < |s|
        ensures !Beats(side, t[k], t[0])
      {
        assert !Beats(side, t[k], t[Parent(k)]) && Parent(k) == 0;
      }
    }
  }

  /** So the amount tie-break is not kept: here 3 shares stand above 4 with the same key. */
  lemma AmountTieBreakIsLost(s: seq<Order>)
    requires s == [Order(0, Bid, 10, 7, 5), Order(1, Bid, 10, 7, 4)]
    ensures FullyOrdered(Bid, s) && !FullyOrdered(Bid, Update(s, 3))
  {
    assert FullyOrdered(Bid, s);
    UpdateKeepsFullOrder(Bid, s, 3);
    assert Key(s[1]) == Key(s[0]) && s[1].amount > 3;
  }
}
