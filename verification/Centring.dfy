/** Centring data against strobe for one group: rw_mgr_mem_calibrate_vfifo_center, which moves
    DQS, and rw_mgr_mem_calibrate_writes_center, which does not and goes on to the data mask. */
module Centring {
  import opened TapMath
  import opened Windows
  import opened Deskews
  import opened DmSearch

  // The return before centring, naming a bit without both edges, or the margins.
  datatype Outcome = MissingEdge(bit: nat) | Centred(minMid: int, dqMargin: int, dqsMargin: int)

  predicate Accepted(r: Outcome) {
    r.Centred? && r.dqMargin >= 0 && r.dqsMargin >= 0
  }

  ghost predicate HasWindow(g: Group, i: nat) {
    exists x :: -g.maxDq <= x <= g.Reach() && g.test(i, x)
  }

  /** Bit i passes at some skew at or left of zero. */
  ghost predicate PassesLeft(g: Group, i: nat) {
    exists x :: -g.maxDq <= x <= 0 && g.test(i, x)
  }

  ghost predicate AllPassLeft(g: Group) {
    forall i :: 0 <= i < g.bits ==> PassesLeft(g, i)
  }

  /** Every bit passes at the present taps. */
  ghost predicate AllPass(g: Group)
    requires g.Valid()
    reads g, g.dq
  {
    forall i :: 0 <= i < g.bits ==> g.test(i, g.Skew(i))
  }

  /** The first bit without a window. */
  ghost predicate FirstWithout(g: Group, b: nat) {
    b < g.bits && !HasWindow(g, b) && forall i :: 0 <= i < b ==> HasWindow(g, i)
  }

  /** A bit's edges are its window: the passing skews of the swept range. */
  ghost predicate Found(g: Group, edges: seq<Edge>, i: nat)
    requires i < |edges|
  {
    WindowIs(g.test, i, -g.maxDq, g.Reach(), edges[i].left, edges[i].right)
  }

  ghost predicate AllFound(g: Group, edges: seq<Edge>) {
    |edges| == g.bits && forall i :: 0 <= i < g.bits ==> Found(g, edges, i)
  }

  function Mid(e: Edge): int {
    e.left - e.right
  }

  ghost predicate IsMinMid(edges: seq<Edge>, m: int) {
    && (forall i :: 0 <= i < |edges| ==> m <= Mid(edges[i]))
    && (exists i :: 0 <= i < |edges| && m == Mid(edges[i]))
  }

  /** The DQ tap for a bit with edges e when DQS moves by mm to the left, and the skew it gives. */
  function TapOf(e: Edge, m: int, mm: int, maxDq: int): int {
    Clamp(Shift(Mid(e), m, mm), 0, maxDq)
  }

  function SkewOf(e: Edge, m: int, mm: int, maxDq: int): int {
    -mm - TapOf(e, m, mm, maxDq)
  }

  /** Distance from that skew to the left and the right end of the window. */
  function LeftRoom(e: Edge, m: int, mm: int, maxDq: int): int {
    SkewOf(e, m, mm, maxDq) - (-e.left)
  }

  function RightRoom(e: Edge, m: int, mm: int, maxDq: int): int {
    e.right - SkewOf(e, m, mm, maxDq)
  }

  /** Twice the skew where the margins of a bit are equal or, if its window has no middle tap, differ
      by one: one more on the left when the least mid m is even, on the right when it is odd. */
  function TwiceCentre(e: Edge, m: int): int {
    e.right - e.left + (if (e.left - e.right) % 2 == 0 then 0 else if m % 2 == 0 then 1 else -1)
  }

  /** The tap puts the bit there, with DQS moved by mm to the left, or as near as a tap can. */
  predicate PlacedTap(e: Edge, m: int, mm: int, maxDq: int, tap: int) {
    var (c, left, right) := (TwiceCentre(e, m), 2 * (-mm - maxDq), 2 * -mm);
    if c < left then tap == maxDq else if c > right then tap == 0 else 2 * (-mm - tap) == c
  }

  /** DQS is moved left by half the least mid, rounded up, or to the end. */
  predicate MovedByHalf(start: int, dqs: int, m: int) {
    if m <= 2 * start then m <= 2 * (start - dqs) <= m + 1 else dqs == 0
  }

  lemma TapIsPlaced(e: Edge, m: int, mm: int, maxDq: int)
    requires m <= Mid(e) && maxDq >= 0
    ensures PlacedTap(e, m, mm, maxDq, TapOf(e, m, mm, maxDq))
  {
    var excess := Mid(e) - m;
    assert 2 * Half(excess) == excess - excess % 2;
    assert 2 * Move(m) == m + m % 2;
  }

  /** margin is the least room on that side, or cap where every bit has at least that. */
  ghost predicate IsMargin(room: Edge -> int, edges: seq<Edge>, cap: int, margin: int) {
    && margin <= cap
    && (forall i :: 0 <= i < |edges| ==> margin <= room(edges[i]))
    && (margin == cap || exists i :: 0 <= i < |edges| && margin == room(edges[i]))
  }

  function LeftRooms(m: int, mm: int, maxDq: int): Edge -> int {
    (e: Edge) => LeftRoom(e, m, mm, maxDq)
  }

  function RightRooms(m: int, mm: int, maxDq: int): Edge -> int {
    (e: Edge) => RightRoom(e, m, mm, maxDq)
  }

  lemma MarginOfNone(room: Edge -> int, edges: seq<Edge>, cap: int)
    ensures IsMargin(room, edges[..0], cap, cap)
  {
  }

  lemma NextMargin(room: Edge -> int, edges: seq<Edge>, cap: int, n: nat, margin: int)
    requires n < |edges| && IsMargin(room, edges[..n], cap, margin)
    ensures IsMargin(room, edges[..n + 1], cap, Min(margin, room(edges[n])))
  {
    var shorter, longer := edges[..n], edges[..n + 1];
    assert longer[n] == edges[n];
    assert forall i :: 0 <= i < n ==> longer[i] == shorter[i];
    if margin != cap {
      var i :| 0 <= i < n && margin == room(shorter[i]);
      assert longer[i] == shorter[i];
    }
  }

  // ---------- the loops over the bits ----------

  /** The first bit without a window; the number of bits when every bit has one. */
  method FirstMissing(g: Group, edges: seq<Edge>) returns (b: nat)
    requires g.Valid() && |edges| == g.bits
    requires forall i :: 0 <= i < g.bits ==> Seen(g.test, i, g.maxDq, g.Reach(), edges[i])
    ensures b <= g.bits
    ensures forall i :: 0 <= i < b ==> Found(g, edges, i)
    ensures b < g.bits ==> !HasWindow(g, b)
  {
    for i := 0 to g.bits
      invariant forall k :: 0 <= k < i ==> Found(g, edges, k)
    {
      if edges[i].left == g.Unseen() || edges[i].right == g.Unseen() {
        return i;
      }
    }
    return g.bits;
  }

  method FindMinMid(edges: seq<Edge>) returns (m: int)
    requires edges != []
    ensures IsMinMid(edges, m)
  {
    m := edges[0].left - edges[0].right;
    assert m == Mid(edges[0]);
    for i := 1 to |edges|
      invariant forall k :: 0 <= k < i ==> m <= Mid(edges[k])
      invariant exists k :: 0 <= k < i && m == Mid(edges[k])
    {
      var mid := edges[i].left - edges[i].right;
      if mid < m {
        m := mid;
        assert m == Mid(edges[i]);
      }
    }
  }

  /** Shifts the DQ delay of bit i, and returns the shift after clamping. */
  method PlaceBit(g: Group, e: Edge, m: int, mm: int, i: nat) returns (shift: int)
    requires g.Valid() && i < g.bits && g.dq[i] == 0
    modifies g.dq
    ensures g.dq[i] == shift == TapOf(e, m, mm, g.maxDq)
    ensures forall k :: 0 <= k < g.bits && k != i ==> g.dq[k] == old(g.dq[k])
  {
    shift := Shift(e.left - e.right, m, mm);
    if shift + g.dq[i] > g.maxDq {
      shift := g.maxDq - g.dq[i];
    } else if shift + g.dq[i] < 0 {
      shift := -g.dq[i];
    }
    g.dq[i] := g.dq[i] + shift;
  }

  ghost predicate Placed(g: Group, edges: seq<Edge>, n: nat, m: int, mm: int)
    requires g.Valid() && |edges| == g.bits
    reads g.dq
  {
    forall k :: 0 <= k < g.bits ==> g.dq[k] == if k < n then TapOf(edges[k], m, mm, g.maxDq) else 0
  }

  /** Both margins of the first n bits. */
  ghost predicate AreMargins(g: Group, edges: seq<Edge>, n: nat, m: int, mm: int, dqMargin: int, dqsMargin: int)
    requires n <= |edges|
  {
    && IsMargin(LeftRooms(m, mm, g.maxDq), edges[..n], g.Unseen(), dqMargin)
    && IsMargin(RightRooms(m, mm, g.maxDq), edges[..n], g.Unseen(), dqsMargin)
  }

  lemma NoMarginsYet(g: Group, edges: seq<Edge>, m: int, mm: int)
    ensures AreMargins(g, edges, 0, m, mm, g.Unseen(), g.Unseen())
  {
    MarginOfNone(LeftRooms(m, mm, g.maxDq), edges, g.Unseen());
    MarginOfNone(RightRooms(m, mm, g.maxDq), edges, g.Unseen());
  }

  lemma {:induction false} NextMargins(g: Group, edges: seq<Edge>, n: nat, m: int, mm: int, dqMargin: int, dqsMargin: int)
    requires n < |edges| && AreMargins(g, edges, n, m, mm, dqMargin, dqsMargin)
    ensures AreMargins(g, edges, n + 1, m, mm, Min(dqMargin, LeftRoom(edges[n], m, mm, g.maxDq)),
                       Min(dqsMargin, RightRoom(edges[n], m, mm, g.maxDq)))
  {
    NextMargin(LeftRooms(m, mm, g.maxDq), edges, g.Unseen(), n, dqMargin);
    NextMargin(RightRooms(m, mm, g.maxDq), edges, g.Unseen(), n, dqsMargin);
  }

  /** Shifts every bit's DQ delay, which starts at 0, and takes both margins. */
  method PlaceBits(g: Group, edges: seq<Edge>, m: int, mm: int) returns (dqMargin: int, dqsMargin: int)
    requires g.Valid() && |edges| == g.bits && Placed(g, edges, 0, m, mm)
    modifies g.dq
    ensures Placed(g, edges, g.bits, m, mm)
    ensures PlacedNear(g, edges, m, mm)
    ensures AreMargins(g, edges, g.bits, m, mm, dqMargin, dqsMargin)
  {
    dqMargin, dqsMargin := PlaceEach(g, edges, m, mm);
    PlacedAreNear(g, edges, m, mm);
  }

  method PlaceEach(g: Group, edges: seq<Edge>, m: int, mm: int) returns (dqMargin: int, dqsMargin: int)
    requires g.Valid() && |edges| == g.bits && Placed(g, edges, 0, m, mm)
    modifies g.dq
    ensures Placed(g, edges, g.bits, m, mm)
    ensures AreMargins(g, edges, g.bits, m, mm, dqMargin, dqsMargin)
  {
    dqsMargin, dqMargin := g.Unseen(), g.Unseen();
    NoMarginsYet(g, edges, m, mm);
    for i := 0 to g.bits
      invariant Placed(g, edges, i, m, mm)
      invariant AreMargins(g, edges, i, m, mm, dqMargin, dqsMargin)
    {
      NextMargins(g, edges, i, m, mm, dqMargin, dqsMargin);
      var shift := PlaceBit(g, edges[i], m, mm, i);
      dqMargin := LowerMargin(dqMargin, edges[i].left - shift + (-mm));
      dqsMargin := LowerMargin(dqsMargin, edges[i].right + shift - (-mm));
    }
  }

  /** Every bit is as near the centre of its window as its tap can bring it. */
  ghost predicate PlacedNear(g: Group, edges: seq<Edge>, m: int, mm: int)
    requires g.Valid() && |edges| == g.bits
    reads g.dq
  {
    forall i :: 0 <= i < g.bits && m <= Mid(edges[i]) ==> PlacedTap(edges[i], m, mm, g.maxDq, g.dq[i])
  }

  lemma PlacedAreNear(g: Group, edges: seq<Edge>, m: int, mm: int)
    requires g.Valid() && |edges| == g.bits && Placed(g, edges, g.bits, m, mm)
    ensures PlacedNear(g, edges, m, mm)
  {
    forall i | 0 <= i < g.bits && m <= Mid(edges[i])
      ensures PlacedTap(edges[i], m, mm, g.maxDq, g.dq[i])
    {
      TapIsPlaced(edges[i], m, mm, g.maxDq);
    }
  }

  method LowerMargin(margin: int, room: int) returns (r: int)
    ensures r == Min(margin, room)
  {
    r := margin;
    if room < margin {
      r := room;
    }
  }

  // ---------- reads ----------

  /** Both sweeps, from fresh edges. */
  method FindEdges(g: Group, kind: Kind) returns (edges: seq<Edge>)
    requires g.Valid() && g.Intervals() && g.dqs == g.startDqs
    modifies g`dqs, g.dq
    ensures |edges| == g.bits
    ensures forall i :: 0 <= i < g.bits ==> g.dq[i] == 0
    ensures forall i :: 0 <= i < g.bits ==> Seen(g.test, i, g.maxDq, g.Reach(), edges[i])
  {
    var t := new EdgeTable(g.bits, g.Unseen());
    var trusted := SweepLeft(g, t, kind);
    SweepRight(g, t, kind, trusted);
    edges := t.Edges();
    assert forall i :: 0 <= i < g.bits ==> Seen(g.test, i, g.maxDq, g.Reach(), t.At(i));
  }

  /** The edges, and the first bit that misses one; that bit passes nowhere, and without such a
      bit every bit's window is known. */
  method FindWindows(g: Group, kind: Kind) returns (edges: seq<Edge>, b: nat)
    requires g.Valid() && g.Intervals() && g.dqs == g.startDqs
    modifies g`dqs, g.dq
    ensures forall i :: 0 <= i < g.bits ==> g.dq[i] == 0
    ensures b <= g.bits && (b < g.bits ==> FirstWithout(g, b))
    ensures b == g.bits ==> AllFound(g, edges) && forall i :: 0 <= i < g.bits ==> HasWindow(g, i)
  {
    edges := FindEdges(g, kind);
    b := FirstMissing(g, edges);
    forall i | 0 <= i < b
      ensures HasWindow(g, i)
    {
      FoundHasWindow(g, edges, i);
    }
  }

  lemma FoundHasWindow(g: Group, edges: seq<Edge>, i: nat)
    requires i < |edges| && Found(g, edges, i)
    ensures HasWindow(g, i)
  {
    assert g.test(i, -edges[i].left);
  }

  /** What either centring leaves: the edges, the taps computed from them, and the margins. */
  ghost predicate CentredOn(g: Group, edges: seq<Edge>, r: Outcome)
    requires g.Valid()
    reads g, g.dq
  {
    var mm := g.startDqs - g.dqs;
    && r.Centred? && AllFound(g, edges) && IsMinMid(edges, r.minMid)
    && Placed(g, edges, g.bits, r.minMid, mm)
    && AreMargins(g, edges, g.bits, r.minMid, mm, r.dqMargin, r.dqsMargin)
  }

  /** The least distance from the applied skews to the left window ends, up to one more than the
      longest delay. */
  ghost predicate LeftExact(g: Group, edges: seq<Edge>, margin: int)
    requires g.Valid() && |edges| == g.bits
    reads g, g.dq
  {
    && margin <= g.maxDq + 1
    && (forall i :: 0 <= i < g.bits ==> margin <= g.Skew(i) + edges[i].left)
    && (margin == g.maxDq + 1 || exists i :: 0 <= i < g.bits && margin == g.Skew(i) + edges[i].left)
  }

  ghost predicate RightExact(g: Group, edges: seq<Edge>, margin: int)
    requires g.Valid() && |edges| == g.bits
    reads g, g.dq
  {
    && margin <= g.maxDq + 1
    && (forall i :: 0 <= i < g.bits ==> margin <= edges[i].right - g.Skew(i))
    && (margin == g.maxDq + 1 || exists i :: 0 <= i < g.bits && margin == edges[i].right - g.Skew(i))
  }

  /** Taps and margins in terms of the windows. */
  ghost predicate Exact(g: Group, edges: seq<Edge>, r: Outcome)
    requires g.Valid() && |edges| == g.bits && r.Centred?
    reads g, g.dq
  {
    PlacedNear(g, edges, r.minMid, g.startDqs - g.dqs) && LeftExact(g, edges, r.dqMargin) && RightExact(g, edges, r.dqsMargin)
  }

  lemma LeftIsExact(g: Group, edges: seq<Edge>, m: int, margin: int)
    requires g.Valid() && |edges| == g.bits && Placed(g, edges, g.bits, m, g.startDqs - g.dqs)
    requires IsMargin(LeftRooms(m, g.startDqs - g.dqs, g.maxDq), edges, g.maxDq + 1, margin)
    ensures LeftExact(g, edges, margin)
  {
    var lefts := LeftRooms(m, g.startDqs - g.dqs, g.maxDq);
    assert forall i :: 0 <= i < g.bits ==> lefts(edges[i]) == g.Skew(i) + edges[i].left;
  }

  lemma RightIsExact(g: Group, edges: seq<Edge>, m: int, margin: int)
    requires g.Valid() && |edges| == g.bits && Placed(g, edges, g.bits, m, g.startDqs - g.dqs)
    requires IsMargin(RightRooms(m, g.startDqs - g.dqs, g.maxDq), edges, g.maxDq + 1, margin)
    ensures RightExact(g, edges, margin)
  {
    var rights := RightRooms(m, g.startDqs - g.dqs, g.maxDq);
    assert forall i :: 0 <= i < g.bits ==> rights(edges[i]) == edges[i].right - g.Skew(i);
  }

  lemma CentredIsExact(g: Group, edges: seq<Edge>, r: Outcome)
    requires g.Valid() && CentredOn(g, edges, r)
    ensures Exact(g, edges, r)
  {
    assert edges[..g.bits] == edges;
    PlacedAreNear(g, edges, r.minMid, g.startDqs - g.dqs);
    LeftIsExact(g, edges, r.minMid, r.dqMargin);
    RightIsExact(g, edges, r.minMid, r.dqsMargin);
  }

  /** The part of vfifo_center after the windows are found. */
  method CentreOnWindows(g: Group, edges: seq<Edge>) returns (r: Outcome)
    requires g.Valid() && AllFound(g, edges)
    requires forall i :: 0 <= i < g.bits ==> g.dq[i] == 0
    modifies g`dqs, g.dq
    ensures CentredOn(g, edges, r) && g.dqs == NewDqs(g.startDqs, g.maxDqs, r.minMid)
    ensures MovedByHalf(g.startDqs, g.dqs, r.minMid)
  {
    var m := FindMinMid(edges);
    MoveIsHalf(g, edges, m);
    var newDqs := MoveDqs(g.startDqs, g.maxDqs, m);
    var dqMargin, dqsMargin := PlaceGroup(g, edges, m, newDqs);
    r := Centred(m, dqMargin, dqsMargin);
  }

  /** The bits against the new DQS tap, and then that tap. */
  method PlaceGroup(g: Group, edges: seq<Edge>, m: int, newDqs: int) returns (dqMargin: int, dqsMargin: int)
    requires g.Valid() && |edges| == g.bits && Placed(g, edges, 0, m, g.startDqs - newDqs)
    modifies g`dqs, g.dq
    ensures g.dqs == newDqs && Placed(g, edges, g.bits, m, g.startDqs - newDqs)
    ensures AreMargins(g, edges, g.bits, m, g.startDqs - newDqs, dqMargin, dqsMargin)
  {
    dqMargin, dqsMargin := PlaceBits(g, edges, m, g.startDqs - newDqs);
    g.dqs := newDqs;
  }

  /** new_dqs, with its two clamps. */
  method MoveDqs(start: int, maxDqs: int, m: int) returns (newDqs: int)
    requires 0 <= start <= maxDqs
    ensures newDqs == NewDqs(start, maxDqs, m)
    ensures start - Move(m) <= maxDqs ==> MovedByHalf(start, newDqs, m)
  {
    newDqs := start - Move(m);
    if newDqs > maxDqs {
      newDqs := maxDqs;
    } else if newDqs < 0 {
      newDqs := 0;
    }
    if start - Move(m) <= maxDqs {
      NewDqsMovesByHalf(start, maxDqs, m);
    }
  }

  /** rw_mgr_mem_calibrate_vfifo_center */
  method CentreReads(g: Group) returns (r: Outcome, edges: seq<Edge>)
    requires g.Valid() && g.Intervals() && g.dqs == g.startDqs
    modifies g`dqs, g.dq
    ensures r.MissingEdge? <==> exists i :: 0 <= i < g.bits && !HasWindow(g, i)
    ensures r.MissingEdge? ==> FirstWithout(g, r.bit) && g.dqs == g.startDqs && forall i :: 0 <= i < g.bits ==> g.dq[i] == 0
    ensures r.Centred? ==> AllFound(g, edges) && IsMinMid(edges, r.minMid)
    ensures r.Centred? ==> Exact(g, edges, r) && MovedByHalf(g.startDqs, g.dqs, r.minMid)
    ensures r.Centred? ==> g.dqs == 0 || exists i :: 0 <= i < g.bits && g.dq[i] == 0
    ensures r.Centred? ==> (Accepted(r) <==> WithinDqDelay(edges, g.maxDq))
    ensures 0 <= g.dqs <= g.maxDqs && forall i :: 0 <= i < g.bits ==> 0 <= g.dq[i] <= g.maxDq
    ensures Accepted(r) ==> AllPass(g)
  {
    r, edges := PlaceReads(g);
    if r.Centred? {
      AcceptedMeansInside(g, edges, r);
      ReadAcceptance(g, edges, r);
      CentredIsExact(g, edges, r);
      ReadMove(g, edges, r);
    }
  }

  method PlaceReads(g: Group) returns (r: Outcome, edges: seq<Edge>)
    requires g.Valid() && g.Intervals() && g.dqs == g.startDqs
    modifies g`dqs, g.dq
    ensures r.MissingEdge? ==> FirstWithout(g, r.bit) && g.dqs == g.startDqs && forall i :: 0 <= i < g.bits ==> g.dq[i] == 0
    ensures r.Centred? ==> CentredOn(g, edges, r) && g.dqs == NewDqs(g.startDqs, g.maxDqs, r.minMid)
    ensures r.Centred? ==> forall i :: 0 <= i < g.bits ==> HasWindow(g, i)
  {
    var b;
    edges, b := FindWindows(g, Read);
    if b < g.bits {
      g.dqs := g.startDqs;
      r := MissingEdge(b);
    } else {
      r := CentreOnWindows(g, edges);
    }
  }

  /** The smallest mid of found windows is bounded by the range of the sweep. */
  lemma MinMidInRange(g: Group, edges: seq<Edge>, m: int)
    requires AllFound(g, edges) && IsMinMid(edges, m)
    ensures -2 * g.Reach() <= m
  {
    var i :| 0 <= i < |edges| && m == Mid(edges[i]);
    assert Found(g, edges, i);
  }

  /** Accepted margins mean that every bit's test passes at the taps it was given. */
  lemma AcceptedMeansInside(g: Group, edges: seq<Edge>, r: Outcome)
    requires g.Valid() && CentredOn(g, edges, r)
    ensures Accepted(r) <==> forall i :: 0 <= i < g.bits ==> -edges[i].left <= g.Skew(i) <= edges[i].right
    ensures Accepted(r) ==> forall i :: 0 <= i < g.bits ==> g.test(i, g.Skew(i))
  {
    var mm := g.startDqs - g.dqs;
    forall i | 0 <= i < g.bits
      ensures g.Skew(i) == SkewOf(edges[i], r.minMid, mm, g.maxDq)
      ensures -edges[i].left <= g.Skew(i) <= edges[i].right ==> g.test(i, g.Skew(i))
    {
      assert Found(g, edges, i);
    }
    assert edges[..g.bits] == edges;
    var (lefts, rights) := (LeftRooms(r.minMid, mm, g.maxDq), RightRooms(r.minMid, mm, g.maxDq));
    if forall i :: 0 <= i < g.bits ==> -edges[i].left <= g.Skew(i) <= edges[i].right {
      assert forall i :: 0 <= i < g.bits ==> lefts(edges[i]) >= 0 && rights(edges[i]) >= 0;
    } else {
      var i :| 0 <= i < g.bits && !(-edges[i].left <= g.Skew(i) <= edges[i].right);
      assert lefts(edges[i]) < 0 || rights(edges[i]) < 0;
    }
  }

  /** No window lies further left than the longest DQ delay reaches back when DQS moves to the
      middle of the window that is furthest right. */
  predicate WithinDqDelay(edges: seq<Edge>, maxDq: int) {
    forall i, k :: 0 <= i < |edges| && 0 <= k < |edges| ==>
      Half(edges[k].right - edges[k].left) - edges[i].right <= maxDq
  }

  /** Read centring is accepted iff that holds of the windows; all taps are in range, and the DQS
      clamp at the top never acted. */
  lemma ReadAcceptance(g: Group, edges: seq<Edge>, r: Outcome)
    requires g.Valid() && CentredOn(g, edges, r) && g.dqs == NewDqs(g.startDqs, g.maxDqs, r.minMid)
    ensures Accepted(r) <==> WithinDqDelay(edges, g.maxDq)
    ensures 0 <= g.dqs <= g.maxDqs && forall i :: 0 <= i < g.bits ==> 0 <= g.dq[i] <= g.maxDq
    ensures g.startDqs - Move(r.minMid) <= g.maxDqs
  {
    AcceptedMeansInside(g, edges, r);
    forall i | 0 <= i < g.bits
      ensures -edges[i].left <= g.Skew(i)
      ensures g.Skew(i) <= edges[i].right <==> g.dqs - g.startDqs - g.maxDq <= edges[i].right
      ensures g.startDqs - Move(r.minMid) <= g.maxDqs && 0 <= g.dq[i] <= g.maxDq
    {
      BitWithinReach(g, edges, r, i);
    }
    assert 0 <= g.dq[0] <= g.maxDq;
    DqsMoveIsHalfTheLargest(g, edges, r);
  }

  /** The DQS move against each window, in terms of the windows alone. */
  lemma DqsMoveIsHalfTheLargest(g: Group, edges: seq<Edge>, r: Outcome)
    requires g.Valid() && CentredOn(g, edges, r) && g.dqs == NewDqs(g.startDqs, g.maxDqs, r.minMid)
    requires g.startDqs - Move(r.minMid) <= g.maxDqs
    ensures (forall i :: 0 <= i < g.bits ==> g.dqs - g.startDqs - g.maxDq <= edges[i].right)
            <==> WithinDqDelay(edges, g.maxDq)
  {
    var n :| 0 <= n < |edges| && r.minMid == Mid(edges[n]);
    var move := g.dqs - g.startDqs;
    forall i | 0 <= i < g.bits
      ensures move - g.maxDq <= edges[i].right
              <==> forall k :: 0 <= k < |edges| ==> Half(edges[k].right - edges[k].left) - edges[i].right <= g.maxDq
    {
      assert Found(g, edges, i);
      assert forall k :: 0 <= k < |edges| ==> Mid(edges[k]) >= Mid(edges[n]);
      assert move - g.maxDq <= edges[i].right <==> Half(edges[n].right - edges[n].left) - edges[i].right <= g.maxDq;
    }
  }

  lemma NewDqsMovesByHalf(start: int, maxDqs: int, m: int)
    requires 0 <= start <= maxDqs && start - Move(m) <= maxDqs
    ensures MovedByHalf(start, NewDqs(start, maxDqs, m), m)
  {
    assert 2 * Move(m) == m + m % 2;
  }

  lemma MoveIsHalf(g: Group, edges: seq<Edge>, m: int)
    requires g.Valid() && AllFound(g, edges) && IsMinMid(edges, m)
    ensures MovedByHalf(g.startDqs, NewDqs(g.startDqs, g.maxDqs, m), m)
  {
    MinMidInRange(g, edges, m);
    NewDqsMovesByHalf(g.startDqs, g.maxDqs, m);
  }

  /** The bit with the least mid needs no DQ delay where DQS has moved by half that. */
  lemma LeastNeedsNone(e: Edge, start: int, dqs: int, maxDq: int)
    requires MovedByHalf(start, dqs, Mid(e)) && 0 <= start && dqs > 0 && maxDq >= 0
    ensures TapOf(e, Mid(e), start - dqs, maxDq) == 0
  {
    assert 2 * Move(Mid(e)) == Mid(e) + Mid(e) % 2;
  }

  /** DQS moves by half the least mid, or to 0, before any DQ delay is spent: unless DQS has come
      to 0, some bit needs none. */
  lemma ReadMove(g: Group, edges: seq<Edge>, r: Outcome)
    requires g.Valid() && CentredOn(g, edges, r) && g.dqs == NewDqs(g.startDqs, g.maxDqs, r.minMid)
    requires g.startDqs - Move(r.minMid) <= g.maxDqs
    ensures MovedByHalf(g.startDqs, g.dqs, r.minMid)
    ensures g.dqs == 0 || exists i :: 0 <= i < g.bits && g.dq[i] == 0
  {
    NewDqsMovesByHalf(g.startDqs, g.maxDqs, r.minMid);
    if g.dqs != 0 {
      var n :| 0 <= n < |edges| && r.minMid == Mid(edges[n]);
      LeastNeedsNone(edges[n], g.startDqs, g.dqs, g.maxDq);
      assert g.dq[n] == TapOf(edges[n], r.minMid, g.startDqs - g.dqs, g.maxDq);
    }
  }

  /** A case where every bit has a window and reads are refused all the same. */
  lemma ReadsCanFail(g: Group, edges: seq<Edge>)
    requires g.Valid() && g.bits == 2 && g.maxDq == g.maxDqs == 31 && g.startDqs == 0
    requires forall x :: g.test(0, x) <==> 20 <= x <= 30
    requires forall x :: g.test(1, x) <==> -31 <= x <= -20
    requires AllFound(g, edges)
    ensures g.Intervals() && HasWindow(g, 0) && HasWindow(g, 1)
    ensures !WithinDqDelay(edges, g.maxDq)
  {
    assert g.test(0, 20) && g.test(0, 30) && g.test(1, -31) && g.test(1, -20);
    assert Found(g, edges, 0) && Found(g, edges, 1);
    assert g.test(0, -edges[0].left) && g.test(0, edges[0].right);
    assert g.test(1, -edges[1].left) && g.test(1, edges[1].right);
    assert edges[0] == Edge(-20, 30) && edges[1] == Edge(31, -20);
    assert Half(edges[0].right - edges[0].left) == 25;
  }

  lemma BitWithinReach(g: Group, edges: seq<Edge>, r: Outcome, i: nat)
    requires g.Valid() && CentredOn(g, edges, r) && g.dqs == NewDqs(g.startDqs, g.maxDqs, r.minMid) && i < g.bits
    ensures -edges[i].left <= g.Skew(i)
    ensures g.Skew(i) <= edges[i].right <==> g.dqs - g.startDqs - g.maxDq <= edges[i].right
    ensures g.startDqs - Move(r.minMid) <= g.maxDqs && 0 <= g.dq[i] <= g.maxDq
  {
    MinMidInRange(g, edges, r.minMid);
    assert Found(g, edges, i);
    assert g.dq[i] == TapOf(edges[i], r.minMid, g.startDqs - g.dqs, g.maxDq);
    ReadBitCentred(edges[i].left, edges[i].right, r.minMid, g.maxDq, g.startDqs, g.maxDqs);
    IdleReadClamps(edges[i].left, edges[i].right, r.minMid, g.maxDq, g.startDqs, g.maxDqs);
  }

  /** A bit whose tap is not clamped sits in the middle of its window, up to one tap; for reads
      that is every bit below the longest DQ delay, wherever the DQS clamp put DQS. */
  lemma BitsAreBalanced(g: Group, edges: seq<Edge>, r: Outcome, i: nat)
    requires g.Valid() && CentredOn(g, edges, r) && i < g.bits
    ensures var skew := g.Skew(i);
            0 < g.dq[i] < g.maxDq ==> -1 <= (skew - (-edges[i].left)) - (edges[i].right - skew) <= 1
    ensures g.dqs == NewDqs(g.startDqs, g.maxDqs, r.minMid) && g.dq[i] < g.maxDq ==>
              var skew := g.Skew(i); -1 <= (skew - (-edges[i].left)) - (edges[i].right - skew) <= 1
  {
    var mm := g.startDqs - g.dqs;
    assert Found(g, edges, i);
    assert g.dq[i] == TapOf(edges[i], r.minMid, mm, g.maxDq);
    BalancedMargins(edges[i].left, edges[i].right, r.minMid, mm);
    if g.dqs == NewDqs(g.startDqs, g.maxDqs, r.minMid) {
      MinMidInRange(g, edges, r.minMid);
      IdleReadClamps(edges[i].left, edges[i].right, r.minMid, g.maxDq, g.startDqs, g.maxDqs);
    }
  }

  // ---------- writes and the data mask ----------

  // The hardware test with the data mask, given the DQ taps, the DQS tap and the DM tap.
  type MaskTest = (seq<int>, int, int) -> bool

  // The run of the data mask that was chosen, and the DM tap in its middle.
  datatype Mask = Mask(bgn: int, end: int, win: int, tap: int)

  /** The masked test at skew x, with the data bits where they were placed: left of zero the data
      mask is delayed, right of zero DQS is. */
  function MaskAt(test: MaskTest, dq: seq<int>, dqs: int): int -> bool {
    (x: int) => test(dq, if x > 0 then dqs + x else dqs, if x < 0 then -x else 0)
  }

  /** The mask's run is the first longest one of its test, and the tap is in its middle. */
  ghost predicate MaskChosen(pass: int -> bool, max: int, dqs: int, mask: Mask) {
    && FirstLongest(pass, -max, max - dqs, mask.bgn, mask.end, mask.win)
    && (mask.win == 0 ==> mask.bgn == mask.end == max + 1)
    && 0 <= mask.tap <= max && CentresRun(mask.bgn, mask.end, mask.tap) && (mask.win == 0 ==> mask.tap == 0)
  }

  /** rw_mgr_mem_calibrate_writes_center as shipped: DQS stays where it is, and the data mask is
      centred on the first longest run of its own test. */
  method CentreWrites(g: Group, maskTest: MaskTest)
    returns (success: bool, r: Outcome, edges: seq<Edge>, mask: Mask)
    requires g.Valid() && g.Intervals() && g.dqs == g.startDqs && g.maxDqs == g.maxDq
    modifies g`dqs, g.dq
    ensures r.MissingEdge? <==> exists i :: 0 <= i < g.bits && !HasWindow(g, i)
    ensures r.MissingEdge? ==> !success && FirstWithout(g, r.bit)
    ensures r.Centred? ==> AllFound(g, edges) && IsMinMid(edges, r.minMid)
    ensures r.Centred? ==> Exact(g, edges, r) && g.dqs == g.startDqs
    ensures r.Centred? ==> MaskChosen(MaskAt(maskTest, g.dq[..], g.dqs), g.maxDq, g.dqs, mask)
    ensures success <==> r.Centred? && AllPassLeft(g) && mask.win > 0 && mask.bgn <= 0
    ensures forall i :: 0 <= i < g.bits ==> 0 <= g.dq[i] <= g.maxDq
    ensures success ==> maskTest(g.dq[..], g.dqs, mask.tap) && AllPass(g)
  {
    success, r, edges, mask := PlaceWrites(g, maskTest);
    if r.Centred? {
      CentredIsExact(g, edges, r);
    }
  }

  method PlaceWrites(g: Group, maskTest: MaskTest)
    returns (success: bool, r: Outcome, edges: seq<Edge>, mask: Mask)
    requires g.Valid() && g.Intervals() && g.dqs == g.startDqs && g.maxDqs == g.maxDq
    modifies g`dqs, g.dq
    ensures r.MissingEdge? ==> !success && FirstWithout(g, r.bit)
    ensures r.Centred? ==> forall i :: 0 <= i < g.bits ==> HasWindow(g, i)
    ensures r.Centred? ==>
              && CentredOn(g, edges, r) && g.dqs == g.startDqs
              && MaskChosen(MaskAt(maskTest, g.dq[..], g.dqs), g.maxDq, g.dqs, mask)
    ensures success <==> r.Centred? && AllPassLeft(g) && mask.win > 0 && mask.bgn <= 0
    ensures forall i :: 0 <= i < g.bits ==> 0 <= g.dq[i] <= g.maxDq
    ensures success ==> maskTest(g.dq[..], g.dqs, mask.tap) && AllPass(g)
  {
    success, mask := false, Mask(0, 0, 0, 0);
    var b;
    edges, b := FindWindows(g, Write);
    if b < g.bits {
      r := MissingEdge(b);
      return;
    }
    var placed, found;
    placed, r := PlaceOnWindows(g, edges);
    found, mask := CentreMask(g, maskTest);
    success := placed && found;
    assert WritesPlaced(g, edges, placed, r);
  }

  /** What writes_center leaves of the data bits before the data mask. */
  ghost predicate WritesPlaced(g: Group, edges: seq<Edge>, placed: bool, r: Outcome)
    requires g.Valid()
    reads g, g.dq
  {
    && CentredOn(g, edges, r) && g.dqs == g.startDqs
    && (placed <==> AllPassLeft(g)) && (placed ==> AllPass(g))
    && forall i :: 0 <= i < g.bits ==> 0 <= g.dq[i] <= g.maxDq
  }

  /** The part of writes_center between the sweeps and the data mask. */
  method PlaceOnWindows(g: Group, edges: seq<Edge>) returns (placed: bool, r: Outcome)
    requires g.Valid() && AllFound(g, edges)
    requires forall i :: 0 <= i < g.bits ==> g.dq[i] == 0
    modifies g`dqs, g.dq
    ensures WritesPlaced(g, edges, placed, r)
  {
    var m := FindMinMid(edges);
    var dqMargin, dqsMargin := PlaceGroup(g, edges, m, g.startDqs);
    r := Centred(m, dqMargin, dqsMargin);
    placed := dqMargin >= 0 && dqsMargin >= 0;
    WriteAcceptance(g, edges, r);
    AcceptedMeansInside(g, edges, r);
  }

  /** The data-mask part, on the taps as they were placed. */
  method CentreMask(g: Group, maskTest: MaskTest) returns (found: bool, mask: Mask)
    requires g.Valid() && 0 <= g.dqs <= g.maxDq
    ensures MaskChosen(MaskAt(maskTest, g.dq[..], g.dqs), g.maxDq, g.dqs, mask)
    ensures found <==> mask.win > 0 && mask.bgn <= 0
    ensures found ==> maskTest(g.dq[..], g.dqs, mask.tap)
  {
    var pass := MaskAt(maskTest, g.dq[..], g.dqs);
    var bgn, end, win := SearchDm(g.maxDq, g.dqs, pass);
    mask := Mask(bgn, end, win, DmTap(bgn, end));
    found := DmMargin(bgn, end, win) >= 0;
    DmCentred(pass, g.maxDq, g.dqs, bgn, end, win);
    assert found ==> pass(-mask.tap);
  }

  /** A case where the one bit has a window and writes are refused all the same. */
  lemma WritesCanFail(g: Group)
    requires g.Valid() && g.bits == 1 && g.maxDq == g.maxDqs == 31 && g.startDqs == 0
    requires forall x :: g.test(0, x) <==> 5 <= x <= 10
    ensures g.Intervals() && HasWindow(g, 0) && !PassesLeft(g, 0)
  {
    assert g.test(0, 5);
  }

  lemma BeginsLeft(g: Group, edges: seq<Edge>, i: nat)
    requires g.Valid() && i < |edges| && Found(g, edges, i)
    ensures edges[i].left >= 0 <==> PassesLeft(g, i)
  {
    if edges[i].left >= 0 {
      assert g.test(i, -edges[i].left);
    }
  }

  /** Write centring accepts the data bits iff every window begins at or left of zero skew: a bit
      that passes only at skews right of zero cannot be helped, as DQS does not move. */
  lemma WriteAcceptance(g: Group, edges: seq<Edge>, r: Outcome)
    requires g.Valid() && CentredOn(g, edges, r) && g.dqs == g.startDqs
    ensures Accepted(r) <==> AllPassLeft(g)
    ensures forall i :: 0 <= i < g.bits ==> 0 <= g.dq[i] <= g.maxDq
  {
    AcceptedMeansInside(g, edges, r);
    forall i | 0 <= i < g.bits
      ensures -edges[i].left <= g.Skew(i) <= edges[i].right <==> PassesLeft(g, i)
    {
      assert Found(g, edges, i);
      WriteBitCentred(edges[i].left, edges[i].right, r.minMid, g.maxDq, g.Reach());
      BeginsLeft(g, edges, i);
    }
  }
}
