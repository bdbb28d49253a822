/** The two-direction sweeps of rw_mgr_mem_calibrate_vfifo_center and
    rw_mgr_mem_calibrate_writes_center, on the delay taps of one group. */
module Deskews {
  import opened Windows

  // The read sweep trusts a bit before the right sweep if both its edges are known, the write
  // sweep if its left edge is; and only the write sweep marks marginal bits when it stops at once.
  datatype Kind = Read | Write

  class Group {
    const bits: nat
    const maxDq: int
    const maxDqs: int
    const startDqs: int
    const test: Test
    const dq: array<int>
    var dqs: int

    ghost predicate Valid() {
      0 < bits == dq.Length && 0 <= startDqs <= maxDqs <= maxDq
    }

    ghost predicate Intervals() {
      forall i :: 0 <= i < bits ==> Interval(test, i)
    }

    function Unseen(): int {
      maxDq + 1
    }

    function Reach(): int {
      maxDqs - startDqs
    }

    /** The effective skew of bit i at the present taps. */
    function Skew(i: nat): int
      requires Valid() && i < bits
      reads this, dq
    {
      dqs - startDqs - dq[i]
    }

    constructor (bits: nat, maxDq: int, maxDqs: int, startDqs: int, test: Test)
      requires 0 < bits && 0 <= startDqs <= maxDqs <= maxDq
      ensures Valid() && fresh(dq) && dqs == startDqs
      ensures this.bits == bits && this.maxDq == maxDq && this.maxDqs == maxDqs
      ensures this.startDqs == startDqs && this.test == test
    {
      this.bits, this.maxDq, this.maxDqs, this.startDqs, this.test := bits, maxDq, maxDqs, startDqs, test;
      dq := new int[bits](_ => 0);
      dqs := startDqs;
    }

    method SetAllDq(d: int)
      requires Valid()
      modifies dq
      ensures forall i :: 0 <= i < bits ==> dq[i] == d
    {
      for i := 0 to bits
        invariant forall k :: 0 <= k < i ==> dq[k] == d
      {
        dq[i] := d;
      }
    }

    /** The read or write test: which bits pass at the present taps. */
    method RunTest() returns (chk: seq<bool>)
      requires Valid()
      ensures |chk| == bits && forall i :: 0 <= i < bits ==> chk[i] == test(i, Skew(i))
    {
      chk := seq(bits, i requires 0 <= i < bits && Valid() reads this, dq => test(i, Skew(i)));
    }

  }

  // ---------- the loops over the bits of a group ----------

  predicate AllSet(chk: seq<bool>) {
    forall i :: 0 <= i < |chk| ==> chk[i]
  }

  predicate NoneSet(chk: seq<bool>) {
    forall i :: 0 <= i < |chk| ==> !chk[i]
  }

  function Or(a: seq<bool>, b: seq<bool>): (r: seq<bool>)
    requires |a| == |b|
    ensures |r| == |a| && forall i :: 0 <= i < |a| ==> r[i] == (a[i] || b[i])
  {
    seq(|a|, i requires 0 <= i < |a| => a[i] || b[i])
  }

  // left_edge and right_edge
  class EdgeTable {
    const left: array<int>
    const right: array<int>

    ghost predicate Valid(bits: nat) {
      left != right && left.Length == right.Length == bits
    }

    function At(i: nat): Edge
      requires i < left.Length == right.Length
      reads left, right
    {
      Edge(left[i], right[i])
    }

    constructor (bits: nat, unseen: int)
      ensures Valid(bits) && fresh(left) && fresh(right)
      ensures forall i :: 0 <= i < bits ==> At(i) == Edge(unseen, unseen)
    {
      left := new int[bits](_ => unseen);
      right := new int[bits](_ => unseen);
    }

    method Edges() returns (edges: seq<Edge>)
      requires left.Length == right.Length
      ensures |edges| == left.Length && forall i :: 0 <= i < |edges| ==> edges[i] == At(i)
    {
      edges := seq(left.Length, i requires 0 <= i < left.Length == right.Length reads left, right => At(i));
    }

    method LeftTested(chk: seq<bool>, d: int, unseen: int)
      requires Valid(|chk|)
      modifies left, right
      ensures forall i :: 0 <= i < |chk| ==> At(i) == LeftStep(old(At(i)), chk[i], d, unseen)
    {
      for i := 0 to |chk|
        invariant forall k :: 0 <= k < |chk| ==>
                    At(k) == if k < i then LeftStep(old(At(k)), chk[k], d, unseen) else old(At(k))
      {
        if chk[i] {
          left[i] := d;
        } else if left[i] == unseen {
          right[i] := -(d + 1);
        }
      }
    }

    method RightTested(chk: seq<bool>, d: int, unseen: int)
      requires Valid(|chk|)
      modifies left, right
      ensures forall i :: 0 <= i < |chk| ==> At(i) == RightStep(old(At(i)), chk[i], d, unseen)
    {
      for i := 0 to |chk|
        invariant forall k :: 0 <= k < |chk| ==>
                    At(k) == if k < i then RightStep(old(At(k)), chk[k], d, unseen) else old(At(k))
      {
        if chk[i] {
          right[i] := d;
        } else if d != 0 {
          if right[i] == unseen {
            left[i] := -(d + 1);
          }
        } else if right[i] == unseen && left[i] != unseen {
          right[i] := -1;
        } else if right[i] == unseen {
          left[i] := -(d + 1);
        }
      }
    }

    /** Drops right edges without a left one, from the highest bit down, and says which bits the
        right sweep may trust already. */
    method ResetEdges(bits: nat, kind: Kind, unseen: int) returns (sticky: seq<bool>)
      requires Valid(bits)
      modifies right
      ensures |sticky| == bits
      ensures forall i :: 0 <= i < bits ==> At(i) == Reset(old(At(i)), unseen)
      ensures forall i :: 0 <= i < bits ==> sticky[i] == Trusted(kind, At(i), unseen)
    {
      sticky := [];
      var i := bits;
      while i > 0
        invariant 0 <= i <= bits && |sticky| == bits - i
        invariant forall k :: 0 <= k < bits ==> At(k) == if k < i then old(At(k)) else Reset(old(At(k)), unseen)
        invariant forall k :: i <= k < bits ==> sticky[k - i] == Trusted(kind, At(k), unseen)
      {
        i := i - 1;
        if left[i] == unseen && right[i] != unseen {
          right[i] := unseen;
        }
        sticky := [left[i] != unseen && (kind == Read ==> right[i] != unseen)] + sticky;
      }
    }

    method MarkMarginal(bits: nat, unseen: int)
      requires Valid(bits)
      modifies right
      ensures forall i :: 0 <= i < bits ==> At(i) == Marginal(old(At(i)), unseen)
    {
      for i := 0 to bits
        invariant forall k :: 0 <= k < bits ==> At(k) == if k < i then Marginal(old(At(k)), unseen) else old(At(k))
      {
        if right[i] == unseen && left[i] != unseen {
          right[i] := -1;
        }
      }
    }
  }

  /** A bit the right sweep need not see pass before it may stop. */
  predicate Trusted(kind: Kind, e: Edge, unseen: int) {
    e.left != unseen && (kind == Read ==> e.right != unseen)
  }

  // ---------- the sweeps ----------

  ghost predicate AllLeftSeen(g: Group, d: int, t: EdgeTable)
    requires t.Valid(g.bits)
    reads t.left, t.right
  {
    forall i :: 0 <= i < g.bits ==> LeftSeen(g.test, i, d, t.At(i), g.Unseen())
  }

  ghost predicate AllLeftDone(g: Group, t: EdgeTable)
    requires t.Valid(g.bits)
    reads t.left, t.right
  {
    forall i :: 0 <= i < g.bits ==> LeftDone(g.test, i, g.maxDq, t.At(i))
  }

  ghost predicate AllSeen(g: Group, high: int, t: EdgeTable)
    requires t.Valid(g.bits)
    reads t.left, t.right
  {
    forall i :: 0 <= i < g.bits ==> Seen(g.test, i, g.maxDq, high, t.At(i))
  }

  ghost predicate StickyIsSeen(sticky: seq<bool>, t: EdgeTable, unseen: int)
    requires t.Valid(|sticky|)
    reads t.left, t.right
  {
    forall i :: 0 <= i < |sticky| ==> (sticky[i] <==> t.At(i).left != unseen)
  }

  /** Search for the left edges: DQ delays from 0 up, until every bit has passed and all fail. */
  method SweepLeft(g: Group, t: EdgeTable, kind: Kind) returns (sticky: seq<bool>)
    requires g.Valid() && g.Intervals() && g.dqs == g.startDqs && t.Valid(g.bits)
    requires forall i :: 0 <= i < g.bits ==> t.At(i) == Edge(g.Unseen(), g.Unseen())
    requires g.dq != t.left && g.dq != t.right
    modifies g.dq, t.left, t.right
    ensures AllLeftDone(g, t) && |sticky| == g.bits
    ensures forall i :: 0 <= i < g.bits ==> sticky[i] == Trusted(kind, t.At(i), g.Unseen())
    ensures forall i :: 0 <= i < g.bits ==> g.dq[i] == 0
  {
    sticky := seq(g.bits, _ => false);
    var d := 0;
    while d <= g.maxDq
      invariant 0 <= d <= g.maxDq + 1 && |sticky| == g.bits
      invariant AllLeftSeen(g, d, t) && StickyIsSeen(sticky, t, g.Unseen())
    {
      g.SetAllDq(d);
      var chk := g.RunTest();
      ghost var was := sticky;
      sticky := Or(sticky, chk);
      if NoneSet(chk) && AllSet(sticky) {
        LeftStop(g, d, t, chk, sticky);
        break;
      }
      TestLeft(g, d, t, chk, was);
      d := d + 1;
    }
    g.SetAllDq(0);
    sticky := EndLeft(g, t, kind);
  }

  /** One turn of the left sweep that does not stop. */
  method TestLeft(g: Group, d: int, t: EdgeTable, chk: seq<bool>, ghost sticky: seq<bool>)
    requires g.Valid() && g.Intervals() && t.Valid(g.bits) && 0 <= d <= g.maxDq && |chk| == |sticky| == g.bits
    requires AllLeftSeen(g, d, t) && StickyIsSeen(sticky, t, g.Unseen())
    requires forall i :: 0 <= i < g.bits ==> chk[i] == g.test(i, -d)
    modifies t.left, t.right
    ensures AllLeftSeen(g, d + 1, t) && StickyIsSeen(Or(sticky, chk), t, g.Unseen())
  {
    ghost var before := seq(g.bits, i requires 0 <= i < g.bits && t.Valid(g.bits) reads t.left, t.right => t.At(i));
    t.LeftTested(chk, d, g.Unseen());
    LeftTestedSees(g, d, before, t, chk);
  }

  /** The reset between the sweeps. */
  method EndLeft(g: Group, t: EdgeTable, kind: Kind) returns (sticky: seq<bool>)
    requires g.Valid() && t.Valid(g.bits) && AllLeftSeen(g, g.maxDq + 1, t)
    modifies t.left, t.right
    ensures AllLeftDone(g, t) && |sticky| == g.bits
    ensures forall i :: 0 <= i < g.bits ==> sticky[i] == Trusted(kind, t.At(i), g.Unseen())
  {
    ghost var before := seq(g.bits, i requires 0 <= i < g.bits && t.Valid(g.bits) reads t.left, t.right => t.At(i));
    sticky := t.ResetEdges(g.bits, kind, g.Unseen());
    forall i | 0 <= i < g.bits
      ensures LeftDone(g.test, i, g.maxDq, t.At(i))
    {
      ResetFinishesLeft(g.test, i, g.maxDq, before[i]);
    }
  }

  lemma LeftStop(g: Group, d: int, t: EdgeTable, chk: seq<bool>, sticky: seq<bool>)
    requires g.Valid() && g.Intervals() && t.Valid(g.bits) && 0 <= d <= g.maxDq
    requires AllLeftSeen(g, d, t) && |chk| == |sticky| == g.bits
    requires forall i :: 0 <= i < g.bits ==> chk[i] == g.test(i, -d) && !chk[i]
    requires forall i :: 0 <= i < g.bits ==> sticky[i] && (sticky[i] ==> t.At(i).left != g.Unseen() || chk[i])
    ensures AllLeftSeen(g, g.maxDq + 1, t)
  {
    forall i | 0 <= i < g.bits
      ensures LeftSeen(g.test, i, g.maxDq + 1, t.At(i), g.Unseen())
    {
      assert sticky[i] && !chk[i];
      LeftStopIsSafe(g.test, i, g.maxDq, d, t.At(i));
    }
  }

  lemma LeftTestedSees(g: Group, d: int, before: seq<Edge>, t: EdgeTable, chk: seq<bool>)
    requires g.Valid() && g.Intervals() && t.Valid(g.bits) && 0 <= d <= g.maxDq && |before| == |chk| == g.bits
    requires forall i :: 0 <= i < g.bits ==> LeftSeen(g.test, i, d, before[i], g.Unseen())
    requires forall i :: 0 <= i < g.bits ==> chk[i] == g.test(i, -d)
    requires forall i :: 0 <= i < g.bits ==> t.At(i) == LeftStep(before[i], chk[i], d, g.Unseen())
    ensures AllLeftSeen(g, d + 1, t)
  {
    forall i | 0 <= i < g.bits
      ensures LeftSeen(g.test, i, d + 1, t.At(i), g.Unseen())
    {
      LeftStepSees(g.test, i, g.maxDq, d, before[i]);
      assert chk[i] == g.test(i, -d);
    }
  }

  ghost predicate RightSeen(g: Group, d: int, t: EdgeTable)
    requires t.Valid(g.bits)
    reads t.left, t.right
  {
    if d == 0 then AllLeftDone(g, t) else AllSeen(g, d - 1, t)
  }

  ghost predicate StickyIsTrusted(kind: Kind, d: int, sticky: seq<bool>, t: EdgeTable, unseen: int)
    requires t.Valid(|sticky|)
    reads t.left, t.right
  {
    forall i :: 0 <= i < |sticky| ==>
      (sticky[i] <==> if d == 0 then Trusted(kind, t.At(i), unseen) else t.At(i).right != unseen)
  }

  /** Search for the right edges: DQS delays from the start up. */
  method SweepRight(g: Group, t: EdgeTable, kind: Kind, trusted: seq<bool>)
    requires g.Valid() && g.Intervals() && t.Valid(g.bits) && AllLeftDone(g, t) && |trusted| == g.bits
    requires StickyIsTrusted(kind, 0, trusted, t, g.Unseen())
    requires forall i :: 0 <= i < g.bits ==> g.dq[i] == 0
    requires g.dq != t.left && g.dq != t.right
    modifies g`dqs, t.left, t.right
    ensures AllSeen(g, g.Reach(), t)
  {
    var sticky := trusted;
    var d := 0;
    while d <= g.Reach()
      invariant 0 <= d <= g.Reach() + 1 && |sticky| == g.bits
      invariant RightSeen(g, d, t) && StickyIsTrusted(kind, d, sticky, t, g.Unseen())
    {
      g.dqs := g.startDqs + d;
      var chk := g.RunTest();
      ghost var was := sticky;
      sticky := Or(sticky, chk);
      if NoneSet(chk) && AllSet(sticky) {
        RightStop(g, d, t, kind, chk, was);
        if kind == Write && d == 0 {
          t.MarkMarginal(g.bits, g.Unseen());
        }
        break;
      }
      TestRight(g, d, t, kind, chk, was);
      d := d + 1;
    }
    assert AllSeen(g, g.Reach(), t);
  }

  /** One turn of the right sweep that does not stop. */
  method TestRight(g: Group, d: int, t: EdgeTable, ghost kind: Kind, chk: seq<bool>, ghost sticky: seq<bool>)
    requires g.Valid() && g.Intervals() && t.Valid(g.bits) && 0 <= d <= g.Reach() && |chk| == |sticky| == g.bits
    requires RightSeen(g, d, t) && StickyIsTrusted(kind, d, sticky, t, g.Unseen())
    requires forall i :: 0 <= i < g.bits ==> chk[i] == g.test(i, d)
    modifies t.left, t.right
    ensures AllSeen(g, d, t)
    ensures StickyIsTrusted(kind, d + 1, Or(sticky, chk), t, g.Unseen())
  {
    ghost var before := seq(g.bits, i requires 0 <= i < g.bits && t.Valid(g.bits) reads t.left, t.right => t.At(i));
    t.RightTested(chk, d, g.Unseen());
    RightTestedSees(g, d, before, t, kind, chk, sticky);
  }

  lemma RightStop(g: Group, d: int, t: EdgeTable, kind: Kind, chk: seq<bool>, sticky: seq<bool>)
    requires g.Valid() && g.Intervals() && t.Valid(g.bits) && 0 <= d <= g.Reach()
    requires RightSeen(g, d, t) && |chk| == |sticky| == g.bits
    requires forall i :: 0 <= i < g.bits ==> chk[i] == g.test(i, d) && !chk[i] && sticky[i]
    requires StickyIsTrusted(kind, d, sticky, t, g.Unseen())
    ensures AllSeen(g, g.Reach(), t)
    ensures forall i :: 0 <= i < g.bits ==> Marginal(t.At(i), g.Unseen()) == t.At(i)
  {
    forall i | 0 <= i < g.bits
      ensures Seen(g.test, i, g.maxDq, g.Reach(), t.At(i)) && Marginal(t.At(i), g.Unseen()) == t.At(i)
    {
      assert sticky[i] && !chk[i];
      RightStopIsSafe(g.test, i, g.maxDq, d, g.Reach(), t.At(i));
    }
  }

  lemma RightTestedSees(g: Group, d: int, before: seq<Edge>, t: EdgeTable, kind: Kind, chk: seq<bool>, sticky: seq<bool>)
    requires g.Valid() && g.Intervals() && t.Valid(g.bits) && 0 <= d <= g.Reach() && |before| == |chk| == |sticky| == g.bits
    requires forall i :: 0 <= i < g.bits ==>
               if d == 0 then LeftDone(g.test, i, g.maxDq, before[i]) else Seen(g.test, i, g.maxDq, d - 1, before[i])
    requires forall i :: 0 <= i < g.bits ==>
               (sticky[i] <==> if d == 0 then Trusted(kind, before[i], g.Unseen()) else before[i].right != g.Unseen())
    requires forall i :: 0 <= i < g.bits ==> chk[i] == g.test(i, d)
    requires forall i :: 0 <= i < g.bits ==> t.At(i) == RightStep(before[i], chk[i], d, g.Unseen())
    ensures AllSeen(g, d, t)
    ensures StickyIsTrusted(kind, d + 1, Or(sticky, chk), t, g.Unseen())
  {
    forall i | 0 <= i < g.bits
      ensures Seen(g.test, i, g.maxDq, d, t.At(i))
      ensures Or(sticky, chk)[i] <==> t.At(i).right != g.Unseen()
    {
      assert chk[i] == g.test(i, d);
      if d == 0 {
        FirstRightStepSees(g.test, i, g.maxDq, before[i]);
      } else {
        RightStepSees(g.test, i, g.maxDq, d, before[i]);
      }
    }
  }
}
