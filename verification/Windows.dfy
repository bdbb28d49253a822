/** Per-bit windows of the read and write deskew: what the two sweeps learn about one bit. */
module Windows {

  /** The hardware test of each bit at each skew, DQS delay beyond its start less DQ delay. */
  type Test = (nat, int) -> bool

  /** The passing skews of a bit are an interval. */
  ghost predicate Interval(test: Test, i: nat) {
    forall x, y, z :: x < y < z && test(i, x) && test(i, z) ==> test(i, y)
  }

  // left_edge[i] and right_edge[i]; max + 1 marks an edge not seen
  datatype Edge = Edge(left: int, right: int)

  /** One bit in the left sweep, where DQ delay d gives skew -d. */
  function LeftStep(e: Edge, passed: bool, d: int, unseen: int): Edge {
    if passed then e.(left := d)
    else if e.left == unseen then e.(right := -(d + 1))
    else e
  }

  /** Between the sweeps: without a left edge, the right edge means nothing. */
  function Reset(e: Edge, unseen: int): Edge {
    if e.left == unseen && e.right != unseen then e.(right := unseen) else e
  }

  /** One bit in the right sweep, where DQS delay start + d gives skew d. */
  function RightStep(e: Edge, passed: bool, d: int, unseen: int): Edge {
    if passed then e.(right := d)
    else if d != 0 then
      if e.right == unseen then e.(left := -(d + 1)) else e
    else if e.right == unseen && e.left != unseen then e.(right := -1)
    else if e.right == unseen then e.(left := -(d + 1))
    else e
  }

  /** A write sweep that stops at once marks the bits it has only seen pass before. */
  function Marginal(e: Edge, unseen: int): Edge {
    if e.right == unseen && e.left != unseen then e.(right := -1) else e
  }

  /** [-left, right] is exactly what passes in [low, high]. */
  ghost predicate WindowIs(test: Test, i: nat, low: int, high: int, left: int, right: int) {
    && low <= -left <= right <= high
    && forall x :: low <= x <= high ==> (test(i, x) <==> -left <= x <= right)
  }

  ghost predicate NoneIn(test: Test, i: nat, low: int, high: int) {
    forall x :: low <= x <= high ==> !test(i, x)
  }

  /** Where the window ends among the skews up to 0: at 0 unless the right edge was seen. */
  function EndOf(e: Edge, unseen: int): int {
    if e.right == unseen then 0 else e.right
  }

  /** After DQ delays 0 .. d - 1. */
  ghost predicate LeftSeen(test: Test, i: nat, d: int, e: Edge, unseen: int) {
    if e.left == unseen then
      NoneIn(test, i, 1 - d, 0) && e.right == (if d == 0 then unseen else -d)
    else
      && 0 <= e.left < d
      && WindowIs(test, i, 1 - d, 0, e.left, EndOf(e, unseen))
      && (e.right == unseen <==> test(i, 0))
  }

  /** After the left sweep and the reset. */
  ghost predicate LeftDone(test: Test, i: nat, max: int, e: Edge) {
    if e.left == max + 1 then
      NoneIn(test, i, -max, 0) && e.right == max + 1
    else
      && 0 <= e.left <= max
      && WindowIs(test, i, -max, 0, e.left, EndOf(e, max + 1))
      && (e.right == max + 1 <==> test(i, 0))
  }

  /** After the skews up to high. */
  ghost predicate Seen(test: Test, i: nat, max: int, high: int, e: Edge) {
    if e.right == max + 1 then
      NoneIn(test, i, -max, high) && e.left == -(high + 1)
    else
      WindowIs(test, i, -max, high, e.left, e.right)
  }

  lemma LeftStepSees(test: Test, i: nat, max: int, d: int, e: Edge)
    requires Interval(test, i) && 0 <= d <= max && LeftSeen(test, i, d, e, max + 1)
    ensures LeftSeen(test, i, d + 1, LeftStep(e, test(i, -d), d, max + 1), max + 1)
  {
    if e.left != max + 1 {
      assert test(i, -e.left);
      assert test(i, -d) && -d < -e.left - 1 < -e.left ==> test(i, -e.left - 1);
    }
  }

  /** The sticky early stop of the left sweep loses nothing: a seen bit that fails at -d fails
      at every smaller skew. */
  lemma LeftStopIsSafe(test: Test, i: nat, max: int, d: int, e: Edge)
    requires Interval(test, i) && 0 <= d <= max && LeftSeen(test, i, d, e, max + 1)
    requires e.left != max + 1 && !test(i, -d)
    ensures LeftSeen(test, i, max + 1, e, max + 1)
  {
    assert test(i, -e.left);
    forall x | -max <= x <= -d
      ensures !test(i, x)
    {
      assert x < -d < -e.left && test(i, x) && test(i, -e.left) ==> test(i, -d);
    }
  }

  lemma ResetFinishesLeft(test: Test, i: nat, max: int, e: Edge)
    requires max >= 0 && LeftSeen(test, i, max + 1, e, max + 1)
    ensures LeftDone(test, i, max, Reset(e, max + 1))
    ensures Reset(e, max + 1).left == e.left
  {
  }

  lemma FirstRightStepSees(test: Test, i: nat, max: int, e: Edge)
    requires Interval(test, i) && max >= 0 && LeftDone(test, i, max, e)
    ensures Seen(test, i, max, 0, RightStep(e, test(i, 0), 0, max + 1))
  {
  }

  lemma RightStepSees(test: Test, i: nat, max: int, d: int, e: Edge)
    requires Interval(test, i) && 0 < d <= max && Seen(test, i, max, d - 1, e)
    ensures Seen(test, i, max, d, RightStep(e, test(i, d), d, max + 1))
  {
    if e.right != max + 1 {
      assert test(i, e.right);
      assert test(i, d) && e.right < e.right + 1 < d ==> test(i, e.right + 1);
    }
  }

  /** The early stop of the right sweep loses nothing either. */
  lemma RightStopIsSafe(test: Test, i: nat, max: int, d: int, high: int, e: Edge)
    requires Interval(test, i) && 0 <= d <= high <= max && !test(i, d)
    requires if d == 0 then LeftDone(test, i, max, e) else Seen(test, i, max, d - 1, e)
    requires e.left != max + 1 && (d == 0 || e.right != max + 1)
    ensures Seen(test, i, max, high, e)
    ensures e.right != max + 1 && Marginal(e, max + 1) == e
  {
    assert test(i, e.right);
    forall x | d <= x <= high
      ensures !test(i, x)
    {
      assert e.right < d < x && test(i, e.right) && test(i, x) ==> test(i, d);
    }
  }
}
