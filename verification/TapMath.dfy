/** The centring arithmetic of the calibration sequencer: C integer division, and what a bit's
    tap and margins come to. A bit whose window is [-left, right] has mid = left - right. */
module TapMath {

  /** x / 2 in C: towards zero. */
  function Half(x: int): int {
    if x >= 0 then x / 2 else -((-x) / 2)
  }

  function Clamp(x: int, low: int, high: int): int {
    if x > high then high else if x < low then low else x
  }

  function Min(x: int, y: int): int {
    if x < y then x else y
  }

  /** orig_mid_min: how far DQS should move to the left for the smallest mid m. */
  function Move(m: int): int {
    Half(if m > 0 then m + 1 else m)
  }

  /** shift_dq before clamping, when DQS has moved by mm to the left. */
  function Shift(mid: int, m: int, mm: int): int {
    Half(mid - m) + (Move(m) - mm)
  }

  /** The window ends of a bit found by a sweep of [-maxDq, reach]. */
  predicate Edges(left: int, right: int, maxDq: int, reach: int) {
    -maxDq <= -left <= right <= reach
  }

  /** Unless the DQ tap is clamped, the two margins of a bit differ by at most one tap. */
  lemma BalancedMargins(left: int, right: int, m: int, mm: int)
    requires m <= left - right
    ensures var s := Shift(left - right, m, mm);
            -1 <= (left - s - mm) - (right + s + mm) <= 1
  {
    var excess := left - right - m;
    assert 2 * Half(excess) == excess - excess % 2;
    assert m - 1 <= 2 * Move(m) - 1 <= m || 2 * Move(m) == m;
  }

  /** DQS goes from start to the clamped target; reach = maxDqs - start. */
  function NewDqs(start: int, maxDqs: int, m: int): int {
    Clamp(start - Move(m), 0, maxDqs)
  }

  /** Centring reads: the DQS clamp at the top and the DQ clamp at zero never act. */
  lemma IdleReadClamps(left: int, right: int, m: int, maxDq: int, start: int, maxDqs: nat)
    requires 0 <= maxDq && 0 <= start <= maxDqs && Edges(left, right, maxDq, maxDqs - start)
    requires -2 * (maxDqs - start) <= m <= left - right
    ensures start - Move(m) <= maxDqs
    ensures Shift(left - right, m, start - NewDqs(start, maxDqs, m)) >= 0
  {
  }

  /** Centring reads: the applied skew is never left of the bit's window, and lies in it iff
      the window reaches what the longest DQ delay can undo of the DQS move. */
  lemma ReadBitCentred(left: int, right: int, m: int, maxDq: int, start: int, maxDqs: nat)
    requires 0 <= maxDq && 0 <= start <= maxDqs && Edges(left, right, maxDq, maxDqs - start)
    requires -2 * (maxDqs - start) <= m <= left - right
    ensures var mm := start - NewDqs(start, maxDqs, m);
            var tap := Clamp(Shift(left - right, m, mm), 0, maxDq);
            && -left <= -mm - tap
            && (-mm - tap <= right <==> -mm - maxDq <= right)
  {
    var mm := start - NewDqs(start, maxDqs, m);
    IdleReadClamps(left, right, m, maxDq, start, maxDqs);
    BalancedMargins(left, right, m, mm);
  }

  /** Centring writes, where DQS stays: the applied skew lies in the bit's window iff the
      window begins at or left of zero; the DQ clamp at the top never acts. */
  lemma WriteBitCentred(left: int, right: int, m: int, maxDq: int, reach: int)
    requires 0 <= maxDq && 0 <= reach && Edges(left, right, maxDq, reach) && m <= left - right
    ensures var s := Shift(left - right, m, 0);
            var tap := Clamp(s, 0, maxDq);
            && s <= maxDq
            && (-left <= -tap <= right <==> left >= 0)
  {
    BalancedMargins(left, right, m, 0);
  }
}
