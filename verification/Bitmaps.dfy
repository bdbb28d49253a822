/** The 64-bit words of the free bitmap, as numbers and by their binary digits. */
module Bitmaps {

  /** A word of n ones: ~0ULL for n == 64. */
  function AllOnes(n: nat): nat {
    if n == 0 then 0 else 2 * AllOnes(n - 1) + 1
  }

  /** w & (1 << k) is not zero. */
  predicate Bit(w: nat, k: nat) {
    if k == 0 then w % 2 == 1 else Bit(w / 2, k - 1)
  }

  /** w | (1 << k) */
  function SetBit(w: nat, k: nat): nat {
    if k == 0 then w / 2 * 2 + 1 else 2 * SetBit(w / 2, k - 1) + w % 2
  }

  /** w & ~(1 << k) */
  function ClearBit(w: nat, k: nat): nat {
    if k == 0 then w / 2 * 2 else 2 * ClearBit(w / 2, k - 1) + w % 2
  }

  lemma LowestDigit(high: nat, low: nat)
    requires low < 2
    ensures (2 * high + low) / 2 == high && (2 * high + low) % 2 == low
  {
  }

  /** Setting bit k sets that bit and no other. */
  lemma {:induction false} SetChangesOneBit(w: nat, k: nat, j: nat)
    ensures Bit(SetBit(w, k), j) == (j == k || Bit(w, j))
  {
    if k == 0 {
      LowestDigit(w / 2, 1);
    } else {
      LowestDigit(SetBit(w / 2, k - 1), w % 2);
      if j > 0 {
        SetChangesOneBit(w / 2, k - 1, j - 1);
      }
    }
  }

  /** Clearing bit k clears that bit and no other. */
  lemma {:induction false} ClearChangesOneBit(w: nat, k: nat, j: nat)
    ensures Bit(ClearBit(w, k), j) == (j != k && Bit(w, j))
  {
    if k == 0 {
      LowestDigit(w / 2, 0);
    } else {
      LowestDigit(ClearBit(w / 2, k - 1), w % 2);
      if j > 0 {
        ClearChangesOneBit(w / 2, k - 1, j - 1);
      }
    }
  }

  /** A word of n bits stays one. */
  lemma {:induction false} WordStaysInRange(w: nat, k: nat, n: nat)
    requires w <= AllOnes(n) && k < n
    ensures SetBit(w, k) <= AllOnes(n) && ClearBit(w, k) <= AllOnes(n)
  {
    if k > 0 {
      WordStaysInRange(w / 2, k - 1, n - 1);
    }
  }

  lemma {:induction false} AllOnesIsFull(n: nat, k: nat)
    requires k < n
    ensures Bit(AllOnes(n), k)
  {
    LowestDigit(AllOnes(n - 1), 1);
    if k > 0 {
      AllOnesIsFull(n - 1, k - 1);
    }
  }
}
