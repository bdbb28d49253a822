/** Step 6 of rw_mgr_mem_calibrate_vfifo_find_dqs_en_phase: the centre of the DQS-enable window,
    reduced to one clock cycle and split into a phase tap and delay taps. */
module DqsEnable {

  const WRAP := 0x1_0000_0000

  type UInt32 = x: int | 0 <= x < WRAP

  // IO_DQS_EN_PHASE_MAX and IO_DQS_EN_DELAY_MAX, IO_DELAY_PER_OPA_TAP and IO_DELAY_PER_DQS_EN_DCHAIN_TAP
  datatype Taps = Taps(phaseMax: int, delayMax: int, opaTap: int, dchainTap: int)
  {
    function Cycle(): int {
      (phaseMax + 1) * opaTap
    }

    /** There are two phases and a tap of each kind, and no 32-bit sum of taps wraps around. */
    predicate Valid() {
      phaseMax >= 1 && 0 <= delayMax < WRAP - 1 && opaTap > 0 && dchainTap > 0 && Cycle() + dchainTap < WRAP
    }

    /** The delay a setting stands for. */
    function DelayOf(phase: int, delay: int): int {
      opaTap * phase + dchainTap * delay
    }

    /** A centre lies in the first phase tap of a cycle, or the delay taps reach it from the
        last phase tap before it. */
    predicate Reaches(centre: int)
      requires Valid()
    {
      ((centre - 1) / opaTap) % (phaseMax + 1) == 0 || (centre - 1) % opaTap < dchainTap * delayMax
    }
  }

  const SHIPPED := Taps(7, 31, 312, 25)

  lemma CyclePositive(taps: Taps)
    requires taps.Valid()
    ensures taps.Cycle() >= 2 * taps.opaTap
  {
    assert taps.Cycle() == (taps.phaseMax - 1) * taps.opaTap + 2 * taps.opaTap;
  }

  /** Whole cycles are taken off until at most one is left. */
  method ReduceToCycle(taps: Taps, workMid: UInt32) returns (mid: UInt32, ghost cycles: nat)
    requires taps.Valid()
    ensures workMid == mid + cycles * taps.Cycle()
    ensures mid <= taps.Cycle() && (mid == 0 <==> workMid == 0)
  {
    var cycle := 0;
    var p := 0;
    while p <= taps.phaseMax
      invariant 0 <= p <= taps.phaseMax + 1 && cycle == p * taps.opaTap
    {
      p := p + 1;
      cycle := cycle + taps.opaTap;
    }
    CyclePositive(taps);
    mid, cycles := workMid, 0;
    while mid > cycle
      invariant workMid == mid + cycles * cycle && (mid == 0 <==> workMid == 0)
    {
      mid, cycles := mid - cycle, cycles + 1;
    }
  }

  /** The number of phase taps up to the first that does not lie before mid. */
  method CountPhases(taps: Taps, mid: UInt32) returns (p: nat)
    requires taps.Valid() && mid <= taps.Cycle()
    ensures p <= taps.phaseMax + 1 && (p == 0 <==> mid == 0)
    ensures p > 0 ==> taps.opaTap * (p - 1) < mid <= taps.opaTap * p
  {
    p := 0;
    var tmpDelay := 0;
    while p <= taps.phaseMax && tmpDelay < mid
      invariant p <= taps.phaseMax + 1 && tmpDelay == taps.opaTap * p
      invariant p > 0 ==> taps.opaTap * (p - 1) < mid
    {
      p := p + 1;
      tmpDelay := tmpDelay + taps.opaTap;
    }
  }

  /** The fewest delay taps that bring a delay from below mid up to it, or one more than there are. */
  method CountDelays(taps: Taps, from: UInt32, mid: UInt32) returns (d: nat)
    requires taps.Valid()
    ensures from >= mid <==> d == 0
    ensures d > 0 ==> from + taps.dchainTap * (d - 1) < mid
    ensures d <= taps.delayMax + 1 && (d <= taps.delayMax ==> mid <= from + taps.dchainTap * d)
  {
    d := 0;
    var tmpDelay: int := from;
    while d <= taps.delayMax && tmpDelay < mid
      invariant d <= taps.delayMax + 1 && tmpDelay == from + taps.dchainTap * d
      invariant d > 0 ==> from < mid && tmpDelay - taps.dchainTap < mid
    {
      d := d + 1;
      tmpDelay := tmpDelay + taps.dchainTap;
    }
    assert taps.dchainTap * (d - 1) == taps.dchainTap * d - taps.dchainTap;
  }

  /** What a phase and delay are for a centre in 1 .. Cycle(). Phase 0 gives way to phase 1; else
      the phase is the last one before the centre, and the delay the fewest taps that reach the
      centre from there, or one more than there are. */
  predicate IsSplit(taps: Taps, mid: int, phase: int, delay: int) {
    if mid <= taps.opaTap then phase == 1 && delay == 0
    else
      && 1 <= phase <= taps.phaseMax && taps.opaTap * phase < mid <= taps.opaTap * (phase + 1)
      && 1 <= delay <= taps.delayMax + 1
      && taps.DelayOf(phase, delay - 1) < mid && (delay <= taps.delayMax ==> mid <= taps.DelayOf(phase, delay))
  }

  /** The phase and delay taps for a window centre. All variables are 32-bit unsigned, so the
      phase is in range iff the centre is not 0. */
  method SplitCentre(taps: Taps, workMid: UInt32) returns (phase: UInt32, delay: UInt32, ghost cycles: nat)
    requires taps.Valid()
    ensures phase <= taps.phaseMax <==> workMid > 0
    ensures workMid == 0 ==> phase == WRAP - 1 && delay == 0
    ensures workMid > 0 ==>
              && 1 <= workMid - cycles * taps.Cycle() <= taps.Cycle()
              && IsSplit(taps, workMid - cycles * taps.Cycle(), phase, delay)
              && (delay <= taps.delayMax <==> taps.Reaches(workMid))
  {
    var mid;
    mid, cycles := ReduceToCycle(taps, workMid);
    phase, delay := SplitWithinCycle(taps, mid);
    if workMid > 0 {
      InRangeIff(taps, workMid, cycles, phase, delay);
    }
  }

  /** The two counting loops, and the step from phase 0 to phase 1. */
  method SplitWithinCycle(taps: Taps, mid: UInt32) returns (phase: UInt32, delay: UInt32)
    requires taps.Valid() && mid <= taps.Cycle()
    ensures mid == 0 ==> phase == WRAP - 1 && delay == 0
    ensures mid > 0 ==> phase <= taps.phaseMax && IsSplit(taps, mid, phase, delay)
    ensures taps.phaseMax < WRAP - 1
  {
    var p: int := CountPhases(taps, mid);
    PhaseOfCycle(taps, mid, p);
    var tmpDelay := Wrapped(taps.opaTap * p - taps.opaTap);
    var d := CountDelays(taps, tmpDelay, mid);
    if p == 1 {
      p, d := 2, 0;
    }
    phase, delay := Wrapped(p - 1), d;
  }

  /** Unsigned arithmetic one step below zero or in range. */
  function Wrapped(x: int): (r: UInt32)
    requires -WRAP <= x < WRAP
    ensures r == x || r == x + WRAP
  {
    if x < 0 then x + WRAP else x
  }

  /** What the number of phase taps says about the centre. */
  lemma PhaseOfCycle(taps: Taps, mid: UInt32, p: nat)
    requires taps.Valid() && mid <= taps.Cycle() && p <= taps.phaseMax + 1 && (p == 0 <==> mid == 0)
    requires p > 0 ==> taps.opaTap * (p - 1) < mid <= taps.opaTap * p
    ensures taps.opaTap * p - taps.opaTap == taps.opaTap * (p - 1)
    ensures -WRAP < taps.opaTap * (p - 1) < WRAP && taps.phaseMax < WRAP - 1
    ensures p == 0 ==> taps.opaTap * (p - 1) == -taps.opaTap
    ensures p == 1 <==> 0 < mid <= taps.opaTap
  {
    assert taps.Cycle() == taps.phaseMax * taps.opaTap + taps.opaTap;
    TimesAtLeast(taps.opaTap, taps.phaseMax);
    CyclePositive(taps);
    if p >= 2 {
      TimesAtLeast(p - 1, taps.opaTap);
    }
  }

  lemma TimesAtLeast(n: int, d: int)
    requires n > 0 && d > 0
    ensures n * d >= d && d * n >= d
  {
    assert n * d == (n - 1) * d + d;
  }

  lemma QuotientIsUnique(x: int, d: int, q: int, r: int)
    requires d > 0 && 0 <= r < d && x == q * d + r
    ensures x / d == q && x % d == r
  {
    var (q', r') := (x / d, x % d);
    assert x == q' * d + r';
    if q' > q {
      TimesAtLeast(q' - q, d);
    } else if q' < q {
      TimesAtLeast(q - q', d);
    }
  }

  /** Whole phase taps before a centre, and what lies beyond them. */
  lemma PhaseOfCentre(taps: Taps, centre: int, cycles: nat, before: nat)
    requires taps.Valid() && before <= taps.phaseMax
    requires taps.opaTap * before < centre - cycles * taps.Cycle() <= taps.opaTap * before + taps.opaTap
    ensures ((centre - 1) / taps.opaTap) % (taps.phaseMax + 1) == before
    ensures (centre - 1) % taps.opaTap == centre - cycles * taps.Cycle() - taps.opaTap * before - 1
  {
    var phases := taps.phaseMax + 1;
    var turns := cycles * phases + before;
    assert turns * taps.opaTap == cycles * (phases * taps.opaTap) + before * taps.opaTap;
    QuotientIsUnique(centre - 1, taps.opaTap, turns, centre - cycles * taps.Cycle() - taps.opaTap * before - 1);
    QuotientIsUnique(turns, phases, cycles, before);
  }

  /** The delay of a split is in range iff the delay taps reach the centre. */
  lemma InRangeIff(taps: Taps, centre: int, cycles: nat, phase: int, delay: int)
    requires taps.Valid() && 1 <= centre - cycles * taps.Cycle()
    requires IsSplit(taps, centre - cycles * taps.Cycle(), phase, delay)
    ensures delay <= taps.delayMax <==> taps.Reaches(centre)
  {
    var mid := centre - cycles * taps.Cycle();
    if mid <= taps.opaTap {
      PhaseOfCentre(taps, centre, cycles, 0);
    } else {
      assert taps.opaTap * (phase + 1) == taps.opaTap * phase + taps.opaTap;
      PhaseOfCentre(taps, centre, cycles, phase);
      DelayReaches(taps, mid, phase, delay);
    }
  }

  lemma DelayReaches(taps: Taps, mid: int, phase: int, delay: int)
    requires taps.Valid() && IsSplit(taps, mid, phase, delay) && mid > taps.opaTap
    ensures delay <= taps.delayMax <==> mid <= taps.DelayOf(phase, taps.delayMax)
  {
    if delay <= taps.delayMax {
      MoreTaps(taps.dchainTap, delay, taps.delayMax);
    } else {
      assert delay - 1 == taps.delayMax;
    }
  }

  lemma MoreTaps(tap: int, n: int, m: int)
    requires tap > 0 && n <= m
    ensures tap * n <= tap * m
  {
  }

  /** The delay is in range for every centre iff the delay taps cover one phase tap. */
  lemma DelayInRangeIffTapsCover(taps: Taps)
    requires taps.Valid()
    ensures (forall centre: UInt32 :: centre > 0 ==> taps.Reaches(centre)) <==> taps.opaTap <= taps.dchainTap * taps.delayMax
  {
    CyclePositive(taps);
    var worst := 2 * taps.opaTap;
    QuotientIsUnique(worst - 1, taps.opaTap, 1, taps.opaTap - 1);
    QuotientIsUnique(1, taps.phaseMax + 1, 0, 1);
    assert taps.Reaches(worst) <==> taps.opaTap <= taps.dchainTap * taps.delayMax;
  }

  /** As shipped, 13 delay taps cover a phase tap, and there are 31. */
  lemma ShippedTapsCover()
    ensures SHIPPED.Valid() && SHIPPED.DelayOf(0, 12) < SHIPPED.opaTap <= SHIPPED.DelayOf(0, 13)
    ensures forall centre: UInt32 :: centre > 0 ==> SHIPPED.Reaches(centre)
  {
    DelayInRangeIffTapsCover(SHIPPED);
  }
}
