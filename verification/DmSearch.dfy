/** The data-mask search of rw_mgr_mem_calibrate_writes_center (DDRX): the longest run of
    passing skews, stitched from a sweep of the DM delay and a sweep of the DQS delay. */
module DmSearch {
  import opened TapMath

  ghost predicate Passes(pass: int -> bool, lo: int, hi: int) {
    forall x :: lo <= x <= hi ==> pass(x)
  }

  /** [bgn, end] is a run of win passing skews in [low, high]; none there is longer, and no
      other one as long starts earlier. No skew passes when win is 0. */
  ghost predicate FirstLongest(pass: int -> bool, low: int, high: int, bgn: int, end: int, win: int) {
    && win >= 0
    && (win > 0 ==> low <= bgn && end <= high && end - bgn + 1 == win && Passes(pass, bgn, end))
    && (forall lo, hi :: low <= lo <= hi <= high && Passes(pass, lo, hi) ==> hi - lo + 1 <= win)
    && (forall lo, hi :: low <= lo <= hi <= high && Passes(pass, lo, hi) && hi - lo + 1 == win ==> bgn <= lo)
  }

  /** The run that ends at x: from cur to x, or none when cur is the sentinel. */
  ghost predicate Current(pass: int -> bool, low: int, x: int, cur: int, sentinel: int) {
    if cur == sentinel then x >= low ==> !pass(x)
    else low <= cur <= x && Passes(pass, cur, x) && (cur > low ==> !pass(cur - 1))
  }

  // bgn_curr, end_curr, bgn_best, end_best and win_best
  datatype Search = Search(bgnCurr: int, endCurr: int, bgnBest: int, endBest: int, winBest: int)

  /** The common body of both sweeps, at skew x. */
  function Step(s: Search, x: int, passed: bool, sentinel: int): Search {
    if passed then
      var bgn := if s.bgnCurr == sentinel then x else s.bgnCurr;
      if x - bgn + 1 > s.winBest then Search(bgn, x, bgn, x, x - bgn + 1)
      else Search(bgn, x, s.bgnBest, s.endBest, s.winBest)
    else Search(sentinel, sentinel, s.bgnBest, s.endBest, s.winBest)
  }

  /** After the skews of [low, x] have been tried. */
  ghost predicate Tried(pass: int -> bool, low: int, x: int, s: Search, sentinel: int) {
    && FirstLongest(pass, low, x, s.bgnBest, s.endBest, s.winBest)
    && Current(pass, low, x, s.bgnCurr, sentinel)
    && (s.bgnCurr == sentinel ==> s.endCurr == sentinel)
    && (s.bgnCurr != sentinel ==> s.endCurr == x && x - s.bgnCurr + 1 <= s.winBest)
  }

  /** A run that ends at x starts no earlier than the current one. */
  lemma RunsStartAtCurrent(pass: int -> bool, low: int, x: int, cur: int, sentinel: int, lo: int)
    requires Current(pass, low, x, cur, sentinel) && low <= lo <= x && Passes(pass, lo, x)
    ensures cur != sentinel && cur <= lo
  {
    assert pass(x);
    assert lo < cur <= x ==> pass(cur - 1);
  }

  lemma StepTries(pass: int -> bool, low: int, x: int, s: Search, sentinel: int)
    requires Tried(pass, low, x - 1, s, sentinel) && low <= x < sentinel
    ensures Tried(pass, low, x, Step(s, x, pass(x), sentinel), sentinel)
  {
    var t := Step(s, x, pass(x), sentinel);
    assert Current(pass, low, x, t.bgnCurr, sentinel);
    forall lo, hi | low <= lo <= hi <= x && Passes(pass, lo, hi)
      ensures hi - lo + 1 <= t.winBest
      ensures hi - lo + 1 == t.winBest ==> t.bgnBest <= lo
    {
      if hi == x {
        RunsStartAtCurrent(pass, low, x, t.bgnCurr, sentinel, lo);
      }
    }
  }

  /** Trying the same skew again changes nothing. */
  lemma StepAgain(pass: int -> bool, low: int, x: int, s: Search, sentinel: int)
    requires Tried(pass, low, x, s, sentinel) && x >= low
    ensures Step(s, x, pass(x), sentinel) == s
  {
  }

  /** A turn of the DQS sweep, whose first skew the DM sweep has tried already. */
  lemma TurnTries(pass: int -> bool, low: int, x: int, s: Search, sentinel: int)
    requires low <= 0 <= x < sentinel && Tried(pass, low, if x == 0 then 0 else x - 1, s, sentinel)
    ensures Tried(pass, low, x, Step(s, x, pass(x), sentinel), sentinel)
  {
    if x > 0 {
      StepTries(pass, low, x, s, sentinel);
    } else {
      StepAgain(pass, low, 0, s, sentinel);
    }
  }

  /** The early exit: when x fails and fewer skews remain than the best run is long, that run
      stays the first longest. */
  lemma EarlyExitIsSafe(pass: int -> bool, low: int, x: int, high: int, s: Search)
    requires FirstLongest(pass, low, x, s.bgnBest, s.endBest, s.winBest)
    requires low <= x <= high && !pass(x) && s.winBest - 1 > high - x
    ensures FirstLongest(pass, low, high, s.bgnBest, s.endBest, s.winBest)
  {
    forall lo, hi | low <= lo <= hi <= high && Passes(pass, lo, hi)
      ensures hi <= x || lo > x
    {
    }
  }

  lemma NothingTried(pass: int -> bool, low: int, sentinel: int)
    ensures Tried(pass, low, low - 1, Search(sentinel, sentinel, sentinel, sentinel, 0), sentinel)
  {
  }

  /** The sweep of the DM delay, from max down to 0: delay d gives skew -d. */
  method SweepDm(max: int, pass: int -> bool) returns (s: Search)
    requires 0 <= max
    ensures Tried(pass, -max, 0, s, max + 1)
    ensures s.winBest == 0 ==> s.bgnBest == max + 1 && s.endBest == max + 1
  {
    var sentinel := max + 1;
    s := Search(sentinel, sentinel, sentinel, sentinel, 0);
    NothingTried(pass, -max, sentinel);
    var d := max;
    while d >= 0
      invariant -1 <= d <= max
      invariant Tried(pass, -max, -d - 1, s, sentinel)
      invariant s.winBest == 0 ==> s.bgnBest == sentinel && s.endBest == sentinel
    {
      StepTries(pass, -max, -d, s, sentinel);
      s := Step(s, -d, pass(-d), sentinel);
      d := d - 1;
    }
  }

  /** One skew of the DQS sweep, and whether it takes the early exit. */
  method DqsTurn(max: int, newDqs: int, pass: int -> bool, d: int, s: Search) returns (t: Search, stop: bool)
    requires 0 <= newDqs <= max && 0 <= d <= max - newDqs
    requires Tried(pass, -max, if d == 0 then 0 else d - 1, s, max + 1)
    requires s.winBest == 0 ==> s.bgnBest == max + 1 && s.endBest == max + 1
    ensures Tried(pass, -max, d, t, max + 1)
    ensures t.winBest == 0 ==> t.bgnBest == max + 1 && t.endBest == max + 1
    ensures stop ==> FirstLongest(pass, -max, max - newDqs, t.bgnBest, t.endBest, t.winBest)
  {
    TurnTries(pass, -max, d, s, max + 1);
    t := Step(s, d, pass(d), max + 1);
    stop := !pass(d) && t.winBest - 1 > max - newDqs - d;
    if stop {
      EarlyExitIsSafe(pass, -max, d, max - newDqs, t);
    }
  }

  /** The sweep of the DQS delay: delay newDqs + d gives skew d. */
  method SweepDqs(max: int, newDqs: int, pass: int -> bool, before: Search) returns (s: Search)
    requires 0 <= newDqs <= max && Tried(pass, -max, 0, before, max + 1)
    requires before.winBest == 0 ==> before.bgnBest == max + 1 && before.endBest == max + 1
    ensures FirstLongest(pass, -max, max - newDqs, s.bgnBest, s.endBest, s.winBest)
    ensures s.winBest == 0 ==> s.bgnBest == max + 1 && s.endBest == max + 1
  {
    s := before;
    var d := 0;
    var stop := false;
    while d <= max - newDqs && !stop
      invariant 0 <= d <= max - newDqs + 1
      invariant !stop ==> Tried(pass, -max, if d == 0 then 0 else d - 1, s, max + 1)
      invariant stop ==> FirstLongest(pass, -max, max - newDqs, s.bgnBest, s.endBest, s.winBest)
      invariant s.winBest == 0 ==> s.bgnBest == max + 1 && s.endBest == max + 1
      decreases max - newDqs - d
    {
      s, stop := DqsTurn(max, newDqs, pass, d, s);
      d := d + 1;
    }
  }

  /** The whole search; the run in progress at skew 0 carries over from one sweep to the next. */
  method SearchDm(max: int, newDqs: int, pass: int -> bool) returns (bgn: int, end: int, win: int)
    requires 0 <= newDqs <= max
    ensures FirstLongest(pass, -max, max - newDqs, bgn, end, win)
    ensures win == 0 ==> bgn == max + 1 && end == max + 1
  {
    var s := SweepDm(max, pass);
    if s.endCurr != 0 {
      s := s.(bgnCurr := max + 1, endCurr := max + 1);
    }
    s := SweepDqs(max, newDqs, pass, s);
    bgn, end, win := s.bgnBest, s.endBest, s.winBest;
  }

  /** The DM tap and margin for a search result. */
  function DmTap(bgn: int, end: int): int {
    var mid := Half(-bgn - end);
    if mid < 0 then 0 else mid
  }

  function DmMargin(bgn: int, end: int, win: int): int {
    if win == 0 then -1 else -bgn - DmTap(bgn, end)
  }

  /** The tap that centres a run, a half tap short at most, or 0 when its centre is right of zero. */
  predicate CentresRun(bgn: int, end: int, tap: int) {
    if bgn + end <= 0 then 0 <= (-bgn - end) - 2 * tap <= 1 else tap == 0
  }

  /** The margin is acceptable iff a run was found that starts at or left of zero; the tap then
      puts the skew inside that run, and always centres it as far as it can. */
  lemma DmCentred(pass: int -> bool, max: int, newDqs: int, bgn: int, end: int, win: int)
    requires 0 <= newDqs <= max && FirstLongest(pass, -max, max - newDqs, bgn, end, win)
    requires win == 0 ==> bgn == max + 1 && end == max + 1
    ensures 0 <= DmTap(bgn, end) <= max
    ensures CentresRun(bgn, end, DmTap(bgn, end)) && (win == 0 ==> DmTap(bgn, end) == 0)
    ensures DmMargin(bgn, end, win) >= 0 <==> win > 0 && bgn <= 0
    ensures DmMargin(bgn, end, win) >= 0 ==>
              var x := -DmTap(bgn, end);
              && bgn <= x <= end && pass(x)
              && (x < 0 ==> 0 <= (x - bgn) - (end - x) <= 1)
  {
  }
}
