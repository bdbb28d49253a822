/** Sums of a weight over a sequence, used for every ledger of the exchange. */
module Sums {

  function SumBy<T>(weight: T -> int, s: seq<T>): int {
    if s == [] then 0 else SumBy(weight, s[..|s| - 1]) + weight(s[|s| - 1])
  }

  lemma SumSnoc<T>(weight: T -> int, s: seq<T>, x: T)
    ensures SumBy(weight, s + [x]) == SumBy(weight, s) + weight(x)
  {
    assert (s + [x])[..|s|] == s;
  }

  lemma {:induction false} SumUpdate<T>(weight: T -> int, s: seq<T>, i: nat, x: T)
    requires i < |s|
    ensures SumBy(weight, s[i := x]) == SumBy(weight, s) - weight(s[i]) + weight(x)
  {
    var n := |s| - 1;
    if i == n {
      assert s[i := x][..n] == s[..n];
    } else {
      SumUpdate(weight, s[..n], i, x);
      assert s[i := x][..n] == s[..n][i := x];
    }
  }

  lemma {:induction false} SumRemove<T>(weight: T -> int, s: seq<T>, i: nat)
    requires i < |s|
    ensures SumBy(weight, s) == SumBy(weight, s[..i] + s[i + 1..]) + weight(s[i])
  {
    var n := |s| - 1;
    if i == n {
      assert s[..i] + s[i + 1..] == s[..n];
    } else {
      SumRemove(weight, s[..n], i);
      assert s[..i] + s[i + 1..] == (s[..n][..i] + s[..n][i + 1..]) + [s[n]];
      SumSnoc(weight, s[..n][..i] + s[..n][i + 1..], s[n]);
    }
  }

  /** A sum does not depend on the order of the elements. */
  lemma {:induction false} SumPermutation<T>(weight: T -> int, s: seq<T>, t: seq<T>)
    requires multiset(s) == multiset(t)
    ensures SumBy(weight, s) == SumBy(weight, t)
  {
    if s == [] {
      assert |multiset(t)| == 0;
    } else {
      var n := |s| - 1;
      var x := s[n];
      assert x in multiset(s);
      assert x in multiset(t);
      var k :| 0 <= k < |t| && t[k] == x;
      MultisetRemove(t, k);
      MultisetRemove(s, n);
      assert s[..n] + s[n + 1..] == s[..n];
      SumPermutation(weight, s[..n], t[..k] + t[k + 1..]);
      SumRemove(weight, t, k);
    }
  }

  lemma MultisetRemove<T>(s: seq<T>, i: nat)
    requires i < |s|
    ensures multiset(s[..i] + s[i + 1..]) == multiset(s) - multiset{s[i]}
  {
    assert s == s[..i] + [s[i]] + s[i + 1..];
  }

  /** A sum of weights that are never negative is never negative. */
  lemma {:induction false} SumNonNegative<T>(weight: T -> int, s: seq<T>)
    requires forall i :: 0 <= i < |s| ==> weight(s[i]) >= 0
    ensures SumBy(weight, s) >= 0
    ensures SumBy(weight, s) == 0 ==> forall i :: 0 <= i < |s| ==> weight(s[i]) == 0
  {
    if s != [] {
      var n := |s| - 1;
      SumNonNegative(weight, s[..n]);
      forall i | 0 <= i < |s| && SumBy(weight, s) == 0
        ensures weight(s[i]) == 0
      {
        if i < n {
          assert s[..n][i] == s[i];
        }
      }
    }
  }
}
