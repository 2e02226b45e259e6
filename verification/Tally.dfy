/** Sums over a sequence, used to count the workers of a pool by phase. */
module Tally {

  ghost function Sum<T>(f: T -> int, xs: seq<T>): int {
    if |xs| == 0 then 0 else Sum(f, xs[..|xs| - 1]) + f(xs[|xs| - 1])
  }

  lemma {:induction false} SumUpdate<T>(f: T -> int, xs: seq<T>, i: nat, x: T)
    requires i < |xs|
    ensures Sum(f, xs[i := x]) == Sum(f, xs) - f(xs[i]) + f(x)
  {
    var last := |xs| - 1;
    if i == last {
      assert xs[i := x][..last] == xs[..last];
    } else {
      assert xs[i := x][..last] == xs[..last][i := x];
      SumUpdate(f, xs[..last], i, x);
    }
  }

  /** A sum of smaller terms is smaller, strictly so when one term is. */
  lemma {:induction false} SumMonotone<T>(f: T -> int, xs: seq<T>, ys: seq<T>)
    requires |xs| == |ys|
    requires forall i :: 0 <= i < |xs| ==> f(xs[i]) <= f(ys[i])
    ensures Sum(f, xs) <= Sum(f, ys)
    ensures (exists i :: 0 <= i < |xs| && f(xs[i]) < f(ys[i])) ==> Sum(f, xs) < Sum(f, ys)
  {
    if |xs| != 0 {
      var last := |xs| - 1;
      SumMonotone(f, xs[..last], ys[..last]);
      if i :| 0 <= i < |xs| && f(xs[i]) < f(ys[i]) {
        if i < last {
          assert xs[..last][i] == xs[i] && ys[..last][i] == ys[i];
        }
      }
    }
  }

  lemma {:induction false} SumAtLeast<T>(f: T -> int, xs: seq<T>)
    requires forall i :: 0 <= i < |xs| ==> 0 <= f(xs[i])
    ensures 0 <= Sum(f, xs)
    ensures forall i :: 0 <= i < |xs| ==> f(xs[i]) <= Sum(f, xs)
  {
    if |xs| != 0 {
      var last := |xs| - 1;
      SumAtLeast(f, xs[..last]);
      forall i | 0 <= i < |xs| ensures f(xs[i]) <= Sum(f, xs) {
        if i < last {
          assert xs[..last][i] == xs[i];
        }
      }
    }
  }
}
