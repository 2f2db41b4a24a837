// Sums over the threads of a program, used to count the threads that are at given points.
module Counting {

  function SumBy<T>(xs: seq<T>, f: T -> nat): (total: nat) {
    if xs == [] then 0 else f(xs[0]) + SumBy(xs[1..], f)
  }

  // One thread moving changes the sum by that thread's difference only.
  lemma {:induction false} SumUpdate<T>(xs: seq<T>, i: nat, y: T, f: T -> nat)
    requires i < |xs|
    ensures SumBy(xs[i := y], f) + f(xs[i]) == SumBy(xs, f) + f(y)
  {
    if i == 0 {
      assert xs[i := y][1..] == xs[1..];
    } else {
      assert xs[i := y][1..] == xs[1..][i - 1 := y];
      SumUpdate(xs[1..], i - 1, y, f);
    }
  }

  lemma {:induction false} SumAtLeast<T>(xs: seq<T>, i: nat, f: T -> nat)
    requires i < |xs|
    ensures f(xs[i]) <= SumBy(xs, f)
  {
    if i > 0 {
      SumAtLeast(xs[1..], i - 1, f);
    }
  }

  lemma {:induction false} SumConstant<T>(xs: seq<T>, f: T -> nat, k: nat)
    requires forall i :: 0 <= i < |xs| ==> f(xs[i]) == k
    ensures SumBy(xs, f) == k * |xs|
  {
    if xs != [] {
      SumConstant(xs[1..], f, k);
    }
  }

  lemma {:induction false} SumAtMost<T>(xs: seq<T>, f: T -> nat, k: nat)
    requires forall i :: 0 <= i < |xs| ==> f(xs[i]) <= k
    ensures SumBy(xs, f) <= k * |xs|
  {
    if xs != [] {
      SumAtMost(xs[1..], f, k);
    }
  }
}
