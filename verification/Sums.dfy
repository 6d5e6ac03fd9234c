/** Sums of a natural-valued measure over a sequence, and the pigeonhole facts
    the collectors rely on. */
module Sums {

  function Sum<T>(f: T -> nat, xs: seq<T>): (s: nat)
  {
    if |xs| == 0 then 0 else Sum(f, xs[..|xs| - 1]) + f(xs[|xs| - 1])
  }

  lemma {:induction false} SumUpdate<T>(f: T -> nat, xs: seq<T>, i: nat, x: T)
    requires i < |xs|
    ensures Sum(f, xs[i := x]) + f(xs[i]) == Sum(f, xs) + f(x)
  {
    var n := |xs| - 1;
    if i == n {
      assert xs[i := x][..n] == xs[..n];
    } else {
      assert xs[i := x][..n] == xs[..n][i := x];
      SumUpdate(f, xs[..n], i, x);
    }
  }

  lemma {:induction false} SumAtMost<T>(f: T -> nat, xs: seq<T>, c: nat)
    requires forall i :: 0 <= i < |xs| ==> f(xs[i]) <= c
    ensures Sum(f, xs) <= c * |xs|
  {
    if |xs| == 0 {
    } else {
      SumAtMost(f, xs[..|xs| - 1], c);
      assert c * |xs| == c * (|xs| - 1) + c;
    }
  }

  lemma {:induction false} SumAtLeast<T>(f: T -> nat, xs: seq<T>, c: nat)
    requires forall i :: 0 <= i < |xs| ==> c <= f(xs[i])
    ensures c * |xs| <= Sum(f, xs)
  {
    if |xs| == 0 {
    } else {
      SumAtLeast(f, xs[..|xs| - 1], c);
      assert c * |xs| == c * (|xs| - 1) + c;
    }
  }

  /** All elements but one are at least `c`. */
  lemma {:induction false} SumAtLeastBut<T>(f: T -> nat, xs: seq<T>, c: nat, k: nat)
    requires k < |xs|
    requires forall i :: 0 <= i < |xs| && i != k ==> c <= f(xs[i])
    ensures c * (|xs| - 1) + f(xs[k]) <= Sum(f, xs)
  {
    var n := |xs| - 1;
    if k == n {
      SumAtLeast(f, xs[..n], c);
    } else {
      SumAtLeastBut(f, xs[..n], c, k);
      assert c * n == c * (n - 1) + c;
    }
  }

  lemma SumPrefix<T>(f: T -> nat, xs: seq<T>, n: nat)
    requires 0 < n <= |xs|
    ensures Sum(f, xs[..n]) == Sum(f, xs[..n - 1]) + f(xs[n - 1])
  {
    assert xs[..n][..n - 1] == xs[..n - 1];
  }

  /** A sequence of zeroes sums to zero. */
  lemma {:induction false} SumZero<T>(f: T -> nat, xs: seq<T>)
    requires forall i :: 0 <= i < |xs| ==> f(xs[i]) == 0
    ensures Sum(f, xs) == 0
  {
    if |xs| == 0 {
    } else {
      SumZero(f, xs[..|xs| - 1]);
    }
  }
}
