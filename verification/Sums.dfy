/** Sums over sequences of natural numbers, and their smallest elements. */
module Sums {

  ghost function Sum(xs: seq<nat>): nat
  {
    if xs == [] then 0 else xs[0] + Sum(xs[1..])
  }

  lemma {:induction false} SumUpdate(xs: seq<nat>, i: nat, v: nat)
    requires i < |xs|
    ensures Sum(xs[i := v]) == Sum(xs) - xs[i] + v
  {
    if i > 0 {
      SumUpdate(xs[1..], i - 1, v);
      assert xs[i := v][1..] == xs[1..][i - 1 := v];
    } else {
      assert xs[i := v][1..] == xs[1..];
    }
  }

  lemma {:induction false} SumBound(xs: seq<nat>, c: nat)
    requires forall i :: 0 <= i < |xs| ==> xs[i] <= c
    ensures Sum(xs) <= |xs| * c
    ensures Sum(xs) == |xs| * c ==> forall i :: 0 <= i < |xs| ==> xs[i] == c
  {
    if xs != [] {
      SumBound(xs[1..], c);
      assert |xs| * c == (|xs| - 1) * c + c;
      assert forall i :: 0 < i < |xs| ==> xs[i] == xs[1..][i - 1];
    }
  }

  lemma {:induction false} SumOfEqual(xs: seq<nat>, c: nat)
    requires forall i :: 0 <= i < |xs| ==> xs[i] == c
    ensures Sum(xs) == |xs| * c
  {
    if xs != [] {
      SumOfEqual(xs[1..], c);
      assert |xs| * c == (|xs| - 1) * c + c;
    }
  }

  /** A smallest element. */
  lemma {:induction false} Slowest(xs: seq<nat>, r: nat) returns (m: nat)
    requires r < |xs|
    ensures m < |xs| && xs[m] <= xs[r]
    ensures forall i :: 0 <= i < |xs| ==> xs[m] <= xs[i]
    decreases xs[r]
  {
    if i: nat :| i < |xs| && xs[i] < xs[r] {
      m := Slowest(xs, i);
    } else {
      m := r;
    }
  }
}
