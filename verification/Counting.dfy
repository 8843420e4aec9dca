/** How many elements of a sequence satisfy a predicate. */
module Counting {

  function Count<X>(xs: seq<X>, p: X -> bool): (n: nat)
    ensures n <= |xs|
  {
    if xs == [] then 0 else Count(xs[..|xs| - 1], p) + (if p(xs[|xs| - 1]) then 1 else 0)
  }

  /** Replacing one element changes the count by what the two elements contribute. */
  lemma {:induction false} CountUpdate<X>(xs: seq<X>, i: nat, x: X, p: X -> bool)
    requires i < |xs|
    ensures Count(xs[i := x], p) == Count(xs, p) - (if p(xs[i]) then 1 else 0) + (if p(x) then 1 else 0)
  {
    var last := |xs| - 1;
    if i < last {
      CountUpdate(xs[..last], i, x, p);
      assert xs[i := x][..last] == xs[..last][i := x];
    } else {
      assert xs[i := x][..last] == xs[..last];
    }
  }

  lemma {:induction false} CountPositive<X>(xs: seq<X>, p: X -> bool, i: nat)
    requires i < |xs| && p(xs[i])
    ensures Count(xs, p) > 0
  {
    if i < |xs| - 1 {
      CountPositive(xs[..|xs| - 1], p, i);
    }
  }

  lemma {:induction false} CountWitness<X>(xs: seq<X>, p: X -> bool) returns (i: nat)
    requires Count(xs, p) > 0
    ensures i < |xs| && p(xs[i])
  {
    if p(xs[|xs| - 1]) {
      i := |xs| - 1;
    } else {
      i := CountWitness(xs[..|xs| - 1], p);
    }
  }

  /** A full count means every element. */
  lemma {:induction false} CountAll<X>(xs: seq<X>, p: X -> bool, i: nat)
    requires i < |xs| == Count(xs, p)
    ensures p(xs[i])
  {
    if i < |xs| - 1 {
      CountAll(xs[..|xs| - 1], p, i);
    }
  }

  lemma {:induction false} CountNone<X>(xs: seq<X>, p: X -> bool)
    requires forall i :: 0 <= i < |xs| ==> !p(xs[i])
    ensures Count(xs, p) == 0
  {
    if xs != [] {
      CountNone(xs[..|xs| - 1], p);
    }
  }

  lemma CountAppend<X>(xs: seq<X>, x: X, p: X -> bool)
    ensures Count(xs + [x], p) == Count(xs, p) + (if p(x) then 1 else 0)
  {
    assert (xs + [x])[..|xs|] == xs;
  }
}
