/** Fitness-proportionate ("roulette wheel") selection helpers of the GA solver.
    Probabilities are exact reals; the floating-point rounding of the source is not modelled. */
module Roulette {

  /** Sum of a list, added left to right (the last element is added last). */
  function Sum(xs: seq<real>): real
  {
    if xs == [] then 0.0 else Sum(xs[..|xs| - 1]) + xs[|xs| - 1]
  }

  predicate NonNegative(xs: seq<real>)
  {
    forall i :: 0 <= i < |xs| ==> xs[i] >= 0.0
  }

  predicate Positive(xs: seq<real>)
  {
    forall i :: 0 <= i < |xs| ==> xs[i] > 0.0
  }

  /** Every value divided by `total` (the fitness list turned into a distribution). */
  function Normalise(xs: seq<real>, total: real): (d: seq<real>)
    requires total > 0.0
    ensures |d| == |xs|
    ensures Positive(xs) ==> Positive(d)
  {
    seq(|xs|, i requires 0 <= i < |xs| => xs[i] / total)
  }

  /** `points` are the splitting points of `dist`: entry i is the sum of dist[0..i]. */
  predicate IsSplittingPoints(dist: seq<real>, points: seq<real>)
  {
    |points| == |dist| && forall i :: 0 <= i < |points| ==> points[i] == Sum(dist[..i + 1])
  }

  /** The draw `next` picks index k: every earlier point lies below the draw, and unless k
      is the last index the point at k reaches it. */
  predicate Selects(points: seq<real>, next: real, k: int)
  {
    && 0 <= k < |points|
    && (forall i :: 0 <= i < k ==> next > points[i])
    && (k < |points| - 1 ==> next <= points[k])
  }

  /** RouletteSelectorSpliitingPOints: the running sums of the distribution. */
  method SplittingPoints(dist: seq<real>) returns (points: seq<real>)
    requires |dist| > 0
    ensures |points| == |dist|
    ensures points[0] == dist[0]
    ensures forall i :: 0 < i < |points| ==> points[i] == points[i - 1] + dist[i]
    ensures IsSplittingPoints(dist, points)
  {
    points := [dist[0]];
    for i := 1 to |dist|
      invariant |points| == i
      invariant points[0] == dist[0]
      invariant forall k :: 0 < k < i ==> points[k] == points[k - 1] + dist[k]
    {
      points := points + [points[i - 1] + dist[i]];
    }
    RunningSumsArePrefixSums(dist, points, |points|);
  }

  /** Sum of the first i + 1 values: the sum of the first i plus the value at i. */
  lemma SumSnoc(xs: seq<real>, i: nat)
    requires i < |xs|
    ensures Sum(xs[..i + 1]) == Sum(xs[..i]) + xs[i]
  {
    assert xs[..i + 1][..i] == xs[..i];
  }

  /** The recurrence points[0] = dist[0], points[k] = points[k-1] + dist[k] yields prefix sums. */
  lemma {:induction false} RunningSumsArePrefixSums(dist: seq<real>, points: seq<real>, n: nat)
    requires 0 < |dist| && |points| == |dist| && n <= |points|
    requires points[0] == dist[0]
    requires forall k :: 0 < k < |points| ==> points[k] == points[k - 1] + dist[k]
    ensures forall k :: 0 <= k < n ==> points[k] == Sum(dist[..k + 1])
  {
    if n == 1 {
      assert dist[..1] == [dist[0]];
      assert dist[..1][..0] == [];
    } else if n > 1 {
      RunningSumsArePrefixSums(dist, points, n - 1);
      assert points[n - 2] == Sum(dist[..n - 1]);
      SumSnoc(dist, n - 1);
      assert points[n - 1] == Sum(dist[..n]);
    }
  }

  /** GetIndexOfNextGreater: linear scan for the first point the draw does not exceed,
      stopping at the last index. The point is read before the bound is tested, as in the source. */
  method IndexOfNextGreater(points: seq<real>, next: real) returns (k: nat)
    requires |points| > 0
    ensures Selects(points, next, k)
  {
    k := 0;
    while next > points[k] && k < |points| - 1
      invariant 0 <= k < |points|
      invariant forall i :: 0 <= i < k ==> next > points[i]
      decreases |points| - k
    {
      k := k + 1;
    }
  }

  /** A sum of non-negative values grows with the prefix taken. */
  lemma {:induction false} SumPrefixMonotone(xs: seq<real>, i: nat, j: nat)
    requires NonNegative(xs) && i <= j <= |xs|
    ensures Sum(xs[..i]) <= Sum(xs[..j])
  {
    if i < j {
      SumPrefixMonotone(xs, i, j - 1);
      assert xs[..j][..j - 1] == xs[..j - 1];
    }
  }

  /** With a non-negative distribution the splitting points never decrease. */
  lemma SplittingPointsNonDecreasing(dist: seq<real>, points: seq<real>)
    requires NonNegative(dist) && IsSplittingPoints(dist, points)
    ensures forall i, j :: 0 <= i <= j < |points| ==> points[i] <= points[j]
  {
    forall i, j | 0 <= i <= j < |points|
      ensures points[i] <= points[j]
    {
      SumPrefixMonotone(dist, i + 1, j + 1);
    }
  }

  /** The last splitting point is the total of the distribution, and sector k is exactly
      dist[k] wide. */
  lemma SplittingPointsSectors(dist: seq<real>, points: seq<real>)
    requires |dist| > 0 && IsSplittingPoints(dist, points)
    ensures points[|points| - 1] == Sum(dist)
    ensures forall k :: 0 < k < |points| ==> points[k] - points[k - 1] == dist[k]
  {
    assert dist[..|dist|] == dist;
    forall k | 0 < k < |points|
      ensures points[k] - points[k - 1] == dist[k]
    {
      assert dist[..k + 1][..k] == dist[..k];
    }
  }

  /** All values positive and at least one of them: the total is positive. */
  lemma {:induction false} SumPositive(xs: seq<real>)
    requires |xs| > 0 && Positive(xs)
    ensures Sum(xs) > 0.0
  {
    if |xs| > 1 {
      SumPositive(xs[..|xs| - 1]);
    }
  }

  /** Dividing every value by the total divides the sum by it. */
  lemma {:induction false} SumNormalise(xs: seq<real>, total: real)
    requires total > 0.0
    ensures Sum(Normalise(xs, total)) == Sum(xs) / total
  {
    if xs != [] {
      var n := |xs| - 1;
      var d := Normalise(xs, total);
      assert d[..n] == Normalise(xs[..n], total);
      SumNormalise(xs[..n], total);
      assert Sum(d) == Sum(d[..n]) + d[n];
      assert d[n] == xs[n] / total;
      DivideSum(Sum(xs[..n]), xs[n], total);
    }
  }

  /** Two arithmetic steps of the proofs above. Dafny proves each on its own; they are separate
      lemmas so that the division is reasoned about apart from the facts about `Sum`. */
  lemma DivideSum(a: real, b: real, total: real)
    requires total > 0.0
    ensures a / total + b / total == (a + b) / total
  {
  }

  lemma DivideSelf(total: real)
    requires total > 0.0
    ensures total / total == 1.0
  {
  }

  /** A distribution obtained by normalising positive fitness values sums to exactly 1, so
      its last splitting point is 1. */
  lemma NormalisedSumsToOne(xs: seq<real>)
    requires |xs| > 0 && Positive(xs)
    ensures Sum(xs) > 0.0 && Sum(Normalise(xs, Sum(xs))) == 1.0
  {
    var total := Sum(xs);
    SumPositive(xs);
    SumNormalise(xs, total);
    DivideSelf(total);
  }

  /** At most one index satisfies the scan's postcondition for a given draw. */
  lemma SelectsUnique(points: seq<real>, next: real, k1: int, k2: int)
    requires Selects(points, next, k1) && Selects(points, next, k2)
    ensures k1 == k2
  {
  }

  /** When the draw does not exceed the last splitting point, the index found is the sector
      the draw falls in: above the previous point and not above its own. */
  lemma SelectsSector(points: seq<real>, next: real, k: int)
    requires |points| > 0 && next <= points[|points| - 1]
    requires Selects(points, next, k)
    ensures next <= points[k]
    ensures k > 0 ==> points[k - 1] < next
  {
  }

  /** With a distribution of positive shares and a draw in [0, 1), the scan picks the
      individual whose sector (points[k-1], points[k]] contains the draw. */
  lemma RouletteWheel(dist: seq<real>, points: seq<real>, next: real, k: int)
    requires |dist| > 0 && Sum(dist) == 1.0 && IsSplittingPoints(dist, points)
    requires 0.0 <= next < 1.0 && Selects(points, next, k)
    ensures next <= points[k] && (k == 0 || points[k - 1] < next)
    ensures k == 0 || points[k] - points[k - 1] == dist[k]
  {
    SplittingPointsSectors(dist, points);
    SelectsSector(points, next, k);
  }
}
