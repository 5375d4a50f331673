/**
 * Discretised one-dimensional marginals: weights over a support, the tail
 * correction that makes the weights total exactly 1, the moment folds, and
 * arrays of marginals. Weights are exact reals rather than IEEE doubles.
 */
module EmpiricalDistributions {

  /** Left fold of + from 0.0: the order in which `std::accumulate` adds. */
  function Sum(s: seq<real>): real
  {
    if |s| == 0 then 0.0 else Sum(s[..|s| - 1]) + s[|s| - 1]
  }

  /** Sum of a sequence extended by one element. */
  lemma SumSnoc(s: seq<real>, x: real)
    ensures Sum(s + [x]) == Sum(s) + x
  {
    assert (s + [x])[..|s|] == s;
  }

  // ---------------------------------------------------------------------------
  // Tail correction (edit_sum_1)
  // ---------------------------------------------------------------------------

  /** The vector `edit_sum_1` leaves behind: the last entry replaced by one minus the sum of the others. */
  function WithUnitTotal(v: seq<real>): (r: seq<real>)
    requires |v| > 0
    ensures |r| == |v|
  {
    v[..|v| - 1] + [1.0 - Sum(v[..|v| - 1])]
  }

  /** After the correction the entries total exactly 1. */
  lemma UnitTotal(v: seq<real>)
    requires |v| > 0
    ensures Sum(WithUnitTotal(v)) == 1.0
  {
    SumSnoc(v[..|v| - 1], 1.0 - Sum(v[..|v| - 1]));
  }

  /** The correction touches only the last entry: every other entry is kept. */
  lemma OnlyLastChanges(v: seq<real>, i: nat)
    requires |v| > 0 && i < |v| - 1
    ensures WithUnitTotal(v)[i] == v[i]
  {
  }

  /** Correcting twice is correcting once. */
  lemma CorrectionIdempotent(v: seq<real>)
    requires |v| > 0
    ensures WithUnitTotal(WithUnitTotal(v)) == WithUnitTotal(v)
  {
    var w := WithUnitTotal(v);
    assert w[..|w| - 1] == v[..|v| - 1];
  }

  /**
   * edit_sum_1: overwrites the last entry of the caller's vector with one
   * minus the sum of the others. edit_sum_1 indexes `size - 1`, so the
   * vector must not be empty.
   */
  method EditSum1(v: array<real>)
    requires v.Length > 0
    modifies v
    ensures v[..] == WithUnitTotal(old(v[..]))
  {
    var size := v.Length;
    var sumNMinus1 := 0.0;
    var i := 0;
    while i < size - 1
      invariant 0 <= i <= size - 1
      invariant v[..] == old(v[..])
      invariant sumNMinus1 == Sum(v[..i])
    {
      assert v[..i + 1][..i] == v[..i];
      sumNMinus1 := sumNMinus1 + v[i];
      i := i + 1;
    }
    v[size - 1] := 1.0 - sumNMinus1;
    assert v[..] == old(v[..])[..size - 1] + [1.0 - sumNMinus1];
  }

  // ---------------------------------------------------------------------------
  // Moments
  // ---------------------------------------------------------------------------

  /** x^n for a natural exponent. */
  function Pow(x: real, n: nat): real
  {
    if n == 0 then 1.0 else Pow(x, n - 1) * x
  }

  function Min(a: nat, b: nat): nat
  {
    if a <= b then a else b
  }

  /** Number of pairs the zip of weights and support visits: it stops at the shorter one. */
  function ZipLength(weights: seq<real>, support: seq<real>): nat
  {
    Min(|weights|, |support|)
  }

  /** The sum of w_i * s_i^n over the first k zipped pairs, added left to right. */
  function MomentUpTo(weights: seq<real>, support: seq<real>, n: nat, k: nat): real
    requires k <= |weights| && k <= |support|
  {
    if k == 0 then 0.0
    else MomentUpTo(weights, support, n, k - 1) + weights[k - 1] * Pow(support[k - 1], n)
  }

  /** The n-th raw moment over all zipped pairs. */
  function Moment(weights: seq<real>, support: seq<real>, n: nat): real
  {
    MomentUpTo(weights, support, n, ZipLength(weights, support))
  }

  /**
   * discrete_nth_moment: accumulates w * s^N over zip(weights, support). The
   * zip ends as soon as either iterator reaches its end (its equality is an
   * `||` over the components), so the loop visits the shorter length.
   */
  method DiscreteNthMoment(weights: seq<real>, support: seq<real>, n: nat) returns (moment: real)
    ensures moment == Moment(weights, support, n)
    ensures |weights| == 0 || |support| == 0 ==> moment == 0.0
  {
    moment := 0.0;
    var i := 0;
    while !(i == |weights| || i == |support|)
      invariant 0 <= i <= ZipLength(weights, support)
      invariant moment == MomentUpTo(weights, support, n, i)
      decreases |weights| - i
    {
      moment := moment + weights[i] * Pow(support[i], n);
      i := i + 1;
    }
  }

  /** MomentUpTo only reads the first k entries of each sequence. */
  lemma {:induction false} MomentUpToPrefix(w: seq<real>, s: seq<real>, w': seq<real>, s': seq<real>, n: nat, k: nat)
    requires k <= |w| && k <= |s| && k <= |w'| && k <= |s'|
    requires w[..k] == w'[..k] && s[..k] == s'[..k]
    ensures MomentUpTo(w, s, n, k) == MomentUpTo(w', s', n, k)
  {
    if k > 0 {
      assert w[..k - 1] == w[..k][..k - 1];
      assert w'[..k - 1] == w'[..k][..k - 1];
      assert s[..k - 1] == s[..k][..k - 1];
      assert s'[..k - 1] == s'[..k][..k - 1];
      assert w[k - 1] == w[..k][k - 1] && w'[k - 1] == w'[..k][k - 1];
      assert s[k - 1] == s[..k][k - 1] && s'[k - 1] == s'[..k][k - 1];
      MomentUpToPrefix(w, s, w', s', n, k - 1);
    }
  }

  /** The moment of mismatched sequences is the moment of their common-length prefixes. */
  lemma ZipStopsAtShorter(weights: seq<real>, support: seq<real>, n: nat)
    ensures var m := ZipLength(weights, support);
            Moment(weights, support, n) == Moment(weights[..m], support[..m], n)
  {
    var m := ZipLength(weights, support);
    assert ZipLength(weights[..m], support[..m]) == m;
    MomentUpToPrefix(weights, support, weights[..m], support[..m], n, m);
  }

  /** With exponent 0 the moment is the total weight over the zipped prefix. */
  lemma {:induction false} ZerothMomentUpToIsMass(weights: seq<real>, support: seq<real>, k: nat)
    requires k <= |weights| && k <= |support|
    ensures MomentUpTo(weights, support, 0, k) == Sum(weights[..k])
  {
    if k > 0 {
      ZerothMomentUpToIsMass(weights, support, k - 1);
      assert weights[..k][..k - 1] == weights[..k - 1];
    }
  }

  lemma ZerothMomentIsMass(weights: seq<real>, support: seq<real>)
    ensures Moment(weights, support, 0) == Sum(weights[..ZipLength(weights, support)])
  {
    ZerothMomentUpToIsMass(weights, support, ZipLength(weights, support));
  }

  /** discrete_empirical_mean: the first moment. */
  function DiscreteEmpiricalMean(weights: seq<real>, support: seq<real>): real
  {
    Moment(weights, support, 1)
  }

  /** discrete_empirical_variance: the second moment minus the square of the mean. */
  function DiscreteEmpiricalVariance(weights: seq<real>, support: seq<real>): real
  {
    var mean := DiscreteEmpiricalMean(weights, support);
    Moment(weights, support, 2) - Pow(mean, 2)
  }

  /** The sum of w_i * (s_i - c)^2 over the first k zipped pairs. */
  function CentralUpTo(weights: seq<real>, support: seq<real>, c: real, k: nat): real
    requires k <= |weights| && k <= |support|
  {
    if k == 0 then 0.0
    else CentralUpTo(weights, support, c, k - 1) + weights[k - 1] * (support[k - 1] - c) * (support[k - 1] - c)
  }

  lemma PowSmall(x: real)
    ensures Pow(x, 0) == 1.0 && Pow(x, 1) == x && Pow(x, 2) == x * x
  {
  }

  /** One term of the central sum, expanded. */
  lemma ExpandTerm(w: real, x: real, c: real)
    ensures w * (x - c) * (x - c) == w * Pow(x, 2) - 2.0 * c * (w * Pow(x, 1)) + c * c * (w * Pow(x, 0))
  {
    PowSmall(x);
  }

  /** The expansion is additive: adding one expanded term to an expanded sum. */
  lemma Regroup(sum: real, term: real, a2: real, a1: real, a0: real, t2: real, t1: real, t0: real, c: real)
    requires sum == a2 - 2.0 * c * a1 + c * c * a0
    requires term == t2 - 2.0 * c * t1 + c * c * t0
    ensures sum + term == (a2 + t2) - 2.0 * c * (a1 + t1) + c * c * (a0 + t0)
  {
  }

  /** The central sum up to k, expanded: sum w(s - c)^2 = M2 - 2c M1 + c^2 M0. */
  predicate Expanded(weights: seq<real>, support: seq<real>, c: real, k: nat)
    requires k <= |weights| && k <= |support|
  {
    CentralUpTo(weights, support, c, k)
      == MomentUpTo(weights, support, 2, k) - 2.0 * c * MomentUpTo(weights, support, 1, k)
         + c * c * MomentUpTo(weights, support, 0, k)
  }

  /** The expansion carries over from k - 1 pairs to k pairs. */
  lemma CentralStep(weights: seq<real>, support: seq<real>, c: real, k: nat)
    requires 0 < k <= |weights| && k <= |support|
    requires Expanded(weights, support, c, k - 1)
    ensures Expanded(weights, support, c, k)
  {
    var w, x := weights[k - 1], support[k - 1];
    ExpandTerm(w, x, c);
    Regroup(CentralUpTo(weights, support, c, k - 1), w * (x - c) * (x - c),
            MomentUpTo(weights, support, 2, k - 1), MomentUpTo(weights, support, 1, k - 1),
            MomentUpTo(weights, support, 0, k - 1),
            w * Pow(x, 2), w * Pow(x, 1), w * Pow(x, 0), c);
  }

  /** Expanding the square holds over every prefix of the zipped pairs. */
  lemma {:induction false} CentralExpansion(weights: seq<real>, support: seq<real>, c: real, k: nat)
    requires k <= |weights| && k <= |support|
    ensures Expanded(weights, support, c, k)
  {
    if k > 0 {
      CentralExpansion(weights, support, c, k - 1);
      CentralStep(weights, support, c, k);
    }
  }

  /** With non-negative weights the central sum is non-negative. */
  lemma {:induction false} CentralNonNegative(weights: seq<real>, support: seq<real>, c: real, k: nat)
    requires k <= |weights| && k <= |support|
    requires forall i :: 0 <= i < k ==> weights[i] >= 0.0
    ensures CentralUpTo(weights, support, c, k) >= 0.0
  {
    if k > 0 {
      CentralNonNegative(weights, support, c, k - 1);
      var d := support[k - 1] - c;
      assert d * d >= 0.0;
      assert weights[k - 1] * d * d == weights[k - 1] * (d * d);
    }
  }

  /**
   * When the zipped weights total 1, the variance as computed (second moment
   * minus squared mean) is the weighted mean squared deviation from the mean.
   */
  lemma VarianceIsCentralMoment(weights: seq<real>, support: seq<real>)
    requires Sum(weights[..ZipLength(weights, support)]) == 1.0
    ensures DiscreteEmpiricalVariance(weights, support)
            == CentralUpTo(weights, support, DiscreteEmpiricalMean(weights, support), ZipLength(weights, support))
  {
    var m := ZipLength(weights, support);
    var mu := DiscreteEmpiricalMean(weights, support);
    CentralExpansion(weights, support, mu, m);
    ZerothMomentUpToIsMass(weights, support, m);
    PowSmall(mu);
  }

  /** For a probability vector the variance is never negative. */
  lemma VarianceNonNegative(weights: seq<real>, support: seq<real>)
    requires forall i :: 0 <= i < |weights| ==> weights[i] >= 0.0
    requires Sum(weights[..ZipLength(weights, support)]) == 1.0
    ensures DiscreteEmpiricalVariance(weights, support) >= 0.0
  {
    VarianceIsCentralMoment(weights, support);
    CentralNonNegative(weights, support, DiscreteEmpiricalMean(weights, support), ZipLength(weights, support));
  }

  /** Adding one non-negative weight at a point inside [lo, hi] keeps the bounds. */
  lemma BoundsRegroup(sum: real, moment: real, w: real, x: real, lo: real, hi: real)
    requires lo * sum <= moment <= hi * sum
    requires w >= 0.0 && lo <= x <= hi
    ensures lo * (sum + w) <= moment + w * x <= hi * (sum + w)
  {
    assert w * lo <= w * x <= w * hi;
    assert lo * (sum + w) == lo * sum + w * lo;
    assert hi * (sum + w) == hi * sum + w * hi;
  }

  /** Bounds on the first moment by the support's bounds, scaled by the mass. */
  lemma {:induction false} FirstMomentBounds(weights: seq<real>, support: seq<real>, lo: real, hi: real, k: nat)
    requires k <= |weights| && k <= |support|
    requires forall i :: 0 <= i < k ==> weights[i] >= 0.0 && lo <= support[i] <= hi
    ensures lo * Sum(weights[..k]) <= MomentUpTo(weights, support, 1, k) <= hi * Sum(weights[..k])
  {
    if k > 0 {
      FirstMomentBounds(weights, support, lo, hi, k - 1);
      assert weights[..k][..k - 1] == weights[..k - 1];
      var w, x := weights[k - 1], support[k - 1];
      PowSmall(x);
      BoundsRegroup(Sum(weights[..k - 1]), MomentUpTo(weights, support, 1, k - 1), w, x, lo, hi);
    }
  }

  /** For a probability vector the mean lies between the least and greatest support value. */
  lemma MeanWithinSupport(weights: seq<real>, support: seq<real>, lo: real, hi: real)
    requires forall i :: 0 <= i < |weights| ==> weights[i] >= 0.0
    requires forall i :: 0 <= i < |support| ==> lo <= support[i] <= hi
    requires Sum(weights[..ZipLength(weights, support)]) == 1.0
    ensures lo <= DiscreteEmpiricalMean(weights, support) <= hi
  {
    FirstMomentBounds(weights, support, lo, hi, ZipLength(weights, support));
  }

  // ---------------------------------------------------------------------------
  // EmpiricalDistribution and EmpDistrArray
  // ---------------------------------------------------------------------------

  /** A discretised marginal: weights[i] is the mass at support[i]. */
  datatype EmpiricalDistribution = EmpiricalDistribution(weights: seq<real>, support: seq<real>)
  {
    /** mean(): delegates to the first moment of (weights, support). */
    function Mean(): real
    {
      DiscreteEmpiricalMean(weights, support)
    }

    /** variance(): delegates to the variance of (weights, support). */
    function Variance(): real
    {
      DiscreteEmpiricalVariance(weights, support)
    }

    /** total_prob(): the sum of all weights. */
    function TotalProb(): real
    {
      Sum(weights)
    }

    /** Same-length weights and support, non-negative weights totalling 1. */
    predicate IsProbability()
    {
      |weights| == |support| && TotalProb() == 1.0 && forall i :: 0 <= i < |weights| ==> weights[i] >= 0.0
    }
  }

  /** The total mass of a marginal with no longer support than weights is its zeroth moment. */
  lemma TotalProbIsZerothMoment(d: EmpiricalDistribution)
    requires |d.weights| <= |d.support|
    ensures d.TotalProb() == Moment(d.weights, d.support, 0)
  {
    ZerothMomentIsMass(d.weights, d.support);
    assert d.weights[..ZipLength(d.weights, d.support)] == d.weights;
  }

  /** After the tail correction a non-empty marginal has total mass exactly 1. */
  lemma CorrectedTotalProb(d: EmpiricalDistribution)
    requires |d.weights| > 0
    ensures EmpiricalDistribution(WithUnitTotal(d.weights), d.support).TotalProb() == 1.0
  {
    UnitTotal(d.weights);
  }

  /** A probability marginal's variance is non-negative and its mean lies within its support's range. */
  lemma ProbabilityMoments(d: EmpiricalDistribution, lo: real, hi: real)
    requires d.IsProbability()
    requires forall i :: 0 <= i < |d.support| ==> lo <= d.support[i] <= hi
    ensures d.Variance() >= 0.0
    ensures lo <= d.Mean() <= hi
  {
    assert d.weights[..ZipLength(d.weights, d.support)] == d.weights;
    VarianceNonNegative(d.weights, d.support);
    MeanWithinSupport(d.weights, d.support, lo, hi);
  }

  /** One marginal per dimension, in dimension order. */
  datatype EmpDistrArray = EmpDistrArray(marginals: seq<EmpiricalDistribution>)
  {
    /** means(): one mean per marginal, in marginal order. */
    function Means(): (r: seq<real>)
      ensures |r| == |marginals|
      ensures forall i :: 0 <= i < |marginals| ==> r[i] == marginals[i].Mean()
    {
      seq(|marginals|, i requires 0 <= i < |marginals| => marginals[i].Mean())
    }

    /** variances(): one variance per marginal, in marginal order. */
    function Variances(): (r: seq<real>)
      ensures |r| == |marginals|
      ensures forall i :: 0 <= i < |marginals| ==> r[i] == marginals[i].Variance()
    {
      seq(|marginals|, i requires 0 <= i < |marginals| => marginals[i].Variance())
    }
  }

  /** The two per-marginal maps agree: entry i of variances() is the second moment minus the square of entry i of means(). */
  lemma VariancesFromMeans(a: EmpDistrArray, i: nat)
    requires i < |a.marginals|
    ensures var d := a.marginals[i];
            a.Variances()[i] == Moment(d.weights, d.support, 2) - a.Means()[i] * a.Means()[i]
  {
    PowSmall(a.Means()[i]);
  }

  // ---------------------------------------------------------------------------
  // Marginal builder (construct_discrete_EmpDistr)
  // ---------------------------------------------------------------------------

  /**
   * construct_discrete_EmpDistr: the support is 0, 1, ..., supportEnd - 1
   * (std::iota) and weights[i] is the distribution's pmf at support[i]
   * (std::transform, converting the support value to int). The distribution
   * is abstracted into its pmf.
   */
  method ConstructDiscreteEmpDistr(pdf: int -> real, supportEnd: nat) returns (d: EmpiricalDistribution)
    ensures |d.support| == supportEnd && |d.weights| == |d.support|
    ensures forall i :: 0 <= i < supportEnd ==> d.support[i] == i as real
    ensures forall i :: 0 <= i < supportEnd ==> d.weights[i] == pdf(i)
    ensures forall i, j :: 0 <= i < j < |d.support| ==> d.support[i] < d.support[j]
  {
    var support := new real[supportEnd];
    var value := 0.0;
    var i := 0;
    while i < support.Length
      invariant 0 <= i <= support.Length
      invariant value == i as real
      invariant forall k :: 0 <= k < i ==> support[k] == k as real
    {
      support[i] := value;
      value := value + 1.0;
      i := i + 1;
    }
    var weights := new real[support.Length];
    var j := 0;
    while j < support.Length
      invariant 0 <= j <= support.Length
      invariant forall k :: 0 <= k < support.Length ==> support[k] == k as real
      invariant forall k :: 0 <= k < j ==> weights[k] == pdf(k)
    {
      weights[j] := pdf(support[j].Floor);
      j := j + 1;
    }
    d := EmpiricalDistribution(weights[..], support[..]);
  }
}
