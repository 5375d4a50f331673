/**
 * Correlation of a two-dimensional extreme measure: the bivariate expectation
 * E[XY] accumulated over the support, its centring by the supplied means, and
 * the (max, min) pair read off the two 2-D extreme measures.
 */
module Correlations {

  import opened EmpiricalDistributions

  /** A point of the integer lattice, one coordinate per dimension. */
  type LatticePoint = seq<int>

  /** The product of a point's coordinates (c0 * c1 in dimension 2). */
  function Product(p: LatticePoint): int
  {
    if |p| == 0 then 1 else Product(p[..|p| - 1]) * p[|p| - 1]
  }

  lemma ProductOfPair(a: int, b: int)
    ensures Product([a, b]) == a * b
  {
    assert [a, b][..1] == [a];
    assert [a][..0] == [];
    assert Product([a]) == Product([]) * a == a;
  }

  /** The sum of product(support[i]) * weights[i] over the first k points. */
  function ExpectationUpTo(support: seq<LatticePoint>, weights: seq<real>, k: nat): real
    requires k <= |support| && k <= |weights|
  {
    if k == 0 then 0.0
    else ExpectationUpTo(support, weights, k - 1) + (Product(support[k - 1]) as real) * weights[k - 1]
  }

  /** The bivariate expectation over every support point. */
  function Expectation(support: seq<LatticePoint>, weights: seq<real>): real
    requires |support| <= |weights|
  {
    ExpectationUpTo(support, weights, |support|)
  }

  /**
   * detail::bivariate_expectation: asserts that the first support point has
   * dimension 2 (only that one is checked) and accumulates
   * product(support[i]) * weights[i] for every index of the support; the
   * weights are indexed alongside, so there must be at least as many.
   */
  method BivariateExpectation(support: seq<LatticePoint>, weights: seq<real>) returns (bivarexp: real)
    requires |support| > 0 && |support[0]| == 2
    requires |support| <= |weights|
    ensures bivarexp == Expectation(support, weights)
  {
    bivarexp := 0.0;
    var i := 0;
    while i < |support|
      invariant 0 <= i <= |support|
      invariant bivarexp == ExpectationUpTo(support, weights, i)
    {
      bivarexp := bivarexp + (Product(support[i]) as real) * weights[i];
      i := i + 1;
    }
  }

  /** All-zero weights give expectation 0. */
  lemma {:induction false} ZeroWeightsZeroExpectation(support: seq<LatticePoint>, weights: seq<real>, k: nat)
    requires k <= |support| && k <= |weights|
    requires forall i :: 0 <= i < |weights| ==> weights[i] == 0.0
    ensures ExpectationUpTo(support, weights, k) == 0.0
  {
    if k > 0 {
      ZeroWeightsZeroExpectation(support, weights, k - 1);
    }
  }

  /** The pointwise combination a * w1 + b * w2 of two weight vectors. */
  function Combine(a: real, w1: seq<real>, b: real, w2: seq<real>): (w: seq<real>)
    requires |w1| == |w2|
    ensures |w| == |w1|
  {
    seq(|w1|, i requires 0 <= i < |w1| => a * w1[i] + b * w2[i])
  }

  lemma LinearTerm(p: real, a: real, x: real, b: real, y: real)
    ensures p * (a * x + b * y) == a * (p * x) + b * (p * y)
  {
  }

  lemma LinearRegroup(e: real, t: real, e1: real, e2: real, t1: real, t2: real, a: real, b: real)
    requires e == a * e1 + b * e2 && t == a * t1 + b * t2
    ensures e + t == a * (e1 + t1) + b * (e2 + t2)
  {
  }

  predicate LinearUpTo(support: seq<LatticePoint>, a: real, w1: seq<real>, b: real, w2: seq<real>, k: nat)
    requires |w1| == |w2| && k <= |support| && k <= |w1|
  {
    ExpectationUpTo(support, Combine(a, w1, b, w2), k)
      == a * ExpectationUpTo(support, w1, k) + b * ExpectationUpTo(support, w2, k)
  }

  lemma LinearStep(support: seq<LatticePoint>, a: real, w1: seq<real>, b: real, w2: seq<real>, k: nat)
    requires |w1| == |w2| && 0 < k <= |support| && k <= |w1|
    requires LinearUpTo(support, a, w1, b, w2, k - 1)
    ensures LinearUpTo(support, a, w1, b, w2, k)
  {
    var p := Product(support[k - 1]) as real;
    var x, y := w1[k - 1], w2[k - 1];
    LinearTerm(p, a, x, b, y);
    LinearRegroup(ExpectationUpTo(support, Combine(a, w1, b, w2), k - 1), p * (a * x + b * y),
                  ExpectationUpTo(support, w1, k - 1), ExpectationUpTo(support, w2, k - 1),
                  p * x, p * y, a, b);
  }

  /** The bivariate expectation is linear in the weight vector. */
  lemma {:induction false} ExpectationLinear(support: seq<LatticePoint>, a: real, w1: seq<real>, b: real, w2: seq<real>, k: nat)
    requires |w1| == |w2| && k <= |support| && k <= |w1|
    ensures LinearUpTo(support, a, w1, b, w2, k)
  {
    if k > 0 {
      ExpectationLinear(support, a, w1, b, w2, k - 1);
      LinearStep(support, a, w1, b, w2, k);
    }
  }

  // ---------------------------------------------------------------------------
  // Centring: the correlation numerator is a covariance
  // ---------------------------------------------------------------------------

  /** Every one of the first k points has dimension 2. */
  predicate TwoDimensional(support: seq<LatticePoint>, k: nat)
    requires k <= |support|
  {
    forall i :: 0 <= i < k ==> |support[i]| == 2
  }

  /** The sum of weights[i] * support[i][d] over the first k points: an unnormalised coordinate mean. */
  function CoordinateUpTo(support: seq<LatticePoint>, weights: seq<real>, d: nat, k: nat): real
    requires k <= |support| && k <= |weights| && d < 2 && TwoDimensional(support, k)
  {
    if k == 0 then 0.0
    else CoordinateUpTo(support, weights, d, k - 1) + weights[k - 1] * (support[k - 1][d] as real)
  }

  /** The sum of weights[i] * (x_i - a) * (y_i - b) over the first k points. */
  function CovarianceUpTo(support: seq<LatticePoint>, weights: seq<real>, a: real, b: real, k: nat): real
    requires k <= |support| && k <= |weights| && TwoDimensional(support, k)
  {
    if k == 0 then 0.0
    else
      var x, y := support[k - 1][0] as real, support[k - 1][1] as real;
      CovarianceUpTo(support, weights, a, b, k - 1) + weights[k - 1] * (x - a) * (y - b)
  }

  predicate CentredUpTo(support: seq<LatticePoint>, weights: seq<real>, a: real, b: real, k: nat)
    requires k <= |support| && k <= |weights| && TwoDimensional(support, k)
  {
    CovarianceUpTo(support, weights, a, b, k)
      == ExpectationUpTo(support, weights, k) - a * CoordinateUpTo(support, weights, 1, k)
         - b * CoordinateUpTo(support, weights, 0, k) + a * b * Sum(weights[..k])
  }

  lemma CentredTerm(w: real, x: int, y: int, a: real, b: real)
    ensures w * (x as real - a) * (y as real - b)
            == (Product([x, y]) as real) * w - a * (w * (y as real)) - b * (w * (x as real)) + a * b * w
  {
    ProductOfPair(x, y);
    assert (x * y) as real == (x as real) * (y as real);
  }

  lemma CentredRegroup(c: real, t: real, e: real, ey: real, ex: real, m: real,
                       te: real, ty: real, tx: real, tm: real, a: real, b: real)
    requires c == e - a * ey - b * ex + a * b * m
    requires t == te - a * ty - b * tx + a * b * tm
    ensures c + t == (e + te) - a * (ey + ty) - b * (ex + tx) + a * b * (m + tm)
  {
  }

  lemma CentredStep(support: seq<LatticePoint>, weights: seq<real>, a: real, b: real, k: nat)
    requires 0 < k <= |support| && k <= |weights| && TwoDimensional(support, k)
    requires CentredUpTo(support, weights, a, b, k - 1)
    ensures CentredUpTo(support, weights, a, b, k)
  {
    var w, p := weights[k - 1], support[k - 1];
    var x, y := p[0], p[1];
    assert p == [x, y];
    CentredTerm(w, x, y, a, b);
    SumSnoc(weights[..k - 1], w);
    assert weights[..k - 1] + [w] == weights[..k];
    CentredRegroup(CovarianceUpTo(support, weights, a, b, k - 1), w * (x as real - a) * (y as real - b),
                   ExpectationUpTo(support, weights, k - 1), CoordinateUpTo(support, weights, 1, k - 1),
                   CoordinateUpTo(support, weights, 0, k - 1), Sum(weights[..k - 1]),
                   (Product(p) as real) * w, w * (y as real), w * (x as real), w, a, b);
  }

  /** E[(X - a)(Y - b)] = E[XY] - a E[Y] - b E[X] + ab, over every prefix. */
  lemma {:induction false} CentredExpansion(support: seq<LatticePoint>, weights: seq<real>, a: real, b: real, k: nat)
    requires k <= |support| && k <= |weights| && TwoDimensional(support, k)
    ensures CentredUpTo(support, weights, a, b, k)
  {
    if k > 0 {
      CentredExpansion(support, weights, a, b, k - 1);
      CentredStep(support, weights, a, b, k);
    }
  }

  /**
   * When every point is two-dimensional, the weights total 1 and the supplied
   * means are the measure's coordinate means, the correlation numerator
   * E[XY] - means[0] * means[1] is the covariance of the measure.
   */
  lemma NumeratorIsCovariance(support: seq<LatticePoint>, weights: seq<real>, means: seq<real>)
    requires |support| == |weights| && |means| >= 2 && TwoDimensional(support, |support|)
    requires Sum(weights) == 1.0
    requires means[0] == CoordinateUpTo(support, weights, 0, |support|)
    requires means[1] == CoordinateUpTo(support, weights, 1, |support|)
    ensures Expectation(support, weights) - means[0] * means[1]
            == CovarianceUpTo(support, weights, means[0], means[1], |support|)
  {
    CentredExpansion(support, weights, means[0], means[1], |support|);
    assert weights[..|support|] == weights;
  }

  // ---------------------------------------------------------------------------
  // Correlation
  // ---------------------------------------------------------------------------

  /** A double quotient: finite, or an infinity/NaN from a zero denominator. */
  datatype Ratio = Finite(value: real) | NonFinite

  function Divide(numerator: real, denominator: real): Ratio
  {
    if denominator == 0.0 then NonFinite else Finite(numerator / denominator)
  }

  /** What detail::correlation and bivariate_expectation need of their arguments. */
  predicate Correlatable(support: seq<LatticePoint>, weights: seq<real>, means: seq<real>, variances: seq<real>)
  {
    |support| > 0 && |support[0]| == 2 && |support| <= |weights| && |means| >= 2 && |variances| >= 2
  }

  /**
   * detail::correlation: (E[XY] - means[0] * means[1]) / sqrt(variances[0] * variances[1]),
   * with the square root left abstract.
   */
  function Correlation(support: seq<LatticePoint>, weights: seq<real>, means: seq<real>, variances: seq<real>,
                       sqrt: real -> real): (r: Ratio)
    requires Correlatable(support, weights, means, variances)
    ensures r.Finite? <==> sqrt(variances[0] * variances[1]) != 0.0
    ensures r.Finite? ==>
              r.value * sqrt(variances[0] * variances[1]) == Expectation(support, weights) - means[0] * means[1]
  {
    Divide(Expectation(support, weights) - means[0] * means[1], sqrt(variances[0] * variances[1]))
  }

  /** Exchanges the two coordinates of every two-dimensional point. */
  function SwapCoordinates(support: seq<LatticePoint>): (r: seq<LatticePoint>)
    ensures |r| == |support|
  {
    seq(|support|, i requires 0 <= i < |support| =>
      if |support[i]| == 2 then [support[i][1], support[i][0]] else support[i])
  }

  lemma {:induction false} SwapKeepsExpectation(support: seq<LatticePoint>, weights: seq<real>, k: nat)
    requires k <= |support| && k <= |weights|
    ensures ExpectationUpTo(SwapCoordinates(support), weights, k) == ExpectationUpTo(support, weights, k)
  {
    if k > 0 {
      SwapKeepsExpectation(support, weights, k - 1);
      var p := support[k - 1];
      if |p| == 2 {
        ProductOfPair(p[0], p[1]);
        ProductOfPair(p[1], p[0]);
        assert p == [p[0], p[1]];
      }
    }
  }

  /** Correlation depends on the means and variances only through their products. */
  lemma CorrelationCongruent(support: seq<LatticePoint>, swapped: seq<LatticePoint>, weights: seq<real>,
                             means: seq<real>, ms: seq<real>, variances: seq<real>, vs: seq<real>, sqrt: real -> real)
    requires Correlatable(support, weights, means, variances) && Correlatable(swapped, weights, ms, vs)
    requires Expectation(swapped, weights) == Expectation(support, weights)
    requires ms[0] * ms[1] == means[0] * means[1] && vs[0] * vs[1] == variances[0] * variances[1]
    ensures Correlation(swapped, weights, ms, vs, sqrt) == Correlation(support, weights, means, variances, sqrt)
  {
  }

  /** Correlation is symmetric: exchanging the coordinates, means and variances gives the same value. */
  lemma CorrelationSymmetric(support: seq<LatticePoint>, weights: seq<real>, means: seq<real>, variances: seq<real>,
                             sqrt: real -> real)
    requires Correlatable(support, weights, means, variances)
    ensures Correlation(SwapCoordinates(support), weights, [means[1], means[0]], [variances[1], variances[0]], sqrt)
            == Correlation(support, weights, means, variances, sqrt)
  {
    SwapKeepsExpectation(support, weights, |support|);
    var swapped := SwapCoordinates(support);
    var ms, vs := [means[1], means[0]], [variances[1], variances[0]];
    assert |swapped[0]| == 2;
    assert ms[0] * ms[1] == means[0] * means[1];
    assert vs[0] * vs[1] == variances[0] * variances[1];
    CorrelationCongruent(support, swapped, weights, means, ms, variances, vs, sqrt);
  }

  // ---------------------------------------------------------------------------
  // Extreme measures
  // ---------------------------------------------------------------------------

  /**
   * The fields of an extreme measure that the correlation code reads: the
   * support and weights, the sign pattern it was built for, and the
   * caller-supplied per-dimension means and variances.
   */
  datatype ExtremeMeasure = ExtremeMeasure(
    support: seq<LatticePoint>,
    weights: seq<real>,
    monotoneStructure: seq<int>,
    means: seq<real>,
    variances: seq<real>)
  {
    predicate IsCorrelatable()
    {
      Correlatable(support, weights, means, variances)
    }
  }

  /** correlation(em): forwards the measure's support, weights, means and variances. */
  function CorrelationOf(em: ExtremeMeasure, sqrt: real -> real): (r: Ratio)
    requires em.IsCorrelatable()
    ensures r == Correlation(em.support, em.weights, em.means, em.variances, sqrt)
  {
    Correlation(em.support, em.weights, em.means, em.variances, sqrt)
  }

  /**
   * correlations(em): reserves room for one value per coordinate pair, but
   * its loop body is empty, so the vector it returns has no elements.
   */
  function Correlations(em: ExtremeMeasure): (r: seq<real>)
    ensures |r| == 0
  {
    []
  }

  /**
   * poiss_correlation_bounds_2d: builds the 2-D extreme measures for the two
   * intensities and returns (correlation of the first, correlation of the
   * second), i.e. (max, min). The construction itself is a parameter.
   */
  function PoissCorrelationBounds2d(intensity1: real, intensity2: real,
                                    constructPoisson: seq<real> -> seq<ExtremeMeasure>,
                                    sqrt: real -> real): (bounds: (Ratio, Ratio))
    requires |constructPoisson([intensity1, intensity2])| >= 2
    requires constructPoisson([intensity1, intensity2])[0].IsCorrelatable()
    requires constructPoisson([intensity1, intensity2])[1].IsCorrelatable()
    ensures var ems := constructPoisson([intensity1, intensity2]);
            bounds.0 == CorrelationOf(ems[0], sqrt) && bounds.1 == CorrelationOf(ems[1], sqrt)
  {
    var poisson2dEms := constructPoisson([intensity1, intensity2]);
    var maxCorr := CorrelationOf(poisson2dEms[0], sqrt);
    var minCorr := CorrelationOf(poisson2dEms[1], sqrt);
    (maxCorr, minCorr)
  }
}
