# EJD core in Dafny

EJD computes extreme points of the Fréchet class: joint discrete measures with given one-dimensional marginals, one per orientation (sign pattern), and from the two 2-D extreme measures the (max, min) correlation bounds. This project models four of its source files and the headers they implement: src/ExtremeMeasures.cxx, src/EmpiricalDistribution.cxx with include/EmpiricalDistribution.hpp, src/Correlation.cxx, and include/Utils/Range.hpp.

- **Monotonicity structure** (`monotone.dfy`, module `MonotonicityStructures`): the n × 2^(n−1) matrix of ±1 built by recursive doubling, whose columns are the orientations of the extreme points, and the `MonotonicityStructure` record that stores it once and reports its column count.
- **Discrete marginals** (`empirical.dfy`, module `EmpiricalDistributions`): the in-place tail correction `edit_sum_1` (a method over an array), the moment fold over a zip of weights and support (a method with a loop, proved equal to a specification function), mean and variance, `total_prob`, the per-marginal `means`/`variances` maps, and the marginal builder that fills an iota support and pmf weights (a method over freshly allocated arrays). Weights are exact reals; the pmf is a function parameter.
- **Correlation** (`correlation.dfy`, module `Correlations`): the bivariate-expectation accumulator loop, the correlation quotient with an abstract square root, the forwarding `correlation(em)`, `correlations(em)`, and the (max, min) pair of `poiss_correlation_bounds_2d`. A lattice point is a `seq<int>` and its product is the product of its coordinates.
- **Integer ranges** (`range.dfy`, module `Ranges`): the `range_iterator` class (`==`, `!=`, `<`, `++`, `*`), the closed-form `end()` computed with C's truncating division (written out, since Dafny's `/` and `%` are Euclidean), `begin()`, both `range` overloads, and the range-based `for` protocol that walks from `begin()` to `end()`.

Beyond restating each operation, the model proves: the columns of the monotonicity structure are exactly the ±1 vectors with first entry +1, each once; the tail correction totals exactly 1, touches only the last entry and is idempotent; the moment fold stops at the shorter sequence; variance equals the central second moment, so it is non-negative for a probability vector, and the mean lies within the support; the bivariate expectation is linear in the weights, and when the weights total 1 and the supplied means are the measure's coordinate means, the correlation numerator is the covariance; correlation is symmetric in the two coordinates; a forward range reaches `end()` after exactly ⌈(end−start)/inc⌉ increments.

The model follows the code: `construct_discrete_EmpDistr(d, K)` builds the K points 0 … K−1; `bivariate_expectation` checks the dimension of `support[0]` only; `poiss_correlation_bounds_2d` returns (correlation of measure 0, correlation of measure 1), i.e. (max, min), although the comment in include/Correlation.hpp:58 says "[min, max]"; `edit_sum_1` and `detail::correlation` follow their definitions in the `.cxx` files, not the header declarations.

## Model

| member | source | states |
|---|---|---|
| `MonotonicityStructures.ConstructMonotoneStruct` | src/ExtremeMeasures.cxx:6-33 | for n ≥ 2 the result has n rows of 2^(n−1) entries each; n < 2 is excluded because the recursion on n−1 never reaches the n = 2 base case |
| `MonotonicityStructures.BaseColumns` | src/ExtremeMeasures.cxx:8-14 | the n = 2 structure has columns (+1, +1) and (+1, −1) |
| `MonotonicityStructures.ColumnSplit` | src/ExtremeMeasures.cxx:17-29 | for n > 2, column j is column j of the (n−1)-structure extended by +1 when j < 2^(n−2), and column j − 2^(n−2) extended by −1 otherwise: top rows [M ∣ M], bottom row +1s then −1s |
| `MonotonicityStructures.EntriesAreSigns` | src/ExtremeMeasures.cxx:8-29 | every entry is +1 or −1 and row 0 is all +1 |
| `MonotonicityStructures.ColumnsAreSignPatterns` | src/ExtremeMeasures.cxx:8-29 | every column is a length-n ±1 vector whose first entry is +1 |
| `MonotonicityStructures.ColumnsDistinct` | src/ExtremeMeasures.cxx:17-29 | distinct column indices give distinct columns |
| `MonotonicityStructures.EveryPatternIsAColumn` | src/ExtremeMeasures.cxx:17-29 | every length-n ±1 vector with first entry +1 is some column, so the columns are exactly those vectors |
| `MonotonicityStructures.NewMonotonicityStructure` | src/ExtremeMeasures.cxx:35-42 | the stored matrix has dim rows and 2^(dim−1) columns, and `num_extremepts` returns 2^(dim−1) |
| `MonotonicityStructures.SizeExamples` | tests/single_src_tests/MonotonicityStructuresTest.cxx:30-84 | the column counts for n = 2, 3, 4, 5 are 2, 4, 8, 16 |
| `EmpiricalDistributions.EditSum1` | src/EmpiricalDistribution.cxx:9-22 | on a non-empty array, the new contents are the old ones with the last entry replaced by 1 minus the sum of the others |
| `EmpiricalDistributions.UnitTotal` | src/EmpiricalDistribution.cxx:15-21 | after the correction the entries sum to exactly 1 |
| `EmpiricalDistributions.OnlyLastChanges` | src/EmpiricalDistribution.cxx:15-21 | every entry but the last is unchanged by the correction |
| `EmpiricalDistributions.CorrectionIdempotent` | src/EmpiricalDistribution.cxx:15-21 | applying the correction a second time changes nothing |
| `EmpiricalDistributions.DiscreteNthMoment` | include/EmpiricalDistribution.hpp:25-34 | the loop over zip(weights, support) returns Σ wᵢ·sᵢ^N over the zipped pairs, and 0 when either sequence is empty |
| `EmpiricalDistributions.ZipStopsAtShorter` | include/EmpiricalDistribution.hpp:28-33 | the moment equals the moment of the two sequences cut to the shorter length |
| `EmpiricalDistributions.ZerothMomentIsMass` | include/EmpiricalDistribution.hpp:28-33 | with N = 0 the moment is the total weight over the zipped prefix |
| `EmpiricalDistributions.CentralExpansion` | include/EmpiricalDistribution.hpp:42-47 | over every prefix, Σ w(s − c)² = M₂ − 2c·M₁ + c²·M₀ |
| `EmpiricalDistributions.VarianceIsCentralMoment` | include/EmpiricalDistribution.hpp:42-47 | when the zipped weights total 1, second moment minus squared mean equals Σ w(s − mean)² |
| `EmpiricalDistributions.VarianceNonNegative` | include/EmpiricalDistribution.hpp:42-47 | for non-negative weights totalling 1 the variance is ≥ 0 |
| `EmpiricalDistributions.FirstMomentBounds` | include/EmpiricalDistribution.hpp:36-40 | with non-negative weights and support in [lo, hi], the first moment lies between lo and hi times the mass |
| `EmpiricalDistributions.MeanWithinSupport` | include/EmpiricalDistribution.hpp:36-40 | for a probability vector the mean (first moment) lies between the support's bounds |
| `EmpiricalDistributions.TotalProbIsZerothMoment` | src/EmpiricalDistribution.cxx:38-44 | `total_prob` (sum of all weights) equals the zeroth moment when the support is no shorter than the weights |
| `EmpiricalDistributions.CorrectedTotalProb` | src/EmpiricalDistribution.cxx:38-44 | a marginal whose weights went through the tail correction has `total_prob` exactly 1 |
| `EmpiricalDistributions.ProbabilityMoments` | src/EmpiricalDistribution.cxx:30-36 | `mean()` and `variance()`, delegating to the moment functions on (weights, support), give a non-negative variance and a mean inside the support's range for a probability marginal |
| `EmpiricalDistributions.EmpDistrArray.Means` | src/EmpiricalDistribution.cxx:60-73 | one value per marginal, in marginal order, entry i being marginal i's `mean()` |
| `EmpiricalDistributions.EmpDistrArray.Variances` | src/EmpiricalDistribution.cxx:75-88 | one value per marginal, in marginal order, entry i being marginal i's `variance()` |
| `EmpiricalDistributions.VariancesFromMeans` | src/EmpiricalDistribution.cxx:60-88 | entry i of `variances()` is marginal i's second moment minus the square of entry i of `means()` |
| `EmpiricalDistributions.ConstructDiscreteEmpDistr` | include/EmpiricalDistribution.hpp:66-84 | the support is 0, 1, …, K−1 (strictly ascending), the weights have the same length and weights[i] = pdf(i) |
| `Correlations.BivariateExpectation` | src/Correlation.cxx:36-45 | requires a non-empty support whose first point has dimension 2 and at least as many weights as points; returns Σ over every support index of product(point)·weight |
| `Correlations.ZeroWeightsZeroExpectation` | src/Correlation.cxx:40-44 | all-zero weights give expectation 0 |
| `Correlations.ExpectationLinear` | src/Correlation.cxx:40-44 | the expectation of a·w₁ + b·w₂ is a·E(w₁) + b·E(w₂) |
| `Correlations.CentredExpansion` | src/Correlation.cxx:40-44 | over every prefix of 2-D points, Σ w(x − a)(y − b) = E[XY] − a·ΣwY − b·ΣwX + ab·Σw |
| `Correlations.NumeratorIsCovariance` | src/Correlation.cxx:47-54 | with 2-D points, weights totalling 1 and means equal to the coordinate means, bivariate expectation − means[0]·means[1] is the covariance Σ w(x − m₀)(y − m₁) |
| `Correlations.Correlation` | src/Correlation.cxx:47-54 | the result is finite exactly when sqrt(variances[0]·variances[1]) ≠ 0, and then times that root it equals bivariate expectation − means[0]·means[1] |
| `Correlations.CorrelationSymmetric` | src/Correlation.cxx:47-54 | exchanging the two coordinates of every point together with the means and variances leaves the correlation unchanged |
| `Correlations.CorrelationOf` | src/Correlation.cxx:58-61 | `correlation(em)` is the correlation of em's support, weights, means and variances, unchanged |
| `Correlations.Correlations` | src/Correlation.cxx:70-83 | the returned vector is empty for every measure, since the loop over index pairs has an empty body and `reserve` adds no element |
| `Correlations.PoissCorrelationBounds2d` | src/Correlation.cxx:92-100 | the pair is (correlation of the first 2-D measure, correlation of the second), i.e. (max, min) |
| `Ranges.TruncDivision` | include/Utils/Range.hpp:55 | `lldiv` as modelled: range = inc·quot + rem, ∣rem∣ < ∣inc∣, and rem is 0 or has the sign of range |
| `Ranges.RangeIterator.constructor` | include/Utils/Range.hpp:32 | the iterator holds the given value and step |
| `Ranges.EqualityIgnoresStep` | include/Utils/Range.hpp:33-34 | `!=` is the negation of `==`, and `==` holds exactly when the current values (`*it`) agree, whatever the steps |
| `Ranges.PrecedesIsStrict` | include/Utils/Range.hpp:35 | `<` (value < when inc > 0, value > otherwise) is irreflexive and transitive for a fixed step |
| `Ranges.WalkIsOrdered` | include/Utils/Range.hpp:35-36 | the value after i increments is `<` the value after j increments whenever i < j, whatever the sign of the step |
| `Ranges.RangeIterator.Increment` | include/Utils/Range.hpp:36 | `++` adds the step to the value and leaves the step unchanged |
| `Ranges.RangeContainer.Begin` | include/Utils/Range.hpp:52 | `begin()` is a new iterator at m_start with step m_inc |
| `Ranges.RangeContainer.End` | include/Utils/Range.hpp:53-61 | requires m_inc ≠ 0; `end()` is a new iterator at m_end when the truncating remainder is 0, else at m_start + m_inc·(quot + 1) |
| `Ranges.EndIsWholeSteps` | include/Utils/Range.hpp:53-61 | `end()` is always m_start plus a whole number of steps, and is m_end itself when the remainder is 0 |
| `Ranges.UpwardWalk` | include/Utils/Range.hpp:53-61 | for inc > 0 and start ≤ end, `end()` is reached after Steps() ≥ 0 increments, is ≥ m_end, and every earlier value is < m_end |
| `Ranges.DownwardWalk` | include/Utils/Range.hpp:53-61 | for inc < 0 and start ≥ end, `end()` is reached after Steps() ≥ 0 increments, is ≤ m_end, and every earlier value is > m_end |
| `Ranges.WalkReachesEnd` | include/Utils/Range.hpp:53-61 | walking toward m_end, `++` from `begin()` meets `end()` after exactly Steps() = ⌈(end−start)/inc⌉ increments; every earlier value is strictly before m_end and differs from `end()` |
| `Ranges.Elements` | include/Utils/Range.hpp:33-61 | a range-based `for` over a forward range reads Steps() values, the j-th being start + j·inc, each strictly before m_end in the direction of the step |
| `Ranges.BackwardRangeNeverEnds` | include/Utils/Range.hpp:53-61 | with inc > 0, start > end and a whole number of steps between them, no number of increments from `begin()` reaches `end()` |
| `Ranges.FiveDownToZeroNeverEnds` | include/Utils/Range.hpp:76-78 | `range(5, 0)` has `end()` = 0, which `++` from 5 never reaches |
| `Ranges.CorrectedEndReached` | include/Utils/Range.hpp:53-61 | with an `end()` that equals `begin()` for a range walking away from m_end, every range with inc ≠ 0 reaches its end after CorrectedSteps() ≥ 0 increments, visiting only values strictly before m_end |
| `Ranges.RangeUpTo` | include/Utils/Range.hpp:70-74 | `range(N)` is `range(0, N)` with the default step 1 (N defaulting to the largest int) |
| `Ranges.RangeUpToVisits` | include/Utils/Range.hpp:70-78 | for N ≥ 0, `range(N)` takes N steps, its `end()` is N and the j-th value is j |

## Findings

| source | as written | input that shows it | evidently intended | confidence | as-written member | corrected member |
|---|---|---|---|---|---|---|
| include/Utils/Range.hpp:53-61 | with a positive step and m_start > m_end, `end()` is computed from a negative truncated quotient: when the distance is a whole number of steps it is m_end, which lies behind `begin()`, so a range-based `for` never stops; other distances also loop forever, or yield one spurious value, or nothing | `range(5, 0)`: `begin()` is 5, `end()` is 0, and `++` visits 5, 6, 7, … | a range that walks away from its bound is empty, as in `range(5, 0)` yielding nothing | medium; not executed | `Ranges.BackwardRangeNeverEnds` | `Ranges.CorrectedEndReached` |

## Left out

- The CDF-merge construction of an extreme measure, `LatticePoint` and its ordering, the `DiscreteMeasure` merge, `apply_cumsum`, `flatten`, `upper_bounds`, `monotoneStructSize`, `constructMonotoneStructure` and `construct_Poisson_ExtremeMeasures` are not modelled: none of the four modelled files defines them (include/Correlation.hpp:31 only forward-declares `LatticePoint`, and src/Correlation.cxx:94 only calls `construct_Poisson_ExtremeMeasures`), and their construction sources are outside the modelled files. `poiss_correlation_bounds_2d` takes the Poisson construction as a function parameter.
- `LatticePoint::product` is not modelled for the same reason; it is taken to be the product of the coordinates.
- `EmpiricalDistribution::entropy`: it uses `std::log`, a transcendental function.
- `EmpDistrArray::dimensions`: declared at include/EmpiricalDistribution.hpp:101 but defined nowhere in src/EmpiricalDistribution.cxx, so there is no behaviour to model.
- Floating point: weights, moments and correlations are exact reals, so rounding (including the drift `edit_sum_1` absorbs) is not modelled. `std::sqrt` and the distribution's pmf are abstract function parameters.
- The generic zip, shell and colour helpers (include/Zip.hpp, include/Utils/Zip.hpp, include/Utils/Shell.hpp, include/AnsiColor.hpp): template plumbing; the zip's stop-at-the-shorter behaviour is part of the moment model.
- `discreture::lex_combinations`, used by `correlations`: a foreign library; the model states only that the result is empty.
- `EmpiricalDistributions.DiscreteNthMoment`: the exponent is a natural number, so `std::pow` with a negative exponent is not modelled; the source calls it with 1 and 2 only.
- `Correlations.Correlation`: a zero denominator gives `NonFinite`, standing for every IEEE infinity or NaN without distinguishing them. `sqrt` is a total real function parameter, so the NaN that `std::sqrt` gives when variances[0]·variances[1] < 0 appears only through whatever value the abstract `sqrt` returns there.
- `Correlations.PoissCorrelationBounds2d`: states the order of the pair only; that the first value is the larger one depends on the unmodelled construction.
- `Ranges.RangeIterator.Increment`: values are unbounded integers, so the 32-bit `int` overflow of `m_val += m_inc`, of `m_end - m_start` and of the `end()` value is not modelled; likewise the `int` conversion of `std::pow(2, n-1)` in `construct_monotonestruct` for large n.
- `EmpiricalDistributions.ConstructDiscreteEmpDistr`: a negative `support_end` (which makes the vector constructor throw) is excluded by its natural-number type.
- `MonotonicityStructures.NewMonotonicityStructure`: the matrix is stored row by row, so a matrix with no rows would report 0 columns; the constructor never builds one.
- The test harness `main` functions and pretty-printing.
