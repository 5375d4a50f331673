/**
 * An integer range with a step, walked by an iterator whose `++` adds the
 * step. The end iterator is computed in closed form with C's truncating
 * division, so that a walk from begin() by whole steps can meet it.
 */
module Ranges {

  /** The largest `int` of the platform: the default bound of `range()`. */
  const IntMax: int := 0x7fff_ffff

  function Abs(x: int): nat
  {
    if x < 0 then -x else x
  }

  /** The quotient of C's truncating division (`std::lldiv(a, b).quot`): rounds toward zero. */
  function TruncDiv(a: int, b: int): int
    requires b != 0
  {
    if (a >= 0) == (b > 0) then Abs(a) / Abs(b) else -(Abs(a) / Abs(b))
  }

  /** The remainder of C's truncating division (`std::lldiv(a, b).rem`). */
  function TruncRem(a: int, b: int): int
    requires b != 0
  {
    a - b * TruncDiv(a, b)
  }

  /** Euclidean division of naturals, stated for the solver once. */
  lemma NatDivision(x: nat, y: nat)
    requires y > 0
    ensures x == y * (x / y) + x % y && 0 <= x % y < y && x / y >= 0
  {
  }

  /** Truncating division: a = b q + r, |r| < |b|, and r is 0 or has the sign of a. */
  lemma TruncDivision(a: int, b: int)
    requires b != 0
    ensures a == b * TruncDiv(a, b) + TruncRem(a, b)
    ensures Abs(TruncRem(a, b)) < Abs(b)
    ensures TruncRem(a, b) == 0 || (TruncRem(a, b) > 0 <==> a > 0)
  {
    var x, y := Abs(a), Abs(b);
    var q: int, m: int := x / y, x % y;
    NatDivision(x, y);
    if a >= 0 && b > 0 {
      assert TruncDiv(a, b) == q && b * q == y * q;
    } else if a >= 0 {
      assert TruncDiv(a, b) == -q;
      assert b * -q == y * q;
    } else if b > 0 {
      assert TruncDiv(a, b) == -q;
      assert b * -q == -(y * q);
    } else {
      assert TruncDiv(a, b) == q;
      assert b * q == -(y * q);
    }
  }

  /** `a` comes strictly before `b` when walking in the direction of `inc`. */
  predicate Precedes(a: int, b: int, inc: int)
  {
    if inc > 0 then a < b else a > b
  }

  // ---------------------------------------------------------------------------
  // range_iterator
  // ---------------------------------------------------------------------------

  class RangeIterator {
    var val: int
    var inc: int

    constructor (val: int, inc: int)
      ensures this.val == val && this.inc == inc
    {
      this.val := val;
      this.inc := inc;
    }

    /** operator==: compares the current values only, never the steps. */
    function Equal(o: RangeIterator): bool
      reads this, o
    {
      val == o.val
    }

    /** operator!=: compares the current values only. */
    function NotEqual(o: RangeIterator): bool
      reads this, o
    {
      val != o.val
    }

    /** operator<: direction-aware, by this iterator's step. */
    function Less(o: RangeIterator): bool
      reads this, o
    {
      Precedes(val, o.val, inc)
    }

    /** operator*: the current value. */
    function Deref(): int
      reads this
    {
      val
    }

    /** operator++: advances the value by the step and changes nothing else. */
    method Increment()
      modifies this
      ensures val == old(val) + inc && inc == old(inc)
    {
      val := val + inc;
    }
  }

  /** `!=` is the negation of `==`, and neither looks at the steps. */
  lemma EqualityIgnoresStep(a: RangeIterator, b: RangeIterator)
    ensures a.NotEqual(b) == !a.Equal(b)
    ensures a.Equal(b) <==> a.Deref() == b.Deref()
  {
  }

  /** `<` is a strict order for a fixed step: irreflexive and transitive. */
  lemma PrecedesIsStrict(a: int, b: int, c: int, inc: int)
    ensures !Precedes(a, a, inc)
    ensures Precedes(a, b, inc) && Precedes(b, c, inc) ==> Precedes(a, c, inc)
  {
  }

  lemma MulMono(i: int, j: int, inc: int)
    requires i < j && inc > 0
    ensures i * inc < j * inc
  {
    assert j * inc - i * inc == (j - i) * inc;
  }

  // ---------------------------------------------------------------------------
  // range_container
  // ---------------------------------------------------------------------------

  datatype RangeContainer = RangeContainer(start: int, end: int, inc: int)
  {
    /** The value the iterator holds after j increments from begin(). */
    function At(j: int): int
    {
      start + j * inc
    }

    /** The number of increments from begin() to end(). */
    function Steps(): int
      requires inc != 0
    {
      var range := end - start;
      if TruncRem(range, inc) == 0 then TruncDiv(range, inc) else TruncDiv(range, inc) + 1
    }

    /**
     * end(): m_end itself when the distance is a whole number of steps,
     * otherwise the first value one step past the last whole step.
     */
    function EndValue(): int
      requires inc != 0
    {
      var range := end - start;
      if TruncRem(range, inc) == 0 then end else start + inc * (TruncDiv(range, inc) + 1)
    }

    /** Walking toward m_end: a positive step from below, or a negative step from above. */
    predicate Forward()
    {
      (inc > 0 && start <= end) || (inc < 0 && start >= end)
    }

    /** begin(): an iterator at m_start with step m_inc. */
    method Begin() returns (it: RangeIterator)
      ensures fresh(it) && it.val == start && it.inc == inc
    {
      it := new RangeIterator(start, inc);
    }

    /** end(): an iterator at EndValue(); std::lldiv divides by m_inc, so it must not be 0. */
    method End() returns (it: RangeIterator)
      requires inc != 0
      ensures fresh(it) && it.val == EndValue() && it.inc == inc
    {
      var range := end - start;
      var quot, rem := TruncDiv(range, inc), TruncRem(range, inc);
      if rem == 0 {
        it := new RangeIterator(end, inc);
      } else {
        it := new RangeIterator(start + inc * (quot + 1), inc);
      }
    }
  }

  /** end() always lies a whole number of steps from begin(), and is m_end itself when the distance divides evenly. */
  lemma EndIsWholeSteps(r: RangeContainer)
    requires r.inc != 0
    ensures r.EndValue() == r.At(r.Steps())
    ensures TruncRem(r.end - r.start, r.inc) == 0 ==> r.EndValue() == r.end
  {
    TruncDivision(r.end - r.start, r.inc);
  }

  /** A walk on a positive step: Steps() is the ceiling of (end - start) / inc. */
  lemma {:induction false} UpwardWalk(r: RangeContainer)
    requires r.inc > 0 && r.start <= r.end
    ensures r.Steps() >= 0 && r.At(r.Steps()) == r.EndValue() && r.EndValue() >= r.end
    ensures forall j :: 0 <= j < r.Steps() ==> r.At(j) < r.end
  {
    var range := r.end - r.start;
    EndIsWholeSteps(r);
    TruncDivision(range, r.inc);
    var q := TruncDiv(range, r.inc);
    assert q >= 0;
    forall j | 0 <= j < r.Steps()
      ensures r.At(j) < r.end
    {
      if j < q {
        MulMono(j, q, r.inc);
      } else {
        assert j == q;
      }
    }
  }

  /** Negating both operands keeps the truncating quotient and negates the remainder. */
  lemma TruncNegate(a: int, b: int)
    requires b != 0
    ensures TruncDiv(-a, -b) == TruncDiv(a, b) && TruncRem(-a, -b) == -TruncRem(a, b)
  {
    assert Abs(-a) == Abs(a) && Abs(-b) == Abs(b);
    var q := Abs(a) / Abs(b);
    if a == 0 {
      assert q == 0;
    } else {
      assert ((-a) >= 0) == (a < 0) && ((-b) > 0) == (b < 0);
    }
    assert TruncDiv(-a, -b) == TruncDiv(a, b);
    assert (-b) * TruncDiv(a, b) == -(b * TruncDiv(a, b));
  }

  /** The range reflected through 0 walks the same number of steps to the reflected end. */
  lemma Mirror(r: RangeContainer, j: int)
    requires r.inc != 0
    ensures var m := RangeContainer(-r.start, -r.end, -r.inc);
            m.Steps() == r.Steps() && m.EndValue() == -r.EndValue() && m.At(j) == -r.At(j)
  {
    var range := r.end - r.start;
    TruncNegate(range, r.inc);
    var q := TruncDiv(range, r.inc);
    assert (-r.inc) * (q + 1) == -(r.inc * (q + 1));
    assert j * (-r.inc) == -(j * r.inc);
  }

  /** A walk on a negative step: the mirror image of UpwardWalk. */
  lemma DownwardWalk(r: RangeContainer)
    requires r.inc < 0 && r.start >= r.end
    ensures r.Steps() >= 0 && r.At(r.Steps()) == r.EndValue() && r.EndValue() <= r.end
    ensures forall j :: 0 <= j < r.Steps() ==> r.At(j) > r.end
  {
    var m := RangeContainer(-r.start, -r.end, -r.inc);
    UpwardWalk(m);
    Mirror(r, r.Steps());
    forall j | 0 <= j < r.Steps()
      ensures r.At(j) > r.end
    {
      Mirror(r, j);
    }
  }

  /**
   * Walking toward m_end, repeated ++ from begin() meets end() after exactly
   * Steps() increments, and every value visited before that lies strictly
   * before m_end in the direction of the step (so none equals end()).
   */
  lemma WalkReachesEnd(r: RangeContainer)
    requires r.inc != 0 && r.Forward()
    ensures r.Steps() >= 0 && r.At(r.Steps()) == r.EndValue()
    ensures !Precedes(r.EndValue(), r.end, r.inc)
    ensures forall j :: 0 <= j < r.Steps() ==> Precedes(r.At(j), r.end, r.inc) && r.At(j) != r.EndValue()
  {
    if r.inc > 0 {
      UpwardWalk(r);
    } else {
      DownwardWalk(r);
    }
  }

  /** Successive values of a walk are ordered by `<`, whatever the sign of the step. */
  lemma WalkIsOrdered(r: RangeContainer, i: int, j: int)
    requires r.inc != 0 && i < j
    ensures Precedes(r.At(i), r.At(j), r.inc)
  {
    if r.inc > 0 {
      MulMono(i, j, r.inc);
    } else {
      MulMono(i, j, -r.inc);
    }
  }

  /**
   * A positive step from above m_end: when the distance is a whole number of
   * steps, end() is m_end, which lies behind begin(), so no number of
   * increments ever meets it and a range-based for never stops.
   */
  lemma BackwardRangeNeverEnds(r: RangeContainer, j: nat)
    requires r.inc > 0 && r.end < r.start && TruncRem(r.end - r.start, r.inc) == 0
    ensures r.At(j) != r.EndValue()
  {
    assert j * r.inc >= 0;
  }

  /** range(5, 0) is such a range: its end() is 0, and ++ from 5 never reaches it. */
  lemma FiveDownToZeroNeverEnds(j: nat)
    ensures Range(5, 0).EndValue() == 0
    ensures Range(5, 0).At(j) != Range(5, 0).EndValue()
  {
    BackwardRangeNeverEnds(Range(5, 0), j);
  }

  /** end() made empty-aware: a range that walks away from m_end ends where it begins. */
  function CorrectedEndValue(r: RangeContainer): int
    requires r.inc != 0
  {
    if r.Forward() then r.EndValue() else r.start
  }

  function CorrectedSteps(r: RangeContainer): int
    requires r.inc != 0
  {
    if r.Forward() then r.Steps() else 0
  }

  /**
   * With the corrected end every range terminates: ++ from begin() meets it
   * after CorrectedSteps() increments, and each value visited before then
   * lies strictly before m_end in the direction of the step.
   */
  lemma CorrectedEndReached(r: RangeContainer)
    requires r.inc != 0
    ensures CorrectedSteps(r) >= 0 && r.At(CorrectedSteps(r)) == CorrectedEndValue(r)
    ensures forall j :: 0 <= j < CorrectedSteps(r) ==>
              Precedes(r.At(j), r.end, r.inc) && r.At(j) != CorrectedEndValue(r)
  {
    if r.Forward() {
      WalkReachesEnd(r);
    }
  }

  /**
   * The range-based for statement over a range: take begin() and end(), then
   * read `*it` and apply `++it` until `it != end()` fails.
   */
  method Elements(r: RangeContainer) returns (values: seq<int>)
    requires r.inc != 0 && r.Forward()
    ensures |values| == r.Steps()
    ensures forall j :: 0 <= j < |values| ==> values[j] == r.At(j) && Precedes(values[j], r.end, r.inc)
  {
    WalkReachesEnd(r);
    var it := r.Begin();
    var last := r.End();
    values := [];
    while it.NotEqual(last)
      invariant it.val == r.At(|values|) && it.inc == r.inc && last.val == r.EndValue()
      invariant |values| <= r.Steps()
      invariant forall j :: 0 <= j < |values| ==> values[j] == r.At(j)
      decreases r.Steps() - |values|
    {
      assert |values| < r.Steps();
      values := values + [it.Deref()];
      it.Increment();
      assert it.val == r.At(|values| - 1) + r.inc;
    }
    assert |values| == r.Steps();
  }

  // ---------------------------------------------------------------------------
  // range(...)
  // ---------------------------------------------------------------------------

  /** range(a, b, inc): from a toward b by inc; the step defaults to 1. */
  function Range(a: int, b: int, inc: int := 1): RangeContainer
  {
    RangeContainer(a, b, inc)
  }

  /** range(N): range(0, N, 1), with N defaulting to the largest int. */
  function RangeUpTo(n: int := IntMax): (r: RangeContainer)
    ensures r == Range(0, n)
  {
    RangeContainer(0, n, 1)
  }

  /** range(N) for N >= 0 visits 0, 1, ..., N - 1 and its end() is N. */
  lemma RangeUpToVisits(n: int, j: int)
    requires n >= 0 && 0 <= j
    ensures RangeUpTo(n).Steps() == n && RangeUpTo(n).EndValue() == n
    ensures RangeUpTo(n).At(j) == j
  {
    TruncDivision(n, 1);
  }
}
