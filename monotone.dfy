/**
 * The monotonicity structure of n marginals: an n x 2^(n-1) matrix of signs
 * whose columns are the orientations (sign patterns) of the extreme points
 * of the Frechet class. It is built by recursive doubling from the 2 x 2 case.
 */
module MonotonicityStructures {

  /** A dense integer matrix, stored row by row. */
  type Matrix = seq<seq<int>>

  function Pow2(k: nat): (r: nat)
    ensures r >= 1
  {
    if k == 0 then 1 else 2 * Pow2(k - 1)
  }

  /** `m` has `rows` rows, each of `cols` entries. */
  predicate HasShape(m: Matrix, rows: nat, cols: nat)
  {
    |m| == rows && forall i :: 0 <= i < rows ==> |m[i]| == cols
  }

  /** Column `j` of a matrix whose rows all have more than `j` entries. */
  function Column(m: Matrix, j: nat): seq<int>
    requires forall i :: 0 <= i < |m| ==> j < |m[i]|
  {
    seq(|m|, i requires 0 <= i < |m| => m[i][j])
  }

  /** A sign pattern of length n: every entry +1 or -1, the first one +1. */
  predicate IsSignPattern(v: seq<int>, n: nat)
  {
    |v| == n && n >= 1 && v[0] == 1 && forall i :: 0 <= i < n ==> v[i] == 1 || v[i] == -1
  }

  /** The row of length 2 * half holding `half` entries +1 and then `half` entries -1. */
  function SplitSignRow(half: nat): seq<int>
  {
    seq(half, _ => 1) + seq(half, _ => -1)
  }

  /**
   * construct_monotonestruct: the base case is the 2 x 2 matrix with rows
   * (1, 1) and (1, -1); for n > 2 the top n-1 rows are [M | M] for the
   * structure M of n-1, and the bottom row is SplitSignRow. construct_monotonestruct
   * never reaches its base case for n < 2, so callers must pass n >= 2.
   */
  function ConstructMonotoneStruct(n: int): (m: Matrix)
    requires n >= 2
    ensures HasShape(m, n, Pow2(n - 1))
    decreases n
  {
    if n == 2 then
      [[1, 1],
       [1, -1]]
    else
      var lower := ConstructMonotoneStruct(n - 1);
      var doubled := seq(n - 1, i requires 0 <= i < n - 1 => lower[i] + lower[i]);
      doubled + [SplitSignRow(Pow2(n - 2))]
  }

  /** The base case: its two columns are (+1, +1) and (+1, -1). */
  lemma BaseColumns()
    ensures Column(ConstructMonotoneStruct(2), 0) == [1, 1]
    ensures Column(ConstructMonotoneStruct(2), 1) == [1, -1]
  {
  }

  /**
   * Recursive doubling seen column by column: column j of the structure of n
   * is column (j mod 2^(n-2)) of the structure of n-1, extended by +1 in the
   * left half and by -1 in the right half.
   */
  lemma {:induction false} ColumnSplit(n: int, j: nat)
    requires n > 2 && j < Pow2(n - 1)
    ensures var half := Pow2(n - 2);
            var m := ConstructMonotoneStruct(n);
            var lower := ConstructMonotoneStruct(n - 1);
            if j < half then Column(m, j) == Column(lower, j) + [1]
            else Column(m, j) == Column(lower, j - half) + [-1]
  {
    var half := Pow2(n - 2);
    var m := ConstructMonotoneStruct(n);
    var lower := ConstructMonotoneStruct(n - 1);
    var k := if j < half then j else j - half;
    var last := if j < half then 1 else -1;
    assert |Column(m, j)| == n;
    forall i | 0 <= i < n
      ensures Column(m, j)[i] == (Column(lower, k) + [last])[i]
    {
      if i < n - 1 {
        assert m[i] == lower[i] + lower[i];
      } else {
        assert m[i] == SplitSignRow(half);
      }
    }
  }

  /** Every entry of `m` is +1 or -1. */
  predicate SignEntries(m: Matrix)
  {
    forall i, j :: 0 <= i < |m| && 0 <= j < |m[i]| ==> m[i][j] == 1 || m[i][j] == -1
  }

  /** Row 0 of `m`, if any, is all +1. */
  predicate FirstRowPositive(m: Matrix)
  {
    |m| > 0 ==> forall j :: 0 <= j < |m[0]| ==> m[0][j] == 1
  }

  /** Every entry of the structure is +1 or -1, and row 0 is all +1. */
  lemma {:induction false} EntriesAreSigns(n: int)
    requires n >= 2
    ensures SignEntries(ConstructMonotoneStruct(n))
    ensures FirstRowPositive(ConstructMonotoneStruct(n))
    decreases n
  {
    if n > 2 {
      EntriesAreSigns(n - 1);
      var m := ConstructMonotoneStruct(n);
      var lower := ConstructMonotoneStruct(n - 1);
      var half := Pow2(n - 2);
      forall i, j | 0 <= i < |m| && 0 <= j < |m[i]|
        ensures m[i][j] == 1 || m[i][j] == -1
        ensures i == 0 ==> m[i][j] == 1
      {
        if i < n - 1 {
          assert m[i] == lower[i] + lower[i];
          var k := if j < half then j else j - half;
          assert m[i][j] == lower[i][k];
        } else {
          assert m[i] == SplitSignRow(half);
        }
      }
    }
  }

  /** Every column is a sign pattern of length n whose first entry is +1. */
  lemma ColumnsAreSignPatterns(n: int, j: nat)
    requires n >= 2 && j < Pow2(n - 1)
    ensures IsSignPattern(Column(ConstructMonotoneStruct(n), j), n)
  {
    EntriesAreSigns(n);
  }

  /** No sign pattern occurs twice: distinct column indices give distinct columns. */
  lemma {:induction false} ColumnsDistinct(n: int, j1: nat, j2: nat)
    requires n >= 2 && j1 < Pow2(n - 1) && j2 < Pow2(n - 1) && j1 != j2
    ensures Column(ConstructMonotoneStruct(n), j1) != Column(ConstructMonotoneStruct(n), j2)
    decreases n
  {
    var m := ConstructMonotoneStruct(n);
    if n == 2 {
      assert Column(m, j1)[1] != Column(m, j2)[1];
    } else {
      var half := Pow2(n - 2);
      var lower := ConstructMonotoneStruct(n - 1);
      ColumnSplit(n, j1);
      ColumnSplit(n, j2);
      if (j1 < half) != (j2 < half) {
        assert Column(m, j1)[n - 1] != Column(m, j2)[n - 1];
      } else {
        var k1 := if j1 < half then j1 else j1 - half;
        var k2 := if j2 < half then j2 else j2 - half;
        ColumnsDistinct(n - 1, k1, k2);
        assert Column(m, j1)[..n - 1] == Column(lower, k1);
        assert Column(m, j2)[..n - 1] == Column(lower, k2);
      }
    }
  }

  /** Every sign pattern of length n with first entry +1 is one of the columns. */
  lemma {:induction false} EveryPatternIsAColumn(n: int, v: seq<int>)
    requires n >= 2 && IsSignPattern(v, n)
    ensures exists j :: 0 <= j < Pow2(n - 1) && Column(ConstructMonotoneStruct(n), j) == v
    decreases n
  {
    if n == 2 {
      BaseColumns();
      if v[1] == 1 {
        assert v == [1, 1];
        assert Column(ConstructMonotoneStruct(2), 0) == v;
      } else {
        assert v == [1, -1];
        assert Column(ConstructMonotoneStruct(2), 1) == v;
      }
    } else {
      var half := Pow2(n - 2);
      var lower := ConstructMonotoneStruct(n - 1);
      var prefix := v[..n - 1];
      assert IsSignPattern(prefix, n - 1);
      EveryPatternIsAColumn(n - 1, prefix);
      var k :| 0 <= k < half && Column(lower, k) == prefix;
      var j := if v[n - 1] == 1 then k else k + half;
      ColumnSplit(n, j);
      assert j < half <==> v[n - 1] == 1;
      assert v == prefix + [v[n - 1]];
    }
  }

  /** MonotonicityStructure: the matrix of extreme-point orientations, stored once. */
  datatype MonotonicityStructure = MonotonicityStructure(extremePts: Matrix)
  {
    /** num_extremepts: the column count of the stored matrix. */
    function NumExtremePts(): int
    {
      if |extremePts| == 0 then 0 else |extremePts[0]|
    }
  }

  /** MonotonicityStructure(dim): stores the structure built for `dim` marginals. */
  function NewMonotonicityStructure(dim: int): (ms: MonotonicityStructure)
    requires dim >= 2
    ensures HasShape(ms.extremePts, dim, Pow2(dim - 1))
    ensures ms.NumExtremePts() == Pow2(dim - 1)
  {
    MonotonicityStructure(ConstructMonotoneStruct(dim))
  }

  /** The sizes the unit tests expect: (2, 2), (3, 4), (4, 8), (5, 16). */
  lemma SizeExamples()
    ensures NewMonotonicityStructure(2).NumExtremePts() == 2
    ensures NewMonotonicityStructure(3).NumExtremePts() == 4
    ensures NewMonotonicityStructure(4).NumExtremePts() == 8
    ensures NewMonotonicityStructure(5).NumExtremePts() == 16
  {
  }
}
