/**
 * `corr2_coef` of braincode/math/base.py: the row-wise Pearson correlation of
 * two 2-D arrays, either every row of A against every row of B (`full`) or
 * row i of A against row i of B (`pair`).
 *
 * numpy computes the `full` matrix with whole-array expressions (centre every
 * row, take the row sums of squares, one matrix product, one outer product,
 * one square root, one division); entry (i, j) of that computation is
 * PearsonEntry(A[i], B[j]) below.
 */
module Correlation {
  import opened Numerics

  /** A 2-D numpy array: `rows` time series of `cols` samples each. */
  datatype Matrix = Matrix(cols: nat, rows: seq<seq<real>>)

  /** Every row has `cols` samples, as in any 2-D numpy array. */
  predicate WellFormed(m: Matrix)
  {
    forall i :: 0 <= i < |m.rows| ==> |m.rows[i]| == m.cols
  }

  /** `m[lo:hi, :]` for bounds inside the array. */
  function RowSlice(m: Matrix, lo: nat, hi: nat): (s: Matrix)
    requires lo <= hi <= |m.rows|
    ensures s.cols == m.cols && |s.rows| == hi - lo
    ensures WellFormed(m) ==> WellFormed(s)
    ensures forall k :: 0 <= k < hi - lo ==> s.rows[k] == m.rows[lo + k]
  {
    Matrix(m.cols, m.rows[lo..hi])
  }

  /** What `corr2_coef` returns: a matrix (`full`), a vector (`pair`), or None. */
  datatype Corr = FullMatrix(m: seq<seq<Float>>) | PairVector(v: seq<Float>) | NoneValue

  /**
   * Entry (i, j) of the `full` result for a = A[i] and b = B[j]: the dot
   * product of the centred rows over the root of the product of their sums
   * of squares.
   */
  function PearsonEntry(a: seq<real>, b: seq<real>, sqrt: real -> real): Float
    requires |a| == |b|
  {
    var ca := Centered(a);
    var cb := Centered(b);
    Div(Dot(ca, cb), RootOfProduct(SumSq(ca), SumSq(cb), sqrt))
  }

  /** The `full` mode result: one row per row of A, one column per row of B. */
  function CorrFull(A: Matrix, B: Matrix, sqrt: real -> real): (r: seq<seq<Float>>)
    requires WellFormed(A) && WellFormed(B) && A.cols == B.cols
    ensures |r| == |A.rows|
    ensures forall i :: 0 <= i < |r| ==> |r[i]| == |B.rows|
  {
    seq(|A.rows|, i requires 0 <= i < |A.rows| =>
      seq(|B.rows|, j requires 0 <= j < |B.rows| => PearsonEntry(A.rows[i], B.rows[j], sqrt)))
  }

  /**
   * One row z-scored as in `pair` mode: centred, divided by its population
   * standard deviation, with NaN (from a zero deviation) replaced by 0.
   */
  function ZScore(a: seq<real>, sqrt: real -> real): (z: seq<real>)
    ensures |z| == |a|
  {
    if |a| == 0 then []
    else
      var c := Centered(a);
      var sd := StdDev(SumSq(c), |a|, sqrt);
      seq(|a|, k requires 0 <= k < |a| => NanToNum(Div(c[k], sd)).r)
  }

  /** Element i of the `pair` result for a = A[i], b = B[i] and n samples per row. */
  function PairEntry(a: seq<real>, b: seq<real>, n: nat, sqrt: real -> real): Float
    requires |a| == |b|
  {
    Div(Dot(ZScore(a, sqrt), ZScore(b, sqrt)), n as real)
  }

  /** The `pair` mode result: one value per row. */
  function CorrPair(A: Matrix, B: Matrix, sqrt: real -> real): (r: seq<Float>)
    requires WellFormed(A) && WellFormed(B) && A.cols == B.cols && |A.rows| == |B.rows|
    ensures |r| == |A.rows|
  {
    seq(|A.rows|, i requires 0 <= i < |A.rows| => PairEntry(A.rows[i], B.rows[i], A.cols, sqrt))
  }

  /**
   * `corr2_coef(A, B, mode)`. numpy raises ValueError when the arrays do not
   * fit together (the sample counts differ, or in `pair` mode the row counts
   * differ); a mode other than `full` and `pair` falls through and returns None.
   */
  function Corr2Coef(A: Matrix, B: Matrix, mode: string, sqrt: real -> real): (r: Outcome<Corr>)
    requires WellFormed(A) && WellFormed(B)
    ensures r.Ok? || r.ValueError?
    ensures mode == "full" ==> (r.ValueError? <==> A.cols != B.cols)
    ensures mode == "full" && r.Ok? ==>
      r.value.FullMatrix? && |r.value.m| == |A.rows| &&
      forall i :: 0 <= i < |A.rows| ==> |r.value.m[i]| == |B.rows|
    ensures mode == "pair" ==> (r.ValueError? <==> A.cols != B.cols || |A.rows| != |B.rows|)
    ensures mode == "pair" && r.Ok? ==> r.value.PairVector? && |r.value.v| == |A.rows|
    ensures mode != "full" && mode != "pair" ==> r == Ok(NoneValue)
  {
    if mode == "full" then
      if A.cols != B.cols then ValueError else Ok(FullMatrix(CorrFull(A, B, sqrt)))
    else if mode == "pair" then
      if A.cols != B.cols || |A.rows| != |B.rows| then ValueError
      else Ok(PairVector(CorrPair(A, B, sqrt)))
    else
      Ok(NoneValue)
  }

  // ---------------------------------------------------------------------
  // `full` mode
  // ---------------------------------------------------------------------

  /**
   * An entry is NaN exactly when one of its two rows is constant, and then
   * its numerator is 0 as well, so numpy's 0/0 is NaN and never +-inf.
   */
  lemma PearsonNaNIffConstant(a: seq<real>, b: seq<real>, sqrt: real -> real)
    requires IsSqrt(sqrt) && |a| == |b|
    ensures PearsonEntry(a, b, sqrt).NaN? <==> IsConstant(a) || IsConstant(b)
    ensures PearsonEntry(a, b, sqrt).NaN? ==> Dot(Centered(a), Centered(b)) == 0.0
  {
    ConstantIffZeroSumSq(a);
    ConstantIffZeroSumSq(b);
    SumSqNonNegative(Centered(a));
    SumSqNonNegative(Centered(b));
    RootOfProductZero(sqrt, SumSq(Centered(a)), SumSq(Centered(b)));
    if SumSq(Centered(a)) == 0.0 {
      DotZeroLeft(Centered(a), Centered(b));
    } else if SumSq(Centered(b)) == 0.0 {
      DotZeroLeft(Centered(b), Centered(a));
      DotSymmetric(Centered(a), Centered(b));
    }
  }

  /** Every entry that is a number is a correlation coefficient in [-1, 1]. */
  lemma PearsonBounded(a: seq<real>, b: seq<real>, sqrt: real -> real)
    requires IsSqrt(sqrt) && |a| == |b|
    ensures PearsonEntry(a, b, sqrt).Num? ==> -1.0 <= PearsonEntry(a, b, sqrt).r <= 1.0
  {
    SumSqNonNegative(Centered(a));
    SumSqNonNegative(Centered(b));
    CauchySchwarz(Centered(a), Centered(b));
    RatioBounded(sqrt, Dot(Centered(a), Centered(b)), SumSq(Centered(a)), SumSq(Centered(b)));
  }

  /** A non-constant row correlates with itself with coefficient exactly 1. */
  lemma PearsonSelfIsOne(a: seq<real>, sqrt: real -> real)
    requires IsSqrt(sqrt) && !IsConstant(a)
    ensures PearsonEntry(a, a, sqrt) == Num(1.0)
  {
    ConstantIffZeroSumSq(a);
    SumSqNonNegative(Centered(a));
    SumSqIsDot(Centered(a));
    RootOfSquare(sqrt, SumSq(Centered(a)));
  }

  /** Swapping the two rows does not change the coefficient. */
  lemma PearsonSymmetric(a: seq<real>, b: seq<real>, sqrt: real -> real)
    requires |a| == |b|
    ensures PearsonEntry(a, b, sqrt) == PearsonEntry(b, a, sqrt)
  {
    DotSymmetric(Centered(a), Centered(b));
    RootOfProductSymmetric(sqrt, SumSq(Centered(a)), SumSq(Centered(b)));
  }

  /**
   * Entry (i, j) of the `full` matrix is NaN exactly when row i of A or row
   * j of B is constant; every other entry lies in [-1, 1].
   */
  lemma FullEntries(A: Matrix, B: Matrix, sqrt: real -> real, i: nat, j: nat)
    requires WellFormed(A) && WellFormed(B) && A.cols == B.cols
    requires IsSqrt(sqrt) && i < |A.rows| && j < |B.rows|
    ensures CorrFull(A, B, sqrt)[i][j].NaN? <==> IsConstant(A.rows[i]) || IsConstant(B.rows[j])
    ensures CorrFull(A, B, sqrt)[i][j].Num? ==> -1.0 <= CorrFull(A, B, sqrt)[i][j].r <= 1.0
  {
    PearsonNaNIffConstant(A.rows[i], B.rows[j], sqrt);
    PearsonBounded(A.rows[i], B.rows[j], sqrt);
  }

  /** A constant row of A makes its whole row of the `full` matrix NaN, not 0. */
  lemma FullConstantRowIsNaN(A: Matrix, B: Matrix, sqrt: real -> real, i: nat)
    requires WellFormed(A) && WellFormed(B) && A.cols == B.cols
    requires IsSqrt(sqrt) && i < |A.rows| && IsConstant(A.rows[i])
    ensures forall j :: 0 <= j < |B.rows| ==> CorrFull(A, B, sqrt)[i][j] == NaN
  {
    forall j | 0 <= j < |B.rows| ensures CorrFull(A, B, sqrt)[i][j] == NaN {
      PearsonNaNIffConstant(A.rows[i], B.rows[j], sqrt);
    }
  }

  /** corr2_coef(A, A) is symmetric, with 1 on the diagonal for every non-constant row. */
  lemma FullSelfCorrelation(A: Matrix, sqrt: real -> real)
    requires WellFormed(A) && IsSqrt(sqrt)
    ensures forall i, j :: 0 <= i < |A.rows| && 0 <= j < |A.rows| ==>
      CorrFull(A, A, sqrt)[i][j] == CorrFull(A, A, sqrt)[j][i]
    ensures forall i :: 0 <= i < |A.rows| && !IsConstant(A.rows[i]) ==>
      CorrFull(A, A, sqrt)[i][i] == Num(1.0)
  {
    forall i, j | 0 <= i < |A.rows| && 0 <= j < |A.rows|
      ensures CorrFull(A, A, sqrt)[i][j] == CorrFull(A, A, sqrt)[j][i]
    {
      PearsonSymmetric(A.rows[i], A.rows[j], sqrt);
    }
    forall i | 0 <= i < |A.rows| && !IsConstant(A.rows[i])
      ensures CorrFull(A, A, sqrt)[i][i] == Num(1.0)
    {
      PearsonSelfIsOne(A.rows[i], sqrt);
    }
  }

  /**
   * Column locality: correlating A with the rows lo..hi-1 of B gives exactly
   * the columns lo..hi-1 of correlating A with all of B.
   */
  lemma ColumnLocality(A: Matrix, B: Matrix, lo: nat, hi: nat, sqrt: real -> real)
    requires WellFormed(A) && WellFormed(B) && A.cols == B.cols && lo <= hi <= |B.rows|
    ensures forall i, j :: 0 <= i < |A.rows| && lo <= j < hi ==>
      CorrFull(A, RowSlice(B, lo, hi), sqrt)[i][j - lo] == CorrFull(A, B, sqrt)[i][j]
  {
  }

  // ---------------------------------------------------------------------
  // `pair` mode
  // ---------------------------------------------------------------------

  /** A constant, non-empty row z-scores to all zeros (NaN replaced by 0). */
  lemma ZScoreOfConstant(a: seq<real>, sqrt: real -> real)
    requires |a| > 0 && IsConstant(a)
    ensures IsZero(ZScore(a, sqrt))
  {
    MeanOfConstant(a);
    assert IsZero(Centered(a));
  }

  /** In `pair` mode a constant row, of A or of B, yields 0, not NaN. */
  lemma PairConstantRowIsZero(a: seq<real>, b: seq<real>, sqrt: real -> real)
    requires |a| == |b| > 0 && (IsConstant(a) || IsConstant(b))
    ensures PairEntry(a, b, |a|, sqrt) == Num(0.0)
  {
    if IsConstant(a) {
      ZScoreOfConstant(a, sqrt);
      DotZeroLeft(ZScore(a, sqrt), ZScore(b, sqrt));
    } else {
      ZScoreOfConstant(b, sqrt);
      DotZeroLeft(ZScore(b, sqrt), ZScore(a, sqrt));
      DotSymmetric(ZScore(a, sqrt), ZScore(b, sqrt));
    }
  }

  /** Element i of the `pair` result is 0 when row i of A or row i of B is constant. */
  lemma PairConstantRowsAreZero(A: Matrix, B: Matrix, sqrt: real -> real, i: nat)
    requires WellFormed(A) && WellFormed(B) && A.cols == B.cols && |A.rows| == |B.rows|
    requires A.cols > 0 && i < |A.rows| && (IsConstant(A.rows[i]) || IsConstant(B.rows[i]))
    ensures CorrPair(A, B, sqrt)[i] == Num(0.0)
  {
    PairConstantRowIsZero(A.rows[i], B.rows[i], sqrt);
  }

  /** A non-constant row z-scores to its centred row divided by its (positive) standard deviation. */
  lemma ZScoreOfVarying(a: seq<real>, sqrt: real -> real)
    requires IsSqrt(sqrt) && !IsConstant(a)
    ensures |a| > 0 && 0.0 < StdDev(SumSq(Centered(a)), |a|, sqrt)
    ensures ZScore(a, sqrt) == Scale(Centered(a), StdDev(SumSq(Centered(a)), |a|, sqrt))
  {
    ConstantIffZeroSumSq(a);
    SumSqNonNegative(Centered(a));
    StdDevZero(sqrt, SumSq(Centered(a)), |a|);
  }

  /**
   * For two non-constant rows, the `pair` value agrees with the `full`
   * coefficient of the same two rows.
   */
  lemma PairMatchesPearson(a: seq<real>, b: seq<real>, sqrt: real -> real)
    requires IsSqrt(sqrt) && |a| == |b| && !IsConstant(a) && !IsConstant(b)
    ensures PairEntry(a, b, |a|, sqrt) == PearsonEntry(a, b, sqrt)
  {
    ZScoreOfVarying(a, sqrt);
    ZScoreOfVarying(b, sqrt);
    ZScoreDot(a, b, sqrt);
    RootOfSumSqSplits(a, b, sqrt);
    PairFromDeviations(a, b, sqrt);
  }

  /**
   * The last step of PairMatchesPearson: once the z-scored dot product and
   * the `full` denominator are written with the two deviations, the two
   * quotients agree.
   */
  lemma PairFromDeviations(a: seq<real>, b: seq<real>, sqrt: real -> real)
    requires |a| == |b| && |a| > 0
    requires 0.0 < StdDev(SumSq(Centered(a)), |a|, sqrt) * StdDev(SumSq(Centered(b)), |b|, sqrt)
    requires Dot(ZScore(a, sqrt), ZScore(b, sqrt))
          == Dot(Centered(a), Centered(b)) / (StdDev(SumSq(Centered(a)), |a|, sqrt) * StdDev(SumSq(Centered(b)), |b|, sqrt))
    requires RootOfProduct(SumSq(Centered(a)), SumSq(Centered(b)), sqrt)
          == StdDev(SumSq(Centered(a)), |a|, sqrt) * StdDev(SumSq(Centered(b)), |b|, sqrt) * (|a| as real)
    ensures PairEntry(a, b, |a|, sqrt) == PearsonEntry(a, b, sqrt)
  {
    QuotientChain(Dot(ZScore(a, sqrt), ZScore(b, sqrt)), Dot(Centered(a), Centered(b)),
      StdDev(SumSq(Centered(a)), |a|, sqrt) * StdDev(SumSq(Centered(b)), |b|, sqrt), |a| as real,
      RootOfProduct(SumSq(Centered(a)), SumSq(Centered(b)), sqrt));
  }

  /**
   * When both rows have a positive deviation and z-score to their centred
   * rows divided by it (ZScoreOfVarying), the dot product of the z-scores is
   * that of the centred rows over the product of the deviations.
   */
  lemma ZScoreDot(a: seq<real>, b: seq<real>, sqrt: real -> real)
    requires |a| == |b| > 0
    requires 0.0 < StdDev(SumSq(Centered(a)), |a|, sqrt) && 0.0 < StdDev(SumSq(Centered(b)), |b|, sqrt)
    requires ZScore(a, sqrt) == Scale(Centered(a), StdDev(SumSq(Centered(a)), |a|, sqrt))
    requires ZScore(b, sqrt) == Scale(Centered(b), StdDev(SumSq(Centered(b)), |b|, sqrt))
    ensures 0.0 < StdDev(SumSq(Centered(a)), |a|, sqrt) * StdDev(SumSq(Centered(b)), |b|, sqrt)
    ensures Dot(ZScore(a, sqrt), ZScore(b, sqrt))
         == Dot(Centered(a), Centered(b)) / (StdDev(SumSq(Centered(a)), |a|, sqrt) * StdDev(SumSq(Centered(b)), |b|, sqrt))
  {
    DotScaled(Centered(a), Centered(b), StdDev(SumSq(Centered(a)), |a|, sqrt), StdDev(SumSq(Centered(b)), |b|, sqrt));
    ProductPositive(StdDev(SumSq(Centered(a)), |a|, sqrt), StdDev(SumSq(Centered(b)), |b|, sqrt));
  }

  /** The `full` denominator of two rows is the product of their deviations times the sample count. */
  lemma RootOfSumSqSplits(a: seq<real>, b: seq<real>, sqrt: real -> real)
    requires IsSqrt(sqrt) && |a| == |b| && |a| > 0
    ensures RootOfProduct(SumSq(Centered(a)), SumSq(Centered(b)), sqrt)
         == StdDev(SumSq(Centered(a)), |a|, sqrt) * StdDev(SumSq(Centered(b)), |b|, sqrt) * (|a| as real)
  {
    SumSqNonNegative(Centered(a));
    SumSqNonNegative(Centered(b));
    RootOfProductSplits(sqrt, SumSq(Centered(a)), SumSq(Centered(b)), |a|);
  }

  /** Element i of the `pair` result is the diagonal entry (i, i) of the `full` matrix when neither row is constant. */
  lemma PairIsFullDiagonal(A: Matrix, B: Matrix, sqrt: real -> real, i: nat)
    requires WellFormed(A) && WellFormed(B) && A.cols == B.cols && |A.rows| == |B.rows|
    requires IsSqrt(sqrt) && i < |A.rows| && !IsConstant(A.rows[i]) && !IsConstant(B.rows[i])
    ensures CorrPair(A, B, sqrt)[i] == CorrFull(A, B, sqrt)[i][i]
  {
    PairMatchesPearson(A.rows[i], B.rows[i], sqrt);
  }
}
