/**
 * `time_lag_corr` of braincode/math/base.py: the cross-correlation of x with
 * y shifted left by 0, 1, ..., maxlag-1 samples, each divided by len(x).
 */
module TimeLag {
  import opened Numerics

  /** `y[i:].tolist() + [0]*i`: y shifted left by i samples and padded with i zeros. */
  function LagShift(y: seq<real>, i: nat): (lagy: seq<real>)
    ensures |lagy| == Max(|y|, i)
    ensures forall n :: 0 <= n < |lagy| ==> lagy[n] == (if n + i < |y| then y[n + i] else 0.0)
  {
    y[Min(i, |y|)..] + seq(i, _ => 0.0)
  }

  /** c_xy[k]: the sum over n < len(y) - k of x[n] * y[n + k]. */
  function CrossSum(x: seq<real>, y: seq<real>, k: nat): real
    requires |x| == |y| && k <= |y|
  {
    Dot(x[..|y| - k], y[k..])
  }

  /**
   * `np.correlate(a, v)` stored into one element of a float array. numpy
   * raises ValueError for an empty input; for inputs of different lengths
   * the 'valid' result has more than one element, and storing it into a
   * single element raises ValueError as well.
   */
  function CorrelateScalar(a: seq<real>, v: seq<real>): (r: Outcome<real>)
    ensures r.Ok? || r.ValueError?
    ensures r.Ok? <==> |a| == |v| > 0
  {
    if |a| == 0 || |v| == 0 || |a| != |v| then ValueError else Ok(Dot(a, v))
  }

  /**
   * `time_lag_corr(x, y, maxlag)`. `np.zeros(maxlag)` raises ValueError for
   * a negative maxlag; lag i raises ValueError unless len(x) == len(y) > 0 and
   * i <= len(y) (beyond that the padded y is longer than x). Otherwise
   * element k is c_xy[k] / len(x).
   */
  method TimeLagCorr(x: seq<real>, y: seq<real>, maxlag: int) returns (r: Outcome<seq<real>>)
    ensures r.Ok? || r.ValueError?
    ensures r.ValueError? <==> maxlag < 0 || (maxlag > 0 && !(|x| == |y| > 0 && maxlag <= |y| + 1))
    ensures r.Ok? ==> |r.value| == maxlag
    ensures r.Ok? ==> forall k :: 0 <= k < |r.value| ==>
      |x| == |y| && k <= |y| && r.value[k] == CrossSum(x, y, k) / (|x| as real)
  {
    if maxlag < 0 {
      return ValueError;
    }
    var c := new real[maxlag](_ => 0.0);
    var i := 0;
    while i < maxlag
      invariant 0 <= i <= maxlag
      invariant i > 0 ==> |x| == |y| > 0 && i <= |y| + 1
      invariant forall k :: 0 <= k < i ==> |x| == |y| && k <= |y| && c[k] == CrossSum(x, y, k) / (|x| as real)
    {
      var lagy := LagShift(y, i);
      var corr := CorrelateScalar(x, lagy);
      if corr.ValueError? {
        return ValueError;
      }
      LagDotIsCrossSum(x, y, i);
      c[i] := corr.value / (|x| as real);
      i := i + 1;
    }
    return Ok(c[..]);
  }

  /** The dot product of x with the padded, shifted y is the lagged sum c_xy[i]. */
  lemma LagDotIsCrossSum(x: seq<real>, y: seq<real>, i: nat)
    requires |x| == |y| && i <= |y|
    ensures Dot(x, LagShift(y, i)) == CrossSum(x, y, i)
  {
    var head, tail := x[..|y| - i], x[|y| - i..];
    var zeros := seq(i, _ => 0.0);
    assert x == head + tail;
    assert LagShift(y, i) == y[i..] + zeros;
    DotAppend(head, tail, y[i..], zeros);
    DotZeroLeft(zeros, tail);
    DotSymmetric(tail, zeros);
  }

  /** At lag 0 the sum is the plain dot product: c[0] = dot(x, y) / len(x). */
  lemma LagZeroIsDot(x: seq<real>, y: seq<real>)
    requires |x| == |y|
    ensures CrossSum(x, y, 0) == Dot(x, y)
  {
    assert x[..|y|] == x && y[0..] == y;
  }

  /** At lag len(y) the shifted y is all padding, so the sum is 0. */
  lemma FullLagIsZero(x: seq<real>, y: seq<real>)
    requires |x| == |y|
    ensures CrossSum(x, y, |y|) == 0.0
  {
    assert x[..0] == [];
  }
}
