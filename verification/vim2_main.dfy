/**
 * The computational parts of brainDecTool/vim2/main.py: `cross_modal_corr`,
 * which fills a zero-initialised fMRI-by-feature matrix one column per loop
 * iteration with `corr2_coef`, and the label merge of `roi2nifti`.
 */
module Vim2Main {
  import opened Numerics
  import opened Correlation

  /**
   * `cross_modal_corr(fmri_ts, feat_ts)`: column i of the result is
   * `corr2_coef(fmri_ts, feat_ts[i, :].reshape(1, -1))[:, 0]`. The first
   * iteration raises ValueError when the fMRI and feature time series differ
   * in length. There is no NaN cleanup.
   */
  method CrossModalCorr(fmri: Matrix, feat: Matrix, sqrt: real -> real) returns (r: Outcome<array2<Float>>)
    requires WellFormed(fmri) && WellFormed(feat)
    ensures r.Ok? || r.ValueError?
    ensures r.ValueError? <==> |feat.rows| > 0 && fmri.cols != feat.cols
    ensures r.Ok? ==> fresh(r.value) && r.value.Length0 == |fmri.rows| && r.value.Length1 == |feat.rows|
    ensures r.Ok? ==> forall row, col :: 0 <= row < |fmri.rows| && 0 <= col < |feat.rows| ==>
      fmri.cols == feat.cols && r.value[row, col] == CorrFull(fmri, feat, sqrt)[row][col]
  {
    var fmriSize, featSize := |fmri.rows|, |feat.rows|;
    var corrMtx := new Float[fmriSize, featSize]((_, _) => Num(0.0));
    var i := 0;
    while i < featSize
      invariant 0 <= i <= featSize
      invariant i == 0 || fmri.cols == feat.cols
      invariant forall row, col :: 0 <= row < fmriSize && 0 <= col < featSize ==>
        if col < i then fmri.cols == feat.cols && corrMtx[row, col] == CorrFull(fmri, feat, sqrt)[row][col]
        else corrMtx[row, col] == Num(0.0)
    {
      var tmp := RowSlice(feat, i, i + 1);
      var res := Corr2Coef(fmri, tmp, "full", sqrt);
      if res.ValueError? {
        return ValueError;
      }
      ColumnLocality(fmri, feat, i, i + 1, sqrt);
      forall row | 0 <= row < fmriSize {
        corrMtx[row, i] := res.value.m[row][0];
      }
      i := i + 1;
    }
    return Ok(corrMtx);
  }

  /** The eight visual-area masks of a volume (left/right V1, V2, V3, V3A), one entry per voxel. */
  datatype RoiMasks = RoiMasks(
    lV1: seq<int>, rV1: seq<int>, lV2: seq<int>, rV2: seq<int>,
    lV3: seq<int>, rV3: seq<int>, lV3a: seq<int>, rV3a: seq<int>)

  /** All eight masks cover the same voxels. */
  predicate SameShape(m: RoiMasks)
  {
    var n := |m.lV1|;
    |m.rV1| == n && |m.lV2| == n && |m.rV2| == n && |m.lV3| == n && |m.rV3| == n && |m.lV3a| == n && |m.rV3a| == n
  }

  /** Mask k, in the order of the merge; it is given the label k + 1. */
  function Mask(m: RoiMasks, k: nat): (mask: seq<int>)
    requires k < 8
    ensures SameShape(m) ==> |mask| == |m.lV1|
  {
    match k
    case 0 => m.lV1
    case 1 => m.rV1
    case 2 => m.lV2
    case 3 => m.rV2
    case 4 => m.lV3
    case 5 => m.rV3
    case 6 => m.lV3a
    case _ => m.rV3a
  }

  /** The merged ROI label volume of `roi2nifti`: a weighted sum of the masks with weights 1 to 8. */
  function MergeRois(m: RoiMasks): (labels: seq<int>)
    requires SameShape(m)
    ensures |labels| == |m.lV1|
  {
    seq(|m.lV1|, v requires 0 <= v < |m.lV1| =>
      m.lV1[v] + m.rV1[v] * 2 + m.lV2[v] * 3 + m.rV2[v] * 4 +
      m.lV3[v] * 5 + m.rV3[v] * 6 + m.lV3a[v] * 7 + m.rV3a[v] * 8)
  }

  /** Voxel v is 0 or 1 in every mask, and 1 in at most one of them. */
  predicate DisjointBinaryAt(m: RoiMasks, v: nat)
    requires SameShape(m) && v < |m.lV1|
  {
    (forall k :: 0 <= k < 8 ==> Mask(m, k)[v] == 0 || Mask(m, k)[v] == 1) &&
    (forall j, k :: 0 <= j < k < 8 ==> Mask(m, j)[v] == 0 || Mask(m, k)[v] == 0)
  }

  /**
   * For binary, non-overlapping masks the merged label of a voxel is 0
   * exactly when no mask contains it, and k + 1 exactly when mask k does.
   */
  lemma MergedLabelIdentifiesRoi(m: RoiMasks, v: nat)
    requires SameShape(m) && v < |m.lV1| && DisjointBinaryAt(m, v)
    ensures MergeRois(m)[v] == 0 <==> forall k :: 0 <= k < 8 ==> Mask(m, k)[v] == 0
    ensures forall k :: 0 <= k < 8 ==> (MergeRois(m)[v] == k + 1 <==> Mask(m, k)[v] == 1)
  {
    var b := seq(8, k requires 0 <= k < 8 => Mask(m, k)[v]);
    assert b == [m.lV1[v], m.rV1[v], m.lV2[v], m.rV2[v], m.lV3[v], m.rV3[v], m.lV3a[v], m.rV3a[v]];
    assert MergeRois(m)[v] == b[0] + b[1] * 2 + b[2] * 3 + b[3] * 4 + b[4] * 5 + b[5] * 6 + b[6] * 7 + b[7] * 8;
    if exists k :: 0 <= k < 8 && b[k] == 1 {
      var k :| 0 <= k < 8 && b[k] == 1;
      assert forall j :: 0 <= j < 8 && j != k ==> b[j] == 0;
    } else {
      assert forall j :: 0 <= j < 8 ==> b[j] == 0;
    }
  }
}
