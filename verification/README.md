# Row-wise correlation engine of braincode / brainDecTool, in Dafny

This project models the numerical core of the braincode / brainDecTool fMRI
analysis code:

- `corr2_coef` (braincode/math/base.py) computes the row-wise Pearson
  correlation of two 2-D arrays. In `full` mode it correlates every row of A
  with every row of B. In `pair` mode it correlates row i of A with row i of
  B, using z-scores with NaN replaced by 0.
- `parallel_corr2_coef` and `pcorr2_sugar` compute the `full` matrix block
  by block into a zero-filled p x q buffer. They then run a NaN-to-zero
  pass over it.
- `time_lag_corr` computes the cross-correlation of x with y shifted left
  by 0 .. maxlag-1 samples.
- In brainDecTool/vim2/main.py, `cross_modal_corr` fills an fMRI-by-feature
  matrix one column at a time, and `roi2nifti` merges the eight ROI masks
  into one label volume.

There are five modules:

- `Numerics`: reals with a NaN value, numpy's division, means, centring,
  sums of squares, dot products, Cauchy-Schwarz, and square-root facts.
- `Correlation`: `corr2_coef`.
- `BlockCorrelation`: `parallel_corr2_coef` and `pcorr2_sugar`.
- `TimeLag`: `time_lag_corr`.
- `Vim2Main`: `cross_modal_corr` and the ROI merge.

Modelling conventions:

- Arrays hold exact reals. A numpy array is a `Matrix` (sample count and
  rows).
- numpy's ValueError and Python 2's ZeroDivisionError are the `Outcome`
  constructors `ValueError` and `ZeroDivisionError`.
- `np.sqrt` is a parameter `sqrt: real -> real`. Lemmas that depend on what
  it computes require `IsSqrt(sqrt)`: a non-negative root whose square is
  its argument.
- Buffers that the source updates in place are `array2<Float>`, written by
  methods with loops.

## Model

| member | source | states |
|---|---|---|
| Numerics.Div | braincode/math/base.py:26 | numpy's float division: NaN exactly when the divisor is 0, otherwise the quotient times the divisor gives back the numerator |
| Numerics.NanToNum | braincode/math/base.py:30-31 | np.nan_to_num: NaN becomes 0, numbers are kept |
| Numerics.Scale | braincode/math/base.py:28 | dividing a centred row by its deviation divides each element and keeps the length |
| Numerics.Mean | braincode/math/base.py:20-21 | `mean(1)` of one row: times the sample count it gives the row sum; 0 stands in for numpy's NaN on an empty row |
| Numerics.Centered | braincode/math/base.py:20-21 | `A - A.mean(1)[:, None]` for one row: same length, and each element plus the mean gives back the sample |
| Numerics.SumSq | braincode/math/base.py:23-24 | defined as the sum of the squared samples; SumSqIsDot, SumSqNonNegative and ConstantIffZeroSumSq state its properties |
| Numerics.Dot | braincode/math/base.py:26 | defined as the sum of products of matching samples (`np.dot` of two rows); DotSymmetric, DotAppend and CauchySchwarz state its properties |
| Numerics.StdDev | braincode/math/base.py:28 | defined as the root of the centred sum of squares over the sample count (`std(1)`, population form); StdDevZero and RootOfProductSplits state its properties |
| Numerics.CenteredSumsToZero | braincode/math/base.py:20-21 | a row minus its mean sums to 0 |
| Numerics.MeanOfConstant | braincode/math/base.py:20 | the mean of a non-empty constant row is its value |
| Numerics.SumSqNonNegative | braincode/math/base.py:23-24 | a row sum of squares is >= 0, and 0 exactly for the zero row |
| Numerics.ConstantIffZeroSumSq | braincode/math/base.py:20-24 | a row is constant exactly when its centred sum of squares is 0 |
| Numerics.CauchySchwarz | braincode/math/base.py:26 | the squared numerator of a `full` entry is at most the product of the two sums of squares |
| Numerics.RootOfProductZero | braincode/math/base.py:26 | the `full` denominator is 0 exactly when one of the two sums of squares is 0 |
| Numerics.RatioBounded | braincode/math/base.py:26 | a numerator bounded by Cauchy-Schwarz, divided by the root of the product, lies in [-1, 1] |
| Numerics.StdDevZero | braincode/math/base.py:28 | a population deviation is >= 0, and 0 exactly when the centred sum of squares is 0 |
| Numerics.DotScaled | braincode/math/base.py:28-32 | the dot product of two rows divided by p and q is their dot product divided by p * q |
| Numerics.RootOfProductSplits | braincode/math/base.py:23-28 | the `full` denominator is the product of the two population deviations times the sample count |
| Correlation.RowSlice | braincode/math/base.py:70-73 | `B[lo:hi, :]` keeps the sample count and the rows lo..hi-1 |
| Correlation.PearsonEntry | braincode/math/base.py:20-26 | defined as the centred dot product divided by the root of the product of the two centred sums of squares; PearsonNaNIffConstant, PearsonBounded, PearsonSelfIsOne and PearsonSymmetric state its properties |
| Correlation.CorrFull | braincode/math/base.py:18-26 | the `full` result has one row per row of A and one column per row of B |
| Correlation.ZScore | braincode/math/base.py:28-31 | the z-scored row has the length of the row |
| Correlation.PairEntry | braincode/math/base.py:32 | defined as the dot product of the two z-scored rows divided by the sample count; PairConstantRowIsZero and PairMatchesPearson state its properties |
| Correlation.CorrPair | braincode/math/base.py:27-32 | the `pair` result has one value per row |
| Correlation.Corr2Coef | braincode/math/base.py:10-32 | ValueError exactly when the sample counts differ (or, in `pair` mode, the row counts); otherwise a p x q matrix (`full`) or a p-vector (`pair`); any other mode returns None |
| Correlation.PearsonNaNIffConstant | braincode/math/base.py:20-26 | a `full` entry is NaN exactly when one of its rows is constant, and its numerator is then 0, so it is never +-inf |
| Correlation.PearsonBounded | braincode/math/base.py:20-26 | every `full` entry that is a number lies in [-1, 1] |
| Correlation.PearsonSelfIsOne | braincode/math/base.py:20-26 | a non-constant row correlates with itself with coefficient 1 |
| Correlation.PearsonSymmetric | braincode/math/base.py:26 | swapping the two rows keeps the coefficient |
| Correlation.FullEntries | braincode/math/base.py:18-26 | entry (i, j) of the `full` matrix is NaN iff row i of A or row j of B is constant, and lies in [-1, 1] otherwise |
| Correlation.FullConstantRowIsNaN | braincode/math/base.py:20-26 | a constant row of A makes its whole row of the `full` matrix NaN |
| Correlation.FullSelfCorrelation | braincode/math/base.py:18-26 | corr2_coef(A, A) is symmetric with 1 on the diagonal for every non-constant row |
| Correlation.ColumnLocality | braincode/math/base.py:69-73 | correlating A with rows lo..hi-1 of B gives exactly columns lo..hi-1 of correlating A with all of B |
| Correlation.ZScoreOfConstant | braincode/math/base.py:28-31 | a constant non-empty row z-scores to all zeros (0/0 replaced by 0) |
| Correlation.PairConstantRowIsZero | braincode/math/base.py:28-32 | in `pair` mode a constant row, of A or of B, yields 0 |
| Correlation.PairConstantRowsAreZero | braincode/math/base.py:27-32 | element i of the `pair` result is 0 when row i of A or row i of B is constant |
| Correlation.ZScoreOfVarying | braincode/math/base.py:28-31 | a non-constant row has positive deviation, and its z-score is its centred row divided by that deviation |
| Correlation.ZScoreDot | braincode/math/base.py:28-32 | for rows with positive deviations whose z-scores are the centred rows scaled by them (ZScoreOfVarying), the dot product of the z-scores is that of the centred rows over the product of the deviations |
| Correlation.RootOfSumSqSplits | braincode/math/base.py:23-28 | the `full` denominator of two rows equals the product of their deviations times the sample count |
| Correlation.PairFromDeviations | braincode/math/base.py:26-32 | with both rows written through their deviations, the `pair` quotient equals the `full` quotient |
| Correlation.PairMatchesPearson | braincode/math/base.py:18-32 | for two non-constant rows the `pair` value equals the `full` coefficient |
| Correlation.PairIsFullDiagonal | braincode/math/base.py:10-32 | element i of the `pair` result is entry (i, i) of the `full` matrix when neither row is constant |
| BlockCorrelation.BlockCount | braincode/math/base.py:62 | `range(B_size/block_size)` under Python 2: for a positive block size the floor quotient n with n * bs <= q < (n + 1) * bs, and no block for a negative one |
| BlockCorrelation.InBlock | braincode/math/base.py:69-73 | defined as the columns of block i, from i * bs up to (i + 1) * bs cut short at q; SugarRange ties it to both branches |
| BlockCorrelation.CleanedFull | braincode/math/base.py:63 | the NaN-cleaned `full` matrix has its shape, holds only numbers, is 0 wherever the `full` matrix is NaN, and agrees with it wherever that is a number |
| BlockCorrelation.Saved | braincode/math/base.py:57-63 | what is saved after nb blocks has the p x q shape |
| BlockCorrelation.PCorr2Sugar | braincode/math/base.py:66-73 | ValueError (nothing written) exactly when the sample counts differ; otherwise block i's columns, cut short at q, get the `full` values and every other cell is unchanged |
| BlockCorrelation.SugarRange | braincode/math/base.py:69-73 | both branches of pcorr2_sugar write exactly the columns of block i, cut short at q |
| BlockCorrelation.NanToNumArray | braincode/math/base.py:63 | a new array of the same shape holding nan_to_num of every cell |
| BlockCorrelation.RunBlocks | braincode/math/base.py:57-63 | after a zero-filled buffer, nb blocks and the cleanup pass, every cell equals Saved; ValueError exactly when nb > 0 and the sample counts differ |
| BlockCorrelation.ParallelCorr2Coef | braincode/math/base.py:34-64 | ZeroDivisionError exactly for block size 0; ValueError exactly when a block is dispatched and the sample counts differ; otherwise the saved array is Saved for the floor block count |
| BlockCorrelation.ParallelCorr2CoefCeil | braincode/math/base.py:61-63 | with the block count rounded up, the saved array is the cleaned `full` matrix in every column |
| BlockCorrelation.DispatchedBlocksAreWhole | braincode/math/base.py:61-62 | every dispatched block ends inside B, so the short branch of pcorr2_sugar is never taken |
| BlockCorrelation.BlocksDisjoint | braincode/math/base.py:69-73 | two different blocks never write the same column, so the parallel writes do not interfere |
| BlockCorrelation.ColumnInItsBlock | braincode/math/base.py:69-73 | column col lies in block col / block_size |
| BlockCorrelation.FloorWidth | braincode/math/base.py:62 | the dispatched blocks span q - q % block_size columns |
| BlockCorrelation.FloorBlocksCover | braincode/math/base.py:61-73 | a column is written by a dispatched block exactly when it lies below the floor block count times the block size |
| BlockCorrelation.FirstBlocksCover | braincode/math/base.py:69-73 | blocks 0..k-1 together cover exactly the columns below k * block_size |
| BlockCorrelation.ColumnBelowIsCovered | braincode/math/base.py:69-73 | a column below k * block_size lies in one of the first k blocks |
| BlockCorrelation.CeilBlocksCoverAll | braincode/math/base.py:62 | the rounded-up block count covers all q columns and overshoots by less than one block |
| BlockCorrelation.CeilLastBlockIsShort | braincode/math/base.py:62-70 | when block_size does not divide q, rounding up adds exactly one block, which takes the short branch |
| BlockCorrelation.SavedHasNoNaN | braincode/math/base.py:63 | the saved array holds no NaN |
| BlockCorrelation.SavedConstantRowIsZero | braincode/math/base.py:63 | a constant row of A is saved as a row of zeros |
| BlockCorrelation.SavedBounded | braincode/math/base.py:57-63 | every saved cell lies in [-1, 1] |
| BlockCorrelation.FloorLeavesTrailingZeros | braincode/math/base.py:62 | the last q % block_size columns are saved as 0 whatever their correlation |
| BlockCorrelation.FloorSavedWhenDivisible | braincode/math/base.py:62-63 | when block_size divides q, the saved array is the cleaned `full` matrix |
| BlockCorrelation.FloorDropsTrailingColumn | braincode/math/base.py:62 | a concrete input where a column of correlation 1 is saved as 0 |
| TimeLag.LagShift | braincode/math/base.py:118 | y shifted left by i and padded with i zeros: length max(len(y), i), element n is y[n + i] or 0 |
| TimeLag.CrossSum | braincode/math/base.py:111-112 | defined as c_xy[k], the sum over n < len(y) - k of x[n] * y[n + k]; LagDotIsCrossSum, LagZeroIsDot and FullLagIsZero state its properties |
| TimeLag.CorrelateScalar | braincode/math/base.py:119 | np.correlate stored into one element succeeds exactly when both inputs are non-empty and of equal length |
| TimeLag.TimeLagCorr | braincode/math/base.py:105-120 | ValueError exactly for a negative maxlag, or a positive one with unequal or empty inputs or maxlag > len(y) + 1; otherwise c[k] = c_xy[k] / len(x) for k < maxlag |
| TimeLag.LagDotIsCrossSum | braincode/math/base.py:111-119 | the dot product with the padded, shifted y is the lagged sum of x[n] * y[n + k] |
| TimeLag.LagZeroIsDot | braincode/math/base.py:111-119 | at lag 0 the result is dot(x, y) / len(x) |
| TimeLag.FullLagIsZero | braincode/math/base.py:118-119 | at lag len(y) the shifted y is all padding and the value is 0 |
| Vim2Main.CrossModalCorr | brainDecTool/vim2/main.py:45-57 | ValueError exactly when there is a feature row and the sample counts differ; otherwise column i holds corr2_coef(fmri, feat[i]), the `full` matrix, NaN included |
| Vim2Main.Mask | brainDecTool/vim2/main.py:16-26 | mask k in merge order (the one weighted k + 1); when the eight masks have the same shape, it has one entry per voxel |
| Vim2Main.MergeRois | brainDecTool/vim2/main.py:25-26 | the merged label volume has one label per voxel |
| Vim2Main.MergedLabelIdentifiesRoi | brainDecTool/vim2/main.py:25-26 | for binary, non-overlapping masks a voxel's label is 0 exactly when no mask contains it, and k + 1 exactly when mask k does |

## Left out

- The other functions of base.py (`unit_vector`, `down_sample`, `img_resize`, `r2p` and the rest) are not part of this model. The same goes for lm.py and the kernels.
- In main.py, `gen_mean_vol`, `retinotopic_mapping`, the `__main__` block, the HDF5 reads of the masks, `convert2ras`, `np.around` and `save2nifti` are file I/O or orientation changes. They are left out. Only the label merge of `roi2nifti` is modelled.
- Floating point: all arithmetic is exact over the reals. The float16 storage of `corr_mtx`, rounding, overflow and numpy's +-inf are not modelled. PearsonNaNIffConstant shows that a zero denominator always comes with a zero numerator, so ±inf cannot arise in exact arithmetic.
- NanToNum: the mapping of +-inf to the largest finite float is not modelled, because no infinity arises in the model.
- `np.sqrt` is a parameter. The lemmas assume it is the exact non-negative square root (`IsSqrt`).
- The joblib `Parallel` map is a sequential loop over the blocks. BlocksDisjoint shows that the blocks write disjoint columns, so the order does not matter. `n_jobs` is not modelled.
- ParallelCorr2Coef: the memmap file, `np.save` and `filename` are not modelled. The method returns the array that would be saved. memmap's refusal of an empty shape is not modelled either.
- The `print` statements are left out.
- PCorr2Sugar requires a non-negative index and a positive block size. Python's negative slice indices are not modelled; `parallel_corr2_coef` only ever calls it with such arguments.
- Numerics.Mean: the mean of an empty row is 0 here, whereas numpy gives NaN with a warning. Only rows of zero samples are affected.
- Correlation.Corr2Coef: numpy's broadcasting of a size-1 dimension in `pair` mode's `einsum` is not modelled. Arrays of different row counts give ValueError.
- TimeLag.TimeLagCorr: it works on reals, so the floor division an integer-typed `x` would give is not modelled.
- Vim2Main.MergeRois requires the eight masks to have the same shape. numpy broadcasting of differently shaped masks is not modelled.
- For a constant row, `full` mode divides 0 by 0 and yields NaN. Only the parallel path, through `nan_to_num`, and `pair` mode yield 0. The model follows the code (FullConstantRowIsNaN, PairConstantRowIsZero, SavedHasNoNaN). Vim2Main.CrossModalCorr accordingly keeps NaN entries.

## Findings

| source | as written | input that shows it | evidently intended | confidence | as-written member | corrected member |
|---|---|---|---|---|---|---|
| braincode/math/base.py:62 | `range(B_size/block_size)` floors under Python 2, so when block_size does not divide q the last q % block_size columns are never computed and are saved as 0 | A = [[0, 2]], B = three rows [0, 2], block_size = 2: one block is dispatched and column 2 is saved as 0, although its correlation is 1 | dispatch the rounded-up number of blocks, so that the short last block which pcorr2_sugar handles at lines 69-70 is computed | not executed | BlockCorrelation.FloorDropsTrailingColumn | BlockCorrelation.ParallelCorr2CoefCeil |
