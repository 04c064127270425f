/**
 * `parallel_corr2_coef` and `pcorr2_sugar` of braincode/math/base.py: the
 * `full` correlation matrix of A (p rows) against B (q rows), computed block
 * by block into a zero-filled p x q buffer, one block of `blockSize` rows of
 * B (columns of the result) per call, followed by a NaN-to-zero pass.
 *
 * The joblib map over the blocks is a sequential loop here: the blocks write
 * disjoint column ranges (BlocksDisjoint), so their order does not matter.
 */
module BlockCorrelation {
  import opened Numerics
  import opened Correlation

  /**
   * The number of blocks dispatched, `range(B_size/block_size)` under
   * Python 2: floor division, and no block at all when the quotient is not
   * positive (a negative block size).
   */
  function BlockCount(q: nat, blockSize: int): (n: nat)
    requires blockSize != 0
    ensures blockSize > 0 ==> n * blockSize <= q < (n + 1) * blockSize
    ensures blockSize < 0 ==> n == 0
  {
    if blockSize > 0 then q / blockSize else 0
  }

  /** The number of blocks needed to cover all q columns: the quotient rounded up. */
  function CeilBlockCount(q: nat, blockSize: nat): nat
    requires blockSize > 0
  {
    (q + blockSize - 1) / blockSize
  }

  /** Block i (as written to by pcorr2_sugar) covers column col. */
  predicate InBlock(i: nat, blockSize: nat, q: nat, col: int)
  {
    i * blockSize <= col < Min((i + 1) * blockSize, q)
  }

  /** `np.nan_to_num(corr2_coef(A, B))`: the `full` matrix with NaN replaced by 0. */
  function CleanedFull(A: Matrix, B: Matrix, sqrt: real -> real): (c: seq<seq<Float>>)
    requires WellFormed(A) && WellFormed(B) && A.cols == B.cols
    ensures |c| == |A.rows| && forall row :: 0 <= row < |c| ==> |c[row]| == |B.rows|
    ensures forall row, col :: 0 <= row < |A.rows| && 0 <= col < |B.rows| ==>
      c[row][col].Num? && (CorrFull(A, B, sqrt)[row][col].Num? ==> c[row][col] == CorrFull(A, B, sqrt)[row][col])
    ensures forall row, col :: 0 <= row < |A.rows| && 0 <= col < |B.rows| ==>
      CorrFull(A, B, sqrt)[row][col].NaN? ==> c[row][col] == Num(0.0)
  {
    seq(|A.rows|, row requires 0 <= row < |A.rows| =>
      seq(|B.rows|, col requires 0 <= col < |B.rows| => NanToNum(CorrFull(A, B, sqrt)[row][col])))
  }

  /**
   * What is saved after nb blocks of blockSize columns have been written
   * into a zero-filled buffer and NaN has been replaced by 0: the cleaned
   * `full` value in every written column, 0 in every other.
   */
  function Saved(A: Matrix, B: Matrix, nb: nat, blockSize: int, sqrt: real -> real): (s: seq<seq<Float>>)
    requires WellFormed(A) && WellFormed(B) && (nb == 0 || A.cols == B.cols)
    ensures |s| == |A.rows| && forall row :: 0 <= row < |s| ==> |s[row]| == |B.rows|
  {
    seq(|A.rows|, row requires 0 <= row < |A.rows| =>
      seq(|B.rows|, col requires 0 <= col < |B.rows| =>
        if col < nb * blockSize then NanToNum(CorrFull(A, B, sqrt)[row][col]) else Num(0.0)))
  }

  /**
   * `pcorr2_sugar(A, B, output, i, block_size)`: writes `corr2_coef(A, B[lo:hi])`
   * into the columns lo..hi-1 of output, where the last, short block (the
   * branch taken when (i+1)*block_size passes q) runs to q. It raises
   * ValueError, writing nothing, when the rows of A and B differ in length.
   */
  method PCorr2Sugar(A: Matrix, B: Matrix, output: array2<Float>, i: nat, blockSize: nat, sqrt: real -> real)
    returns (r: Outcome<()>)
    requires WellFormed(A) && WellFormed(B) && blockSize > 0
    requires output.Length0 == |A.rows| && output.Length1 == |B.rows|
    modifies output
    ensures r.Ok? || r.ValueError?
    ensures r.ValueError? <==> A.cols != B.cols
    ensures r.ValueError? ==> unchanged(output)
    ensures r.Ok? ==> forall row, col :: 0 <= row < output.Length0 && 0 <= col < output.Length1 ==>
      output[row, col] == (if InBlock(i, blockSize, |B.rows|, col) then CorrFull(A, B, sqrt)[row][col] else old(output[row, col]))
  {
    var q := |B.rows|;
    var lo, hi;
    if (i + 1) * blockSize > q {
      lo, hi := Min(i * blockSize, q), q;
    } else {
      lo, hi := i * blockSize, (i + 1) * blockSize;
    }
    SugarRange(i, blockSize, q, lo, hi);
    var block := Corr2Coef(A, RowSlice(B, lo, hi), "full", sqrt);
    if block.ValueError? {
      return ValueError;
    }
    var m := block.value.m;
    ColumnLocality(A, B, lo, hi, sqrt);
    forall row, col | 0 <= row < output.Length0 && lo <= col < hi {
      output[row, col] := m[row][col - lo];
    }
    return Ok(());
  }

  /** The columns lo..hi-1 that either branch of pcorr2_sugar writes are exactly those of block i. */
  lemma SugarRange(i: nat, blockSize: nat, q: nat, lo: int, hi: int)
    requires blockSize > 0
    requires if (i + 1) * blockSize > q then lo == Min(i * blockSize, q) && hi == q
             else lo == i * blockSize && hi == (i + 1) * blockSize
    ensures 0 <= lo <= hi <= q
    ensures forall col :: InBlock(i, blockSize, q, col) <==> lo <= col < hi
  {
  }

  /** np.nan_to_num on a whole array, into a new one (`np.nan_to_num(np.array(corr_mtx))`). */
  method NanToNumArray(m: array2<Float>) returns (n: array2<Float>)
    ensures fresh(n) && n.Length0 == m.Length0 && n.Length1 == m.Length1
    ensures forall row, col :: 0 <= row < n.Length0 && 0 <= col < n.Length1 ==> n[row, col] == NanToNum(m[row, col])
  {
    n := new Float[m.Length0, m.Length1];
    var row := 0;
    while row < m.Length0
      invariant 0 <= row <= m.Length0
      invariant forall r, c :: 0 <= r < row && 0 <= c < m.Length1 ==> n[r, c] == NanToNum(m[r, c])
    {
      var col := 0;
      while col < m.Length1
        invariant 0 <= col <= m.Length1
        invariant forall r, c :: 0 <= r < row && 0 <= c < m.Length1 ==> n[r, c] == NanToNum(m[r, c])
        invariant forall c :: 0 <= c < col ==> n[row, c] == NanToNum(m[row, c])
      {
        n[row, col] := NanToNum(m[row, col]);
        col := col + 1;
      }
      row := row + 1;
    }
  }

  /**
   * The body of `parallel_corr2_coef` for a given number of blocks nb: a
   * zero-filled p x q buffer, blocks 0..nb-1 written by PCorr2Sugar in turn
   * (stopping at the first ValueError), then the NaN-to-zero pass.
   */
  method RunBlocks(A: Matrix, B: Matrix, nb: nat, blockSize: int, sqrt: real -> real)
    returns (r: Outcome<array2<Float>>)
    requires WellFormed(A) && WellFormed(B) && (nb == 0 || blockSize > 0)
    ensures r.Ok? || r.ValueError?
    ensures r.ValueError? <==> nb > 0 && A.cols != B.cols
    ensures r.Ok? ==> fresh(r.value) && r.value.Length0 == |A.rows| && r.value.Length1 == |B.rows|
    ensures r.Ok? ==> forall row, col :: 0 <= row < |A.rows| && 0 <= col < |B.rows| ==>
      r.value[row, col] == Saved(A, B, nb, blockSize, sqrt)[row][col]
  {
    var q := |B.rows|;
    var corrMtx := new Float[|A.rows|, q]((_, _) => Num(0.0));
    var i := 0;
    assert Min(0 * blockSize, q) == 0;
    while i < nb
      invariant 0 <= i <= nb
      invariant i == 0 || A.cols == B.cols
      invariant forall row, col :: 0 <= row < |A.rows| && 0 <= col < q ==>
        if col < Min(i * blockSize, q) then A.cols == B.cols && corrMtx[row, col] == CorrFull(A, B, sqrt)[row][col]
        else corrMtx[row, col] == Num(0.0)
    {
      var done := PCorr2Sugar(A, B, corrMtx, i, blockSize, sqrt);
      if done.ValueError? {
        return ValueError;
      }
      assert (i + 1) * blockSize == i * blockSize + blockSize;
      i := i + 1;
    }
    var narray := NanToNumArray(corrMtx);
    return Ok(narray);
  }

  /**
   * `parallel_corr2_coef(A, B, filename, block_size)`, returning the array it
   * saves. Python 2 divides `B_size/block_size` with floor division, raising
   * ZeroDivisionError for a zero block size; a ValueError from any block
   * propagates.
   */
  method ParallelCorr2Coef(A: Matrix, B: Matrix, blockSize: int, sqrt: real -> real)
    returns (r: Outcome<array2<Float>>)
    requires WellFormed(A) && WellFormed(B)
    ensures r.ZeroDivisionError? <==> blockSize == 0
    ensures blockSize != 0 ==> (r.ValueError? <==> BlockCount(|B.rows|, blockSize) > 0 && A.cols != B.cols)
    ensures r.Ok? ==> fresh(r.value) && r.value.Length0 == |A.rows| && r.value.Length1 == |B.rows|
    ensures r.Ok? ==> forall row, col :: 0 <= row < |A.rows| && 0 <= col < |B.rows| ==>
      r.value[row, col] == Saved(A, B, BlockCount(|B.rows|, blockSize), blockSize, sqrt)[row][col]
  {
    if blockSize == 0 {
      return ZeroDivisionError;
    }
    r := RunBlocks(A, B, BlockCount(|B.rows|, blockSize), blockSize, sqrt);
  }

  /**
   * `parallel_corr2_coef` with the block count rounded up, so that the short
   * last block handled by pcorr2_sugar is dispatched: the saved array is then
   * the cleaned `full` matrix in every column.
   */
  method ParallelCorr2CoefCeil(A: Matrix, B: Matrix, blockSize: int, sqrt: real -> real)
    returns (r: Outcome<array2<Float>>)
    requires WellFormed(A) && WellFormed(B)
    ensures r.ZeroDivisionError? <==> blockSize == 0
    ensures blockSize > 0 ==> (r.ValueError? <==> |B.rows| > 0 && A.cols != B.cols)
    ensures r.Ok? ==> fresh(r.value) && r.value.Length0 == |A.rows| && r.value.Length1 == |B.rows|
    ensures r.Ok? && blockSize > 0 ==> forall row, col :: 0 <= row < |A.rows| && 0 <= col < |B.rows| ==>
      A.cols == B.cols && r.value[row, col] == CleanedFull(A, B, sqrt)[row][col]
  {
    if blockSize == 0 {
      return ZeroDivisionError;
    }
    var nb := if blockSize > 0 then CeilBlockCount(|B.rows|, blockSize) else 0;
    if blockSize > 0 {
      CeilBlocksCoverAll(|B.rows|, blockSize);
    }
    r := RunBlocks(A, B, nb, blockSize, sqrt);
    if r.Ok? && blockSize > 0 {
      forall row, col | 0 <= row < |A.rows| && 0 <= col < |B.rows|
        ensures A.cols == B.cols && r.value[row, col] == CleanedFull(A, B, sqrt)[row][col]
      {
        assert col < nb * blockSize;
      }
    }
  }

  // ---------------------------------------------------------------------
  // Which columns the blocks write
  // ---------------------------------------------------------------------

  /**
   * Every block that `range(B_size/block_size)` dispatches ends inside B, so
   * the `(i+1)*block_size > B.shape[0]` branch of pcorr2_sugar is never taken.
   */
  lemma DispatchedBlocksAreWhole(q: nat, blockSize: int, i: nat)
    requires blockSize > 0 && i < BlockCount(q, blockSize)
    ensures (i + 1) * blockSize <= q
  {
    var k := q / blockSize;
    assert i + 1 <= k;
    assert (i + 1) * blockSize <= k * blockSize;
    assert k * blockSize + q % blockSize == q;
  }

  /** Two different blocks never write the same column. */
  lemma BlocksDisjoint(i: nat, j: nat, blockSize: nat, q: nat, col: int)
    requires i != j && blockSize > 0
    ensures !(InBlock(i, blockSize, q, col) && InBlock(j, blockSize, q, col))
  {
    if i < j {
      MulMonotone(i + 1, j, blockSize);
    } else {
      MulMonotone(j + 1, i, blockSize);
    }
  }

  /** Column col lies in block col / blockSize (and, by BlocksDisjoint, in no other). */
  lemma ColumnInItsBlock(q: nat, blockSize: nat, col: nat)
    requires blockSize > 0 && col < q
    ensures InBlock(col / blockSize, blockSize, q, col)
  {
    var i := col / blockSize;
    assert i * blockSize + col % blockSize == col;
    assert (i + 1) * blockSize == i * blockSize + blockSize;
  }

  /** The dispatched blocks span BlockCount(q, blockSize) * blockSize = q - q % blockSize columns. */
  lemma FloorWidth(q: nat, blockSize: int)
    requires blockSize > 0
    ensures BlockCount(q, blockSize) * blockSize == q - q % blockSize
  {
  }

  /** A column is written by a dispatched block exactly when it lies below BlockCount(q, blockSize) * blockSize. */
  lemma FloorBlocksCover(q: nat, blockSize: int, col: nat)
    requires blockSize > 0 && col < q
    ensures (exists i :: 0 <= i < BlockCount(q, blockSize) && InBlock(i, blockSize, q, col))
        <==> col < BlockCount(q, blockSize) * blockSize
  {
    FirstBlocksCover(BlockCount(q, blockSize), blockSize, q, col);
  }

  /** Blocks 0 to k - 1 together hold exactly the columns of B below k * blockSize. */
  lemma FirstBlocksCover(k: nat, blockSize: nat, q: nat, col: nat)
    requires blockSize > 0 && col < q
    ensures (exists i :: 0 <= i < k && InBlock(i, blockSize, q, col)) <==> col < k * blockSize
  {
    if col < k * blockSize {
      var i := ColumnBelowIsCovered(k, blockSize, q, col);
      assert 0 <= i < k && InBlock(i, blockSize, q, col);
    }
    forall i | 0 <= i < k && InBlock(i, blockSize, q, col)
      ensures col < k * blockSize
    {
      MulMonotone(i + 1, k, blockSize);
    }
  }

  /** A column of B below k * blockSize lies in block col / blockSize, one of the first k. */
  lemma ColumnBelowIsCovered(k: nat, blockSize: nat, q: nat, col: nat) returns (i: nat)
    requires blockSize > 0 && col < q && col < k * blockSize
    ensures i == col / blockSize && i < k && InBlock(i, blockSize, q, col)
  {
    i := col / blockSize;
    ColumnInItsBlock(q, blockSize, col);
    if k <= col / blockSize {
      MulMonotone(k, col / blockSize, blockSize);
    }
  }

  /** Rounding up dispatches enough blocks to reach every column, and no more than one block past it. */
  lemma CeilBlocksCoverAll(q: nat, blockSize: nat)
    requires blockSize > 0
    ensures q <= CeilBlockCount(q, blockSize) * blockSize
    ensures CeilBlockCount(q, blockSize) * blockSize < q + blockSize
  {
    var n := q + blockSize - 1;
    var k := n / blockSize;
    assert k * blockSize + n % blockSize == n;
  }

  /**
   * When blockSize does not divide q, the rounded-up count dispatches one
   * more block than the floor, and that last block takes the short branch of
   * pcorr2_sugar, writing the last q % blockSize columns.
   */
  lemma CeilLastBlockIsShort(q: nat, blockSize: nat)
    requires blockSize > 0 && q % blockSize != 0
    ensures CeilBlockCount(q, blockSize) == BlockCount(q, blockSize) + 1
    ensures CeilBlockCount(q, blockSize) * blockSize > q
    ensures (CeilBlockCount(q, blockSize) - 1) * blockSize == q - q % blockSize
  {
    var k, r := q / blockSize, q % blockSize;
    assert q + blockSize - 1 == (k + 1) * blockSize + (r - 1);
    DivUnique(q + blockSize - 1, blockSize, k + 1, r - 1);
  }

  /** a <= b implies a * m <= b * m for non-negative m. */
  lemma MulMonotone(a: int, b: int, m: int)
    requires a <= b && 0 <= m
    ensures a * m <= b * m
  {
    assert b * m - a * m == (b - a) * m;
  }

  /** Euclidean division is unique: n == k * d + r with 0 <= r < d means n / d == k. */
  lemma DivUnique(n: int, d: int, k: int, r: int)
    requires d > 0 && n == k * d + r && 0 <= r < d
    ensures n / d == k && n % d == r
  {
    var k', r' := n / d, n % d;
    assert n == k' * d + r';
    if k' < k {
      MulMonotone(k' + 1, k, d);
    } else if k < k' {
      MulMonotone(k + 1, k', d);
    }
  }

  // ---------------------------------------------------------------------
  // What is saved
  // ---------------------------------------------------------------------

  /** The saved array holds no NaN. */
  lemma SavedHasNoNaN(A: Matrix, B: Matrix, nb: nat, blockSize: int, sqrt: real -> real)
    requires WellFormed(A) && WellFormed(B) && (nb == 0 || A.cols == B.cols)
    ensures forall row, col :: 0 <= row < |A.rows| && 0 <= col < |B.rows| ==>
      Saved(A, B, nb, blockSize, sqrt)[row][col].Num?
  {
  }

  /** A constant row of A is saved as a row of zeros: its NaN coefficients are cleaned to 0. */
  lemma SavedConstantRowIsZero(A: Matrix, B: Matrix, nb: nat, blockSize: int, sqrt: real -> real, i: nat)
    requires WellFormed(A) && WellFormed(B) && A.cols == B.cols
    requires IsSqrt(sqrt) && i < |A.rows| && IsConstant(A.rows[i])
    ensures forall j :: 0 <= j < |B.rows| ==> Saved(A, B, nb, blockSize, sqrt)[i][j] == Num(0.0)
  {
    FullConstantRowIsNaN(A, B, sqrt, i);
  }

  /** Every saved cell is a correlation coefficient in [-1, 1]. */
  lemma SavedBounded(A: Matrix, B: Matrix, nb: nat, blockSize: int, sqrt: real -> real, i: nat, j: nat)
    requires WellFormed(A) && WellFormed(B) && A.cols == B.cols
    requires IsSqrt(sqrt) && i < |A.rows| && j < |B.rows|
    ensures -1.0 <= Saved(A, B, nb, blockSize, sqrt)[i][j].r <= 1.0
  {
    FullEntries(A, B, sqrt, i, j);
  }

  /**
   * With floor division the last q % blockSize columns are never written:
   * they are saved as 0 whatever their correlation is.
   */
  lemma FloorLeavesTrailingZeros(A: Matrix, B: Matrix, blockSize: int, sqrt: real -> real, row: nat, col: nat)
    requires WellFormed(A) && WellFormed(B) && A.cols == B.cols && blockSize > 0
    requires row < |A.rows| && |B.rows| - |B.rows| % blockSize <= col < |B.rows|
    ensures Saved(A, B, BlockCount(|B.rows|, blockSize), blockSize, sqrt)[row][col] == Num(0.0)
  {
    FloorWidth(|B.rows|, blockSize);
  }

  /** When blockSize divides q, the saved array is the cleaned `full` matrix. */
  lemma FloorSavedWhenDivisible(A: Matrix, B: Matrix, blockSize: int, sqrt: real -> real)
    requires WellFormed(A) && WellFormed(B) && A.cols == B.cols && blockSize > 0
    requires |B.rows| % blockSize == 0
    ensures Saved(A, B, BlockCount(|B.rows|, blockSize), blockSize, sqrt) == CleanedFull(A, B, sqrt)
  {
    var q := |B.rows|;
    var s, c := Saved(A, B, BlockCount(q, blockSize), blockSize, sqrt), CleanedFull(A, B, sqrt);
    forall row | 0 <= row < |A.rows| ensures s[row] == c[row] {
      FloorWidth(q, blockSize);
      assert forall col :: 0 <= col < q ==> s[row][col] == c[row][col];
    }
  }

  /**
   * A concrete input on which the floor division loses a column: A has the
   * row [0, 2], B three copies of it and the block size is 2. One block is
   * dispatched, so column 2 is saved as 0 although its correlation is 1.
   */
  lemma FloorDropsTrailingColumn(sqrt: real -> real)
    requires IsSqrt(sqrt)
    ensures var A, B := Matrix(2, [[0.0, 2.0]]), Matrix(2, [[0.0, 2.0], [0.0, 2.0], [0.0, 2.0]]);
      WellFormed(A) && WellFormed(B) &&
      BlockCount(|B.rows|, 2) == 1 &&
      Saved(A, B, BlockCount(|B.rows|, 2), 2, sqrt)[0][2] == Num(0.0) &&
      CleanedFull(A, B, sqrt)[0][2] == Num(1.0)
  {
    var a := [0.0, 2.0];
    var A, B := Matrix(2, [a]), Matrix(2, [a, a, a]);
    assert a[0] != a[1];
    PearsonSelfIsOne(a, sqrt);
    assert CorrFull(A, B, sqrt)[0][2] == PearsonEntry(a, a, sqrt);
  }
}
