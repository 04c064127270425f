/**
 * Exact-real stand-ins for the numpy primitives that the correlation code is
 * built from: row sums, means, centring, sums of squares, dot products, true
 * division that yields NaN on a zero divisor, and np.nan_to_num.
 *
 * Square roots are not computed: every operation that needs one takes the
 * root as a parameter `sqrt: real -> real`, and the lemmas that depend on
 * what a square root is require IsSqrt(sqrt).
 */
module Numerics {

  /** One element of a numpy float array: a number, or the NaN that 0/0 yields. */
  datatype Float = Num(r: real) | NaN

  /** A Python call that either returns a value or raises ValueError or ZeroDivisionError. */
  datatype Outcome<T> = Ok(value: T) | ValueError | ZeroDivisionError

  /**
   * numpy's true division. A zero divisor gives NaN; numpy gives +-inf when
   * the numerator is not zero, a case the lemmas below show never arises in
   * the correlation code over exact reals.
   */
  function Div(n: real, d: real): (v: Float)
    ensures v.NaN? <==> d == 0.0
    ensures v.Num? ==> v.r * d == n
  {
    if d == 0.0 then NaN else Num(n / d)
  }

  /** np.nan_to_num on one element: NaN becomes 0, a number is kept. */
  function NanToNum(v: Float): (w: Float)
    ensures w.Num?
    ensures v.NaN? ==> w == Num(0.0)
    ensures v.Num? ==> w == v
  {
    if v.NaN? then Num(0.0) else v
  }

  function Min(a: int, b: int): int
  {
    if a <= b then a else b
  }

  function Max(a: int, b: int): int
  {
    if a <= b then b else a
  }

  /** `s.sum()` */
  function Sum(s: seq<real>): real
  {
    if |s| == 0 then 0.0 else s[0] + Sum(s[1..])
  }

  /**
   * `s.mean()`. numpy gives NaN for an empty row; the mean of an empty row is
   * only ever subtracted from no element at all, so 0 stands in for it here.
   */
  function Mean(s: seq<real>): (m: real)
    ensures |s| > 0 ==> m * (|s| as real) == Sum(s)
    ensures |s| == 0 ==> m == 0.0
  {
    if |s| == 0 then 0.0 else Sum(s) / (|s| as real)
  }

  /** `s - m`, broadcast over the row. */
  function Shift(s: seq<real>, m: real): (t: seq<real>)
    ensures |t| == |s|
  {
    seq(|s|, k requires 0 <= k < |s| => s[k] - m)
  }

  /** `s - s.mean()`: the row with its mean taken out. */
  function Centered(s: seq<real>): (c: seq<real>)
    ensures |c| == |s|
    ensures forall k :: 0 <= k < |s| ==> c[k] + Mean(s) == s[k]
  {
    Shift(s, Mean(s))
  }

  /** `x**2` */
  function Square(x: real): real
  {
    x * x
  }

  /** `s**2`, elementwise. */
  function Squares(s: seq<real>): (t: seq<real>)
    ensures |t| == |s|
  {
    seq(|s|, k requires 0 <= k < |s| => Square(s[k]))
  }

  /** `(s**2).sum()` */
  function SumSq(s: seq<real>): real
  {
    Sum(Squares(s))
  }

  /** `s / p`, broadcast over the row. */
  function Scale(s: seq<real>, p: real): (t: seq<real>)
    requires p != 0.0
    ensures |t| == |s|
    ensures forall k :: 0 <= k < |s| ==> t[k] == s[k] / p
  {
    if |s| == 0 then [] else [s[0] / p] + Scale(s[1..], p)
  }

  /** `np.sqrt(x * y)`, the root of a product of two sums of squares. */
  function RootOfProduct(x: real, y: real, sqrt: real -> real): real
  {
    sqrt(x * y)
  }

  /** The population standard deviation of n samples whose centred sum of squares is ss. */
  function StdDev(ss: real, n: nat, sqrt: real -> real): real
    requires n > 0
  {
    sqrt(ss / (n as real))
  }

  /** `np.dot(x, y)` for two vectors of one length. */
  function Dot(x: seq<real>, y: seq<real>): real
    requires |x| == |y|
  {
    if |x| == 0 then 0.0 else x[0] * y[0] + Dot(x[1..], y[1..])
  }

  /** A row all of whose samples are equal (zero variance). */
  predicate IsConstant(s: seq<real>)
  {
    forall j, k :: 0 <= j < |s| && 0 <= k < |s| ==> s[j] == s[k]
  }

  /** A row all of whose samples are zero. */
  predicate IsZero(s: seq<real>)
  {
    forall k :: 0 <= k < |s| ==> s[k] == 0.0
  }

  /** `sqrt` returns the non-negative square root of every non-negative real. */
  ghost predicate IsSqrt(sqrt: real -> real)
  {
    forall x :: 0.0 <= x ==> 0.0 <= sqrt(x) && sqrt(x) * sqrt(x) == x
  }

  // ---------------------------------------------------------------------
  // Sums, means and centring
  // ---------------------------------------------------------------------

  /** Subtracting m from every sample lowers the sum by |s| * m. */
  lemma {:induction false} SumShift(s: seq<real>, m: real)
    ensures Sum(Shift(s, m)) == Sum(s) - (|s| as real) * m
  {
    if |s| > 0 {
      assert Shift(s, m)[1..] == Shift(s[1..], m);
      SumShift(s[1..], m);
    }
  }

  /** A centred row sums to zero. */
  lemma CenteredSumsToZero(s: seq<real>)
    ensures Sum(Centered(s)) == 0.0
  {
    SumShift(s, Mean(s));
    if |s| > 0 {
      var n := |s| as real;
      assert n * (Sum(s) / n) == Sum(s);
    }
  }

  /** The sum of a constant row is its length times its value. */
  lemma {:induction false} SumOfConstant(s: seq<real>, v: real)
    requires forall k :: 0 <= k < |s| ==> s[k] == v
    ensures Sum(s) == (|s| as real) * v
  {
    if |s| > 0 {
      SumOfConstant(s[1..], v);
    }
  }

  /** A constant row is its own mean. */
  lemma MeanOfConstant(s: seq<real>)
    requires |s| > 0 && IsConstant(s)
    ensures Mean(s) == s[0]
  {
    SumOfConstant(s, s[0]);
  }

  // ---------------------------------------------------------------------
  // Dot products and sums of squares
  // ---------------------------------------------------------------------

  /** The dot product of a vector with itself is non-negative, and zero only for the zero vector. */
  lemma {:induction false} DotSelf(s: seq<real>)
    ensures Dot(s, s) >= 0.0
    ensures Dot(s, s) == 0.0 <==> IsZero(s)
  {
    if |s| > 0 {
      DotSelf(s[1..]);
      assert s[0] * s[0] >= 0.0;
      if IsZero(s) {
        assert IsZero(s[1..]);
      }
      if Dot(s, s) == 0.0 {
        assert s[0] * s[0] == 0.0;
        SquareZero(s[0]);
        assert forall k :: 1 <= k < |s| ==> s[k] == s[1..][k - 1];
      }
    }
  }

  /** The sum of squares of a row is its dot product with itself. */
  lemma {:induction false} SumSqIsDot(s: seq<real>)
    ensures SumSq(s) == Dot(s, s)
  {
    if |s| > 0 {
      assert Squares(s)[1..] == Squares(s[1..]);
      SumSqIsDot(s[1..]);
    }
  }

  /** A sum of squares is non-negative, and zero exactly for the zero row. */
  lemma SumSqNonNegative(s: seq<real>)
    ensures SumSq(s) >= 0.0
    ensures SumSq(s) == 0.0 <==> IsZero(s)
  {
    SumSqIsDot(s);
    DotSelf(s);
  }

  /** A row is constant exactly when its centred sum of squares is zero. */
  lemma ConstantIffZeroSumSq(s: seq<real>)
    ensures IsConstant(s) <==> SumSq(Centered(s)) == 0.0
  {
    SumSqNonNegative(Centered(s));
    if IsConstant(s) && |s| > 0 {
      MeanOfConstant(s);
      assert IsZero(Centered(s));
    }
    if IsZero(Centered(s)) {
      forall j, k | 0 <= j < |s| && 0 <= k < |s| ensures s[j] == s[k] {
        assert Centered(s)[j] == 0.0 && Centered(s)[k] == 0.0;
      }
    }
  }

  /** Dot products are symmetric. */
  lemma {:induction false} DotSymmetric(x: seq<real>, y: seq<real>)
    requires |x| == |y|
    ensures Dot(x, y) == Dot(y, x)
  {
    if |x| > 0 {
      DotSymmetric(x[1..], y[1..]);
    }
  }

  /** A zero vector has a zero dot product with anything. */
  lemma {:induction false} DotZeroLeft(x: seq<real>, y: seq<real>)
    requires |x| == |y| && IsZero(x)
    ensures Dot(x, y) == 0.0
  {
    if |x| > 0 {
      assert IsZero(x[1..]);
      DotZeroLeft(x[1..], y[1..]);
    }
  }

  /** The dot product distributes over concatenation. */
  lemma {:induction false} DotAppend(a: seq<real>, b: seq<real>, c: seq<real>, d: seq<real>)
    requires |a| == |c| && |b| == |d|
    ensures Dot(a + b, c + d) == Dot(a, c) + Dot(b, d)
  {
    if |a| > 0 {
      assert (a + b)[1..] == a[1..] + b;
      assert (c + d)[1..] == c[1..] + d;
      DotAppend(a[1..], b, c[1..], d);
    } else {
      assert a + b == b && c + d == d;
    }
  }

  /**
   * For all reals a and b, the sum over k of (a * y[k] - b * x[k])^2 is
   * non-negative; expanded, that is the inequality below.
   */
  lemma {:induction false} QuadraticNonNegative(a: real, b: real, x: seq<real>, y: seq<real>)
    requires |x| == |y|
    ensures Quadratic(a, b, Dot(x, x), Dot(y, y), Dot(x, y)) >= 0.0
  {
    if |x| > 0 {
      QuadraticNonNegative(a, b, x[1..], y[1..]);
      assert Dot(x, x) == x[0] * x[0] + Dot(x[1..], x[1..]);
      assert Dot(y, y) == y[0] * y[0] + Dot(y[1..], y[1..]);
      assert Dot(x, y) == x[0] * y[0] + Dot(x[1..], y[1..]);
      QuadraticStep(a, b, x[0], y[0], Dot(x, x), Dot(y, y), Dot(x, y),
        Dot(x[1..], x[1..]), Dot(y[1..], y[1..]), Dot(x[1..], y[1..]));
    }
  }

  /** a^2 yy - 2ab xy + b^2 xx, the expansion of the sum of (a * y[k] - b * x[k])^2. */
  function Quadratic(a: real, b: real, xx: real, yy: real, xy: real): real
  {
    a * a * yy - 2.0 * a * b * xy + b * b * xx
  }

  /** The inductive step of QuadraticNonNegative: adding the square (a * d - b * c)^2. */
  lemma QuadraticStep(a: real, b: real, c: real, d: real, xx': real, yy': real, xy': real, xx: real, yy: real, xy: real)
    requires xx' == c * c + xx && yy' == d * d + yy && xy' == c * d + xy
    requires Quadratic(a, b, xx, yy, xy) >= 0.0
    ensures Quadratic(a, b, xx', yy', xy') >= 0.0
  {
    var e := a * d - b * c;
    assert e * e >= 0.0;
    assert a * a * (d * d + yy) - 2.0 * a * b * (c * d + xy) + b * b * (c * c + xx)
        == e * e + (a * a * yy - 2.0 * a * b * xy + b * b * xx);
  }

  /**
   * Cauchy-Schwarz: the square of a dot product is at most the product of
   * the sums of squares. For x non-zero, QuadraticNonNegative with
   * a = SumSq(x) and b = Dot(x, y) is SumSq(x) times the claimed gap.
   */
  lemma CauchySchwarz(x: seq<real>, y: seq<real>)
    requires |x| == |y|
    ensures Dot(x, y) * Dot(x, y) <= SumSq(x) * SumSq(y)
  {
    SumSqNonNegative(x);
    SumSqNonNegative(y);
    if SumSq(x) == 0.0 {
      DotZeroLeft(x, y);
    } else {
      SumSqIsDot(x);
      SumSqIsDot(y);
      QuadraticNonNegative(SumSq(x), Dot(x, y), x, y);
      CauchyFromQuadratic(SumSq(x), Dot(x, y), Dot(x, x), Dot(y, y), SumSq(y));
    }
  }

  /** The arithmetic of CauchySchwarz: a * (a * yy - b * b) >= 0 with a > 0 gives b * b <= a * yy. */
  lemma CauchyFromQuadratic(a: real, b: real, xx: real, yy': real, yy: real)
    requires a > 0.0 && xx == a && yy' == yy
    requires Quadratic(a, b, xx, yy', b) >= 0.0
    ensures b * b <= a * yy
  {
    assert Quadratic(a, b, xx, yy', b) == a * (a * yy - b * b);
  }

  /** Multiplying by a non-zero real and dividing by it again is the identity. */
  lemma MulDivCancel(a: real, b: real)
    requires b != 0.0
    ensures (a * b) / b == a
  {
  }

  /** Only zero squares to zero. */
  lemma SquareZero(x: real)
    requires x * x == 0.0
    ensures x == 0.0
  {
    if x != 0.0 {
      MulDivCancel(x, x);
    }
  }

  /** The product of two positive reals is positive. */
  lemma ProductPositive(a: real, b: real)
    requires 0.0 < a && 0.0 < b
    ensures 0.0 < a * b
  {
  }

  /** A non-negative square root is unique. */
  lemma SqrtUnique(sqrt: real -> real, x: real, s: real)
    requires IsSqrt(sqrt)
    requires 0.0 <= s && s * s == x
    ensures sqrt(x) == s
  {
    var t := sqrt(x);
    assert 0.0 <= t && t * t == x;
    if t < s {
      ProductPositive(s - t, s + t);
    } else if s < t {
      ProductPositive(t - s, t + s);
    }
  }

  /** The root of zero is zero and the root of a positive real is positive. */
  lemma SqrtZeroIffZero(sqrt: real -> real, x: real)
    requires IsSqrt(sqrt) && 0.0 <= x
    ensures 0.0 <= sqrt(x)
    ensures sqrt(x) == 0.0 <==> x == 0.0
  {
    var t := sqrt(x);
    assert 0.0 <= t && t * t == x;
    if x == 0.0 {
      SquareZero(t);
    }
  }

  /** |p| <= sqrt(m) when p * p <= m, so p / sqrt(m) lies in [-1, 1] when sqrt(m) > 0. */
  lemma RatioWithinRoot(sqrt: real -> real, p: real, m: real)
    requires IsSqrt(sqrt)
    requires 0.0 < m && p * p <= m
    ensures 0.0 < sqrt(m)
    ensures -1.0 <= p / sqrt(m) <= 1.0
  {
    var s := sqrt(m);
    SqrtZeroIffZero(sqrt, m);
    assert s * s == m;
    BoundedBySquare(p, s);
    QuotientInUnit(p, s);
  }

  /** p * p <= s * s with s > 0 means -s <= p <= s. */
  lemma BoundedBySquare(p: real, s: real)
    requires 0.0 < s && p * p <= s * s
    ensures -s <= p <= s
  {
    if s < p {
      assert (p - s) * (p + s) == p * p - s * s;
      ProductPositive(p - s, p + s);
    } else if p < -s {
      assert (-p - s) * (-p + s) == p * p - s * s;
      ProductPositive(-p - s, -p + s);
    }
  }

  /** -s <= p <= s with s > 0 means p / s lies in [-1, 1]. */
  lemma QuotientInUnit(p: real, s: real)
    requires 0.0 < s && -s <= p <= s
    ensures -1.0 <= p / s <= 1.0
  {
  }

  /** The product of two non-negative reals is non-negative, and zero exactly when one factor is. */
  lemma ProductZeroIff(x: real, y: real)
    requires 0.0 <= x && 0.0 <= y
    ensures 0.0 <= x * y
    ensures x * y == 0.0 <==> x == 0.0 || y == 0.0
  {
    if 0.0 < x && 0.0 < y {
      ProductPositive(x, y);
    }
  }

  /** The root of a product of two non-negative reals is non-negative, and zero exactly when one factor is. */
  lemma RootOfProductZero(sqrt: real -> real, x: real, y: real)
    requires IsSqrt(sqrt) && 0.0 <= x && 0.0 <= y
    ensures 0.0 <= RootOfProduct(x, y, sqrt)
    ensures RootOfProduct(x, y, sqrt) == 0.0 <==> x == 0.0 || y == 0.0
  {
    ProductZeroIff(x, y);
    SqrtZeroIffZero(sqrt, x * y);
  }

  /** The root of a product does not depend on the order of the factors. */
  lemma RootOfProductSymmetric(sqrt: real -> real, x: real, y: real)
    ensures RootOfProduct(x, y, sqrt) == RootOfProduct(y, x, sqrt)
  {
    assert x * y == y * x;
  }

  /** The root of x * x for non-negative x. */
  lemma RootOfSquare(sqrt: real -> real, x: real)
    requires IsSqrt(sqrt) && 0.0 <= x
    ensures RootOfProduct(x, x, sqrt) == x
  {
    SqrtUnique(sqrt, x * x, x);
  }

  /** p / sqrt(x * y) lies in [-1, 1] whenever it is a number and p * p <= x * y. */
  lemma RatioBounded(sqrt: real -> real, p: real, x: real, y: real)
    requires IsSqrt(sqrt) && 0.0 <= x && 0.0 <= y && p * p <= x * y
    ensures Div(p, RootOfProduct(x, y, sqrt)).Num? ==> -1.0 <= Div(p, RootOfProduct(x, y, sqrt)).r <= 1.0
  {
    ProductZeroIff(x, y);
    SqrtZeroIffZero(sqrt, x * y);
    if x * y != 0.0 {
      RatioWithinRoot(sqrt, p, x * y);
    }
  }

  /** A standard deviation is non-negative, and zero exactly for a zero sum of squares. */
  lemma StdDevZero(sqrt: real -> real, ss: real, n: nat)
    requires IsSqrt(sqrt) && 0.0 <= ss && n > 0
    ensures 0.0 <= StdDev(ss, n, sqrt)
    ensures StdDev(ss, n, sqrt) == 0.0 <==> ss == 0.0
  {
    SqrtZeroIffZero(sqrt, ss / (n as real));
  }

  /** sqrt(x / n) * sqrt(y / n) * n == sqrt(x * y) */
  lemma RootOfProductSplits(sqrt: real -> real, x: real, y: real, n: nat)
    requires IsSqrt(sqrt) && 0.0 <= x && 0.0 <= y && n > 0
    ensures StdDev(x, n, sqrt) * StdDev(y, n, sqrt) * (n as real) == RootOfProduct(x, y, sqrt)
  {
    var m := n as real;
    var u, w := StdDev(x, n, sqrt), StdDev(y, n, sqrt);
    StdDevZero(sqrt, x, n);
    StdDevZero(sqrt, y, n);
    assert u * u == x / m && w * w == y / m;
    ProductZeroIff(u, w);
    ProductZeroIff(u * w, m);
    assert (u * w * m) * (u * w * m) == (u * u) * (w * w) * (m * m);
    assert (x / m) * (y / m) * (m * m) == x * y;
    SqrtUnique(sqrt, x * y, u * w * m);
  }

  /** (a / p) * (b / q) == a * b / (p * q) */
  lemma QuotientProduct(a: real, b: real, p: real, q: real)
    requires 0.0 < p && 0.0 < q
    ensures (a / p) * (b / q) == a * b / (p * q)
  {
    ProductPositive(p, q);
  }

  /** Dividing two vectors by positive reals p and q divides their dot product by p * q. */
  lemma {:induction false} DotScaled(x: seq<real>, y: seq<real>, p: real, q: real)
    requires |x| == |y| && 0.0 < p && 0.0 < q
    ensures Dot(Scale(x, p), Scale(y, q)) == Dot(x, y) / (p * q)
  {
    ProductPositive(p, q);
    if |x| > 0 {
      DotScaled(x[1..], y[1..], p, q);
      QuotientProduct(x[0], y[0], p, q);
      SumOfQuotients(x[0] * y[0], Dot(x[1..], y[1..]), p * q);
    }
  }

  /** a / d + b / d == (a + b) / d */
  lemma SumOfQuotients(a: real, b: real, d: real)
    requires d != 0.0
    ensures a / d + b / d == (a + b) / d
  {
  }

  /** Dividing by u and then by n is dividing by u * n. */
  lemma QuotientChain(x: real, p: real, u: real, n: real, d: real)
    requires u != 0.0 && n != 0.0 && x == p / u && d == u * n
    ensures Div(x, n) == Div(p, d)
  {
    assert d != 0.0 by {
      if d == 0.0 {
        MulDivCancel(u, n);
      }
    }
  }
}
