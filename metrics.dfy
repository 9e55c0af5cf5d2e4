/** Reduction of the structure tensor [[A, B], [B, C]] at every pixel to a
    scalar cornerness response, under the metric chosen when the detector is
    built. */
module Metrics {
  import opened Grids

  /** The closed set of response metrics a detector can be built with. */
  datatype CornerMetric = Harris | HarmonicMean | MinEigen

  /** Empirical weight of the squared trace in the Harris response. */
  const Alpha: real := 0.06

  /** Harris response of one tensor: det(M) - Alpha * trace(M)^2, with
      negative values clamped to zero. The three clauses together say that
      `r` is exactly the larger of the unclamped value and zero. */
  function HarrisAt(a: real, b: real, c: real): (r: real)
    ensures r >= 0.0
    ensures r >= (a * c - b * b) - Alpha * (a + c) * (a + c)
    ensures r == 0.0 || r == (a * c - b * b) - Alpha * (a + c) * (a + c)
  {
    var det := a * c - b * b;
    var trace := a + c;
    Max(det - Alpha * trace * trace, 0.0)
  }

  /** A pixel has a positive Harris response exactly when the determinant of
      its tensor beats Alpha times the squared trace. */
  lemma HarrisPositiveIffCorner(a: real, b: real, c: real)
    ensures HarrisAt(a, b, c) > 0.0 <==> a * c - b * b > Alpha * (a + c) * (a + c)
  {
  }

  /** The Harris response never exceeds (1/4 - Alpha) * trace^2, because the
      determinant of a symmetric 2x2 matrix is at most trace^2 / 4. */
  lemma {:induction false} HarrisBoundedByTrace(a: real, b: real, c: real)
    ensures HarrisAt(a, b, c) <= (0.25 - Alpha) * (a + c) * (a + c)
  {
    var t := a + c;
    var d := a - c;
    assert t * t - 4.0 * (a * c) == d * d;
    MulSelfNonNegative(d);
    MulSelfNonNegative(b);
    MulSelfNonNegative(t);
    assert a * c - b * b <= 0.25 * (t * t);
    assert Alpha * (a + c) * (a + c) == Alpha * (t * t);
    assert (0.25 - Alpha) * (a + c) * (a + c) == (0.25 - Alpha) * (t * t);
  }

  lemma MulSelfNonNegative(x: real)
    ensures x * x >= 0.0
  {
    if x < 0.0 {
      assert x * x == (-x) * (-x);
    }
  }

  /** Scaling the tensor by k >= 0 scales the Harris response by k^2. */
  lemma {:induction false} HarrisScales(a: real, b: real, c: real, k: real)
    requires k >= 0.0
    ensures HarrisAt(k * a, k * b, k * c) == k * k * HarrisAt(a, b, c)
  {
    var u := (a * c - b * b) - Alpha * (a + c) * (a + c);
    var ku := (k * a * (k * c) - k * b * (k * b)) - Alpha * (k * a + k * c) * (k * a + k * c);
    assert ku == k * k * u;
    assert k * k >= 0.0;
    if u >= 0.0 {
      assert ku >= 0.0;
    } else {
      assert ku <= 0.0;
    }
  }

  /** Harmonic-mean response of one tensor: A * C / (A + C). The source does
      not guard the divisor; a zero trace is excluded by the precondition. */
  function HarmonicMeanAt(a: real, c: real): (r: real)
    requires a + c != 0.0
    ensures r * (a + c) == a * c
  {
    (a * c) / (a + c)
  }

  /** For a positive semi-definite diagonal (A, C >= 0) the harmonic-mean
      response lies between zero and the smaller diagonal entry. */
  lemma {:induction false} HarmonicMeanBounds(a: real, c: real)
    requires a >= 0.0 && c >= 0.0 && a + c > 0.0
    ensures 0.0 <= HarmonicMeanAt(a, c) <= a
    ensures HarmonicMeanAt(a, c) <= c
  {
    var t := a + c;
    assert a * t - a * c == a * a && c * t - a * c == c * c;
    MulSelfNonNegative(a);
    MulSelfNonNegative(c);
    QuotientBounds(a * c, a, t);
    QuotientBounds(a * c, c, t);
  }

  /** 0 <= x <= y * t with t > 0 puts x / t between 0 and y. */
  lemma QuotientBounds(x: real, y: real, t: real)
    requires t > 0.0 && 0.0 <= x <= y * t
    ensures 0.0 <= x / t <= y
  {
    assert x / t * t == x;
  }

  /** For positive A and C the reciprocal of the response is 1/A + 1/C. */
  lemma {:induction false} HarmonicMeanReciprocal(a: real, c: real)
    requires a > 0.0 && c > 0.0
    ensures 1.0 / HarmonicMeanAt(a, c) == 1.0 / a + 1.0 / c
  {
    var r := HarmonicMeanAt(a, c);
    assert r * (a + c) == a * c;
    assert a * c > 0.0;
    assert r != 0.0;
    assert (1.0 / a + 1.0 / c) * (a * c) == a + c;
    assert (1.0 / r) * (a * c) == a + c;
  }

  /** Scaling the tensor by k > 0 scales the harmonic-mean response by k. */
  lemma {:induction false} HarmonicMeanScales(a: real, c: real, k: real)
    requires a + c != 0.0 && k > 0.0
    ensures k * a + k * c != 0.0
    ensures HarmonicMeanAt(k * a, k * c) == k * HarmonicMeanAt(a, c)
  {
    assert k * a + k * c == k * (a + c);
    var r := HarmonicMeanAt(a, c);
    var s := HarmonicMeanAt(k * a, k * c);
    assert s * (k * (a + c)) == k * k * (a * c);
    assert (k * r) * (k * (a + c)) == k * k * (a * c);
    assert (s - k * r) * (k * (a + c)) == 0.0;
  }

  /** The trace A + C is non-zero at every pixel. */
  predicate NonZeroTrace(A: Grid, C: Grid)
  {
    forall i, j :: 0 <= i < |A| && 0 <= j < |A[i]| && InBounds(C, i, j) ==> A[i][j] + C[i][j] != 0.0
  }

  /** Harris response of a whole image. */
  function HarrisMetric(A: Grid, B: Grid, C: Grid): (R: Grid)
    requires SameShape(A, B) && SameShape(A, C)
    ensures SameShape(R, A)
    ensures forall i, j :: 0 <= i < |A| && 0 <= j < |A[i]| ==> R[i][j] == HarrisAt(A[i][j], B[i][j], C[i][j])
    ensures forall i, j :: 0 <= i < |R| && 0 <= j < |R[i]| ==> R[i][j] >= 0.0
  {
    seq(|A|, i requires 0 <= i < |A| =>
      seq(|A[i]|, j requires 0 <= j < |A[i]| => HarrisAt(A[i][j], B[i][j], C[i][j])))
  }

  /** Harmonic-mean response of a whole image; B does not enter it. */
  function HarmonicMeanMetric(A: Grid, B: Grid, C: Grid): (R: Grid)
    requires SameShape(A, B) && SameShape(A, C)
    requires NonZeroTrace(A, C)
    ensures SameShape(R, A)
    ensures forall i, j :: 0 <= i < |A| && 0 <= j < |A[i]| ==> R[i][j] * (A[i][j] + C[i][j]) == A[i][j] * C[i][j]
  {
    seq(|A|, i requires 0 <= i < |A| =>
      seq(|A[i]|, j requires 0 <= j < |A[i]| => HarmonicMeanAt(A[i][j], C[i][j])))
  }

  /** The response map under `metric`. The minimum-eigenvalue response comes
      from an eigen-solver outside this model and is passed in as a grid of
      whatever dimensions that solver yields; the two per-pixel metrics keep
      the tensor's dimensions. */
  function Response(metric: CornerMetric, A: Grid, B: Grid, C: Grid, minEigenResponse: Grid): (R: Grid)
    requires SameShape(A, B) && SameShape(A, C)
    requires metric == HarmonicMean ==> NonZeroTrace(A, C)
    requires metric == MinEigen ==> Rectangular(minEigenResponse)
    ensures Rectangular(R)
    ensures metric != MinEigen ==> SameShape(R, A)
    ensures metric == Harris ==> forall i, j :: 0 <= i < |R| && 0 <= j < |R[i]| ==> R[i][j] >= 0.0
    ensures metric == Harris ==> forall i, j :: 0 <= i < |A| && 0 <= j < |A[i]| ==> R[i][j] == HarrisAt(A[i][j], B[i][j], C[i][j])
    ensures metric == HarmonicMean ==> forall i, j :: 0 <= i < |A| && 0 <= j < |A[i]| ==> R[i][j] == HarmonicMeanAt(A[i][j], C[i][j])
    ensures metric == MinEigen ==> R == minEigenResponse
  {
    match metric
    case Harris => HarrisMetric(A, B, C)
    case HarmonicMean => HarmonicMeanMetric(A, B, C)
    case MinEigen => minEigenResponse
  }

  /** Scaling the three tensor images by k > 0 scales the Harris image by k^2. */
  lemma HarrisMetricScales(A: Grid, B: Grid, C: Grid, A': Grid, B': Grid, C': Grid, k: real)
    requires SameShape(A, B) && SameShape(A, C) && k > 0.0
    requires ScaledBy(A', A, k) && ScaledBy(B', B, k) && ScaledBy(C', C, k)
    ensures SameShape(A', B') && SameShape(A', C')
    ensures ScaledBy(HarrisMetric(A', B', C'), HarrisMetric(A, B, C), k * k)
  {
    ScaledShape(A', A, k);
    ScaledShape(B', B, k);
    ScaledShape(C', C, k);
    var R' := HarrisMetric(A', B', C');
    var R := HarrisMetric(A, B, C);
    forall r, c | 0 <= r < |R| && 0 <= c < |R[r]| && c < |R'[r]|
      ensures Sample(R', r, c) == k * k * R[r][c]
    {
      HarrisPixelScales(A, B, C, A', B', C', k, r, c);
    }
  }

  /** A scaled copy of a rectangular image is rectangular with the same dimensions. */
  lemma ScaledShape(h: Grid, g: Grid, k: real)
    requires Rectangular(g) && ScaledBy(h, g, k)
    ensures SameShape(h, g)
  {
    assert Width(h) == Width(g);
  }

  lemma HarrisPixelScales(A: Grid, B: Grid, C: Grid, A': Grid, B': Grid, C': Grid, k: real, r: int, c: int)
    requires SameShape(A, B) && SameShape(A, C) && k > 0.0
    requires SameShape(A', A) && SameShape(B', A) && SameShape(C', A)
    requires ScaledBy(A', A, k) && ScaledBy(B', B, k) && ScaledBy(C', C, k)
    requires 0 <= r < |A| && 0 <= c < |A[r]|
    ensures Sample(HarrisMetric(A', B', C'), r, c) == k * k * HarrisMetric(A, B, C)[r][c]
  {
    assert Sample(A', r, c) == k * A[r][c];
    assert Sample(B', r, c) == k * B[r][c];
    assert Sample(C', r, c) == k * C[r][c];
    HarrisValueScales(A[r][c], B[r][c], C[r][c], A'[r][c], B'[r][c], C'[r][c], k,
      HarrisMetric(A, B, C)[r][c], HarrisMetric(A', B', C')[r][c]);
  }

  /** HarrisScales restated over plain values: the solver does not carry
      `a' == k * a` into the products inside HarrisAt on its own, so the
      sample values are passed in as parameters. */
  lemma HarrisValueScales(a: real, b: real, c: real, a': real, b': real, c': real, k: real, v: real, v': real)
    requires k >= 0.0 && a' == k * a && b' == k * b && c' == k * c
    requires v == HarrisAt(a, b, c) && v' == HarrisAt(a', b', c')
    ensures v' == k * k * v
  {
    HarrisScales(a, b, c, k);
  }
}
