/** Single-channel images as row-major grids of real samples, with the two
    reductions the detector takes from the image library: the global maximum
    (`cv::minMaxLoc`) and the maximum over a pixel's 3x3 neighbourhood (what a
    grayscale dilation with the default structuring element computes). */
module Grids {

  /** A single-channel image: `g[r][c]` is the sample at row `r`, column `c`. */
  type Grid = seq<seq<real>>

  /** Number of columns, read off the first row. */
  function Width<T>(g: seq<seq<T>>): nat
  {
    if |g| == 0 then 0 else |g[0]|
  }

  /** Every row has the same length. */
  predicate Rectangular<T>(g: seq<seq<T>>)
  {
    forall r :: 0 <= r < |g| ==> |g[r]| == Width(g)
  }

  /** Two rectangular grids of identical dimensions. */
  predicate SameShape<T, U>(a: seq<seq<T>>, b: seq<seq<U>>)
  {
    Rectangular(a) && Rectangular(b) && |a| == |b| && Width(a) == Width(b)
  }

  /** At least one pixel. */
  predicate NonEmpty<T>(g: seq<seq<T>>)
  {
    Rectangular(g) && |g| > 0 && Width(g) > 0
  }

  predicate InBounds<T>(g: seq<seq<T>>, r: int, c: int)
  {
    0 <= r < |g| && 0 <= c < |g[r]|
  }

  /** Pixel (r, c) lies in the 3x3 block centred on (i, j), the centre included. */
  predicate Adjacent(i: int, j: int, r: int, c: int)
  {
    i - 1 <= r <= i + 1 && j - 1 <= c <= j + 1
  }

  function Max(x: real, y: real): real
  {
    if x >= y then x else y
  }

  /** Largest of the first `n` samples of a row. */
  function PrefixMax(row: seq<real>, n: nat): (m: real)
    requires 0 < n <= |row|
    ensures forall c :: 0 <= c < n ==> row[c] <= m
    ensures exists c :: 0 <= c < n && row[c] == m
  {
    if n == 1 then row[0] else Max(PrefixMax(row, n - 1), row[n - 1])
  }

  /** Largest sample in the first `n` rows of a non-empty image. */
  function MaxOfRows(g: Grid, n: nat): (m: real)
    requires NonEmpty(g) && 0 < n <= |g|
    ensures forall r, c :: 0 <= r < n && 0 <= c < |g[r]| ==> g[r][c] <= m
    ensures exists r, c :: 0 <= r < n && 0 <= c < |g[r]| && g[r][c] == m
  {
    var last := PrefixMax(g[n - 1], |g[n - 1]|);
    if n == 1 then last else Max(MaxOfRows(g, n - 1), last)
  }

  /** Largest sample of the whole image, as `cv::minMaxLoc` reports it:
      an upper bound of every pixel that some pixel attains. */
  function GridMax(g: Grid): (m: real)
    requires NonEmpty(g)
    ensures forall r, c :: 0 <= r < |g| && 0 <= c < |g[r]| ==> g[r][c] <= m
    ensures exists r, c :: 0 <= r < |g| && 0 <= c < |g[r]| && g[r][c] == m
  {
    MaxOfRows(g, |g|)
  }

  /** Largest of `row[j - 1]`, `row[j]`, `row[j + 1]`, skipping the indices
      that fall outside the row. */
  function SpanMax(row: seq<real>, j: int): (m: real)
    requires 0 <= j < |row|
    ensures forall c :: 0 <= c < |row| && j - 1 <= c <= j + 1 ==> row[c] <= m
    ensures exists c :: 0 <= c < |row| && j - 1 <= c <= j + 1 && row[c] == m
  {
    var left := if j > 0 then Max(row[j - 1], row[j]) else row[j];
    if j + 1 < |row| then Max(left, row[j + 1]) else left
  }

  /** Maximum over the in-bounds part of the 3x3 block centred on (i, j).
      Neighbours outside the image are ignored, which is how the library's
      default dilation treats the border. */
  function NeighbourhoodMax(g: Grid, i: int, j: int): (m: real)
    requires Rectangular(g) && InBounds(g, i, j)
    ensures forall r, c :: 0 <= r < |g| && 0 <= c < |g[r]| && Adjacent(i, j, r, c) ==> g[r][c] <= m
    ensures exists r, c :: 0 <= r < |g| && 0 <= c < |g[r]| && Adjacent(i, j, r, c) && g[r][c] == m
  {
    var middle := SpanMax(g[i], j);
    var upper := if i > 0 then Max(SpanMax(g[i - 1], j), middle) else middle;
    if i + 1 < |g| then Max(upper, SpanMax(g[i + 1], j)) else upper
  }

  /** `m` is the largest sample of `g`: an upper bound that some pixel
      attains. */
  predicate IsMaxOf(g: Grid, m: real)
  {
    (forall r, c :: 0 <= r < |g| && 0 <= c < |g[r]| ==> g[r][c] <= m) &&
    (exists r, c :: 0 <= r < |g| && 0 <= c < |g[r]| && g[r][c] == m)
  }

  lemma GridMaxIsMax(g: Grid)
    requires NonEmpty(g)
    ensures IsMaxOf(g, GridMax(g))
  {
  }

  /** The maximum is unique: whatever is an attained upper bound is `GridMax`. */
  lemma MaxIsGridMax(g: Grid, m: real)
    requires NonEmpty(g) && IsMaxOf(g, m)
    ensures GridMax(g) == m
  {
    var r, c :| 0 <= r < |g| && 0 <= c < |g[r]| && g[r][c] == GridMax(g);
  }

  /** The sample at row `r`, column `c`; `ScaledBy` quantifies over this term
      so that it is instantiated only where a proof asks for it. */
  function Sample(g: Grid, r: int, c: int): real
    requires 0 <= r < |g| && 0 <= c < |g[r]|
  {
    g[r][c]
  }

  /** `h` is `g` with every sample multiplied by `k`. */
  predicate ScaledBy(h: Grid, g: Grid, k: real)
  {
    |h| == |g| &&
    (forall r :: 0 <= r < |g| ==> |h[r]| == |g[r]|) &&
    (forall r, c {:trigger Sample(h, r, c)} :: 0 <= r < |g| && 0 <= c < |g[r]| && c < |h[r]| ==> Sample(h, r, c) == k * g[r][c])
  }
}
