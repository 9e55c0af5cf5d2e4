/** Keypoint extraction from a response map: a global relative threshold,
    non-maximum suppression by grayscale dilation and an equality test, a
    row-major scan of the resulting mask, and one keypoint per selected pixel. */
module Extraction {
  import opened Grids

  /** Pixel coordinates in the image library's convention: `x` is the column,
      `y` the row. */
  datatype Point = Point(x: int, y: int)

  /** A detected feature: location, diameter, orientation and response. */
  datatype KeyPoint = KeyPoint(pt: Point, size: real, angle: real, response: real)

  /** The orientation given to every keypoint: the detector does not estimate one. */
  const NoOrientation: real := -1.0

  // ---------------------------------------------------------------------------
  // Selection rule, stated without dilation

  /** (i, j) is at least as large as every in-bounds pixel of its 3x3 block. */
  ghost predicate IsLocalMax(g: Grid, i: int, j: int)
    requires InBounds(g, i, j)
  {
    forall r, c :: InBounds(g, r, c) && Adjacent(i, j, r, c) ==> g[r][c] <= g[i][j]
  }

  /** A pixel is kept when its response is strictly above the threshold and
      it is a local maximum (every pixel of a plateau counts). */
  ghost predicate Selected(g: Grid, threshold: real, i: int, j: int)
    requires InBounds(g, i, j)
  {
    g[i][j] > threshold && IsLocalMax(g, i, j)
  }

  /** The mask of selected pixels. */
  ghost function SelectionMask(g: Grid, threshold: real): (mask: seq<seq<bool>>)
    ensures |mask| == |g|
    ensures forall i :: 0 <= i < |g| ==> |mask[i]| == |g[i]|
    ensures forall i, j :: 0 <= i < |g| && 0 <= j < |g[i]| ==> mask[i][j] == Selected(g, threshold, i, j)
  {
    seq(|g|, i requires 0 <= i < |g| =>
      seq(|g[i]|, j requires 0 <= j < |g[i]| => Selected(g, threshold, i, j)))
  }

  /** The global maximum of the map, taken as zero for an empty map (which
      has no pixel to select). */
  function MaxVal(g: Grid): (m: real)
    ensures NonEmpty(g) ==> m == GridMax(g)
    ensures !NonEmpty(g) ==> m == 0.0
  {
    if NonEmpty(g) then GridMax(g) else 0.0
  }

  /** The detection threshold: `q` times the global maximum of the map. */
  function Threshold(g: Grid, q: real): (t: real)
    ensures NonEmpty(g) ==> t == q * GridMax(g)
    ensures !NonEmpty(g) ==> t == 0.0
  {
    q * MaxVal(g)
  }

  // ---------------------------------------------------------------------------
  // The operations the detector performs

  /** Grayscale dilation with the default 3x3 rectangular element: every pixel
      becomes the largest value of its in-bounds 3x3 block. */
  function Dilate(g: Grid): (d: Grid)
    requires Rectangular(g)
    ensures SameShape(d, g)
    ensures forall i, j {:trigger d[i][j]} :: 0 <= i < |g| && 0 <= j < |g[i]| ==> d[i][j] == NeighbourhoodMax(g, i, j)
  {
    seq(|g|, i requires 0 <= i < |g| =>
      seq(|g[i]|, j requires 0 <= j < |g[i]| => NeighbourhoodMax(g, i, j)))
  }

  /** The mask `(response > threshold) & (response == localMax)`. */
  function StrongLocalMaxMask(response: Grid, localMax: Grid, threshold: real): (mask: seq<seq<bool>>)
    requires SameShape(response, localMax)
    ensures SameShape(mask, response)
    ensures forall i, j {:trigger mask[i][j]} :: 0 <= i < |response| && 0 <= j < |response[i]| ==>
      mask[i][j] == (response[i][j] > threshold && response[i][j] == localMax[i][j])
  {
    seq(|response|, i requires 0 <= i < |response| =>
      seq(|response[i]|, j requires 0 <= j < |response[i]| =>
        response[i][j] > threshold && response[i][j] == localMax[i][j]))
  }

  /** `p` comes before `q` in a row-major scan. */
  predicate ScannedBefore(p: Point, q: Point)
  {
    p.y < q.y || (p.y == q.y && p.x < q.x)
  }

  /** Strictly increasing in row-major order (hence free of duplicates). */
  predicate ScanOrdered(locs: seq<Point>)
  {
    forall k, l :: 0 <= k < l < |locs| ==> ScannedBefore(locs[k], locs[l])
  }

  /** `locs` lists exactly the set pixels of `mask`, each once, in row-major order. */
  ghost predicate RowMajorEnumeration(mask: seq<seq<bool>>, locs: seq<Point>)
  {
    (forall k :: 0 <= k < |locs| ==> InBounds(mask, locs[k].y, locs[k].x) && mask[locs[k].y][locs[k].x]) &&
    (forall i, j :: InBounds(mask, i, j) && mask[i][j] ==> Point(j, i) in locs) &&
    ScanOrdered(locs)
  }

  /** The locations of the set pixels of a mask, scanned row by row. */
  method FindNonZero(mask: seq<seq<bool>>) returns (locs: seq<Point>)
    ensures RowMajorEnumeration(mask, locs)
  {
    locs := [];
    var i := 0;
    while i < |mask|
      invariant 0 <= i <= |mask|
      invariant forall k :: 0 <= k < |locs| ==> InBounds(mask, locs[k].y, locs[k].x) && mask[locs[k].y][locs[k].x]
      invariant forall k :: 0 <= k < |locs| ==> locs[k].y < i
      invariant forall r, c :: 0 <= r < i && 0 <= c < |mask[r]| && mask[r][c] ==> Point(c, r) in locs
      invariant ScanOrdered(locs)
    {
      var j := 0;
      while j < |mask[i]|
        invariant 0 <= j <= |mask[i]|
        invariant forall k :: 0 <= k < |locs| ==> InBounds(mask, locs[k].y, locs[k].x) && mask[locs[k].y][locs[k].x]
        invariant forall k :: 0 <= k < |locs| ==> ScannedBefore(locs[k], Point(j, i))
        invariant forall r, c :: 0 <= r < i && 0 <= c < |mask[r]| && mask[r][c] ==> Point(c, r) in locs
        invariant forall c :: 0 <= c < j && mask[i][c] ==> Point(c, i) in locs
        invariant ScanOrdered(locs)
      {
        if mask[i][j] {
          locs := locs + [Point(j, i)];
        }
        j := j + 1;
      }
      i := i + 1;
    }
  }

  /** One keypoint per location, in the same order, each with the common
      size, no orientation, and the response value at its pixel. */
  method EmitKeypoints(locs: seq<Point>, response: Grid, size: real) returns (keyPoints: seq<KeyPoint>)
    requires forall k :: 0 <= k < |locs| ==> 0 <= locs[k].y < |response| && 0 <= locs[k].x < |response[locs[k].y]|
    ensures |keyPoints| == |locs|
    ensures forall k :: 0 <= k < |locs| ==>
      keyPoints[k] == KeyPoint(locs[k], size, NoOrientation, response[locs[k].y][locs[k].x])
  {
    keyPoints := [];
    for n := 0 to |locs|
      invariant |keyPoints| == n
      invariant forall k :: 0 <= k < n ==>
        keyPoints[k] == KeyPoint(locs[k], size, NoOrientation, response[locs[k].y][locs[k].x])
    {
      var p := locs[n];
      keyPoints := keyPoints + [KeyPoint(p, size, NoOrientation, response[p.y][p.x])];
    }
  }

  // ---------------------------------------------------------------------------
  // What the detector's output is

  function Locations(keyPoints: seq<KeyPoint>): (locs: seq<Point>)
    ensures |locs| == |keyPoints|
    ensures forall k :: 0 <= k < |keyPoints| ==> locs[k] == keyPoints[k].pt
  {
    seq(|keyPoints|, k requires 0 <= k < |keyPoints| => keyPoints[k].pt)
  }

  /** `keyPoints` is the extraction result for response map `g`, quality
      level `q` and keypoint size `size`: the pixels selected against
      `Threshold(g, q)` in row-major order, each carrying the common size, no
      orientation and its response. */
  ghost predicate IsExtraction(g: Grid, q: real, size: real, keyPoints: seq<KeyPoint>)
  {
    RowMajorEnumeration(SelectionMask(g, Threshold(g, q)), Locations(keyPoints)) &&
    KeypointFields(g, size, keyPoints)
  }

  /** Every keypoint lies on the map and carries the common size, no
      orientation and the response at its pixel. */
  predicate KeypointFields(g: Grid, size: real, keyPoints: seq<KeyPoint>)
  {
    forall k :: 0 <= k < |keyPoints| ==>
      InBounds(g, keyPoints[k].pt.y, keyPoints[k].pt.x) &&
      keyPoints[k].size == size && keyPoints[k].angle == NoOrientation &&
      keyPoints[k].response == g[keyPoints[k].pt.y][keyPoints[k].pt.x]
  }

  /** Threshold, non-maximum suppression and keypoint emission: dilate the
      response, take `q` times its maximum as the threshold, build the mask of
      strong local maxima, scan it row by row and emit one keypoint per
      selected pixel. */
  method ExtractKeypoints(response: Grid, q: real, size: real) returns (keyPoints: seq<KeyPoint>)
    requires Rectangular(response)
    ensures IsExtraction(response, q, size, keyPoints)
  {
    var localMax := Dilate(response);
    var maxVal := MaxVal(response);
    var threshold := q * maxVal;
    var isStrongAndLocalMax := StrongLocalMaxMask(response, localMax, threshold);
    assert threshold == Threshold(response, q);
    StrongLocalMaxMaskSelects(response, threshold);
    var maxLocations := FindNonZero(isStrongAndLocalMax);
    keyPoints := EmitKeypoints(maxLocations, response, size);
    EmittedKeypointsAreExtraction(response, q, size, maxLocations, keyPoints);
  }

  /** Emitting one keypoint per location of the selection mask's row-major
      enumeration yields the extraction result. */
  lemma EmittedKeypointsAreExtraction(g: Grid, q: real, size: real, locs: seq<Point>, keyPoints: seq<KeyPoint>)
    requires RowMajorEnumeration(SelectionMask(g, Threshold(g, q)), locs)
    requires forall k :: 0 <= k < |locs| ==> 0 <= locs[k].y < |g| && 0 <= locs[k].x < |g[locs[k].y]|
    requires |keyPoints| == |locs|
    requires forall k :: 0 <= k < |locs| ==>
      keyPoints[k] == KeyPoint(locs[k], size, NoOrientation, g[locs[k].y][locs[k].x])
    ensures IsExtraction(g, q, size, keyPoints)
  {
    assert Locations(keyPoints) == locs;
  }

  // ---------------------------------------------------------------------------
  // Non-maximum suppression by dilation

  /** A pixel equals its dilated value exactly when it is a local maximum. */
  lemma DilationEqualityIsLocalMax(g: Grid, i: int, j: int)
    requires Rectangular(g) && InBounds(g, i, j)
    ensures g[i][j] == Dilate(g)[i][j] <==> IsLocalMax(g, i, j)
  {
    var m := NeighbourhoodMax(g, i, j);
    assert Dilate(g)[i][j] == m;
    assert g[i][j] <= m by { assert Adjacent(i, j, i, j); }
    var r, c :| InBounds(g, r, c) && Adjacent(i, j, r, c) && g[r][c] == m;
    assert IsLocalMax(g, i, j) ==> g[r][c] <= g[i][j];
  }

  /** The mask built from the dilated map and a threshold selects exactly
      the pixels above the threshold that are local maxima. */
  lemma StrongLocalMaxMaskSelects(g: Grid, threshold: real)
    requires Rectangular(g)
    ensures StrongLocalMaxMask(g, Dilate(g), threshold) == SelectionMask(g, threshold)
  {
    var m := StrongLocalMaxMask(g, Dilate(g), threshold);
    var e := SelectionMask(g, threshold);
    forall i | 0 <= i < |g|
      ensures m[i] == e[i]
    {
      forall j | 0 <= j < |g[i]|
        ensures m[i][j] == e[i][j]
      {
        DilationEqualityIsLocalMax(g, i, j);
      }
    }
  }

  // ---------------------------------------------------------------------------
  // The scan order determines the enumeration

  /** A row-major ordered sequence holds no point twice. */
  lemma ScanOrderedDistinct(a: seq<Point>)
    requires ScanOrdered(a)
    ensures forall k, l :: 0 <= k < |a| && 0 <= l < |a| && a[k] == a[l] ==> k == l
  {
    forall k, l | 0 <= k < |a| && 0 <= l < |a| && k != l
      ensures a[k] != a[l]
    {
      if k < l {
        assert ScannedBefore(a[k], a[l]);
      } else {
        assert ScannedBefore(a[l], a[k]);
      }
    }
  }

  /** Two row-major ordered sequences with the same elements are equal. */
  lemma {:induction false} ScanOrderedSameElements(a: seq<Point>, b: seq<Point>)
    requires ScanOrdered(a) && ScanOrdered(b)
    requires forall p :: p in a <==> p in b
    ensures a == b
  {
    assert |a| > 0 ==> a[0] in b;
    assert |b| > 0 ==> b[0] in a;
    if a != [] && b != [] {
      var k :| 0 <= k < |b| && b[k] == a[0];
      var l :| 0 <= l < |a| && a[l] == b[0];
      assert k == 0 || ScannedBefore(b[0], a[0]);
      assert l == 0 || ScannedBefore(a[0], b[0]);
      assert a[0] == b[0];
      forall p
        ensures p in a[1..] <==> p in b[1..]
      {
        if p in a[1..] {
          var k :| 1 <= k < |a| && a[k] == p;
          assert ScannedBefore(a[0], p);
          assert p in b;
          var l :| 0 <= l < |b| && b[l] == p;
          assert l != 0;
          assert p == b[1..][l - 1];
        }
        if p in b[1..] {
          var k :| 1 <= k < |b| && b[k] == p;
          assert ScannedBefore(b[0], p);
          assert p in a;
          var l :| 0 <= l < |a| && a[l] == p;
          assert l != 0;
          assert p == a[1..][l - 1];
        }
      }
      ScanOrderedSameElements(a[1..], b[1..]);
    }
  }

  /** A mask has only one row-major enumeration. */
  lemma RowMajorEnumerationUnique(mask: seq<seq<bool>>, a: seq<Point>, b: seq<Point>)
    requires RowMajorEnumeration(mask, a) && RowMajorEnumeration(mask, b)
    ensures a == b
  {
    forall p
      ensures p in a <==> p in b
    {
      if p in a {
        var k :| 0 <= k < |a| && a[k] == p;
        assert mask[p.y][p.x];
      }
      if p in b {
        var k :| 0 <= k < |b| && b[k] == p;
        assert mask[p.y][p.x];
      }
    }
    ScanOrderedSameElements(a, b);
  }

  // ---------------------------------------------------------------------------
  // Properties of the extraction result

  /** Every keypoint lies at a pixel whose response is strictly above
      `q * max` and not smaller than any in-bounds neighbour, and carries the
      common size, no orientation and that pixel's response. */
  lemma ExtractionSound(g: Grid, q: real, size: real, keyPoints: seq<KeyPoint>, k: int)
    requires IsExtraction(g, q, size, keyPoints)
    requires 0 <= k < |keyPoints|
    ensures InBounds(g, keyPoints[k].pt.y, keyPoints[k].pt.x)
    ensures Selected(g, Threshold(g, q), keyPoints[k].pt.y, keyPoints[k].pt.x)
    ensures keyPoints[k].response > q * MaxVal(g)
    ensures forall r, c :: 0 <= r < |g| && 0 <= c < |g[r]| && Adjacent(keyPoints[k].pt.y, keyPoints[k].pt.x, r, c) ==>
      g[r][c] <= keyPoints[k].response
    ensures keyPoints[k].response == g[keyPoints[k].pt.y][keyPoints[k].pt.x]
    ensures keyPoints[k].size == size && keyPoints[k].angle == NoOrientation
  {
    var p := keyPoints[k].pt;
    assert Locations(keyPoints)[k] == p;
    assert SelectionMask(g, Threshold(g, q))[p.y][p.x];
  }

  /** Every selected pixel is the location of exactly one keypoint. */
  lemma ExtractionComplete(g: Grid, q: real, size: real, keyPoints: seq<KeyPoint>, i: int, j: int)
    requires IsExtraction(g, q, size, keyPoints)
    requires InBounds(g, i, j) && Selected(g, Threshold(g, q), i, j)
    ensures exists k :: 0 <= k < |keyPoints| && keyPoints[k].pt == Point(j, i)
    ensures forall k, l ::
      0 <= k < |keyPoints| && 0 <= l < |keyPoints| && keyPoints[k].pt == Point(j, i) && keyPoints[l].pt == Point(j, i)
      ==> k == l
  {
    var locs := Locations(keyPoints);
    assert SelectionMask(g, Threshold(g, q))[i][j];
    assert Point(j, i) in locs;
    var k :| 0 <= k < |locs| && locs[k] == Point(j, i);
    assert keyPoints[k].pt == Point(j, i);
    ScanOrderedDistinct(locs);
  }

  /** The keypoints are listed in strictly increasing row-major order. */
  lemma ExtractionOrdered(g: Grid, q: real, size: real, keyPoints: seq<KeyPoint>)
    requires IsExtraction(g, q, size, keyPoints)
    ensures forall k, l :: 0 <= k < l < |keyPoints| ==> ScannedBefore(keyPoints[k].pt, keyPoints[l].pt)
  {
    var locs := Locations(keyPoints);
    forall k, l | 0 <= k < l < |keyPoints|
      ensures ScannedBefore(keyPoints[k].pt, keyPoints[l].pt)
    {
      assert ScannedBefore(locs[k], locs[l]);
    }
  }

  /** The extraction result is fully determined by the map, the quality level
      and the size: running it twice gives the same list. */
  lemma ExtractionDeterministic(g: Grid, q: real, size: real, a: seq<KeyPoint>, b: seq<KeyPoint>)
    requires IsExtraction(g, q, size, a) && IsExtraction(g, q, size, b)
    ensures a == b
  {
    RowMajorEnumerationUnique(SelectionMask(g, Threshold(g, q)), Locations(a), Locations(b));
    forall k | 0 <= k < |a|
      ensures a[k] == b[k]
    {
      assert Locations(a)[k] == Locations(b)[k];
    }
  }

  /** When no pixel is selected, nothing is extracted. */
  lemma NoneSelectedNoneExtracted(g: Grid, q: real, size: real, keyPoints: seq<KeyPoint>)
    requires IsExtraction(g, q, size, keyPoints)
    requires forall i, j :: InBounds(g, i, j) ==> g[i][j] <= Threshold(g, q)
    ensures keyPoints == []
  {
    if |keyPoints| > 0 {
      ExtractionSound(g, q, size, keyPoints, 0);
    }
  }

  /** Every pixel is at most a threshold that is at least the maximum. */
  lemma MaxBelowThreshold(g: Grid, t: real)
    requires NonEmpty(g) && GridMax(g) <= t
    ensures forall i, j :: 0 <= i < |g| && 0 <= j < |g[i]| ==> g[i][j] <= t
  {
  }

  /** q * m >= m when m <= 0 and q <= 1, and when m >= 0 and q >= 1. */
  lemma ThresholdAtLeastMax(m: real, q: real)
    requires (m <= 0.0 && q <= 1.0) || (m >= 0.0 && q >= 1.0)
    ensures q * m >= m
  {
    assert q * m - m == (q - 1.0) * m;
    if m <= 0.0 && q <= 1.0 {
      assert (1.0 - q) * (-m) >= 0.0;
    } else {
      assert (q - 1.0) * m >= 0.0;
    }
  }

  lemma ThresholdBelowGridMax(g: Grid, q: real)
    requires NonEmpty(g) && GridMax(g) > 0.0 && q < 1.0
    ensures Threshold(g, q) < GridMax(g)
  {
    var m := GridMax(g);
    assert MaxVal(g) == m;
    var t := Threshold(g, q);
    assert t == q * m;
    assert m - t == (1.0 - q) * m;
    ProductPositive(1.0 - q, m);
  }

  lemma ProductPositive(x: real, y: real)
    requires x > 0.0 && y > 0.0
    ensures x * y > 0.0
  {
  }

  /** With a non-positive maximum and q <= 1 nothing is extracted. */
  lemma NoKeypointsWhenMaxNonPositive(g: Grid, q: real, size: real, keyPoints: seq<KeyPoint>)
    requires NonEmpty(g) && GridMax(g) <= 0.0 && q <= 1.0
    requires IsExtraction(g, q, size, keyPoints)
    ensures keyPoints == []
  {
    var m := GridMax(g);
    var t := Threshold(g, q);
    assert t == q * m;
    ThresholdAtLeastMax(m, q);
    MaxBelowThreshold(g, t);
    NoneSelectedNoneExtracted(g, q, size, keyPoints);
  }

  /** With a non-negative maximum and q >= 1 nothing is extracted. */
  lemma NoKeypointsWhenQualityAtLeastOne(g: Grid, q: real, size: real, keyPoints: seq<KeyPoint>)
    requires NonEmpty(g) && GridMax(g) >= 0.0 && q >= 1.0
    requires IsExtraction(g, q, size, keyPoints)
    ensures keyPoints == []
  {
    var m := GridMax(g);
    ThresholdAtLeastMax(m, q);
    MaxBelowThreshold(g, Threshold(g, q));
    NoneSelectedNoneExtracted(g, q, size, keyPoints);
  }

  /** With a positive maximum and q < 1 a pixel attaining the maximum passes
      both the threshold and the local-maximum test. */
  lemma GlobalMaximumSelected(g: Grid, q: real, i: int, j: int)
    requires NonEmpty(g) && GridMax(g) > 0.0 && q < 1.0
    requires InBounds(g, i, j) && g[i][j] == GridMax(g)
    ensures Selected(g, Threshold(g, q), i, j)
  {
    ThresholdBelowGridMax(g, q);
  }

  /** With a positive maximum and q < 1 every pixel attaining the maximum is
      extracted, so the result is not empty. */
  lemma GlobalMaximaExtracted(g: Grid, q: real, size: real, keyPoints: seq<KeyPoint>)
    requires NonEmpty(g) && GridMax(g) > 0.0 && q < 1.0
    requires IsExtraction(g, q, size, keyPoints)
    ensures forall i, j :: 0 <= i < |g| && 0 <= j < |g[i]| && g[i][j] == GridMax(g) ==>
      exists k :: 0 <= k < |keyPoints| && keyPoints[k].pt == Point(j, i)
    ensures keyPoints != []
  {
    var m := GridMax(g);
    forall i, j | 0 <= i < |g| && 0 <= j < |g[i]| && g[i][j] == m
      ensures exists k :: 0 <= k < |keyPoints| && keyPoints[k].pt == Point(j, i)
    {
      GlobalMaximumSelected(g, q, i, j);
      ExtractionComplete(g, q, size, keyPoints, i, j);
    }
    var i, j :| 0 <= i < |g| && 0 <= j < |g[i]| && g[i][j] == m;
    assert exists k :: 0 <= k < |keyPoints| && keyPoints[k].pt == Point(j, i);
  }

  // ---------------------------------------------------------------------------
  // The quality level is relative: scaling the response map by a positive
  // factor scales the maximum and the threshold with it and selects the same
  // pixels.
  // ---------------------------------------------------------------------------

  lemma ScaleStrictlyMonotone(s: real, x: real, y: real)
    requires s > 0.0
    ensures x < y <==> s * x < s * y
    ensures x <= y <==> s * x <= s * y
  {
    assert s * y - s * x == s * (y - x);
    if x < y {
      ProductPositive(s, y - x);
    } else if y < x {
      ProductPositive(s, x - y);
    }
  }

  /** Scaling by s > 0 carries the maximum m of a map to s * m. */
  lemma ScaledMax(h: Grid, g: Grid, s: real, m: real)
    requires NonEmpty(g) && s > 0.0 && ScaledBy(h, g, s) && IsMaxOf(g, m)
    ensures NonEmpty(h) && IsMaxOf(h, s * m)
  {
    forall r, c | 0 <= r < |h| && 0 <= c < |h[r]|
      ensures h[r][c] <= s * m
    {
      assert Sample(h, r, c) == s * g[r][c];
      ScaleStrictlyMonotone(s, g[r][c], m);
    }
    var r, c :| 0 <= r < |g| && 0 <= c < |g[r]| && g[r][c] == m;
    assert Sample(h, r, c) == s * m;
  }

  /** The maximum of a positively scaled map is the scaled maximum. */
  lemma GridMaxScales(h: Grid, g: Grid, s: real)
    requires NonEmpty(g) && s > 0.0 && ScaledBy(h, g, s)
    ensures NonEmpty(h)
    ensures GridMax(h) == s * GridMax(g)
  {
    assert NonEmpty(h) && GridMax(h) == s * GridMax(g) by {
      GridMaxIsMax(g);
      ScaledGridMax(h, g, s, GridMax(g));
    }
  }

  lemma ScaledGridMax(h: Grid, g: Grid, s: real, m: real)
    requires NonEmpty(g) && s > 0.0 && ScaledBy(h, g, s) && IsMaxOf(g, m)
    ensures NonEmpty(h) && GridMax(h) == s * m
  {
    ScaledMax(h, g, s, m);
    MaxIsGridMax(h, s * m);
  }

  /** The threshold of a positively scaled map is the scaled threshold. */
  lemma ThresholdScales(h: Grid, g: Grid, q: real, s: real)
    requires NonEmpty(g) && NonEmpty(h) && GridMax(h) == s * GridMax(g)
    ensures Threshold(h, q) == s * Threshold(g, q)
  {
    ProductCommutes(q, s, GridMax(g), GridMax(h), Threshold(g, q), Threshold(h, q));
  }

  /** With mh = s * m, t = q * m and th = q * mh, th is s * t. The values are
      parameters so that the solver sees plain products, not the unfolded
      maxima behind them. */
  lemma ProductCommutes(q: real, s: real, m: real, mh: real, t: real, th: real)
    requires mh == s * m && t == q * m && th == q * mh
    ensures th == s * t
  {
  }

  /** A pixel is selected in the scaled map against the scaled threshold
      exactly when it is selected in the original map. */
  lemma SelectedScaled(h: Grid, g: Grid, s: real, t: real, i: int, j: int)
    requires s > 0.0 && ScaledBy(h, g, s) && InBounds(g, i, j)
    ensures InBounds(h, i, j)
    ensures Selected(h, s * t, i, j) == Selected(g, t, i, j)
  {
    assert Sample(h, i, j) == s * g[i][j];
    ScaleStrictlyMonotone(s, t, g[i][j]);
    forall r, c | InBounds(g, r, c) && Adjacent(i, j, r, c)
      ensures h[r][c] <= h[i][j] <==> g[r][c] <= g[i][j]
    {
      assert Sample(h, r, c) == s * g[r][c];
      ScaleStrictlyMonotone(s, g[r][c], g[i][j]);
    }
    assert IsLocalMax(h, i, j) == IsLocalMax(g, i, j);
  }

  /** Multiplying the response map by a positive factor does not change
      which pixels are selected, hence not where keypoints are placed. */
  lemma {:induction false} SelectionScaleInvariant(h: Grid, g: Grid, q: real, s: real)
    requires NonEmpty(g) && s > 0.0 && ScaledBy(h, g, s)
    ensures SelectionMask(h, Threshold(h, q)) == SelectionMask(g, Threshold(g, q))
  {
    GridMaxScales(h, g, s);
    ThresholdScales(h, g, q, s);
    SelectionScaled(h, g, s, Threshold(g, q), Threshold(h, q));
  }

  /** Scaling the map and the threshold by the same s > 0 keeps the mask. */
  lemma {:induction false} SelectionScaled(h: Grid, g: Grid, s: real, t: real, scaledT: real)
    requires s > 0.0 && ScaledBy(h, g, s) && scaledT == s * t
    ensures SelectionMask(h, scaledT) == SelectionMask(g, t)
  {
    var a := SelectionMask(h, scaledT);
    var b := SelectionMask(g, t);
    forall i | 0 <= i < |g|
      ensures a[i] == b[i]
    {
      forall j | 0 <= j < |g[i]|
        ensures a[i][j] == b[i][j]
      {
        SelectedScaled(h, g, s, t, i, j);
      }
    }
  }

  /** Extracting from a positively scaled map places the keypoints at the
      same pixels, in the same order, with responses scaled alike. */
  lemma ExtractionScaleInvariant(h: Grid, g: Grid, q: real, s: real, sizeH: real, sizeG: real,
                                 kh: seq<KeyPoint>, kg: seq<KeyPoint>)
    requires NonEmpty(g) && s > 0.0 && ScaledBy(h, g, s)
    requires IsExtraction(h, q, sizeH, kh) && IsExtraction(g, q, sizeG, kg)
    ensures Locations(kh) == Locations(kg)
    ensures forall k :: 0 <= k < |kh| ==> kh[k].response == s * kg[k].response
  {
    SelectionScaleInvariant(h, g, q, s);
    RowMajorEnumerationUnique(SelectionMask(g, Threshold(g, q)), Locations(kh), Locations(kg));
    ResponsesScale(h, g, s, sizeH, sizeG, kh, kg);
  }

  lemma ResponsesScale(h: Grid, g: Grid, s: real, sizeH: real, sizeG: real, kh: seq<KeyPoint>, kg: seq<KeyPoint>)
    requires ScaledBy(h, g, s) && Locations(kh) == Locations(kg)
    requires KeypointFields(h, sizeH, kh) && KeypointFields(g, sizeG, kg)
    ensures forall k :: 0 <= k < |kh| ==> kh[k].response == s * kg[k].response
  {
    forall k | 0 <= k < |kh|
      ensures kh[k].response == s * kg[k].response
    {
      assert Locations(kh)[k] == Locations(kg)[k];
      var p := kg[k].pt;
      SampleScaled(h, g, s, p.y, p.x, kh[k].response, kg[k].response);
    }
  }

  /** The value `h` holds at an in-bounds pixel is `s` times the value of `g`.
      The values are parameters because the solver does not rewrite a product
      under an equality of its factor when they are only indices into `h`. */
  lemma SampleScaled(h: Grid, g: Grid, s: real, r: int, c: int, vh: real, vg: real)
    requires ScaledBy(h, g, s) && 0 <= r < |g| && 0 <= c < |g[r]|
    requires vh == h[r][c] && vg == g[r][c]
    ensures vh == s * vg
  {
    assert Sample(h, r, c) == s * g[r][c];
  }
}
