# Corner detector: response metrics and keypoint extraction

This project models the second half of `CornerDetector::detect` from a small
OpenCV corner-detection lab, together with the detector's configuration:

- the structure tensor `[[A, B], [B, C]]`, given as three single-channel
  images, is reduced at every pixel to a cornerness response under the metric
  chosen at construction (Harris with `alpha = 0.06`, clamped at zero; the
  harmonic mean `A*C / (A + C)`; or the minimum-eigenvalue branch, whose
  result comes from a library eigen-solver and is taken as an input here);
- the response is dilated with the default 3x3 element, so every pixel holds
  the maximum of its neighbourhood;
- the threshold is `quality_level * max(response)`;
- the mask `(response > threshold) & (response == dilated)` keeps the strong
  local maxima (all pixels of a plateau included);
- the mask is scanned row by row, and each set pixel becomes a keypoint with
  diameter `3 * window_sigma`, orientation `-1` and the pixel's response.

Images are `seq<seq<real>>` grids indexed `[row][column]`, and keypoint
locations use the library's `(x = column, y = row)` convention. The dilation
ignores neighbours outside the image. That matches the library's default
border for dilation, which is a value below every pixel.

Modules:

- `Grids`: grid shape predicates, the global maximum (`cv::minMaxLoc`) and the
  3x3 neighbourhood maximum.
- `Metrics`: the per-pixel and per-image Harris and harmonic-mean metrics, the
  metric dispatch, and their algebraic properties.
- `Extraction`: dilation, the strong-local-maximum mask, the row-major scan
  (`cv::findNonZero`), keypoint emission, and the properties of the result.
  `IsExtraction` states the result without reference to dilation: the pixels
  strictly above the threshold that are at least as large as every in-bounds
  neighbour, listed once each in row-major order.
- `CornerDetection`: the `CornerDetector` class, its constructor and `Detect`.

## Model

| member | source | states |
|---|---|---|
| CornerDetection.CornerDetector.constructor | corner_detector.cpp:3-15 | The detector keeps the metric, the visualisation flag, the quality level and the window sigma it was built with. |
| CornerDetection.CornerDetector.KeypointSize | corner_detector.cpp:67 | The keypoint diameter is three window sigmas; `Extraction.ExtractionSound` shows every keypoint of `Detect` carries it. |
| CornerDetection.CornerDetector.Detect | corner_detector.cpp:17-72 | The keypoints are exactly the extraction result of the configured metric's response, with the configured quality level and size `3 * window_sigma`. |
| Metrics.Response | corner_detector.cpp:35-50 | The response is rectangular. Under Harris and the harmonic mean it has the tensor's dimensions. Under Harris every pixel is the Harris value and non-negative. Under the harmonic mean every pixel is `A*C/(A+C)`. Under the minimum eigenvalue it is the eigen-solver's result, of whatever dimensions that has. |
| Metrics.HarrisAt | corner_detector.cpp:89-106 | The Harris response is exactly `max(det - 0.06 * trace^2, 0)`: non-negative, at least the unclamped value, and equal to one of the two. |
| Metrics.HarrisMetric | corner_detector.cpp:89-106 | Whole-image Harris: same dimensions as the inputs, every pixel the per-pixel Harris value, every pixel non-negative. |
| Metrics.HarrisPositiveIffCorner | corner_detector.cpp:96-103 | The response is positive exactly when `det > 0.06 * trace^2`. |
| Metrics.HarrisBoundedByTrace | corner_detector.cpp:96-103 | The response never exceeds `(1/4 - 0.06) * trace^2`. |
| Metrics.HarrisScales | corner_detector.cpp:96-103 | Multiplying A, B, C by `k >= 0` multiplies the response by `k^2`. |
| Metrics.HarrisMetricScales | corner_detector.cpp:89-106 | Scaling the three tensor images by `k > 0` scales the whole Harris image by `k^2`. |
| Metrics.HarmonicMeanAt | corner_detector.cpp:108-117 | For a non-zero trace the response `r` satisfies `r * (A + C) == A * C`. |
| Metrics.HarmonicMeanMetric | corner_detector.cpp:108-117 | Whole-image harmonic mean: same dimensions as the inputs, every pixel satisfying `r * (A + C) == A * C`. |
| Metrics.HarmonicMeanBounds | corner_detector.cpp:114 | For `A, C >= 0` with a positive trace the response lies between 0 and `min(A, C)`. |
| Metrics.HarmonicMeanReciprocal | corner_detector.cpp:114 | For positive `A, C` the reciprocal of the response is `1/A + 1/C`. |
| Metrics.HarmonicMeanScales | corner_detector.cpp:114 | Scaling A and C by `k > 0` scales the response by `k`. |
| Grids.GridMax | corner_detector.cpp:57-58 | The maximum bounds every pixel and is attained by some pixel. |
| Grids.MaxIsGridMax | corner_detector.cpp:57-58 | Any attained upper bound equals the computed maximum. |
| Extraction.MaxVal | corner_detector.cpp:57-58 | The maximum of a non-empty map is `GridMax`, the attained upper bound of every pixel; an empty map gets 0. |
| Extraction.Threshold | corner_detector.cpp:59 | `q` times the map's maximum, 0 for an empty map. `ThresholdBelowGridMax` and `ThresholdScales` relate it to the maximum. |
| Grids.NeighbourhoodMax | corner_detector.cpp:52-54 | The value bounds every in-bounds pixel of the 3x3 block and is attained in it. |
| Extraction.Dilate | corner_detector.cpp:52-54 | The dilated image has the input's dimensions, and every pixel is its neighbourhood maximum. |
| Extraction.StrongLocalMaxMask | corner_detector.cpp:61-62 | The mask has the response's dimensions, and a pixel is set iff it is above the threshold and equal to its dilated value. |
| Extraction.DilationEqualityIsLocalMax | corner_detector.cpp:52-62 | A pixel equals its dilated value iff it is at least as large as every in-bounds neighbour. |
| Extraction.StrongLocalMaxMaskSelects | corner_detector.cpp:52-62 | The mask built from the dilation equals the selection mask "above threshold and local maximum". |
| Extraction.FindNonZero | corner_detector.cpp:63-64 | Lists every set pixel of the mask, only set pixels, in strictly increasing row-major order. |
| Extraction.EmitKeypoints | corner_detector.cpp:66-72 | One keypoint per location, in order, with the common size, orientation -1 and the response at its pixel. |
| Extraction.ExtractKeypoints | corner_detector.cpp:52-72 | Dilation, threshold, mask, scan and emission together produce the extraction result. |
| Extraction.EmittedKeypointsAreExtraction | corner_detector.cpp:66-72 | Emitting keypoints over the row-major enumeration of the selection mask yields the extraction result. |
| Extraction.ExtractionSound | corner_detector.cpp:56-72 | Every keypoint sits on a pixel strictly above `q * max` and no smaller than any neighbour. It carries that pixel's response, the common size and orientation -1. |
| Extraction.ExtractionComplete | corner_detector.cpp:61-72 | Every selected pixel is the location of exactly one keypoint. |
| Extraction.ExtractionOrdered | corner_detector.cpp:63-72 | Keypoints appear in strictly increasing row-major order. |
| Extraction.ScanOrderedDistinct | corner_detector.cpp:63-64 | A row-major ordered location list has no duplicates. |
| Extraction.ScanOrderedSameElements | corner_detector.cpp:63-64 | Two row-major ordered lists with the same elements are equal. |
| Extraction.RowMajorEnumerationUnique | corner_detector.cpp:63-64 | A mask has exactly one row-major enumeration. |
| Extraction.ExtractionDeterministic | corner_detector.cpp:52-72 | The extraction result is unique for a given response, quality level and size. |
| Extraction.NoneSelectedNoneExtracted | corner_detector.cpp:59-64 | If no pixel exceeds the threshold, no keypoint is produced. |
| Extraction.NoKeypointsWhenMaxNonPositive | corner_detector.cpp:56-64 | With `max <= 0` and `q <= 1` the result is empty. |
| Extraction.NoKeypointsWhenQualityAtLeastOne | corner_detector.cpp:56-64 | With `max >= 0` and `q >= 1` the result is empty. |
| Extraction.GlobalMaximumSelected | corner_detector.cpp:56-62 | With `max > 0` and `q < 1` a pixel attaining the maximum passes both tests. |
| Extraction.GlobalMaximaExtracted | corner_detector.cpp:56-64 | With `max > 0` and `q < 1` every pixel attaining the maximum is a keypoint, so the result is non-empty. |
| Extraction.GridMaxScales | corner_detector.cpp:57-58 | The maximum of a response scaled by `s > 0` is `s` times the maximum. |
| Extraction.ThresholdScales | corner_detector.cpp:56-59 | When the maximum scales by `s`, so does the threshold. |
| Extraction.SelectedScaled | corner_detector.cpp:59-62 | Scaling the response and the threshold by `s > 0` leaves each pixel's selection unchanged. |
| Extraction.SelectionScaled | corner_detector.cpp:59-62 | Scaling the response and the threshold by `s > 0` leaves the selection mask unchanged. |
| Extraction.SelectionScaleInvariant | corner_detector.cpp:56-62 | The quality level is relative: a response scaled by `s > 0` selects the same pixels. |
| Extraction.ExtractionScaleInvariant | corner_detector.cpp:56-72 | Extracting from a response scaled by `s > 0` puts keypoints at the same locations, in the same order, with responses scaled by `s`. |

## Left out

- The gradient and window filtering (corner_detector.cpp:19-33) is not modelled. Nor are the Gaussian kernel builders called by the constructor, which are not part of this model. The tensor images A, B and C are inputs of `Detect`, and the gradient sigma is accepted by the constructor but not kept.
- The minimum-eigenvalue metric (corner_detector.cpp:119-139) is not modelled beyond the dispatch to it. As written it computes no per-pixel minimum eigenvalue. Line 126 assigns a whole image to one three-channel element, and line 131 hands `cv::eigen` a non-square three-channel matrix; the image library's input checks refuse both. Whatever that branch yields is passed to `Detect` and `Response` as a parameter, required only to be rectangular, and no claim is made that it has the tensor's dimensions.
- The visualisation branch (corner_detector.cpp:74-84) only displays images. The flag is stored, and the display is left out.
- The model does not use floating point. Samples are exact reals, so the single-precision rounding of `0.06f`, of the products and of `3.0f * window_sigma` is not modelled. Nor is NaN or infinity.
- Metrics.HarmonicMeanAt: requires `A + C != 0`. The source divides unguarded, so a zero trace yields IEEE NaN or infinity, which the model has no value for. `Metrics.HarmonicMeanMetric`, `Metrics.Response` and `CornerDetection.CornerDetector.Detect` carry the same precondition for the harmonic-mean metric.
- An empty response image is given maximum 0 and yields no keypoints. The library's behaviour on empty images is not modelled.
- Keypoint fields the source leaves at their defaults (octave 0, class id -1) are not represented.
