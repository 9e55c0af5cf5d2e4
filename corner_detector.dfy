/** The detector object: its configuration, fixed at construction, and the
    part of `detect` that runs from the structure-tensor components A, B, C
    to the list of keypoints. */
module CornerDetection {
  import opened Grids
  import opened Metrics
  import opened Extraction

  class CornerDetector {
    const metricType: CornerMetric
    const doVisualize: bool
    const qualityLevel: real
    const windowSigma: real

    /** Stores the configuration. The gradient sigma only feeds the gradient
        kernels, which are not part of this model. */
    constructor (metric: CornerMetric, doVisualize: bool, qualityLevel: real, gradientSigma: real, windowSigma: real)
      ensures this.metricType == metric && this.doVisualize == doVisualize
      ensures this.qualityLevel == qualityLevel && this.windowSigma == windowSigma
    {
      this.metricType := metric;
      this.doVisualize := doVisualize;
      this.qualityLevel := qualityLevel;
      this.windowSigma := windowSigma;
    }

    /** The diameter given to every keypoint: three window sigmas. */
    function KeypointSize(): (size: real)
      ensures size == 3.0 * windowSigma
    {
      3.0 * windowSigma
    }

    /** From the tensor components to the keypoints: the response under the
        configured metric, then keypoint extraction with the configured
        quality level and keypoint size. */
    method Detect(A: Grid, B: Grid, C: Grid, minEigenResponse: Grid) returns (keyPoints: seq<KeyPoint>)
      requires SameShape(A, B) && SameShape(A, C)
      requires metricType == HarmonicMean ==> NonZeroTrace(A, C)
      requires metricType == MinEigen ==> Rectangular(minEigenResponse)
      ensures IsExtraction(Response(metricType, A, B, C, minEigenResponse), qualityLevel, KeypointSize(), keyPoints)
    {
      var response := Response(metricType, A, B, C, minEigenResponse);
      keyPoints := ExtractKeypoints(response, qualityLevel, KeypointSize());
    }
  }
}
