/**
  `analyze_freshness` as a whole: from the planes of the resized image (HSV
  pixels and the edge mask), the GLCM contrast computed by scikit-image and
  the entropy the program computes with `log2` over the normalised
  histogram (both taken as inputs), the five features and the verdict the
  decision tree gives for them.
 */
module Freshness {
  import opened Pixels
  import opened Features
  import opened Classifier

  /** The one failure: an empty image, which the resize step rejects. */
  datatype Error = InvalidImage

  datatype Result<T> = Ok(value: T) | Err(error: Error)

  /** What the program returns: the verdict together with the features it was computed from. */
  datatype Analysis = Analysis(verdict: Verdict, features: FeatureVector)

  /**
    The whole analysis. `hsv` and `edges` are planes of the same resized
    image, so they have the same number of pixels. An empty image is
    rejected; otherwise the features are this image's mean value, edge
    density and brown ratio (so they lie in the ranges those functions
    promise) with contrast and entropy passed through, and the verdict is the
    decision tree's verdict on exactly those features.
   */
  function AnalyzeFreshness(hsv: seq<Hsv>, edges: seq<Byte>, contrast: real, entropy: real): (r: Result<Analysis>)
    requires |edges| == |hsv|
    ensures r.Err? <==> |hsv| == 0
    ensures r.Ok? ==>
      r.value.features == FeatureVector(MeanValue(hsv), contrast, EdgeDensity(edges), entropy, BrownRatio(hsv))
    ensures r.Ok? ==> r.value.verdict == Classify(r.value.features)
    ensures r.Ok? ==> 0.0 <= r.value.features.meanValue <= 255.0
    ensures r.Ok? ==> 0.0 <= r.value.features.edgeDensity <= 1.0
    ensures r.Ok? ==> 0.0 <= r.value.features.brownRatio <= 1.0
    ensures r.Ok? ==> r.value.features.contrast == contrast && r.value.features.entropy == entropy
  {
    if |hsv| == 0 then Err(InvalidImage)
    else
      var x := FeatureVector(MeanValue(hsv), contrast, EdgeDensity(edges), entropy, BrownRatio(hsv));
      Ok(Analysis(Classify(x), x))
  }

  /**
    An image filled with brown-band pixels has brown ratio 1 and is Spoiled,
    whatever its edges, contrast and entropy.
   */
  lemma AllBrownIsSpoiled(hsv: seq<Hsv>, edges: seq<Byte>, contrast: real, entropy: real)
    requires |edges| == |hsv| > 0
    requires forall i :: 0 <= i < |hsv| ==> IsBrown(hsv[i])
    ensures AnalyzeFreshness(hsv, edges, contrast, entropy).Ok?
    ensures AnalyzeFreshness(hsv, edges, contrast, entropy).value.features.brownRatio == 1.0
    ensures AnalyzeFreshness(hsv, edges, contrast, entropy).value.verdict.freshness == Spoiled
  {
  }

  /**
    An all-black image (value 0 everywhere) has mean value 0 and is Spoiled,
    whatever its edges, contrast and entropy.
   */
  lemma AllBlackIsSpoiled(hsv: seq<Hsv>, edges: seq<Byte>, contrast: real, entropy: real)
    requires |edges| == |hsv| > 0
    requires forall i :: 0 <= i < |hsv| ==> hsv[i].v == 0
    ensures AnalyzeFreshness(hsv, edges, contrast, entropy).Ok?
    ensures AnalyzeFreshness(hsv, edges, contrast, entropy).value.features.meanValue == 0.0
    ensures AnalyzeFreshness(hsv, edges, contrast, entropy).value.verdict.freshness == Spoiled
  {
    MeanValueOfUniform(hsv, 0);
  }

  /**
    A uniformly bright image (value 255 everywhere) has no brown pixel, since
    the brown band stops at value 200; with no edges and low texture
    statistics it is Fresh.
   */
  lemma BrightFlatIsFresh(hsv: seq<Hsv>, edges: seq<Byte>, contrast: real, entropy: real)
    requires |edges| == |hsv| > 0
    requires forall i :: 0 <= i < |hsv| ==> hsv[i].v == 255
    requires forall i :: 0 <= i < |edges| ==> edges[i] == 0
    requires contrast < 5.0 && entropy < 6.0
    ensures AnalyzeFreshness(hsv, edges, contrast, entropy).Ok?
    ensures AnalyzeFreshness(hsv, edges, contrast, entropy).value.features.brownRatio == 0.0
    ensures AnalyzeFreshness(hsv, edges, contrast, entropy).value.verdict.freshness == Fresh
  {
    MeanValueOfUniform(hsv, 255);
  }

  /** A grade other than Spoiled needs at least one pixel brighter than 90. */
  lemma NotSpoiledNeedsBrightPixel(hsv: seq<Hsv>, edges: seq<Byte>, contrast: real, entropy: real)
    requires |edges| == |hsv|
    ensures AnalyzeFreshness(hsv, edges, contrast, entropy).Ok? &&
            AnalyzeFreshness(hsv, edges, contrast, entropy).value.verdict.freshness != Spoiled
            ==> exists i :: 0 <= i < |hsv| && hsv[i].v > 90
  {
    if |hsv| > 0 && MeanValue(hsv) > 90.0 {
      MeanAboveNeedsBrighterPixel(hsv, 90);
    }
  }

  /**
    An image whose every pixel is an edge has edge density 1 and can never be
    Fresh, whatever its brightness, colour, contrast and entropy.
   */
  lemma AllEdgesIsNotFresh(hsv: seq<Hsv>, edges: seq<Byte>, contrast: real, entropy: real)
    requires |edges| == |hsv| > 0
    requires forall i :: 0 <= i < |edges| ==> edges[i] > 0
    ensures AnalyzeFreshness(hsv, edges, contrast, entropy).Ok?
    ensures AnalyzeFreshness(hsv, edges, contrast, entropy).value.features.edgeDensity == 1.0
    ensures AnalyzeFreshness(hsv, edges, contrast, entropy).value.verdict.freshness != Fresh
  {
  }
}
