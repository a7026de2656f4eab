/**
  The freshness decision of `analyze_freshness`: an ordered, first-match-wins
  threshold tree over five feature values, returning a label and the BGR
  colour the label is drawn in.
 */
module Classifier {
  import opened Pixels

  /** The three freshness grades, from best to worst. */
  datatype Freshness = Fresh | ModeratelyFresh | Spoiled

  /** A colour in OpenCV's blue-green-red channel order. */
  datatype Bgr = Bgr(b: Byte, g: Byte, r: Byte)

  /** The five features the decision reads. Arithmetic on them is exact. */
  datatype FeatureVector = FeatureVector(
    meanValue: real,
    contrast: real,
    edgeDensity: real,
    entropy: real,
    brownRatio: real)

  /** The decision: a grade and the colour it is displayed in. */
  datatype Verdict = Verdict(freshness: Freshness, color: Bgr)

  /** The text the program returns for each grade; each text belongs to exactly one grade. */
  function Label(f: Freshness): (s: string)
    ensures s == "FRESH" <==> f == Fresh
    ensures s == "MODERATELY FRESH" <==> f == ModeratelyFresh
    ensures s == "SPOILED" <==> f == Spoiled
  {
    match f
    case Fresh => "FRESH"
    case ModeratelyFresh => "MODERATELY FRESH"
    case Spoiled => "SPOILED"
  }

  /** Position of a grade in the order Spoiled < ModeratelyFresh < Fresh. */
  function Rank(f: Freshness): nat
  {
    match f
    case Spoiled => 0
    case ModeratelyFresh => 1
    case Fresh => 2
  }

  /** The conditions of the first branch, all of which must hold. */
  predicate FreshConditions(x: FeatureVector)
  {
    && x.meanValue > 120.0
    && x.contrast < 5.0
    && x.edgeDensity < 0.05
    && x.entropy < 6.0
    && x.brownRatio < 0.05
  }

  /** The conditions of the second branch, all of which must hold. */
  predicate ModeratelyFreshConditions(x: FeatureVector)
  {
    && x.meanValue > 90.0
    && x.contrast < 10.0
    && x.brownRatio < 0.15
  }

  /**
    The decision tree. The first branch whose conditions hold decides. Since
    the first branch's conditions imply the second's, a feature vector is
    Spoiled exactly when it fails the second branch's conditions.
   */
  function Classify(x: FeatureVector): (v: Verdict)
    ensures v.freshness == Fresh <==> FreshConditions(x)
    ensures v.freshness == ModeratelyFresh <==> !FreshConditions(x) && ModeratelyFreshConditions(x)
    ensures v.freshness == Spoiled <==> !ModeratelyFreshConditions(x)
  {
    if FreshConditions(x) then
      Verdict(Fresh, Bgr(0, 255, 0))
    else if ModeratelyFreshConditions(x) then
      Verdict(ModeratelyFresh, Bgr(0, 255, 255))
    else
      Verdict(Spoiled, Bgr(0, 0, 255))
  }

  /** The labels are pairwise distinct, so the returned text identifies the grade. */
  lemma LabelsDistinct(f: Freshness, g: Freshness)
    ensures Label(f) == Label(g) <==> f == g
  {
  }

  /**
    Each threshold of the first branch is stricter than the matching one of
    the second: more than 120 is more than 90, under 5 is under 10, under 0.05
    is under 0.15.
   */
  lemma FreshRefinesModeratelyFresh(x: FeatureVector)
    requires FreshConditions(x)
    ensures ModeratelyFreshConditions(x)
  {
  }

  /**
    The colour depends on the grade alone: green (0, 255, 0) for Fresh, yellow
    (0, 255, 255) for ModeratelyFresh, red (0, 0, 255) for Spoiled.
   */
  lemma ColorFollowsFreshness(x: FeatureVector, y: FeatureVector)
    ensures Classify(x).freshness == Classify(y).freshness ==> Classify(x).color == Classify(y).color
    ensures Classify(x).freshness == Fresh ==> Classify(x).color == Bgr(0, 255, 0)
    ensures Classify(x).freshness == ModeratelyFresh ==> Classify(x).color == Bgr(0, 255, 255)
    ensures Classify(x).freshness == Spoiled ==> Classify(x).color == Bgr(0, 0, 255)
  {
  }

  /**
    A dark image (mean value at most 90), a textured one (contrast at least
    10) or a browned one (brown ratio at least 0.15) is Spoiled, and only
    those are.
   */
  lemma SpoiledExactly(x: FeatureVector)
    ensures Classify(x).freshness == Spoiled <==>
              x.meanValue <= 90.0 || x.contrast >= 10.0 || x.brownRatio >= 0.15
  {
  }

  /**
    Once a feature vector is Spoiled, no change of its edge density or its
    entropy makes it anything else.
   */
  lemma SpoiledIgnoresEdgesAndEntropy(x: FeatureVector, edgeDensity: real, entropy: real)
    requires Classify(x).freshness == Spoiled
    ensures Classify(x.(edgeDensity := edgeDensity, entropy := entropy)).freshness == Spoiled
  {
  }

  /** y is at least as good as x on every feature: brighter, smoother, fewer edges, less entropy, less brown. */
  predicate AtLeastAsGood(y: FeatureVector, x: FeatureVector)
  {
    && y.meanValue >= x.meanValue
    && y.contrast <= x.contrast
    && y.edgeDensity <= x.edgeDensity
    && y.entropy <= x.entropy
    && y.brownRatio <= x.brownRatio
  }

  /** Improving any features never lowers the grade. */
  lemma ClassifyMonotone(x: FeatureVector, y: FeatureVector)
    requires AtLeastAsGood(y, x)
    ensures Rank(Classify(y).freshness) >= Rank(Classify(x).freshness)
  {
  }
}
