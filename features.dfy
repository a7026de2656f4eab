/**
  The feature arithmetic of `analyze_freshness` whose meaning the program
  fixes by its own constants and formulas: the brown-band colour mask and its
  ratio, the density of a given edge mask, the 256-bin intensity histogram and
  its normalisation, and the mean of the HSV value channel.

  Every feature is taken over the image after it has been resized to the
  canonical 300 x 300 frame; the planes (HSV pixels, gray levels, edge mask)
  are inputs here, not computed from a camera image.
 */
module Features {
  import opened Pixels

  /** Lower inclusive bound of the brown band, per HSV channel. */
  const LOWER_BROWN: Hsv := Hsv(10, 50, 20)
  /** Upper inclusive bound of the brown band, per HSV channel. */
  const UPPER_BROWN: Hsv := Hsv(30, 255, 200)

  /** Number of intensity bins of the gray-level histogram. */
  const BINS: nat := 256

  /** Every channel of p lies within the inclusive bounds lo..hi. */
  predicate InBox(p: Hsv, lo: Hsv, hi: Hsv)
  {
    && lo.h <= p.h <= hi.h
    && lo.s <= p.s <= hi.s
    && lo.v <= p.v <= hi.v
  }

  /**
    OpenCV's `inRange` on an HSV image: a mask of the same size holding 255
    where every channel lies within the inclusive bounds and 0 elsewhere.
   */
  function InRange(img: seq<Hsv>, lo: Hsv, hi: Hsv): (mask: seq<Byte>)
    ensures |mask| == |img|
    ensures forall i :: 0 <= i < |img| ==> mask[i] == 0 || mask[i] == 255
    ensures forall i :: 0 <= i < |img| ==> (mask[i] > 0 <==> InBox(img[i], lo, hi))
  {
    if img == [] then []
    else [if InBox(img[0], lo, hi) then 255 else 0] + InRange(img[1..], lo, hi)
  }

  /** A pixel lies in the brown band. */
  predicate IsBrown(p: Hsv)
  {
    InBox(p, LOWER_BROWN, UPPER_BROWN)
  }

  /**
    The brown mask marks a pixel exactly when its hue is in [10, 30], its
    saturation in [50, 255] and its value in [20, 200]; no other pixel.
   */
  function BrownMask(img: seq<Hsv>): (mask: seq<Byte>)
    ensures |mask| == |img|
    ensures forall i :: 0 <= i < |img| ==>
              (mask[i] > 0 <==> 10 <= img[i].h <= 30 && 50 <= img[i].s <= 255 && 20 <= img[i].v <= 200)
  {
    InRange(img, LOWER_BROWN, UPPER_BROWN)
  }

  /** Number of pixels of an HSV image that lie in the brown band. */
  ghost function BrownCount(img: seq<Hsv>): nat
  {
    |set i | 0 <= i < |img| && IsBrown(img[i])|
  }

  /**
    The fraction of brown pixels: marked count over mask size. It lies in
    [0, 1]; it is 1 exactly when every pixel is brown and 0 exactly when none is.
   */
  function BrownRatio(img: seq<Hsv>): (r: real)
    requires |img| > 0
    ensures 0.0 <= r <= 1.0
    ensures r == 1.0 <==> forall i :: 0 <= i < |img| ==> IsBrown(img[i])
    ensures r == 0.0 <==> forall i :: 0 <= i < |img| ==> !IsBrown(img[i])
  {
    var mask := BrownMask(img);
    Ratio(CountNonZero(mask), |mask|)
  }

  /** The brown ratio is the number of brown pixels divided by the pixel count. */
  lemma BrownRatioIsBrownFraction(img: seq<Hsv>)
    requires |img| > 0
    ensures BrownRatio(img) == BrownCount(img) as real / |img| as real
  {
    var mask := BrownMask(img);
    CountNonZeroIsIndexCount(mask);
    assert NonZeroIndices(mask) == set i | 0 <= i < |img| && IsBrown(img[i]);
  }

  /**
    The fraction of non-zero entries of an edge mask. It lies in [0, 1]; it is
    0 exactly when no pixel is an edge and 1 exactly when every pixel is one.
   */
  function EdgeDensity(edges: seq<Byte>): (r: real)
    requires |edges| > 0
    ensures 0.0 <= r <= 1.0
    ensures r == 0.0 <==> forall i :: 0 <= i < |edges| ==> edges[i] == 0
    ensures r == 1.0 <==> forall i :: 0 <= i < |edges| ==> edges[i] > 0
  {
    Ratio(CountNonZero(edges), |edges|)
  }

  /** The edge density is the number of edge positions divided by the mask size. */
  lemma EdgeDensityIsEdgeFraction(edges: seq<Byte>)
    requires |edges| > 0
    ensures EdgeDensity(edges) == |NonZeroIndices(edges)| as real / |edges| as real
  {
    CountNonZeroIsIndexCount(edges);
  }

  /**
    OpenCV's `calcHist` with 256 bins over [0, 256): bin b counts the pixels
    whose gray level is b.
   */
  function Histogram(gray: seq<Byte>): (hist: seq<nat>)
    ensures |hist| == BINS
    ensures forall b :: 0 <= b < BINS ==> hist[b] == multiset(gray)[b]
  {
    if gray == [] then seq(BINS, _ => 0)
    else
      var init := gray[..|gray| - 1];
      var last := gray[|gray| - 1];
      assert gray == init + [last];
      var hist := Histogram(init);
      hist[last := hist[last] + 1]
  }

  /** The histogram bins add up to the pixel count. */
  lemma {:induction false} HistogramTotal(gray: seq<Byte>)
    ensures Sum(Histogram(gray)) == |gray|
  {
    if gray == [] {
      ZeroSum(Histogram(gray));
    } else {
      var init := gray[..|gray| - 1];
      var last := gray[|gray| - 1];
      HistogramTotal(init);
      SumIncrement(Histogram(init), last);
    }
  }

  /** Every count divided by a positive total. */
  function DivideBy(h: seq<nat>, total: real): (p: seq<real>)
    requires total > 0.0
    ensures |p| == |h|
    ensures forall i :: 0 <= i < |h| ==> p[i] == h[i] as real / total
  {
    if h == [] then [] else [h[0] as real / total] + DivideBy(h[1..], total)
  }

  /** Dividing every count by the same total divides their sum by that total. */
  lemma {:induction false} SumDivideBy(h: seq<nat>, total: real)
    requires total > 0.0
    ensures SumReal(DivideBy(h, total)) == Sum(h) as real / total
  {
    if h != [] {
      SumDivideBy(h[1..], total);
      assert DivideBy(h, total)[1..] == DivideBy(h[1..], total);
      assert h[0] as real / total + Sum(h[1..]) as real / total == (h[0] + Sum(h[1..])) as real / total;
    }
  }

  /**
    `hist / hist.sum()`: each bin divided by the total count. Every entry is a
    probability in [0, 1].
   */
  function Normalize(hist: seq<nat>): (p: seq<real>)
    requires Sum(hist) > 0
    ensures |p| == |hist|
    ensures forall i :: 0 <= i < |hist| ==> 0.0 <= p[i] <= 1.0
  {
    var total := Sum(hist);
    forall i | 0 <= i < |hist| ensures 0.0 <= hist[i] as real / total as real <= 1.0 {
      BinShare(hist, i);
    }
    DivideBy(hist, total as real)
  }

  /** One bin's share of the total is a fraction in [0, 1]. */
  lemma BinShare(hist: seq<nat>, i: nat)
    requires i < |hist| && Sum(hist) > 0
    ensures 0.0 <= hist[i] as real / Sum(hist) as real <= 1.0
  {
    CountAtMostSum(hist, i);
    QuotientFacts(hist[i] as real, Sum(hist) as real);
  }

  /** The entries of a normalised histogram sum to one. */
  lemma NormalizeSumsToOne(hist: seq<nat>)
    requires Sum(hist) > 0
    ensures SumReal(Normalize(hist)) == 1.0
  {
    var total := Sum(hist) as real;
    SumDivideBy(hist, total);
    QuotientFacts(total, total);
  }

  /**
    The gray-level distribution of a non-empty image: 256 probabilities, each
    in [0, 1], summing to one, bin b being the share of pixels of level b.
   */
  function Distribution(gray: seq<Byte>): (p: seq<real>)
    requires |gray| > 0
    ensures |p| == BINS
    ensures forall b :: 0 <= b < BINS ==> 0.0 <= p[b] <= 1.0
    ensures forall b :: 0 <= b < BINS ==> p[b] == multiset(gray)[b] as real / |gray| as real
    ensures SumReal(p) == 1.0
  {
    var hist := Histogram(gray);
    HistogramTotal(gray);
    NormalizeSumsToOne(hist);
    Normalize(hist)
  }

  /** The value (brightness) channel of an HSV image: `hsv[:, :, 2]`. */
  function ValueChannel(img: seq<Hsv>): (v: seq<Byte>)
    ensures |v| == |img|
    ensures forall i :: 0 <= i < |img| ==> v[i] == img[i].v
  {
    if img == [] then [] else [img[0].v] + ValueChannel(img[1..])
  }

  /**
    The arithmetic mean of the value channel of a non-empty image; as a mean
    of 8-bit values it lies in [0, 255].
   */
  function MeanValue(img: seq<Hsv>): (m: real)
    requires |img| > 0
    ensures 0.0 <= m <= 255.0
  {
    var v := ValueChannel(img);
    QuotientAtMost(SumBytes(v) as real, |v| as real, 255.0);
    SumBytes(v) as real / |v| as real
  }

  /** An image whose every pixel has value c has mean value c. */
  lemma MeanValueOfUniform(img: seq<Hsv>, c: Byte)
    requires |img| > 0
    requires forall i :: 0 <= i < |img| ==> img[i].v == c
    ensures MeanValue(img) == c as real
  {
    var v := ValueChannel(img);
    var n := |v| as real;
    SumBytesOfUniform(v, c);
    assert SumBytes(v) as real == c as real * n;
    QuotientOfProduct(SumBytes(v) as real, c as real, n);
  }

  /** A mean value above t needs at least one pixel whose value is above t. */
  lemma {:induction false} MeanAboveNeedsBrighterPixel(img: seq<Hsv>, t: Byte)
    requires |img| > 0
    requires MeanValue(img) > t as real
    ensures exists i :: 0 <= i < |img| && img[i].v > t
  {
    var v := ValueChannel(img);
    if forall i :: 0 <= i < |img| ==> img[i].v <= t {
      SumBytesAtMost(v, t);
      QuotientAtMost(SumBytes(v) as real, |v| as real, t as real);
      assert false;
    }
  }
}
