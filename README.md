# Food freshness classifier: a Dafny model

This project models `analyze_freshness`, the core of a small food-freshness
detector. The detector takes a photo of food, resizes it to 300 x 300 pixels
and computes a few image features. It then assigns one of three grades
(FRESH, MODERATELY FRESH, SPOILED) with a fixed threshold tree, along with the
BGR colour the grade is drawn in.

The model has four modules, one file each:

- `Pixels` (`pixels.dfy`): 8-bit channels (`Byte`) and HSV pixels. Also the
  reductions numpy applies to images and masks: counting non-zero entries,
  `count / size` ratios, and sums.
- `Features` (`features.dfy`): the features whose meaning the program fixes
  with its own constants and formulas. These are the brown-band `inRange`
  mask and its ratio, the density of a given edge mask, the 256-bin gray
  histogram and its normalisation, and the mean of the HSV value channel.
- `Classifier` (`classifier.dfy`): the ordered, first-match-wins decision
  tree, the grade texts and the display colours.
- `Freshness` (`freshness.dfy`): the whole analysis. It takes the planes of
  the resized image, the scikit-image GLCM contrast, and the entropy that
  the program computes with its `log2` formula over the normalised
  histogram (contrast and entropy are inputs). It returns the verdict and
  the features. It also holds the scenario lemmas:
  all-brown, all-black, all-edges, and bright and flat.

An image plane is a flat, row-major `seq` of pixels. The modelled features depend only
on pixel values and on the pixel count, never on the 2-D layout. Feature
values are Dafny `real`s, so every division and comparison is exact.

Three modelling choices follow the code closely:

- The histogram is normalised by dividing by `hist.sum()` (food.py:41).
  `HistogramTotal` proves that this sum is the pixel count.
- The display colours are BGR triples in OpenCV's channel order, so
  `(0, 255, 255)` is yellow.
- Hue is modelled as any byte. OpenCV's 8-bit hue only reaches 179, so the
  model allows more inputs than can occur. The brown band (hue 10 to 30) is
  unaffected.

## Model

| member | source | states |
|---|---|---|
| `Pixels.CountNonZero` | food.py:37 | `np.sum(mask > 0)` is at most the mask size. It is 0 exactly when every entry is zero, and equals the size exactly when no entry is zero. |
| `Pixels.CountNonZeroIsIndexCount` | food.py:37 | The recursive count equals the size of the set of non-zero positions. |
| `Pixels.Ratio` | food.py:48 | `count / size` with `count <= size` lies in [0, 1]. It is 0 exactly for a zero count and 1 exactly when the count is the whole size. |
| `Pixels.SumBytes` | food.py:19 | The sum of n 8-bit values is at most 255 * n. |
| `Features.InRange` | food.py:47 | `cv2.inRange` gives a mask of the image's size. Each entry is 0 or 255, and it is non-zero exactly when every channel lies within the inclusive bounds. |
| `Features.BrownMask` | food.py:45-47 | A pixel is marked exactly when H is in [10, 30], S in [50, 255] and V in [20, 200]. No other pixel is marked. |
| `Features.BrownRatio` | food.py:48 | The brown ratio lies in [0, 1]. It is 1 exactly when every pixel is brown and 0 exactly when none is. |
| `Features.BrownRatioIsBrownFraction` | food.py:45-48 | The brown ratio equals the number of brown pixels divided by the pixel count. |
| `Features.EdgeDensity` | food.py:37 | The edge density lies in [0, 1]. It is 0 exactly when the mask has no edge and 1 exactly when every entry is an edge. |
| `Features.EdgeDensityIsEdgeFraction` | food.py:37 | The edge density equals the number of non-zero mask positions divided by the mask size. |
| `Features.Histogram` | food.py:40 | The histogram has 256 bins, and bin b holds the number of pixels of gray level b. |
| `Features.HistogramTotal` | food.py:40 | The 256 bins sum to the pixel count. |
| `Features.Normalize` | food.py:41 | Dividing by `hist.sum()` keeps one entry per bin, and each entry lies in [0, 1]. |
| `Features.NormalizeSumsToOne` | food.py:41 | The normalised bins sum to exactly 1. |
| `Features.Distribution` | food.py:40-41 | For a non-empty gray image the normalised histogram has 256 entries, each in [0, 1]. Bin b is the share of pixels of level b, and the entries sum to 1. |
| `Features.ValueChannel` | food.py:19 | `hsv[:, :, 2]` has one entry per pixel, namely that pixel's V value. |
| `Features.MeanValue` | food.py:19 | The mean of the V channel of a non-empty image lies in [0, 255]. |
| `Features.MeanValueOfUniform` | food.py:19 | An image whose every pixel has V = c has mean value c. |
| `Features.MeanAboveNeedsBrighterPixel` | food.py:19 | A mean value above t requires at least one pixel whose V is above t. |
| `Classifier.Classify` | food.py:51-71 | First match wins. The grade is FRESH exactly when the five FRESH conditions hold. It is MODERATELY FRESH exactly when those fail and the three second-branch conditions hold. It is SPOILED exactly when the second-branch conditions fail. So exactly one grade is returned for any features. |
| `Classifier.Label` | food.py:58-70 | The text returned for each grade: "FRESH" exactly for FRESH, "MODERATELY FRESH" exactly for MODERATELY FRESH, "SPOILED" exactly for SPOILED. |
| `Classifier.LabelsDistinct` | food.py:58-70 | The three returned texts are pairwise distinct, so the text identifies the grade. |
| `Classifier.FreshRefinesModeratelyFresh` | food.py:52-64 | Any features that meet the FRESH conditions also meet the MODERATELY FRESH ones: > 120 implies > 90, < 5 implies < 10, < 0.05 implies < 0.15. |
| `Classifier.ColorFollowsFreshness` | food.py:58-71 | The colour depends on the grade alone: FRESH gives (0, 255, 0), MODERATELY FRESH gives (0, 255, 255), SPOILED gives (0, 0, 255). |
| `Classifier.SpoiledExactly` | food.py:61-71 | The grade is SPOILED if and only if mean value <= 90, contrast >= 10 or brown ratio >= 0.15. |
| `Classifier.SpoiledIgnoresEdgesAndEntropy` | food.py:61-71 | A SPOILED feature vector stays SPOILED whatever its edge density and entropy are changed to. |
| `Classifier.ClassifyMonotone` | food.py:51-71 | Features that are at least as good on every measure never get a lower grade. Better means higher mean value, lower contrast, edge density, entropy and brown ratio. |
| `Freshness.AnalyzeFreshness` | food.py:10-73 | An empty image is rejected. Otherwise the features are exactly this image's `MeanValue`, `EdgeDensity` and `BrownRatio`, with contrast and entropy passed through unchanged, so they lie in [0, 255], [0, 1] and [0, 1]. The returned verdict is the decision tree's verdict on exactly those features. |
| `Freshness.AllBrownIsSpoiled` | food.py:45-71 | An image made only of brown-band pixels has brown ratio 1 and is SPOILED, whatever its edges, contrast and entropy. |
| `Freshness.AllBlackIsSpoiled` | food.py:19-71 | An image with V = 0 everywhere has mean value 0 and is SPOILED. |
| `Freshness.AllEdgesIsNotFresh` | food.py:36-57 | An image whose edge mask is non-zero everywhere has edge density 1 and is never FRESH. |
| `Freshness.BrightFlatIsFresh` | food.py:19-71 | An image with V = 255 everywhere has no brown pixel, because the band ends at V = 200. With no edges, contrast < 5 and entropy < 6 it is FRESH. |
| `Freshness.NotSpoiledNeedsBrightPixel` | food.py:19-66 | A grade other than SPOILED requires at least one pixel whose V exceeds 90. |

## Left out

- Resizing to 300 x 300 and the BGR-to-HSV and BGR-to-gray conversions (food.py:12-15). These are OpenCV conversions whose interpolation and rounding are not visible. The HSV plane, gray plane and edge mask are inputs.
- The Gaussian blur (food.py:16), the gray-level co-occurrence matrix, and the `contrast` and `homogeneity` statistics (food.py:23-33). These are library numerics. `contrast` is an input real, and `homogeneity` is unused by the decision.
- The Canny edge detector (food.py:36). It is an opaque library algorithm, so only the density of a supplied mask is modelled.
- The standard deviation of the V channel (food.py:20) and the `log2`-based entropy (food.py:42). Both are floating-point transcendental numerics. `std_value` is unused, and `entropy` is an input real.
- Floating-point rounding. Features and thresholds are exact reals. A float64 feature landing exactly on a threshold (for example a brown ratio of exactly 0.05) is compared exactly here.
- Freshness.AnalyzeFreshness: requires the edge mask to have as many entries as the HSV plane. In the source both come from the same resized image. The empty-image failure of the resize step is modelled as the `InvalidImage` error.
- Loading images from a directory, the matplotlib grid, the click handler, `putText` and printing (food.py:80-156). These are I/O and UI.
