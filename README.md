# Colour-filter aim assistant: the filtering core

This project models the image-processing core of a small colour-based aim
assistant. The program captures a square patch of the screen as BGRA bytes.
It turns every pixel into a mask byte that says how close the pixel's colour
is to a target colour. It then scans the mask for a "head point". The core
has four stages:

- `rgb_to_hsv` converts an 8-bit red, green, blue triple to hue (degrees),
  saturation and value. It uses the 60-degree sector formula. Ties between
  channels go to red, then green, then blue.
- `calculate_hsv_similarity` applies a hard gate on the cyclic hue gap. When
  the gate passes, it scores the pair as 1 minus the Euclidean HSV distance
  divided by 30, which is 3 * sqrt(100).
- `threshold_white` walks the buffer four bytes at a time. It scores each
  pixel against the target with a hue limit of 0, and pushes the score
  times 255, cast to a byte.
- `find_head_point` works on the n by n mask. It finds the lowest lit pixel
  of column 50 in the upper half. On the row below that pixel, it takes the
  lit pixels nearest the middle on each side, and returns the point halfway
  between them.

Modules:

- `Wrappers` holds `Option`.
- `ColorSpace` holds `rgb_to_hsv` and an HSV-to-RGB inverse used as its
  partner.
- `Similarity` holds the scorer and the saturating float-to-byte cast.
- `MaskGenerator` holds `threshold_white`: an imperative method proved
  against the function `Mask`.
- `FeatureLocator` holds `find_head_point`. Its `rev().find()` chains become
  recursive searches with "largest/smallest index" contracts.
- `Targets` holds the three target colours of the caller, with lemmas about
  what they do to grey pixels.

Numbers:

- The f32 values are modelled as exact reals.
- Dafny has no real square root. So a passed score is kept as its squared
  distance q (`Score.Scored(q)`).
- The predicate `Similarity.Denotes` says which real x a score stands for.
  For a passed score, x satisfies (30 * (1 - x))^2 == q with 30 * (1 - x) >= 0.
- The byte cast is computed without a square root: `ToByte` is the largest
  k <= 255 with 72.25 * q <= (255 - k)^2, or 0 if there is none.
  `Similarity.ToByteIsSaturatingCast` proves that this equals Rust's
  saturating `as u8` of 255 * x.

Under the red target (hue 360) an all-black buffer does not give an
all-zero mask. A black pixel has hue 0, and the cyclic gap between 360 and 0
is 0, so the pixel passes the gate. Its squared distance from (360, 1, 1) is
2, so it scores 1 - sqrt(2)/30, and 255 times that truncates to the byte 242.
`Targets.BlackBuffer` and `Targets.RedTargetAcceptsAchromatic` state this.

## Model

| member | source | states |
|---|---|---|
| ColorSpace.Unit | src/color_filtering.rs:2-4 | a channel divided by 255 lies in [0,1] and is 0 exactly for the byte 0 |
| ColorSpace.Max | src/color_filtering.rs:6 | the `f32::max` of two reals: at least both arguments and equal to one of them |
| ColorSpace.Min | src/color_filtering.rs:7 | the `f32::min` of two reals: at most both arguments and equal to one of them |
| ColorSpace.MaxChannel | src/color_filtering.rs:6 | the largest of three bytes: at least each channel and equal to one of them |
| ColorSpace.MinChannel | src/color_filtering.rs:7 | the smallest of three bytes: at most each channel and equal to one of them |
| ColorSpace.Trunc | src/color_filtering.rs:16 | the rounding toward zero inside the float `%` that `rem_euclid` uses: within 1 of x, on the side of 0 |
| ColorSpace.RemEuclid6 | src/color_filtering.rs:16 | `rem_euclid(6.0)` lies in [0,6); it is the identity on [0,6) and adds 6 on (-6,0) |
| ColorSpace.RgbToHsv | src/color_filtering.rs:1-29 | hue lies in [0,360), and saturation and value lie in [0,1] |
| ColorSpace.ChannelExtremes | src/color_filtering.rs:6-12 | the largest and smallest bytes, scaled to [0, 1], are the largest and smallest of the scaled channels, so the byte-level and real-level extremes agree |
| ColorSpace.ValueIsLargestChannel | src/color_filtering.rs:6-12 | the value is the largest channel divided by 255 |
| ColorSpace.AchromaticIffUnsaturated | src/color_filtering.rs:10-28 | saturation is 0 exactly when r = g = b, and then the hue is 0 |
| ColorSpace.SectorHue | src/color_filtering.rs:15-21 | the hue of a chromatic colour, from the sector of its largest channel, lies in [0,360) |
| ColorSpace.Saturation | src/color_filtering.rs:23-25 | the spread relative to the largest channel lies in (0,1] when 0 <= min < max |
| ColorSpace.SaturationOfChromatic | src/color_filtering.rs:14-25 | a non-grey pixel has smallest channel below largest, saturation in (0,1], and saturation equal to the spread of its extreme channels relative to the largest |
| ColorSpace.HueSectors | src/color_filtering.rs:14-21 | red-largest gives a hue in [0,60] or [300,360); green strictly above red and at least blue gives (60,180]; blue strictly above both gives (180,300) |
| ColorSpace.KnownColours | src/color_filtering.rs:1-29 | pure red, green, blue, white and black map to (0,1,1), (120,1,1), (240,1,1), (0,0,1) and (0,0,0) |
| ColorSpace.HsvToRgb | src/color_filtering.rs:1-29 | the inverse sector formula; zero saturation gives the grey (v,v,v) |
| ColorSpace.RoundTrip | src/color_filtering.rs:1-29 | converting back with HsvToRgb recovers each channel divided by 255, so no information is lost |
| Similarity.HueGap | src/color_filtering.rs:50-55 | for hues in [0,360] the cyclic gap lies in [0,180] |
| Similarity.Abs | src/color_filtering.rs:50-52 | `f32::abs`: non-negative and equal to x or -x |
| Similarity.HueGapIsCyclic | src/color_filtering.rs:55 | hues 360 and 0 have gap 0; hues 10 and 350 have gap 20 |
| Similarity.CalculateHsvSimilarity | src/color_filtering.rs:46-64 | the pair is gated exactly when the cyclic hue gap exceeds max_h_diff; a passed pair has a non-negative squared distance |
| Similarity.Denotes | src/color_filtering.rs:59-63 | defines the value a score returns: 0 for a gated pair, and 1 - sqrt(q)/30 for a scored pair, written as 30 * (1 - x) >= 0 with square q; DenotesUnique and GatedScoresZero give its meaning |
| Similarity.GatedScoresZero | src/color_filtering.rs:57-63 | a pair whose hue gap exceeds the limit has similarity exactly 0 |
| Similarity.DenotesUnique | src/color_filtering.rs:59-60 | a score stands for at most one real, and any real it stands for is at most 1 (that such a real exists is not proved, since the model has no square root) |
| Similarity.NegativeBeyondScale | src/color_filtering.rs:59-60 | the similarity is negative exactly when the squared distance exceeds 900 |
| Similarity.IdenticalIsPerfect | src/color_filtering.rs:50-61 | identical triples with max_h_diff >= 0 have distance 0 and similarity 1 |
| Similarity.Symmetric | src/color_filtering.rs:50-61 | swapping the two triples does not change the score |
| Similarity.SquareMonotone | src/color_filtering.rs:59 | for non-negative reals, squaring preserves order in both directions |
| Similarity.SaturatingCast | src/color_filtering.rs:38 | `as u8` gives 0 below 0, 255 from 255 up, and truncates toward zero in between |
| Similarity.LargestFit | src/color_filtering.rs:38 | the byte search never exceeds its upper bound |
| Similarity.ToByte | src/color_filtering.rs:38 | a gated score gives the byte 0; otherwise the byte search LargestFit; ToByteIsSaturatingCast proves it equals `(similarity * 255.0) as u8` |
| Similarity.ToByteIsSaturatingCast | src/color_filtering.rs:38-60 | the byte computed from the squared distance equals the saturating cast of 255 times the similarity |
| Similarity.LargestFitTruncates | src/color_filtering.rs:38 | the byte search returns the truncation of 255 - 8.5 * sqrt(q), clamped to [0,255] |
| Similarity.FitsIffBelow | src/color_filtering.rs:38 | k fits under the search bound exactly when 8.5 * sqrt(q) <= 255 - k |
| MaskGenerator.Mask | src/color_filtering.rs:31-43 | the mask has one byte per whole 4-byte pixel: length \|image\| / 4 |
| MaskGenerator.PixelScore | src/color_filtering.rs:36-38 | the mask byte of one pixel: ToByte of the hue-limit-0 score of its HSV; nonzero only when the pixel's hue equals the target's cyclically; MaskByteGate gives the rest |
| MaskGenerator.ThresholdWhite | src/color_filtering.rs:31-43 | the loop pushes, for each whole pixel i, the score of bytes 4i+2, 4i+1, 4i read as R, G, B; the result equals Mask |
| MaskGenerator.MaskReadsOnlyColourBytes | src/color_filtering.rs:35-36 | two buffers with the same pixel count that agree on every colour byte have the same mask; alpha bytes and trailing bytes are ignored |
| MaskGenerator.MaskByteGate | src/color_filtering.rs:36-60 | a mask byte is nonzero exactly when the pixel's hue equals the target's hue cyclically; a nonzero byte is at least 242; it is 255 exactly when hue, saturation and value all match |
| MaskGenerator.ScoreGate | src/color_filtering.rs:37-60 | the same as MaskByteGate, for any HSV triple with components in range |
| MaskGenerator.GatePassedBound | src/color_filtering.rs:55-60 | when the gate passes, 0 <= 30 * (1 - sim) and its square is at most 2, so sim >= 1 - sqrt(2)/30 |
| MaskGenerator.LargestFitIsTop | src/color_filtering.rs:38 | the byte is 255 exactly when the squared distance is 0 |
| MaskGenerator.LargestFitAtLeast | src/color_filtering.rs:38 | the search returns at least any k that fits |
| MaskGenerator.LargestFitAtMost | src/color_filtering.rs:38 | the search returns at most k when k + 1 does not fit |
| Targets.AchromaticHsv | src/color_filtering.rs:10-14 | a grey byte c converts to (0, 0, c/255) |
| Targets.RedTargetAcceptsAchromatic | src/main.rs:23 | under the hue-360 red target every grey pixel passes the hue gate, with a byte in [242,246] |
| Targets.RedTargetBlackAndWhite | src/main.rs:23 | under the red target a black pixel gives 242 and a white pixel 246 |
| Targets.AchromaticGreyScore | src/main.rs:23 | under the red target a grey pixel's squared distance is 1 + (1 - v)^2 |
| Targets.RedDistanceOfGrey | src/color_filtering.rs:50-59 | against red, any triple (0, 0, v) lies at squared distance 1 + (1 - v)^2 |
| Targets.YellowAndPurpleRejectAchromatic | src/main.rs:21-22 | the yellow and purple targets give 0 for every grey pixel |
| Targets.BlackBuffer | src/main.rs:21-23 | an all-zero buffer gives mask bytes of 242 under red and 0 under yellow and purple |
| FeatureLocator.SideLength | src/color_filtering.rs:67 | the side is the integer square root: n * n <= len < (n + 1)^2 |
| FeatureLocator.Pixel | src/color_filtering.rs:72-81 | the read `image[row * n + col]` of an n by n mask, defined for row, col < n, where the index stays below n * n; the scans use it for the probe and both edge reads |
| FeatureLocator.LastLitRow | src/color_filtering.rs:70-72 | the largest row below k whose probe pixel is nonzero, with zeros above it up to k; None when every such pixel is 0 |
| FeatureLocator.LastLitColumn | src/color_filtering.rs:75-77 | the largest column below k with a nonzero pixel in the row, with zeros between it and k; None when there is none |
| FeatureLocator.FirstLitColumn | src/color_filtering.rs:80-81 | the smallest column from lo on with a nonzero pixel in the row, with zeros before it; None when there is none |
| FeatureLocator.FindHeadPoint | src/color_filtering.rs:66-88 | None when column 50 is 0 on every upper-half row; otherwise y - 1 is that column's lowest upper-half hit, so 1 <= y <= n/2; x is the floor-midpoint of a left edge below n/2 and a right edge above n/2 of row y, with left <= x <= right < n |
| FeatureLocator.HeadPointComplete | src/color_filtering.rs:66-88 | whenever a probe hit and both edges exist, the result is exactly their floor-midpoint on the row below the hit |
| FeatureLocator.HeadPointNeedsBothEdges | src/color_filtering.rs:75-81 | after a probe hit, the result is None exactly when the row below has no lit pixel left of n/2 or none right of it |
| FeatureLocator.MiddleColumnNotRead | src/color_filtering.rs:75-81 | changing the pixel in column n/2 of the row does not change either edge scan |
| FeatureLocator.LeftScanSkipsMiddle | src/color_filtering.rs:75-77 | the left scan depends only on the row's pixels left of n/2 |
| FeatureLocator.RightScanSkipsMiddle | src/color_filtering.rs:80-81 | the right scan depends only on the row's pixels right of n/2 |
| FeatureLocator.BlankMask | src/color_filtering.rs:70-72 | an all-zero mask has no head point |
| FeatureLocator.BarAndNeck | src/color_filtering.rs:66-88 | a bar in column 50 ending above row `neck`, with that row lit only at columns 40 and 60, gives the point (50, neck) |

## Left out

- IEEE-754 behaviour is not modelled: f32 rounding, NaN, and the case where `rem_euclid` rounds up to exactly 6.0. Because the reals are exact, the largest channel always equals one of the three channels, so the `else` branch that leaves hue 0 cannot happen for a non-grey pixel.
- The square root in `calculate_hsv_similarity` is not computed. A passed score is its squared distance, and `Similarity.Denotes` gives the real it stands for.
- FeatureLocator.SideLength: the exact integer square root replaces `(len as f64).sqrt() as usize`. The rounding of f64 square roots for very large lengths is not modelled.
- FeatureLocator.FindHeadPoint: requires the mask side n to exceed 50, so that the probe `row * n + 50` reads column 50 of that row. The source behaves differently for smaller sides, and this model does not follow it there:
  - sides 0 and 1 give an empty row range, so the source returns `None`;
  - for sides 2 to 8, the first probe index (n/2 - 1) * n + 50 is at least n * n, so a mask of exactly n * n bytes panics;
  - for sides 9 to 50 every index the source reads stays below n * n, so it does not panic; the probe reads column 50 mod n of a lower row instead of column 50.
- MaskGenerator.MaskByteGate: stated only for targets with hue in [0,360] and saturation and value in [0,1], which covers the three target colours. For other targets the gap bound used by the proof does not hold.
- MaskGenerator.ThresholdWhite: `Vec::with_capacity` is an allocation hint and is not modelled. The input buffer is an immutable sequence, so "the input is not modified" holds by construction. Running it twice on the same input gives the same mask because the result is a function of the input.
- src/main.rs is not modelled, except for its three target colours (src/main.rs:21-23). It is operating-system plumbing:
  - screen capture
  - key polling
  - click injection
  - the worker thread, the Ctrl-C handler and the stop flag
  - command-line parsing
  - timing and vertical-blank delays
  - the frame-deduplication comparison
  - the acceptance window around the head point
