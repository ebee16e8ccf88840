/**
  The fixed target palette the application chooses from, and what the mask
  generator makes of achromatic pixels against each target.
 */
module Targets {
  import opened ColorSpace
  import opened Similarity
  import opened MaskGenerator

  const YellowTarget: Hsv := Hsv(60.0, 1.0, 1.0)
  const PurpleTarget: Hsv := Hsv(300.0, 1.0, 1.0)
  const RedTarget: Hsv := Hsv(360.0, 1.0, 1.0)

  /** A grey pixel (black and white included) converts to hue 0, saturation 0. */
  lemma AchromaticHsv(c: uint8)
    ensures RgbToHsv(c, c, c) == Hsv(0.0, 0.0, Unit(c))
  {
    AchromaticIffUnsaturated(c, c, c);
    ValueIsLargestChannel(c, c, c);
  }

  /**
    Red is written as hue 360, so every grey pixel (hue 0) passes the hue
    gate against it: the cyclic gap is 0, and the mask byte lies between
    242 and 246.
   */
  lemma RedTargetAcceptsAchromatic(c: uint8)
    ensures HueGap(RedTarget.h, RgbToHsv(c, c, c).h) == 0.0
    ensures 242 <= PixelScore(RedTarget, c, c, c) <= 246
  {
    AchromaticHsv(c);
    RedScoreOfGrey(Unit(c));
  }

  /** The byte of a sample with hue 0, saturation 0 and value v against red. */
  lemma RedScoreOfGrey(v: real)
    requires 0.0 <= v <= 1.0
    ensures 242 <= ToByte(CalculateHsvSimilarity(RedTarget, Hsv(0.0, 0.0, v), 0.0)) <= 246
  {
    var q := 1.0 + (1.0 - v) * (1.0 - v);
    RedDistanceOfGrey(v);
    UnitSquare(1.0 - v);
    GreyByteRange(q);
  }

  /** Black scores 242 against red and white 246. */
  lemma RedTargetBlackAndWhite(c: uint8)
    ensures c == 0 ==> PixelScore(RedTarget, c, c, c) == 242
    ensures c == 255 ==> PixelScore(RedTarget, c, c, c) == 246
  {
    AchromaticGreyScore(c);
    if c == 0 || c == 255 {
      var q := 1.0 + (1.0 - Unit(c)) * (1.0 - Unit(c));
      ByteOfBlackOrWhite(c, q);
    }
  }

  /** The squared distances of black and white from red are 2 and 1, and their bytes 242 and 246. */
  lemma ByteOfBlackOrWhite(c: uint8, q: real)
    requires c == 0 || c == 255
    requires q == 1.0 + (1.0 - Unit(c)) * (1.0 - Unit(c))
    ensures c == 0 ==> LargestFit(q, 255) == 242
    ensures c == 255 ==> LargestFit(q, 255) == 246
  {
    if c == 0 {
      assert Unit(c) == 0.0;
      assert q == 2.0;
      LargestFitAtMost(q, 255, 242);
      LargestFitAtLeast(q, 255, 242);
    } else {
      assert Unit(c) == 1.0;
      assert q == 1.0;
      LargestFitAtMost(q, 255, 246);
      LargestFitAtLeast(q, 255, 246);
    }
  }

  lemma GreyByteRange(q: real)
    requires 1.0 <= q <= 2.0
    ensures 242 <= LargestFit(q, 255) <= 246
  {
    LargestFitAtLeast(q, 255, 242);
    LargestFitAtMost(q, 255, 246);
  }

  /** The score of a grey pixel against the red target, as a squared distance. */
  lemma AchromaticGreyScore(c: uint8)
    ensures var v := Unit(c);
            CalculateHsvSimilarity(RedTarget, RgbToHsv(c, c, c), 0.0) == Scored(1.0 + (1.0 - v) * (1.0 - v))
    ensures PixelScore(RedTarget, c, c, c) == LargestFit(1.0 + (1.0 - Unit(c)) * (1.0 - Unit(c)), 255)
  {
    AchromaticHsv(c);
    RedDistanceOfGrey(Unit(c));
  }

  /** Against red, hue 0, saturation 0 and value v lie at squared distance 1 + (1 - v)^2. */
  lemma RedDistanceOfGrey(v: real)
    ensures CalculateHsvSimilarity(RedTarget, Hsv(0.0, 0.0, v), 0.0) == Scored(1.0 + (1.0 - v) * (1.0 - v))
  {
    assert HueGap(RedTarget.h, 0.0) == 0.0;
    assert Abs(RedTarget.s - 0.0) == 1.0 && Abs(RedTarget.v - v) == Abs(1.0 - v);
  }

  /** Against yellow and purple a grey pixel is 60 degrees off in hue, so its byte is 0. */
  lemma YellowAndPurpleRejectAchromatic(c: uint8)
    ensures PixelScore(YellowTarget, c, c, c) == 0
    ensures PixelScore(PurpleTarget, c, c, c) == 0
  {
    AchromaticHsv(c);
  }

  /**
    An all-zero buffer gives an all-zero mask against yellow or purple,
    but every byte is 242 against red.
   */
  lemma BlackBuffer(image: seq<uint8>)
    requires forall j :: 0 <= j < |image| ==> image[j] == 0
    ensures forall i :: 0 <= i < |image| / 4 ==> Mask(image, RedTarget)[i] == 242
    ensures forall i :: 0 <= i < |image| / 4 ==> Mask(image, YellowTarget)[i] == 0
    ensures forall i :: 0 <= i < |image| / 4 ==> Mask(image, PurpleTarget)[i] == 0
  {
    var black: uint8 := 0;
    RedTargetBlackAndWhite(black);
    YellowAndPurpleRejectAchromatic(black);
    forall i | 0 <= i < |image| / 4
      ensures image[4 * i] == 0 && image[4 * i + 1] == 0 && image[4 * i + 2] == 0
    {
      assert 4 * i + 2 < |image|;
    }
  }
}
