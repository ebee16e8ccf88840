/**
  The mask generator (threshold_white): one byte of match strength per
  4-byte blue-green-red-alpha pixel.
 */
module MaskGenerator {
  import opened ColorSpace
  import opened Similarity

  /**
    The mask byte of one pixel: converted to HSV, scored against the target
    with a hue limit of 0, scaled by 255 and cast to a byte.
   */
  function PixelScore(target: Hsv, r: uint8, g: uint8, b: uint8): (p: uint8)
    ensures p != 0 ==> HueGap(target.h, RgbToHsv(r, g, b).h) <= 0.0
  {
    ToByte(CalculateHsvSimilarity(target, RgbToHsv(r, g, b), 0.0))
  }

  /** The mask of a buffer: pixel i is read from bytes 4i (blue), 4i+1 (green) and 4i+2 (red). */
  function Mask(image: seq<uint8>, target: Hsv): (mask: seq<uint8>)
    ensures |mask| == |image| / 4
  {
    seq(|image| / 4, i requires 0 <= i < |image| / 4 =>
      PixelScore(target, image[4 * i + 2], image[4 * i + 1], image[4 * i]))
  }

  /**
    threshold_white: walks the buffer four bytes at a time while a whole
    pixel remains, appending one mask byte per pixel.
   */
  method ThresholdWhite(image: seq<uint8>, target: Hsv) returns (mask: seq<uint8>)
    ensures |mask| == |image| / 4
    ensures forall i :: 0 <= i < |mask| ==>
              mask[i] == PixelScore(target, image[4 * i + 2], image[4 * i + 1], image[4 * i])
    ensures mask == Mask(image, target)
  {
    mask := [];
    var index := 0;
    while index + 4 <= |image|
      invariant index == 4 * |mask| <= |image|
      invariant forall i :: 0 <= i < |mask| ==>
                  mask[i] == PixelScore(target, image[4 * i + 2], image[4 * i + 1], image[4 * i])
    {
      var hsv := RgbToHsv(image[index + 2], image[index + 1], image[index]);
      var similarity := CalculateHsvSimilarity(target, hsv, 0.0);
      mask := mask + [ToByte(similarity)];
      index := index + 4;
    }
    WholePixels(|image|, |mask|);
  }

  /** m is the number of whole 4-byte pixels in len bytes once fewer than four remain after 4m bytes. */
  lemma WholePixels(len: nat, m: nat)
    requires 4 * m <= len < 4 * m + 4
    ensures len / 4 == m
  {
  }

  /**
    Only the colour bytes of complete pixels matter: two buffers with the
    same number of pixels that agree on every byte except the alpha bytes
    and the one to three trailing bytes have the same mask.
   */
  lemma MaskReadsOnlyColourBytes(a: seq<uint8>, b: seq<uint8>, target: Hsv)
    requires |a| / 4 == |b| / 4
    requires forall j :: 0 <= j < 4 * (|a| / 4) && j % 4 != 3 ==> a[j] == b[j]
    ensures Mask(a, target) == Mask(b, target)
  {
  }

  /**
    With a target whose saturation and value lie in [0, 1], a mask byte is
    nonzero exactly when the pixel's hue equals the target's cyclically; a
    nonzero byte is at least 242 (the truncation of 255 * (1 - sqrt(2) / 30)),
    and it is 255 exactly when saturation and value match as well.
   */
  lemma MaskByteGate(target: Hsv, r: uint8, g: uint8, b: uint8)
    requires 0.0 <= target.h <= 360.0 && 0.0 <= target.s <= 1.0 && 0.0 <= target.v <= 1.0
    ensures var c, byte := RgbToHsv(r, g, b), PixelScore(target, r, g, b);
            && (byte != 0 <==> HueGap(target.h, c.h) <= 0.0)
            && (byte != 0 ==> 242 <= byte)
            && (byte == 255 <==> HueGap(target.h, c.h) <= 0.0 && c.s == target.s && c.v == target.v)
  {
    ScoreGate(target, RgbToHsv(r, g, b));
  }

  /** MaskByteGate for any sample triple whose saturation and value lie in [0, 1]. */
  lemma ScoreGate(target: Hsv, c: Hsv)
    requires 0.0 <= target.h <= 360.0 && 0.0 <= target.s <= 1.0 && 0.0 <= target.v <= 1.0
    requires 0.0 <= c.h <= 360.0 && 0.0 <= c.s <= 1.0 && 0.0 <= c.v <= 1.0
    ensures var byte := ToByte(CalculateHsvSimilarity(target, c, 0.0));
            && (byte != 0 <==> HueGap(target.h, c.h) <= 0.0)
            && (byte != 0 ==> 242 <= byte)
            && (byte == 255 <==> HueGap(target.h, c.h) <= 0.0 && c.s == target.s && c.v == target.v)
  {
    var score := CalculateHsvSimilarity(target, c, 0.0);
    if score.Scored? {
      var ds, dv := Abs(target.s - c.s), Abs(target.v - c.v);
      var q := score.squaredDistance;
      assert q == ds * ds + dv * dv;
      UnitSquare(ds);
      UnitSquare(dv);
      LargestFitAtLeast(q, 255, 242);
      LargestFitIsTop(q);
      SumOfSquaresZero(ds, dv);
    }
  }

  /**
    The bound behind the 242: when the gate passes, the similarity x of a
    pixel against such a target satisfies 30 * (1 - x) <= sqrt(2), stated
    squared as (30 * (1 - x))^2 <= 2.
   */
  lemma GatePassedBound(target: Hsv, c: Hsv, x: real)
    requires 0.0 <= target.h <= 360.0 && 0.0 <= target.s <= 1.0 && 0.0 <= target.v <= 1.0
    requires 0.0 <= c.h <= 360.0 && 0.0 <= c.s <= 1.0 && 0.0 <= c.v <= 1.0
    requires HueGap(target.h, c.h) <= 0.0
    requires Denotes(CalculateHsvSimilarity(target, c, 0.0), x)
    ensures var d := Scale * (1.0 - x); 0.0 <= d && d * d <= 2.0
  {
    UnitSquare(Abs(target.s - c.s));
    UnitSquare(Abs(target.v - c.v));
  }

  lemma UnitSquare(t: real)
    requires 0.0 <= t <= 1.0
    ensures 0.0 <= t * t <= 1.0
  {
    assert t * t <= t * 1.0;
  }

  lemma SumOfSquaresZero(a: real, b: real)
    requires a >= 0.0 && b >= 0.0
    ensures a * a + b * b <= 0.0 <==> a == 0.0 && b == 0.0
  {
    if a > 0.0 {
      StrictSquare(0.0, a);
    }
    if b > 0.0 {
      StrictSquare(0.0, b);
    }
  }

  /** LargestFit(q, top) reaches every k <= top that passes its test. */
  lemma {:induction false} LargestFitAtLeast(q: real, top: nat, k: nat)
    requires k <= top <= 255
    requires var room := (255 - k) as real; 72.25 * q <= room * room
    ensures LargestFit(q, top) as int >= k
  {
    var room := (255 - top) as real;
    if top > k && !(72.25 * q <= room * room) {
      LargestFitAtLeast(q, top - 1, k);
    }
  }

  /** LargestFit(q, top) stays at or below k when k + 1 fails its test. */
  lemma {:induction false} LargestFitAtMost(q: real, top: nat, k: nat)
    requires top <= 255 && k < 255
    requires var room := (254 - k) as real; 72.25 * q > room * room
    ensures LargestFit(q, top) as int <= k
  {
    if top > k {
      FailsAbove(q, top, k);
      LargestFitAtMost(q, top - 1, k);
    }
  }

  /** When k + 1 fails the test, so does every larger byte. */
  lemma FailsAbove(q: real, top: nat, k: nat)
    requires k < top <= 255
    requires var room := (254 - k) as real; 72.25 * q > room * room
    ensures var room := (255 - top) as real; 72.25 * q > room * room
  {
    var room := (255 - top) as real;
    var limit := (254 - k) as real;
    var fine, bound := room * room, limit * limit;
    SquareMonotone(room, limit);
    LessChain(fine, bound, 72.25 * q);
  }

  /** The full byte 255 is reached only at squared distance 0. */
  lemma LargestFitIsTop(q: real)
    requires q >= 0.0
    ensures LargestFit(q, 255) == 255 <==> q <= 0.0
  {
    if q > 0.0 {
      LargestFitAtMost(q, 254, 254);
    }
  }
}
