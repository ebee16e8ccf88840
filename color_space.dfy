/**
  The colour-space converter: three 8-bit channel intensities to a hue in
  degrees, a saturation and a value. The source computes in f32; the model
  computes the same formulas exactly, over the reals.
 */
module ColorSpace {

  /** An unsigned 8-bit integer, as the pixel buffer and the mask hold them. */
  newtype uint8 = x: int | 0 <= x < 0x100

  /** A hue in degrees, a saturation and a value. */
  datatype Hsv = Hsv(h: real, s: real, v: real)

  /** Red, green and blue, each scaled to [0, 1]. */
  datatype UnitRgb = UnitRgb(r: real, g: real, b: real)

  /** One channel scaled to [0, 1]. */
  function Unit(c: uint8): (f: real)
    ensures 0.0 <= f <= 1.0
    ensures f == 0.0 <==> c == 0
  {
    c as real / 255.0
  }

  function Max(a: real, b: real): (m: real)
    ensures a <= m && b <= m && (m == a || m == b)
  {
    if a >= b then a else b
  }

  function Min(a: real, b: real): (m: real)
    ensures m <= a && m <= b && (m == a || m == b)
  {
    if a <= b then a else b
  }

  /** The largest of three channels, in bytes. */
  function MaxChannel(r: uint8, g: uint8, b: uint8): (m: uint8)
    ensures r <= m && g <= m && b <= m && (m == r || m == g || m == b)
  {
    if r >= g && r >= b then r else if g >= b then g else b
  }

  /** The smallest of three channels, in bytes. */
  function MinChannel(r: uint8, g: uint8, b: uint8): (m: uint8)
    ensures m <= r && m <= g && m <= b && (m == r || m == g || m == b)
  {
    if r <= g && r <= b then r else if g <= b then g else b
  }

  /** Scaling to [0, 1] keeps order, so the extreme bytes scale to the extremes of the scaled channels. */
  lemma ChannelExtremes(r: uint8, g: uint8, b: uint8)
    ensures Unit(MaxChannel(r, g, b)) == Max(Max(Unit(r), Unit(g)), Unit(b))
    ensures Unit(MinChannel(r, g, b)) == Min(Min(Unit(r), Unit(g)), Unit(b))
  {
  }

  /** Rounding toward zero, as the float remainder operator does. */
  function Trunc(x: real): (t: int)
    ensures x >= 0.0 ==> 0.0 <= t as real <= x < t as real + 1.0
    ensures x < 0.0 ==> t as real - 1.0 < x <= t as real <= 0.0
  {
    if x >= 0.0 then x.Floor else -((-x).Floor)
  }

  /**
    `x.rem_euclid(6.0)`, computed as the Rust standard library does: the
    remainder of truncating division by 6, moved up by 6 when it is negative.
    (The modulus is fixed at the one value the converter uses, which keeps
    the arithmetic linear.)
   */
  function RemEuclid6(x: real): (r: real)
    ensures 0.0 <= r < 6.0
    ensures 0.0 <= x < 6.0 ==> r == x
    ensures -6.0 < x < 0.0 ==> r == x + 6.0
  {
    var rem := x - 6.0 * Trunc(x / 6.0) as real;
    if rem < 0.0 then rem + 6.0 else rem
  }

  /**
    rgb_to_hsv. The hue comes from the 60-degree sector of the largest
    channel; among equal largest channels red wins, then green, then blue.
    An achromatic colour has hue 0 and saturation 0.
   */
  function RgbToHsv(r: uint8, g: uint8, b: uint8): (c: Hsv)
    ensures 0.0 <= c.h < 360.0
    ensures 0.0 <= c.s <= 1.0
    ensures 0.0 <= c.v <= 1.0
  {
    var fr, fg, fb := Unit(r), Unit(g), Unit(b);
    var cmax := Max(Max(fr, fg), fb);
    var cmin := Min(Min(fr, fg), fb);
    var delta := cmax - cmin;
    if delta > 0.0 then
      var s := if cmax > 0.0 then Saturation(cmax, cmin) else 0.0;
      Hsv(SectorHue(fr, fg, fb, cmax, cmin), s, cmax)
    else
      Hsv(0.0, 0.0, cmax)
  }

  /** The saturation of a chromatic colour: the channel spread relative to the largest channel. */
  function Saturation(cmax: real, cmin: real): (s: real)
    requires 0.0 <= cmin < cmax
    ensures 0.0 < s <= 1.0
  {
    DivBounds(cmax - cmin, cmax);
    (cmax - cmin) / cmax
  }

  /**
    The hue of a chromatic colour, from the sector of its largest channel:
    red measures green minus blue from 0 degrees (wrapped into [0, 360)),
    green measures blue minus red from 120, blue red minus green from 240.
   */
  function SectorHue(fr: real, fg: real, fb: real, cmax: real, cmin: real): (h: real)
    requires 0.0 <= fr <= 1.0 && 0.0 <= fg <= 1.0 && 0.0 <= fb <= 1.0
    requires cmax == Max(Max(fr, fg), fb) && cmin == Min(Min(fr, fg), fb)
    requires cmax - cmin > 0.0
    ensures 0.0 <= h < 360.0
  {
    var delta := cmax - cmin;
    HueInRange(fr, fg, fb, cmax, cmin);
    if cmax == fr then 60.0 * RemEuclid6((fg - fb) / delta)
    else if cmax == fg then 60.0 * ((fb - fr) / delta + 2.0)
    else if cmax == fb then 60.0 * ((fr - fg) / delta + 4.0)
    else 0.0
  }

  /** The value is the largest channel, scaled to [0, 1]. */
  lemma ValueIsLargestChannel(r: uint8, g: uint8, b: uint8)
    ensures RgbToHsv(r, g, b).v == MaxChannel(r, g, b) as real / 255.0
  {
    ChannelExtremes(r, g, b);
  }

  /** Saturation is zero exactly for the achromatic colours, and those also have hue 0. */
  lemma AchromaticIffUnsaturated(r: uint8, g: uint8, b: uint8)
    ensures RgbToHsv(r, g, b).s == 0.0 <==> r == g == b
    ensures r == g == b ==> RgbToHsv(r, g, b).h == 0.0
  {
    var fr, fg, fb := Unit(r), Unit(g), Unit(b);
    var cmax := Max(Max(fr, fg), fb);
    var cmin := Min(Min(fr, fg), fb);
    if cmax - cmin > 0.0 {
      HueInRange(fr, fg, fb, cmax, cmin);
    }
  }

  /**
    A chromatic colour has a saturation in (0, 1], and it is the spread
    between its largest and smallest channels relative to the largest.
   */
  lemma SaturationOfChromatic(r: uint8, g: uint8, b: uint8)
    requires !(r == g == b)
    ensures MinChannel(r, g, b) < MaxChannel(r, g, b)
    ensures 0.0 < RgbToHsv(r, g, b).s <= 1.0
    ensures RgbToHsv(r, g, b).s == Saturation(Unit(MaxChannel(r, g, b)), Unit(MinChannel(r, g, b)))
  {
    var fr, fg, fb := Unit(r), Unit(g), Unit(b);
    var hi := Max(Max(fr, fg), fb);
    var lo := Min(Min(fr, fg), fb);
    ChannelExtremes(r, g, b);
    assert hi - lo > 0.0;
  }

  /**
    The sector of a chromatic colour's hue follows its largest channel, with
    ties going to red, then green, then blue: red gives [0, 60] or
    [300, 360), green (60, 180], blue (180, 300).
   */
  lemma HueSectors(r: uint8, g: uint8, b: uint8)
    requires !(r == g == b)
    ensures var h := RgbToHsv(r, g, b).h;
            && (r >= g && r >= b ==> h <= 60.0 || 300.0 <= h)
            && (g > r && g >= b ==> 60.0 < h <= 180.0)
            && (b > r && b > g ==> 180.0 < h < 300.0)
  {
    var fr, fg, fb := Unit(r), Unit(g), Unit(b);
    var cmax := Max(Max(fr, fg), fb);
    var cmin := Min(Min(fr, fg), fb);
    HueInRange(fr, fg, fb, cmax, cmin);
  }

  /** The primaries and the two achromatic extremes. */
  lemma KnownColours()
    ensures RgbToHsv(255, 0, 0) == Hsv(0.0, 1.0, 1.0)
    ensures RgbToHsv(0, 255, 0) == Hsv(120.0, 1.0, 1.0)
    ensures RgbToHsv(0, 0, 255) == Hsv(240.0, 1.0, 1.0)
    ensures RgbToHsv(255, 255, 255) == Hsv(0.0, 0.0, 1.0)
    ensures RgbToHsv(0, 0, 0) == Hsv(0.0, 0.0, 0.0)
  {
  }

  /**
    The conventional inverse conversion, from a hue, saturation and value
    back to channels in [0, 1]: the largest channel is v, the smallest is
    v - v * s, and the middle one rises or falls linearly across each
    60-degree sector.
   */
  function HsvToRgb(c: Hsv): (u: UnitRgb)
    ensures c.s == 0.0 ==> u == UnitRgb(c.v, c.v, c.v)
  {
    var chroma := c.v * c.s;
    var low := c.v - chroma;
    var sector := (c.h / 60.0).Floor;
    var f := c.h / 60.0 - sector as real;
    var rising := low + chroma * f;
    var falling := low + chroma * (1.0 - f);
    if sector == 0 then UnitRgb(c.v, rising, low)
    else if sector == 1 then UnitRgb(falling, c.v, low)
    else if sector == 2 then UnitRgb(low, c.v, rising)
    else if sector == 3 then UnitRgb(low, falling, c.v)
    else if sector == 4 then UnitRgb(rising, low, c.v)
    else UnitRgb(c.v, low, falling)
  }

  /** Converting to HSV loses nothing: the inverse conversion gives back the scaled channels. */
  lemma RoundTrip(r: uint8, g: uint8, b: uint8)
    ensures HsvToRgb(RgbToHsv(r, g, b)) == UnitRgb(Unit(r), Unit(g), Unit(b))
  {
    var fr, fg, fb := Unit(r), Unit(g), Unit(b);
    var cmax := Max(Max(fr, fg), fb);
    var cmin := Min(Min(fr, fg), fb);
    var delta := cmax - cmin;
    var c := RgbToHsv(r, g, b);
    if delta > 0.0 {
      if cmax == fr {
        assert c == Hsv(60.0 * RemEuclid6((fg - fb) / delta), delta / cmax, cmax);
        RoundTripRed(fr, fg, fb, cmax, cmin);
      } else if cmax == fg {
        assert c == Hsv(60.0 * ((fb - fr) / delta + 2.0), delta / cmax, cmax);
        RoundTripGreen(fr, fg, fb, cmax, cmin);
      } else {
        assert c == Hsv(60.0 * ((fr - fg) / delta + 4.0), delta / cmax, cmax);
        RoundTripBlue(fr, fg, fb, cmax, cmin);
      }
    } else {
      assert c == Hsv(0.0, 0.0, cmax);
    }
  }

  /** The round trip when red is the largest channel (sectors 0, 1 and 5). */
  lemma RoundTripRed(fr: real, fg: real, fb: real, cmax: real, cmin: real)
    requires cmax == fr && fr >= fg && fr >= fb && cmin == Min(Min(fr, fg), fb) && cmax > cmin >= 0.0
    ensures var delta := cmax - cmin;
            HsvToRgb(Hsv(60.0 * RemEuclid6((fg - fb) / delta), delta / cmax, cmax)) == UnitRgb(fr, fg, fb)
  {
    var delta := cmax - cmin;
    var q := (fg - fb) / delta;
    Cancel(delta, cmax);
    Cancel(fg - fb, delta);
    DivBounds(fg - fb, delta);
    if q >= 0.0 {
      assert (60.0 * q) / 60.0 == q;
      if q < 1.0 {
        assert q.Floor == 0;
      } else {
        assert q.Floor == 1;
        assert fg == fr;
      }
    } else {
      var f := q + 6.0 - 5.0;
      assert (60.0 * (q + 6.0)) / 60.0 == q + 6.0;
      assert (q + 6.0).Floor == 5;
      Negate(delta, 1.0 - f, q);
    }
  }

  /** The round trip when green is the largest channel and red is smaller (sectors 1 to 3). */
  lemma RoundTripGreen(fr: real, fg: real, fb: real, cmax: real, cmin: real)
    requires cmax == fg && fg > fr && fg >= fb && cmin == Min(Min(fr, fg), fb) && cmin >= 0.0
    ensures var delta := cmax - cmin;
            HsvToRgb(Hsv(60.0 * ((fb - fr) / delta + 2.0), delta / cmax, cmax)) == UnitRgb(fr, fg, fb)
  {
    var delta := cmax - cmin;
    var q := (fb - fr) / delta;
    Cancel(delta, cmax);
    Cancel(fb - fr, delta);
    DivBounds(fb - fr, delta);
    assert (60.0 * (q + 2.0)) / 60.0 == q + 2.0;
    if q >= 0.0 {
      if q < 1.0 {
        assert (q + 2.0).Floor == 2;
      } else {
        assert (q + 2.0).Floor == 3;
        assert fb == fg;
      }
    } else {
      var f := q + 2.0 - 1.0;
      assert (q + 2.0).Floor == 1;
      Negate(delta, 1.0 - f, q);
    }
  }

  /** The round trip when blue is strictly the largest channel (sectors 3 to 5). */
  lemma RoundTripBlue(fr: real, fg: real, fb: real, cmax: real, cmin: real)
    requires cmax == fb && fb > fr && fb > fg && cmin == Min(Min(fr, fg), fb) && cmin >= 0.0
    ensures var delta := cmax - cmin;
            HsvToRgb(Hsv(60.0 * ((fr - fg) / delta + 4.0), delta / cmax, cmax)) == UnitRgb(fr, fg, fb)
  {
    var delta := cmax - cmin;
    var q := (fr - fg) / delta;
    Cancel(delta, cmax);
    Cancel(fr - fg, delta);
    DivBounds(fr - fg, delta);
    assert (60.0 * (q + 4.0)) / 60.0 == q + 4.0;
    if q >= 0.0 {
      assert (q + 4.0).Floor == 4;
    } else {
      var f := q + 4.0 - 3.0;
      assert (q + 4.0).Floor == 3;
      Negate(delta, 1.0 - f, q);
    }
  }

  /** Multiplying by a negated factor negates the product. */
  lemma Negate(d: real, y: real, q: real)
    requires y == -q
    ensures d * y == -(d * q)
  {
  }

  lemma Cancel(x: real, m: real)
    requires m != 0.0
    ensures m * (x / m) == x
  {
  }

  lemma HueInRange(fr: real, fg: real, fb: real, cmax: real, cmin: real)
    requires 0.0 <= fr <= 1.0 && 0.0 <= fg <= 1.0 && 0.0 <= fb <= 1.0
    requires cmax == Max(Max(fr, fg), fb) && cmin == Min(Min(fr, fg), fb)
    requires cmax - cmin > 0.0
    ensures cmax == fr ==> -1.0 <= (fg - fb) / (cmax - cmin) <= 1.0
    ensures cmax != fr && cmax == fg ==> -1.0 < (fb - fr) / (cmax - cmin) <= 1.0
    ensures cmax != fr && cmax != fg ==> cmax == fb && -1.0 < (fr - fg) / (cmax - cmin) < 1.0
    ensures 0.0 < (cmax - cmin) / cmax <= 1.0
  {
    var delta := cmax - cmin;
    DivBounds(fg - fb, delta);
    DivBounds(fb - fr, delta);
    DivBounds(fr - fg, delta);
    DivBounds(delta, cmax);
  }

  /** Bounds on a quotient from bounds on its numerator. */
  lemma DivBounds(a: real, d: real)
    requires d > 0.0
    ensures -d <= a <= d ==> -1.0 <= a / d <= 1.0
    ensures -d < a ==> -1.0 < a / d
    ensures a < d ==> a / d < 1.0
    ensures 0.0 <= a ==> 0.0 <= a / d
    ensures 0.0 < a ==> 0.0 < a / d
  {
    var f := a / d;
    assert a == d * f;
    ScaleBounds(d, f);
  }

  /** Multiplying by a positive factor keeps strict and non-strict bounds in [-1, 1]. */
  lemma ScaleBounds(m: real, f: real)
    requires m > 0.0
    ensures -1.0 < f ==> -m < m * f
    ensures f < 1.0 ==> m * f < m
    ensures -1.0 <= f ==> -m <= m * f
    ensures f <= 1.0 ==> m * f <= m
    ensures 0.0 <= f ==> 0.0 <= m * f
    ensures 0.0 < f ==> 0.0 < m * f
    ensures f < 0.0 ==> m * f < 0.0
  {
  }
}
