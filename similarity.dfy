/**
  The similarity scorer, and the saturating conversion of a score to a mask
  byte. A scored pair's value is 1 - sqrt(q) / 30 for the squared distance q;
  as Dafny has no real square root, a score is kept as q itself and the
  predicate Denotes relates it to the real number it stands for.
 */
module Similarity {
  import opened ColorSpace

  /** The normalising constant 3 * sqrt(100), which is exactly 30. */
  const Scale: real := 30.0

  /** `f32::abs`. */
  function Abs(x: real): (a: real)
    ensures a >= 0.0 && (a == x || a == -x)
  {
    if x < 0.0 then -x else x
  }

  /**
    The hue difference adjusted for the cyclic nature of hue: the absolute
    difference, replaced by 360 minus it when it exceeds 180.
   */
  function HueGap(h1: real, h2: real): (gap: real)
    ensures 0.0 <= h1 <= 360.0 && 0.0 <= h2 <= 360.0 ==> 0.0 <= gap <= 180.0
  {
    var dh := Abs(h1 - h2);
    if dh > 180.0 then 360.0 - dh else dh
  }

  /** The outcome of calculate_hsv_similarity. */
  datatype Score =
    | Gated                           // the hue gap exceeded the limit: the value 0
    | Scored(squaredDistance: real)   // the value 1 - sqrt(squaredDistance) / 30

  /**
    x is the number the score stands for: 0 for a gated pair, and for a
    scored pair the x with 30 * (1 - x) >= 0 and (30 * (1 - x))^2 == q,
    that is x == 1 - sqrt(q) / 30.
   */
  predicate Denotes(score: Score, x: real)
  {
    match score
    case Gated => x == 0.0
    case Scored(q) => var d := Scale * (1.0 - x); d >= 0.0 && d * d == q
  }

  /**
    calculate_hsv_similarity: a hard gate on the cyclic hue gap, then the
    Euclidean distance over the hue gap and the saturation and value
    differences.
   */
  function CalculateHsvSimilarity(hsv1: Hsv, hsv2: Hsv, maxHDiff: real): (r: Score)
    ensures r.Gated? <==> HueGap(hsv1.h, hsv2.h) > maxHDiff
    ensures r.Scored? ==> r.squaredDistance >= 0.0
  {
    var ds := Abs(hsv1.s - hsv2.s);
    var dv := Abs(hsv1.v - hsv2.v);
    var gap := HueGap(hsv1.h, hsv2.h);
    if gap <= maxHDiff then Scored(gap * gap + ds * ds + dv * dv) else Gated
  }

  /** A pair whose hue gap exceeds the limit scores exactly 0. */
  lemma GatedScoresZero(hsv1: Hsv, hsv2: Hsv, maxHDiff: real, x: real)
    requires HueGap(hsv1.h, hsv2.h) > maxHDiff
    requires Denotes(CalculateHsvSimilarity(hsv1, hsv2, maxHDiff), x)
    ensures x == 0.0
  {
  }

  /** Hues 0 and 360 are the same point of the circle; 10 and 350 are 20 degrees apart, not 340. */
  lemma HueGapIsCyclic()
    ensures HueGap(360.0, 0.0) == 0.0 && HueGap(0.0, 360.0) == 0.0
    ensures HueGap(10.0, 350.0) == 20.0 && HueGap(350.0, 10.0) == 20.0
  {
  }

  /** A score stands for at most one number, and that number never exceeds 1. */
  lemma DenotesUnique(score: Score, x: real, y: real)
    requires Denotes(score, x) && Denotes(score, y)
    ensures x == y && x <= 1.0
  {
    if score.Scored? {
      SquareMonotone(Scale * (1.0 - x), Scale * (1.0 - y));
      SquareMonotone(Scale * (1.0 - y), Scale * (1.0 - x));
    }
  }

  /** A scored pair has a negative value exactly when its distance exceeds 30. */
  lemma NegativeBeyondScale(q: real, x: real)
    requires Denotes(Scored(q), x)
    ensures x < 0.0 <==> q > Scale * Scale
  {
    SquareMonotone(Scale * (1.0 - x), Scale);
  }

  /** A triple compared with itself scores 1, whatever non-negative limit is used. */
  lemma IdenticalIsPerfect(c: Hsv, maxHDiff: real)
    requires maxHDiff >= 0.0
    ensures CalculateHsvSimilarity(c, c, maxHDiff) == Scored(0.0)
    ensures Denotes(CalculateHsvSimilarity(c, c, maxHDiff), 1.0)
  {
  }

  /** The score does not depend on the order of the two triples. */
  lemma Symmetric(hsv1: Hsv, hsv2: Hsv, maxHDiff: real)
    ensures CalculateHsvSimilarity(hsv1, hsv2, maxHDiff) == CalculateHsvSimilarity(hsv2, hsv1, maxHDiff)
  {
    assert HueGap(hsv1.h, hsv2.h) == HueGap(hsv2.h, hsv1.h);
    assert Abs(hsv1.s - hsv2.s) == Abs(hsv2.s - hsv1.s);
    assert Abs(hsv1.v - hsv2.v) == Abs(hsv2.v - hsv1.v);
  }

  /** For non-negative reals, comparing squares compares the numbers. */
  lemma SquareMonotone(a: real, b: real)
    requires a >= 0.0 && b >= 0.0
    ensures a <= b <==> a * a <= b * b
  {
    if a <= b {
      assert a * a <= a * b <= b * b;
    } else {
      StrictSquare(b, a);
    }
  }

  lemma StrictSquare(b: real, a: real)
    requires 0.0 <= b < a
    ensures b * b < a * a
  {
    var bb, ba, aa := b * b, b * a, a * a;
    assert bb <= ba by { assert b * a - b * b == b * (a - b); }
    assert ba < aa by { assert a * a - b * a == a * (a - b); }
    LessChain(bb, ba, aa);
  }

  /** Transitivity of a non-strict bound followed by a strict one. */
  lemma LessChain(x: real, y: real, z: real)
    requires x <= y < z
    ensures x < z
  {
  }

  /**
    Rust's saturating float-to-u8 cast: rounding toward zero, with negative
    values sent to 0 and values above 255 sent to 255.
   */
  function SaturatingCast(y: real): (b: uint8)
    ensures y < 0.0 ==> b == 0
    ensures y >= 255.0 ==> b == 255
    ensures 0.0 <= y < 256.0 ==> b as real <= y < b as real + 1.0
  {
    if y < 0.0 then 0 else if y >= 255.0 then 255 else y.Floor as uint8
  }

  /**
    `(similarity * 255.0) as u8`, computed from the score alone. For a scored
    pair, 255 * (1 - sqrt(q) / 30) = 255 - 8.5 * sqrt(q), and an integer k
    in [0, 255] is at most that exactly when 72.25 * q <= (255 - k)^2.
   */
  function ToByte(score: Score): (b: uint8)
    ensures score.Gated? ==> b == 0
  {
    match score
    case Gated => 0
    case Scored(q) => LargestFit(q, 255)
  }

  /** The largest k <= top with 72.25 * q <= (255 - k)^2, or 0 when there is none. */
  function LargestFit(q: real, top: nat): (k: uint8)
    requires top <= 255
    ensures k as int <= top
    decreases top
  {
    var room := (255 - top) as real;
    if top == 0 then 0
    else if 72.25 * q <= room * room then top as uint8
    else LargestFit(q, top - 1)
  }

  /** The byte written to the mask is the saturating cast of 255 times the similarity. */
  lemma ToByteIsSaturatingCast(score: Score, x: real)
    requires Denotes(score, x)
    ensures ToByte(score) == SaturatingCast(255.0 * x)
  {
    if score.Scored? {
      var d := Scale * (1.0 - x);
      var y := 255.0 * x;
      assert y == 255.0 - 8.5 * d;
      LargestFitTruncates(score.squaredDistance, d, 255);
    }
  }

  /** LargestFit(q, top) is the truncation of 255 - 8.5 * d, capped at top and floored at 0. */
  lemma {:induction false} LargestFitTruncates(q: real, d: real, top: nat)
    requires d >= 0.0 && d * d == q && top <= 255
    ensures var y := 255.0 - 8.5 * d;
            LargestFit(q, top) as int == if y < 0.0 then 0 else if y.Floor < top then y.Floor else top
  {
    var y := 255.0 - 8.5 * d;
    var room := (255 - top) as real;
    FitsIffBelow(q, d, top);
    if top > 0 && !(72.25 * q <= room * room) {
      LargestFitTruncates(q, d, top - 1);
    }
  }

  /** The test LargestFit makes: 72.25 * q <= (255 - k)^2 exactly when k <= 255 - 8.5 * d. */
  lemma FitsIffBelow(q: real, d: real, k: nat)
    requires d >= 0.0 && d * d == q && k <= 255
    ensures var room := (255 - k) as real;
            72.25 * q <= room * room <==> k as real <= 255.0 - 8.5 * d
  {
    var room := (255 - k) as real;
    SquareMonotone(8.5 * d, room);
    assert (8.5 * d) * (8.5 * d) == 72.25 * q;
  }
}
