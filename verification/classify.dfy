/** The colour tests that sort pixels into green, red and mixed nodules: the thresholds
    of `NoduleData` and the pixel counts `MixedData.getColoredArea` and
    `NoduleData.greenRoi` take with them. */
module Palette {
  import opened Common
  import opened Regions

  // `NoduleData.BOTTOMA`, `BOTTOMB`: the parabola g = 0.002 r² + 45 below which a pixel is red.
  const BOTTOM_A: real := 0.002
  const BOTTOM_B: real := 45.0
  // `TOPCUTOFFSLOPE`, `TOPB`: the line g = r + 25 above which a pixel is green.
  const TOP_SLOPE: real := 1.0
  const TOP_B: real := 25.0
  // `RLINE`, `GLINE`: a red channel above 180 is red, a green channel above 240 is green.
  const R_LINE: real := 180.0
  const G_LINE: real := 240.0

  /** The test of `getColoredArea` and `greenRoi`: the green channel lies above the parabola. */
  predicate AboveParabola(c: Rgb)
  {
    c.g as real > (c.r * c.r) as real * BOTTOM_A + BOTTOM_B
  }

  /** The parabola test in integers: 500 g > r² + 22500. */
  lemma AboveParabolaInIntegers(c: Rgb)
    ensures AboveParabola(c) <==> 500 * c.g > c.r * c.r + 22500
  {
    var rr := (c.r * c.r) as real;
    assert rr * BOTTOM_A + BOTTOM_B == (rr + 22500.0) / 500.0;
    assert (c.r * c.r + 22500) as real == rr + 22500.0;
    assert (500 * c.g) as real == 500.0 * c.g as real;
  }

  /** How many of `pts` are green by the parabola test on `img`. */
  function GreenCount(img: Image, pts: seq<Point>): (n: nat)
    requires img.WellFormed()
    ensures n <= |pts|
  {
    if |pts| == 0 then 0
    else
      var last := pts[|pts| - 1];
      GreenCount(img, pts[..|pts| - 1]) + (if AboveParabola(PixelAt(img, last.x, last.y)) then 1 else 0)
  }

  /** The three classes `generateSegmentedMap` sorts nodule pixels into. */
  datatype PixelClass = GreenPixel | RedPixel | MixedPixel

  /** The red test below the parabola in integers: 500 g < r² + 22500. */
  lemma BelowParabolaInIntegers(c: Rgb)
    ensures c.g as real < (c.r * c.r) as real * BOTTOM_A + BOTTOM_B <==> 500 * c.g < c.r * c.r + 22500
  {
    var rr := (c.r * c.r) as real;
    assert rr * BOTTOM_A + BOTTOM_B == (rr + 22500.0) / 500.0;
    assert (c.r * c.r + 22500) as real == rr + 22500.0;
    assert (500 * c.g) as real == 500.0 * c.g as real;
  }

  /** The classification of `generateSegmentedMap`, tests in this order: green above the
      line g = r + 25 or above 240; otherwise red below the parabola or right of r = 180;
      otherwise mixed. On integer channels the three classes are these integer regions. */
  function ClassOf(c: Rgb): (k: PixelClass)
    ensures k == GreenPixel <==> c.g > c.r + 25 || c.g > 240
    ensures k == RedPixel <==> c.g <= c.r + 25 && c.g <= 240 && (500 * c.g < c.r * c.r + 22500 || c.r > 180)
  {
    BelowParabolaInIntegers(c);
    if c.g as real > c.r as real * TOP_SLOPE + TOP_B || c.g as real > G_LINE then GreenPixel
    else if c.g as real < (c.r * c.r) as real * BOTTOM_A + BOTTOM_B || c.r as real > R_LINE then RedPixel
    else MixedPixel
  }

  /** The mixed class is the band between the two curves: not right of r = 180, not above
      g = 240 or the line g = r + 25, and on or above the parabola g = 0.002 r² + 45 (so
      never below the test `getColoredArea` counts as green). */
  lemma {:induction false} MixedBand(c: Rgb)
    ensures ClassOf(c) == MixedPixel <==>
      c.r <= 180 && c.g <= 240 && c.g <= c.r + 25 && 500 * c.g >= c.r * c.r + 22500
    ensures ClassOf(c) == MixedPixel && 500 * c.g > c.r * c.r + 22500 ==> AboveParabola(c)
  {
    AboveParabolaInIntegers(c);
  }

  /** A pixel that is green above the line is never also red, and pure channels land where
      expected: full green is green, full red is red. */
  lemma ClassOfExamples()
    ensures ClassOf(Rgb(0, 255, 0)) == GreenPixel
    ensures ClassOf(Rgb(255, 0, 0)) == RedPixel
    ensures ClassOf(Rgb(100, 100, 0)) == MixedPixel
  {
  }
}
