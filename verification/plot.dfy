/** The guide lines `NoduleData.Visualize` draws over the red/green scatter plot: a straight
    line given by slope and intercept, and the parabola below which pixels count as red. */
module PlotLines {
  import opened Common

  /** `Line`: the end points (0, b) and (255, 255 m + b), each coordinate cast to `int`. */
  function Line(m: real, b: real): (line: seq<int>)
    ensures |line| == 4 && line[0] == 0 && line[2] == 255
  {
    [0, TruncToInt(b), 255, TruncToInt(255.0 * m + b)]
  }

  /** Java's `(int)` cast moves a value toward zero by less than one. */
  lemma TruncCloseToValue(x: real)
    ensures x >= 0.0 ==> 0 <= TruncToInt(x) && TruncToInt(x) as real <= x < TruncToInt(x) as real + 1.0
    ensures x < 0.0 ==> TruncToInt(x) <= 0 && TruncToInt(x) as real - 1.0 < x <= TruncToInt(x) as real
  {
  }

  /** Both ends of a drawn line lie less than one unit from the exact line, on the side of
      zero. */
  lemma LineNearExact(m: real, b: real)
    ensures var line := Line(m, b);
      && (b >= 0.0 ==> line[1] as real <= b < line[1] as real + 1.0)
      && (b < 0.0 ==> line[1] as real - 1.0 < b <= line[1] as real)
      && (255.0 * m + b >= 0.0 ==> line[3] as real <= 255.0 * m + b < line[3] as real + 1.0)
      && (255.0 * m + b < 0.0 ==> line[3] as real - 1.0 < 255.0 * m + b <= line[3] as real)
  {
    TruncCloseToValue(b);
    TruncCloseToValue(255.0 * m + b);
  }

  /** The two lines `Visualize` draws with `Line`: the green cut-off g = r + 25 and the
      initial segmentation line g = -1.58 r + 195. */
  lemma DrawnLines()
    ensures Line(1.0, 25.0) == [0, 25, 255, 280]
    ensures Line(-1.58, 195.0) == [0, 195, 255, -207]
  {
    assert 255.0 * 1.0 + 25.0 == 280.0;
    TruncOfWhole(280);
    TruncOfWhole(25);
    TruncOfWhole(195);
    assert 255.0 * -1.58 + 195.0 == -207.9;
    assert (207.9).Floor == 207;
  }

  /** One point of `parabola`: x and a x² + b x + c. */
  function ParabolaPoint(a: real, b: real, c: real, x: real): (real, real)
  {
    (x, a * x * x + b * x + c)
  }

  /** `parabola`: 510 points of a x² + b x + c. The abscissa is `ii / 2` in integer arithmetic
      before it becomes a double, so the points come in equal pairs at x = 0, 1, ..., 254
      rather than in half steps up to 254.5. */
  method Parabola(a: real, b: real, c: real) returns (values: seq<(real, real)>)
    ensures |values| == 510
    ensures forall k :: 0 <= k < 255 ==>
      values[2 * k] == values[2 * k + 1] == ParabolaPoint(a, b, c, k as real)
    ensures values[509].0 == 254.0
  {
    values := [];
    var ii := 0;
    while ii < 510
      invariant 0 <= ii <= 510 && |values| == ii
      invariant forall j :: 0 <= j < ii ==> values[j] == ParabolaPoint(a, b, c, (j / 2) as real)
    {
      var x := (ii / 2) as real;
      var y := a * x * x + b * x + c;
      assert ParabolaPoint(a, b, c, x).1 == y;
      assert (x, y) == ParabolaPoint(a, b, c, x);
      values := values + [(x, y)];
      ii := ii + 1;
    }
    forall k | 0 <= k < 255
      ensures values[2 * k] == values[2 * k + 1] == ParabolaPoint(a, b, c, k as real)
    {
      assert (2 * k) / 2 == k && (2 * k + 1) / 2 == k;
    }
    assert 509 / 2 == 254;
  }
}
