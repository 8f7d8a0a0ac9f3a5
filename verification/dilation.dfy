/** The second segmentation pass of `NoduleData.improveSegmentation`: around every nodule a
    rectangle ten times its size is scanned, and background pixels there that are bright and
    touch a nodule pixel, or red or green enough, are turned into nodule pixels of the binary
    map. The map holds 0 for a nodule pixel; it is scanned and written in place, so a pixel
    turned earlier in a scan counts as a neighbour for the pixels after it. */
module Dilation {
  import opened Common
  import opened Regions

  /** `java.awt.Rectangle`. */
  datatype Rect = Rect(x: int, y: int, width: int, height: int)

  function Span(n: int): nat
  {
    if n < 0 then 0 else n
  }

  /** `getScaledBounds` on one bounding box: ten times as wide and high, moved left and up
      by half the growth, clamped at 0. */
  function Scaled(b: Rect): Rect
  {
    var newWidth := TruncToInt(b.width as real * 10.0);
    var newHeight := TruncToInt(b.height as real * 10.0);
    var newX := b.x - JavaDiv(newWidth - b.width, 2);
    var newY := b.y - JavaDiv(newHeight - b.height, 2);
    Rect(if newX < 0 then 0 else newX, if newY < 0 then 0 else newY, newWidth, newHeight)
  }

  /** The scaled box is ten times the size of the original, moved by half of nine times its
      size (Java's `/` truncating) and never left of or above the image. */
  lemma ScaledShape(b: Rect)
    ensures Scaled(b).width == 10 * b.width && Scaled(b).height == 10 * b.height
    ensures Scaled(b).x == if b.x - JavaDiv(9 * b.width, 2) < 0 then 0 else b.x - JavaDiv(9 * b.width, 2)
    ensures Scaled(b).y == if b.y - JavaDiv(9 * b.height, 2) < 0 then 0 else b.y - JavaDiv(9 * b.height, 2)
  {
    TruncOfWhole(10 * b.width);
    TruncOfWhole(10 * b.height);
    assert b.width as real * 10.0 == (10 * b.width) as real;
    assert b.height as real * 10.0 == (10 * b.height) as real;
  }

  /** A box inside the image (non-negative corner and size) lies within its scaled box. */
  lemma ScaledCovers(b: Rect)
    requires b.x >= 0 && b.y >= 0 && b.width >= 0 && b.height >= 0
    ensures var r := Scaled(b);
      && 0 <= r.x <= b.x && b.x + b.width <= r.x + r.width
      && 0 <= r.y <= b.y && b.y + b.height <= r.y + r.height
  {
    ScaledShape(b);
  }

  /** Every box scaled, in order. */
  function ScaledAll(bounds: seq<Rect>): (rects: seq<Rect>)
    ensures |rects| == |bounds|
  {
    seq(|bounds|, k requires 0 <= k < |bounds| => Scaled(bounds[k]))
  }

  /** `getScaledBounds`: one scaled box per region, in order. */
  method GetScaledBounds(bounds: seq<Rect>) returns (rects: seq<Rect>)
    ensures rects == ScaledAll(bounds)
  {
    rects := [];
    var ii := 0;
    while ii < |bounds|
      invariant 0 <= ii <= |bounds|
      invariant |rects| == ii
      invariant forall k :: 0 <= k < ii ==> rects[k] == Scaled(bounds[k])
    {
      var rect := bounds[ii];
      var newWidth := TruncToInt(rect.width as real * 10.0);
      var newHeight := TruncToInt(rect.height as real * 10.0);
      var newX := rect.x - JavaDiv(newWidth - rect.width, 2);
      var newY := rect.y - JavaDiv(newHeight - rect.height, 2);
      if newX < 0 {
        newX := 0;
      }
      if newY < 0 {
        newY := 0;
      }
      rects := rects + [Rect(newX, newY, newWidth, newHeight)];
      ii := ii + 1;
    }
    assert rects == ScaledAll(bounds);
  }

  // The four bands of average green lightness.
  const LIGHT_SECTION_ONE: int := 0
  const LIGHT_SECTION_TWO: int := 1
  const LIGHT_SECTION_THREE: int := 2
  const LIGHT_SECTION_FOUR: int := 3

  /** The band `averageLightness` puts the average green lightness in: below 85, below 90,
      below 95, or above. */
  function LightSection(greenLightness: real): (s: int)
    ensures LIGHT_SECTION_ONE <= s <= LIGHT_SECTION_FOUR
  {
    if greenLightness < 85.0 then LIGHT_SECTION_ONE
    else if greenLightness < 90.0 then LIGHT_SECTION_TWO
    else if greenLightness < 95.0 then LIGHT_SECTION_THREE
    else LIGHT_SECTION_FOUR
  }

  /** A lighter image never lands in a darker band, and each band is the stated interval. */
  lemma LightSectionOrdered(l1: real, l2: real)
    ensures l1 <= l2 ==> LightSection(l1) <= LightSection(l2)
    ensures LightSection(l1) == LIGHT_SECTION_ONE <==> l1 < 85.0
    ensures LightSection(l1) == LIGHT_SECTION_FOUR <==> 95.0 <= l1
    ensures LightSection(l1) == LIGHT_SECTION_TWO <==> 85.0 <= l1 < 90.0
  {
  }

  /** The green threshold of a rectangle when nothing is loosened. */
  const DEFAULT_GREEN_THRESHOLD: int := 80

  /** The loosened green threshold of a band: 70, 80, 90 or 100. Any other band leaves the
      default in place. */
  function LoosenedThreshold(section: int): (t: int)
    ensures LIGHT_SECTION_ONE <= section <= LIGHT_SECTION_FOUR ==> t == 70 + 10 * section
    ensures !(LIGHT_SECTION_ONE <= section <= LIGHT_SECTION_FOUR) ==> t == DEFAULT_GREEN_THRESHOLD
  {
    if section == LIGHT_SECTION_ONE then 70
    else if section == LIGHT_SECTION_TWO then 80
    else if section == LIGHT_SECTION_THREE then 90
    else if section == LIGHT_SECTION_FOUR then 100
    else DEFAULT_GREEN_THRESHOLD
  }

  /** The green threshold for one rectangle: the threshold is reset to the default after
      every rectangle, so it depends only on that rectangle's flag. */
  function RectThreshold(loosen: bool, section: int): int
  {
    if loosen then LoosenedThreshold(section) else DEFAULT_GREEN_THRESHOLD
  }

  /** Flags are raised only in the darkest band, so the thresholds 90 and 100 are never used:
      a rectangle gets 70 when its flag is up and 80 otherwise. */
  lemma ThresholdsInUse(loosen: bool, section: int)
    requires loosen ==> section < LIGHT_SECTION_TWO
    requires LIGHT_SECTION_ONE <= section <= LIGHT_SECTION_FOUR
    ensures RectThreshold(loosen, section) == if loosen then 70 else 80
  {
  }

  /** The binary map being scanned and the count of pixels the colour test added. */
  datatype Pass = Pass(mask: seq<int>, added: int)

  predicate Fits(img: Image, grey: seq<int>, mask: seq<int>)
  {
    img.WellFormed() && |grey| == |img.pixels| && |mask| == |img.pixels|
  }

  /** The map holds 0 at (x, y). Outside the image ImageJ reads no number (NaN), which is
      never 0. */
  predicate ZeroAt(img: Image, mask: seq<int>, x: int, y: int)
    requires img.WellFormed() && |mask| == |img.pixels|
  {
    img.Inside(x, y) && (RowMajorInRange(x, y, img.width, img.height); mask[y * img.width + x] == 0)
  }

  /** The greyscale value at (x, y) is above 50; outside the image it is NaN, which is not. */
  predicate BrightAt(img: Image, grey: seq<int>, x: int, y: int)
    requires img.WellFormed() && |grey| == |img.pixels|
  {
    img.Inside(x, y) && (RowMajorInRange(x, y, img.width, img.height); grey[y * img.width + x] > 50)
  }

  /** `putPixelValue(x, y, 0)`: a write outside the image is ignored. */
  function PutZero(img: Image, mask: seq<int>, x: int, y: int): (m: seq<int>)
    requires img.WellFormed() && |mask| == |img.pixels|
    ensures |m| == |mask|
  {
    if img.Inside(x, y) then
      RowMajorInRange(x, y, img.width, img.height);
      mask[y * img.width + x := 0]
    else mask
  }

  /** One pixel of the scan: a nodule pixel is skipped; a bright pixel with a nodule pixel
      to its left, right, top or bottom joins the nodules; otherwise a pixel whose red is
      above 120 or whose green is above the threshold joins them and is counted. */
  function DilatePixel(img: Image, grey: seq<int>, p: Pass, x: int, y: int, threshold: int): (q: Pass)
    requires Fits(img, grey, p.mask)
    ensures |q.mask| == |p.mask|
  {
    if ZeroAt(img, p.mask, x, y) then p
    else
      var adjacent := ZeroAt(img, p.mask, x + 1, y) || ZeroAt(img, p.mask, x - 1, y) ||
                      ZeroAt(img, p.mask, x, y + 1) || ZeroAt(img, p.mask, x, y - 1);
      var c := PixelAt(img, x, y);
      if BrightAt(img, grey, x, y) && adjacent then Pass(PutZero(img, p.mask, x, y), p.added)
      else if c.r > 120 || c.g > threshold then Pass(PutZero(img, p.mask, x, y), p.added + 1)
      else p
  }

  /** The first `cols` pixels of row `row` of `rect`, left to right. */
  function ScanRow(img: Image, grey: seq<int>, p: Pass, rect: Rect, row: int, cols: nat, threshold: int): (q: Pass)
    requires Fits(img, grey, p.mask)
    ensures |q.mask| == |p.mask|
    decreases cols
  {
    if cols == 0 then p
    else
      var before := ScanRow(img, grey, p, rect, row, cols - 1, threshold);
      DilatePixel(img, grey, before, rect.x + cols - 1, rect.y + row, threshold)
  }

  /** The first `rows` rows of `rect`, top to bottom. */
  function ScanRect(img: Image, grey: seq<int>, p: Pass, rect: Rect, rows: nat, threshold: int): (q: Pass)
    requires Fits(img, grey, p.mask)
    ensures |q.mask| == |p.mask|
    decreases rows
  {
    if rows == 0 then p
    else
      var before := ScanRect(img, grey, p, rect, rows - 1, threshold);
      ScanRow(img, grey, before, rect, rows - 1, Span(rect.width), threshold)
  }

  /** The whole scan of one rectangle, starting from a zero count. */
  function DilateRect(img: Image, grey: seq<int>, mask: seq<int>, rect: Rect, threshold: int): (q: Pass)
    requires Fits(img, grey, mask)
    ensures |q.mask| == |mask|
  {
    ScanRect(img, grey, Pass(mask, 0), rect, Span(rect.height), threshold)
  }

  /** All rectangles in turn, each with the threshold its flag selects. */
  function DilateAll(img: Image, grey: seq<int>, mask: seq<int>, rects: seq<Rect>, loosen: seq<bool>, section: int): (m: seq<int>)
    requires Fits(img, grey, mask) && |loosen| == |rects|
    ensures |m| == |mask|
  {
    if |rects| == 0 then mask
    else
      var n := |rects| - 1;
      var before := DilateAll(img, grey, mask, rects[..n], loosen[..n], section);
      DilateRect(img, grey, before, rects[n], RectThreshold(loosen[n], section)).mask
  }

  /** `q` comes from `p` by turning pixels into nodule pixels and counting up: every pixel
      keeps its value or becomes 0, so nodule pixels stay nodule pixels. */
  predicate Grows(p: Pass, q: Pass)
  {
    && |q.mask| == |p.mask|
    && (forall k :: 0 <= k < |p.mask| ==> q.mask[k] == p.mask[k] || q.mask[k] == 0)
    && p.added <= q.added
  }

  lemma GrowsTransitive(p: Pass, q: Pass, r: Pass)
    requires Grows(p, q) && Grows(q, r)
    ensures Grows(p, r)
  {
  }

  lemma {:induction false} ScanRowGrows(img: Image, grey: seq<int>, p: Pass, rect: Rect, row: int, cols: nat, threshold: int)
    requires Fits(img, grey, p.mask)
    ensures Grows(p, ScanRow(img, grey, p, rect, row, cols, threshold))
  {
    if cols > 0 {
      var before := ScanRow(img, grey, p, rect, row, cols - 1, threshold);
      ScanRowGrows(img, grey, p, rect, row, cols - 1, threshold);
      GrowsTransitive(p, before, DilatePixel(img, grey, before, rect.x + cols - 1, rect.y + row, threshold));
    }
  }

  lemma {:induction false} ScanRectGrows(img: Image, grey: seq<int>, p: Pass, rect: Rect, rows: nat, threshold: int)
    requires Fits(img, grey, p.mask)
    ensures Grows(p, ScanRect(img, grey, p, rect, rows, threshold))
  {
    if rows > 0 {
      var before := ScanRect(img, grey, p, rect, rows - 1, threshold);
      ScanRectGrows(img, grey, p, rect, rows - 1, threshold);
      ScanRowGrows(img, grey, before, rect, rows - 1, Span(rect.width), threshold);
      GrowsTransitive(p, before, ScanRow(img, grey, before, rect, rows - 1, Span(rect.width), threshold));
    }
  }

  /** The pass over all rectangles never clears a nodule pixel and only ever writes 0. */
  lemma {:induction false} DilateAllGrows(img: Image, grey: seq<int>, mask: seq<int>, rects: seq<Rect>, loosen: seq<bool>, section: int)
    requires Fits(img, grey, mask) && |loosen| == |rects|
    ensures var m := DilateAll(img, grey, mask, rects, loosen, section);
      forall k :: 0 <= k < |mask| ==> m[k] == mask[k] || m[k] == 0
  {
    if |rects| > 0 {
      var n := |rects| - 1;
      var before := DilateAll(img, grey, mask, rects[..n], loosen[..n], section);
      DilateAllGrows(img, grey, mask, rects[..n], loosen[..n], section);
      ScanRectGrows(img, grey, Pass(before, 0), rects[n], Span(rects[n].height), RectThreshold(loosen[n], section));
    }
  }

  /** Position `k` of a `w`-wide image lies in `rect`. */
  predicate InRect(rect: Rect, w: int, k: int)
    requires w > 0
  {
    rect.x <= k % w < rect.x + rect.width && rect.y <= k / w < rect.y + rect.height
  }

  /** `q` differs from `p` only inside the first `cols` pixels of row `row` of `rect`. */
  predicate ChangesWithin(p: Pass, q: Pass, rect: Rect, w: int)
    requires w > 0 && |q.mask| == |p.mask|
  {
    forall k :: 0 <= k < |p.mask| && q.mask[k] != p.mask[k] ==> InRect(rect, w, k)
  }

  lemma PixelWithin(img: Image, grey: seq<int>, p: Pass, rect: Rect, x: int, y: int, threshold: int)
    requires Fits(img, grey, p.mask) && img.width > 0
    requires rect.x <= x < rect.x + rect.width && rect.y <= y < rect.y + rect.height
    ensures ChangesWithin(p, DilatePixel(img, grey, p, x, y, threshold), rect, img.width)
  {
    if img.Inside(x, y) {
      DivUnique(y * img.width + x, img.width, y, x);
    }
  }

  lemma {:induction false} ScanRowWithin(img: Image, grey: seq<int>, p: Pass, rect: Rect, row: int, cols: nat, threshold: int)
    requires Fits(img, grey, p.mask) && img.width > 0
    requires 0 <= row < rect.height && cols <= Span(rect.width)
    ensures ChangesWithin(p, ScanRow(img, grey, p, rect, row, cols, threshold), rect, img.width)
  {
    if cols > 0 {
      var before := ScanRow(img, grey, p, rect, row, cols - 1, threshold);
      ScanRowWithin(img, grey, p, rect, row, cols - 1, threshold);
      PixelWithin(img, grey, before, rect, rect.x + cols - 1, rect.y + row, threshold);
    }
  }

  /** The scan of a rectangle changes no pixel outside it. */
  lemma {:induction false} ScanRectWithin(img: Image, grey: seq<int>, p: Pass, rect: Rect, rows: nat, threshold: int)
    requires Fits(img, grey, p.mask) && img.width > 0
    requires rows <= Span(rect.height)
    ensures ChangesWithin(p, ScanRect(img, grey, p, rect, rows, threshold), rect, img.width)
  {
    if rows > 0 {
      var before := ScanRect(img, grey, p, rect, rows - 1, threshold);
      ScanRectWithin(img, grey, p, rect, rows - 1, threshold);
      ScanRowWithin(img, grey, before, rect, rows - 1, Span(rect.width), threshold);
    }
  }

  /** One pixel of the scan, on the map in place. */
  method VisitPixel(img: Image, grey: seq<int>, mask: array<int>, x: int, y: int, threshold: int, added: int)
    returns (pixelsAdded: int)
    requires Fits(img, grey, mask[..])
    modifies mask
    ensures Pass(mask[..], pixelsAdded) == DilatePixel(img, grey, Pass(old(mask[..]), added), x, y, threshold)
  {
    pixelsAdded := added;
    var w := img.width;
    var c := PixelAt(img, x, y);
    if ZeroAt(img, mask[..], x, y) {
      return;
    }
    var adjacent := false;
    if ZeroAt(img, mask[..], x + 1, y) {
      adjacent := true;
    }
    if ZeroAt(img, mask[..], x - 1, y) {
      adjacent := true;
    }
    if ZeroAt(img, mask[..], x, y + 1) {
      adjacent := true;
    }
    if ZeroAt(img, mask[..], x, y - 1) {
      adjacent := true;
    }
    if BrightAt(img, grey, x, y) && adjacent {
      if img.Inside(x, y) {
        RowMajorInRange(x, y, w, img.height);
        mask[y * w + x] := 0;
      }
    } else if c.r > 120 || c.g > threshold {
      if img.Inside(x, y) {
        RowMajorInRange(x, y, w, img.height);
        mask[y * w + x] := 0;
      }
      pixelsAdded := pixelsAdded + 1;
    }
  }

  /** The scan of one rectangle in `improveSegmentation`, row by row, on the map in place;
      the result is the number of pixels the colour test added. */
  method DilateInPlace(img: Image, grey: seq<int>, mask: array<int>, rect: Rect, threshold: int)
    returns (pixelsAdded: int)
    requires Fits(img, grey, mask[..])
    modifies mask
    ensures Pass(mask[..], pixelsAdded) == DilateRect(img, grey, old(mask[..]), rect, threshold)
  {
    ghost var start := Pass(mask[..], 0);
    pixelsAdded := 0;
    var ii := 0;
    while ii < rect.height
      invariant 0 <= ii <= Span(rect.height)
      invariant Pass(mask[..], pixelsAdded) == ScanRect(img, grey, start, rect, ii, threshold)
    {
      var y := rect.y + ii;
      ghost var rowStart := Pass(mask[..], pixelsAdded);
      var jj := 0;
      while jj < rect.width
        invariant 0 <= jj <= Span(rect.width)
        invariant Pass(mask[..], pixelsAdded) == ScanRow(img, grey, rowStart, rect, ii, jj, threshold)
      {
        var x := rect.x + jj;
        pixelsAdded := VisitPixel(img, grey, mask, x, y, threshold, pixelsAdded);
        jj := jj + 1;
      }
      ii := ii + 1;
    }
  }

  /** The loop of `improveSegmentation` over the scaled boxes: each is scanned in turn with
      the threshold its flag selects, the threshold going back to the default after each. */
  method DilateRects(img: Image, grey: seq<int>, byteMap: array<int>, roiRects: seq<Rect>,
                     loosenGreenThreshold: seq<bool>, section: int)
    requires Fits(img, grey, byteMap[..]) && |loosenGreenThreshold| == |roiRects|
    modifies byteMap
    ensures byteMap[..] == DilateAll(img, grey, old(byteMap[..]), roiRects, loosenGreenThreshold, section)
  {
    ghost var m0 := byteMap[..];
    var greenThreshold := DEFAULT_GREEN_THRESHOLD;
    var kk := 0;
    while kk < |roiRects|
      invariant 0 <= kk <= |roiRects| && byteMap.Length == |img.pixels|
      invariant greenThreshold == DEFAULT_GREEN_THRESHOLD
      invariant byteMap[..] == DilateAll(img, grey, m0, roiRects[..kk], loosenGreenThreshold[..kk], section)
    {
      if loosenGreenThreshold[kk] {
        greenThreshold := LoosenedThreshold(section);
      }
      assert roiRects[..kk + 1][..kk] == roiRects[..kk];
      assert loosenGreenThreshold[..kk + 1][..kk] == loosenGreenThreshold[..kk];
      var pixelsAdded := DilateInPlace(img, grey, byteMap, roiRects[kk], greenThreshold);
      greenThreshold := DEFAULT_GREEN_THRESHOLD;
      kk := kk + 1;
    }
    assert roiRects[..kk] == roiRects && loosenGreenThreshold[..kk] == loosenGreenThreshold;
  }
}
