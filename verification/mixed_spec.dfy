/** The value-level view of the mixed dataset (`MixedData`): the red/green linkage table
    `clumped`, the per-region red and green pixel counts, the polygon distance used to decide
    which regions merge, and the rules the structural edits follow on that view. */
module MixedSpec {
  import opened Common
  import opened Regions
  import opened Clumps
  import opened ColorSpec
  import opened Palette

  // ---------------------------------------------------------------- linkage rows

  /** One row of `clumped`: the positions of the red and the green clump a mixed region
      absorbed, -1 where there is none. */
  datatype Link = Link(red: int, green: int)

  const UNLINKED: Link := Link(-1, -1)

  /** Column 0 (red) or column 1 (green) of a `clumped` row. */
  datatype Column = RedColumn | GreenColumn

  function Other(col: Column): Column
  {
    if col == RedColumn then GreenColumn else RedColumn
  }

  function Entry(l: Link, col: Column): int
  {
    if col == RedColumn then l.red else l.green
  }

  function WithEntry(l: Link, col: Column, v: int): (r: Link)
    ensures Entry(r, col) == v && Entry(r, Other(col)) == Entry(l, Other(col))
  {
    if col == RedColumn then l.(red := v) else l.(green := v)
  }

  /** The index cascade run after region `index` of one colour is removed: every entry of
      that column above `index` moves down by one; the other column is left alone. */
  function DecrementAbove(links: seq<Link>, col: Column, index: int): (r: seq<Link>)
    ensures |r| == |links|
    ensures forall k :: 0 <= k < |links| ==> Entry(r[k], Other(col)) == Entry(links[k], Other(col))
  {
    seq(|links|, k requires 0 <= k < |links| =>
      var e := Entry(links[k], col);
      if e > index then WithEntry(links[k], col, e - 1) else links[k])
  }

  /** The cascade keeps every link pointing at the same region: once position `index` is
      dropped from a colour's regions, an entry that named another region names it still,
      and an empty entry stays empty. */
  lemma DecrementFollowsRemoval<T>(links: seq<Link>, col: Column, index: int, rs: seq<T>)
    requires 0 <= index < |rs|
    requires forall k :: 0 <= k < |links| ==>
      Entry(links[k], col) == -1 || (0 <= Entry(links[k], col) < |rs| && Entry(links[k], col) != index)
    ensures forall k :: 0 <= k < |links| && Entry(links[k], col) == -1 ==>
      Entry(DecrementAbove(links, col, index)[k], col) == -1
    ensures forall k :: 0 <= k < |links| && Entry(links[k], col) != -1 ==>
      var e := Entry(DecrementAbove(links, col, index)[k], col);
      0 <= e < |rs| - 1 && Without(rs, index)[e] == rs[Entry(links[k], col)]
  {
  }

  /** Rows whose entry in `col` is `index`, in ascending order (`UserEditsHandler.mixedClump`). */
  function RowsLinkedTo(links: seq<Link>, col: Column, index: int): (r: seq<int>)
    ensures StrictlyAscending(r)
    ensures forall k :: k in r <==> 0 <= k < |links| && Entry(links[k], col) == index
  {
    if |links| == 0 then []
    else
      var init := RowsLinkedTo(links[..|links| - 1], col, index);
      var k := |links| - 1;
      assert forall j :: j in init ==> j < k;
      AppendAscending(init, k);
      if Entry(links[k], col) == index then init + [k] else init
  }

  // ---------------------------------------------------------------- pixel counts

  /** `getColoredArea`: (red, green) pixel counts of a region's points, a point being green
      when it lies above the parabola and red otherwise. */
  function ColoredArea(img: Image, pts: seq<Point>): (c: (nat, nat))
    requires img.WellFormed()
  {
    (|pts| - GreenCount(img, pts), GreenCount(img, pts))
  }

  /** Every point is counted exactly once, and a region is all green exactly when every one
      of its points passes the green test, all red exactly when none does. */
  lemma {:induction false} ColoredAreaSpec(img: Image, pts: seq<Point>)
    requires img.WellFormed()
    ensures ColoredArea(img, pts).0 + ColoredArea(img, pts).1 == |pts|
    ensures ColoredArea(img, pts).0 == 0 <==>
      forall k :: 0 <= k < |pts| ==> AboveParabola(PixelAt(img, pts[k].x, pts[k].y))
    ensures ColoredArea(img, pts).1 == 0 <==>
      forall k :: 0 <= k < |pts| ==> !AboveParabola(PixelAt(img, pts[k].x, pts[k].y))
  {
    if |pts| > 0 {
      var init := pts[..|pts| - 1];
      ColoredAreaSpec(img, init);
      assert forall k :: 0 <= k < |init| ==> init[k] == pts[k];
    }
  }

  // ---------------------------------------------------------------- distances

  /** A distance as its square (`Infinite` is `Double.POSITIVE_INFINITY`); comparing squares
      of non-negative distances orders them the same way. */
  datatype Dist = Infinite | Finite(sq: real)

  function MinDist(a: Dist, b: Dist): (r: Dist)
    ensures r == a || r == b
    ensures r.Finite? <==> a.Finite? || b.Finite?
    ensures r.Finite? && a.Finite? ==> r.sq <= a.sq
    ensures r.Finite? && b.Finite? ==> r.sq <= b.sq
  {
    if a.Infinite? then b
    else if b.Infinite? then a
    else if a.sq <= b.sq then a else b
  }

  /** `distance < limit` for a non-negative limit. */
  predicate Within(d: Dist, limit: real)
  {
    d.Finite? && d.sq < limit * limit
  }

  function SqDist(a: Point, b: Point): (d: real)
    ensures d >= 0.0
  {
    ((a.x - b.x) * (a.x - b.x) + (a.y - b.y) * (a.y - b.y)) as real
  }

  function MinReal(a: real, b: real): real
  {
    if a <= b then a else b
  }

  /** The crossing parameters of `lineSegmentDistance`: the numerators of uA and uB and
      their common denominator. */
  function Denominator(p1: Point, p2: Point, p3: Point, p4: Point): real
  {
    ((p4.y - p3.y) * (p2.x - p1.x) - (p4.x - p3.x) * (p2.y - p1.y)) as real
  }

  function NumeratorA(p1: Point, p2: Point, p3: Point, p4: Point): real
  {
    ((p4.x - p3.x) * (p1.y - p3.y) - (p4.y - p3.y) * (p1.x - p3.x)) as real
  }

  function NumeratorB(p1: Point, p2: Point, p3: Point, p4: Point): real
  {
    ((p2.x - p1.x) * (p1.y - p3.y) - (p2.y - p1.y) * (p1.x - p3.x)) as real
  }

  /** The crossing parameters uA (along p1p2) and uB (along p3p4). */
  function ParamA(p1: Point, p2: Point, p3: Point, p4: Point): real
    requires Denominator(p1, p2, p3, p4) != 0.0
  {
    NumeratorA(p1, p2, p3, p4) / Denominator(p1, p2, p3, p4)
  }

  function ParamB(p1: Point, p2: Point, p3: Point, p4: Point): real
    requires Denominator(p1, p2, p3, p4) != 0.0
  {
    NumeratorB(p1, p2, p3, p4) / Denominator(p1, p2, p3, p4)
  }

  /** Whether the parametric crossing test of `lineSegmentDistance` succeeds. A zero
      denominator gives Java an infinite or NaN parameter, which fails the test. */
  predicate Crosses(p1: Point, p2: Point, p3: Point, p4: Point)
  {
    Denominator(p1, p2, p3, p4) != 0.0 &&
    0.0 <= ParamA(p1, p2, p3, p4) <= 1.0 &&
    0.0 <= ParamB(p1, p2, p3, p4) <= 1.0
  }

  /** `lineSegmentDistance`, squared: when the segments p1p2 and p3p4 cross, the distance
      from p1 to the crossing point; otherwise the smallest of the four endpoint distances.
      A crossing lies on the first segment, so it is never farther from p1 than p2 is. */
  function SegmentDistanceSq(p1: Point, p2: Point, p3: Point, p4: Point): (d: real)
    ensures d >= 0.0
    ensures Crosses(p1, p2, p3, p4) ==> d <= SqDist(p1, p2)
  {
    if Crosses(p1, p2, p3, p4) then
      Scaled(ParamA(p1, p2, p3, p4), SqDist(p1, p2))
    else MinReal(MinReal(SqDist(p1, p3), SqDist(p1, p4)), MinReal(SqDist(p2, p3), SqDist(p2, p4)))
  }

  /** `s` scaled by the square of a parameter in [0, 1]: never negative, never above `s`. */
  function Scaled(u: real, s: real): (r: real)
    requires 0.0 <= u <= 1.0 && s >= 0.0
    ensures 0.0 <= r <= s
  {
    ScaleBelow(u, s);
    u * u * s
  }

  lemma ScaleBelow(u: real, s: real)
    requires 0.0 <= u <= 1.0 && s >= 0.0
    ensures 0.0 <= u * u * s <= s
  {
    assert u * u <= u * 1.0;
    assert u * u * s <= 1.0 * s;
  }

  /** Without a crossing the result is one of the four endpoint distances and no larger
      than any of them. */
  lemma EndpointDistance(p1: Point, p2: Point, p3: Point, p4: Point)
    requires !Crosses(p1, p2, p3, p4)
    ensures var d := SegmentDistanceSq(p1, p2, p3, p4);
      && d <= SqDist(p1, p3) && d <= SqDist(p1, p4) && d <= SqDist(p2, p3) && d <= SqDist(p2, p4)
      && (d == SqDist(p1, p3) || d == SqDist(p1, p4) || d == SqDist(p2, p3) || d == SqDist(p2, p4))
  {
  }

  /** Segments that start at the same point, or where the first starts at the second's
      end, are at distance zero. */
  lemma SegmentDistanceSharedStart(p1: Point, p2: Point, p3: Point, p4: Point)
    requires p1 == p3 || p1 == p4
    ensures SegmentDistanceSq(p1, p2, p3, p4) == 0.0
  {
    var a, b := p1.x - p3.x, p1.y - p3.y;
    if p1 == p3 {
      assert a == 0 && b == 0;
    } else {
      assert p4.x - p3.x == a && p4.y - p3.y == b;
      assert a * b - b * a == 0;
    }
    assert NumeratorA(p1, p2, p3, p4) == 0.0;
    ZeroParamAtStart(p1, p2, p3, p4);
  }

  /** With a zero numerator uA the crossing, if any, is p1 itself; and a shared end point
      makes one of the endpoint distances zero. */
  lemma ZeroParamAtStart(p1: Point, p2: Point, p3: Point, p4: Point)
    requires p1 == p3 || p1 == p4
    requires NumeratorA(p1, p2, p3, p4) == 0.0
    ensures SegmentDistanceSq(p1, p2, p3, p4) == 0.0
  {
    if Crosses(p1, p2, p3, p4) {
      assert ParamA(p1, p2, p3, p4) == 0.0;
    } else {
      assert SqDist(p1, p3) == 0.0 || SqDist(p1, p4) == 0.0;
    }
  }

  /** The crossing branch measures from p1, not between the segments: two segments that
      cross in the middle are reported one unit apart. */
  lemma SegmentDistanceFromStart()
    ensures SegmentDistanceSq(Point(0, 0), Point(2, 0), Point(1, -1), Point(1, 1)) == 1.0
  {
    var p1, p2, p3, p4 := Point(0, 0), Point(2, 0), Point(1, -1), Point(1, 1);
    assert Denominator(p1, p2, p3, p4) == 4.0;
    assert NumeratorA(p1, p2, p3, p4) == 2.0;
    assert NumeratorB(p1, p2, p3, p4) == 2.0;
  }

  /** Minimum over the segments q[j]q[j+1] of `q` of the distance from segment p1p2. */
  function RowMin(p1: Point, p2: Point, q: seq<Point>): Dist
  {
    if |q| < 2 then Infinite
    else MinDist(RowMin(p1, p2, q[..|q| - 1]), Finite(SegmentDistanceSq(p1, p2, q[|q| - 2], q[|q| - 1])))
  }

  /** The double loop of `calculateClosestDistance` once the areas are disjoint: the minimum
      over every pair of consecutive-vertex segments; the closing edges are not included. */
  function SegmentsMin(p: seq<Point>, q: seq<Point>): Dist
  {
    if |p| < 2 then Infinite
    else MinDist(SegmentsMin(p[..|p| - 1], q), RowMin(p[|p| - 2], p[|p| - 1], q))
  }

  /** `calculateClosestDistance`: zero when the polygons' areas intersect. */
  function ClosestDistance(geom: Geometry, p: seq<Point>, q: seq<Point>): Dist
  {
    if geom.intersects(p, q) then Finite(0.0) else SegmentsMin(p, q)
  }

  /** A segment pair of the two outlines: segment i of `p` against segment j of `q`. */
  predicate IsPair(p: seq<Point>, q: seq<Point>, i: int, j: int)
  {
    0 <= i < |p| - 1 && 0 <= j < |q| - 1
  }

  function PairDistance(p: seq<Point>, q: seq<Point>, i: int, j: int): real
    requires IsPair(p, q, i, j)
  {
    SegmentDistanceSq(p[i], p[i + 1], q[j], q[j + 1])
  }

  lemma {:induction false} RowMinSpec(p1: Point, p2: Point, q: seq<Point>)
    ensures RowMin(p1, p2, q).Infinite? <==> |q| < 2
    ensures forall j :: 0 <= j < |q| - 1 ==>
      RowMin(p1, p2, q).sq <= SegmentDistanceSq(p1, p2, q[j], q[j + 1])
    ensures RowMin(p1, p2, q).Finite? ==>
      exists j :: 0 <= j < |q| - 1 && RowMin(p1, p2, q).sq == SegmentDistanceSq(p1, p2, q[j], q[j + 1])
  {
    if |q| >= 2 {
      var init := q[..|q| - 1];
      RowMinSpec(p1, p2, init);
      assert forall j :: 0 <= j < |init| ==> init[j] == q[j];
      if RowMin(p1, p2, q) != RowMin(p1, p2, init) {
        assert RowMin(p1, p2, q).sq == SegmentDistanceSq(p1, p2, q[|q| - 2], q[|q| - 1]);
      }
    }
  }

  /** The fold is the minimum: infinite exactly when either outline has fewer than two
      points, never above any segment pair's distance, and equal to one of them. */
  lemma {:induction false} SegmentsMinSpec(p: seq<Point>, q: seq<Point>)
    ensures SegmentsMin(p, q).Infinite? <==> |p| < 2 || |q| < 2
    ensures forall i, j :: IsPair(p, q, i, j) ==> SegmentsMin(p, q).sq <= PairDistance(p, q, i, j)
    ensures SegmentsMin(p, q).Finite? ==>
      exists i, j :: IsPair(p, q, i, j) && SegmentsMin(p, q).sq == PairDistance(p, q, i, j)
  {
    SegmentsMinBelow(p, q);
    SegmentsMinAttained(p, q);
  }

  lemma {:induction false} SegmentsMinBelow(p: seq<Point>, q: seq<Point>)
    ensures SegmentsMin(p, q).Infinite? <==> |p| < 2 || |q| < 2
    ensures forall i, j :: IsPair(p, q, i, j) ==> SegmentsMin(p, q).sq <= PairDistance(p, q, i, j)
  {
    if |p| >= 2 {
      var init := p[..|p| - 1];
      SegmentsMinBelow(init, q);
      RowMinSpec(p[|p| - 2], p[|p| - 1], q);
      forall i, j | IsPair(p, q, i, j)
        ensures SegmentsMin(p, q).sq <= PairDistance(p, q, i, j)
      {
        if i < |p| - 2 {
          assert IsPair(init, q, i, j) && PairDistance(init, q, i, j) == PairDistance(p, q, i, j);
        }
      }
    }
  }

  lemma {:induction false} SegmentsMinAttained(p: seq<Point>, q: seq<Point>)
    ensures SegmentsMin(p, q).Finite? ==>
      exists i, j :: IsPair(p, q, i, j) && SegmentsMin(p, q).sq == PairDistance(p, q, i, j)
  {
    if |p| >= 2 && SegmentsMin(p, q).Finite? {
      var init := p[..|p| - 1];
      var last := RowMin(p[|p| - 2], p[|p| - 1], q);
      if SegmentsMin(p, q) == last {
        RowMinSpec(p[|p| - 2], p[|p| - 1], q);
        var j :| 0 <= j < |q| - 1 && last.sq == SegmentDistanceSq(p[|p| - 2], p[|p| - 1], q[j], q[j + 1]);
        assert IsPair(p, q, |p| - 2, j);
      } else {
        SegmentsMinAttained(init, q);
        var i, j :| IsPair(init, q, i, j) && SegmentsMin(init, q).sq == PairDistance(init, q, i, j);
        assert IsPair(p, q, i, j) && PairDistance(init, q, i, j) == PairDistance(p, q, i, j);
      }
    }
  }

  // ---------------------------------------------------------------- absorption

  /** What `unionGreenNodule` / `unionRedNodules` do with a region of the colour within
      reach of the mixed region: leave it (its clump already belongs to a mixed region),
      link its clump at position `pos`, or remove it from its dataset. */
  datatype Decision = Skip | LinkClump(pos: int) | Drop

  function Decide(cs: seq<ClumpVal>, index: int): (r: Decision)
    ensures r == Drop <==> forall k :: 0 <= k < |cs| ==> cs[k].index != index
    ensures r.LinkClump? ==> 0 <= r.pos < |cs| && cs[r.pos].index == index && !cs[r.pos].hasMixed
    ensures r == Skip ==> exists k :: 0 <= k < |cs| && cs[k].index == index && cs[k].hasMixed
  {
    var p := ClumpPos(cs, index);
    if p == -1 then Drop else if cs[p].hasMixed then Skip else LinkClump(p)
  }

  /** Linking a clump marks it as taken and changes nothing else, so the clump list stays
      well indexed and the next look at the same region skips it. */
  lemma LinkThenSkip(cs: seq<ClumpVal>, n: int, index: int)
    requires WellIndexed(cs, n) && Decide(cs, index).LinkClump?
    ensures var p := Decide(cs, index).pos;
      var marked := cs[p := cs[p].(hasMixed := true)];
      WellIndexed(marked, n) && Decide(marked, index) == Skip
  {
    var p := Decide(cs, index).pos;
    var marked := cs[p := cs[p].(hasMixed := true)];
    assert forall k :: 0 <= k < |cs| ==> marked[k].index == cs[k].index;
    var q := ClumpPos(marked, index);
    assert q != -1 by {
      assert marked[p].index == index;
    }
    assert !(q < p) by {
      assert cs[q].index == index;
    }
    assert !(p < q);
  }

  /** A colour region lying less than half a pixel from a mixed region: the test of
      `unionGreenNodule` and `unionRedNodules`. */
  predicate Touches(geom: Geometry, mixed: Region, r: Region)
  {
    Within(ClosestDistance(geom, mixed.outline, r.outline), 0.5)
  }

  /** Region `e` has a clump and a mixed region has absorbed it. */
  predicate Absorbed(cs: seq<ClumpVal>, e: int)
  {
    var p := ClumpPos(cs, e);
    p != -1 && cs[p].hasMixed
  }

  /** The invariant of column `col` of `clumped` against the clumps of that colour: every
      non-empty entry names an absorbed clump, and no two rows name the same one. */
  predicate LinksAbsorbed(links: seq<Link>, col: Column, cs: seq<ClumpVal>)
  {
    && (forall k :: 0 <= k < |links| ==> Entry(links[k], col) == -1 || Absorbed(cs, Entry(links[k], col)))
    && (forall a, b :: 0 <= a < b < |links| && Entry(links[a], col) != -1 ==>
          Entry(links[a], col) != Entry(links[b], col))
  }

  /** The invariant of a column depends on that column's entries alone. */
  lemma LinksAbsorbedOther(a: seq<Link>, b: seq<Link>, col: Column, cs: seq<ClumpVal>)
    requires LinksAbsorbed(a, col, cs) && |a| == |b|
    requires forall k :: 0 <= k < |a| ==> Entry(b[k], col) == Entry(a[k], col)
    ensures LinksAbsorbed(b, col, cs)
  {
  }

  /** In a well-indexed clump list, the clump naming a region is the only one. */
  lemma ClumpPosUnique(cs: seq<ClumpVal>, n: int, q: int)
    requires WellIndexed(cs, n) && 0 <= q < |cs|
    ensures ClumpPos(cs, cs[q].index) == q
  {
    var p := ClumpPos(cs, cs[q].index);
    assert p != -1 && cs[p].index == cs[q].index;
  }

  /** Linking region `index` into row `row` keeps the invariant: the clump is marked as
      absorbed, and no other row named it since it was not absorbed before. */
  lemma {:induction false} LinkKeepsAbsorbed(links: seq<Link>, col: Column, cs: seq<ClumpVal>, n: int,
                                             row: int, index: int)
    requires WellIndexed(cs, n) && LinksAbsorbed(links, col, cs)
    requires Decide(cs, index).LinkClump? && 0 <= row < |links|
    ensures var p := Decide(cs, index).pos;
      LinksAbsorbed(links[row := WithEntry(links[row], col, index)], col,
                    cs[p := cs[p].(hasMixed := true)])
  {
    var p := Decide(cs, index).pos;
    var marked := cs[p := cs[p].(hasMixed := true)];
    var nl := links[row := WithEntry(links[row], col, index)];
    LinkThenSkip(cs, n, index);
    assert forall k :: 0 <= k < |cs| ==> marked[k].index == cs[k].index;
    forall k | 0 <= k < |nl| && Entry(nl[k], col) != -1
      ensures Absorbed(marked, Entry(nl[k], col))
    {
      var e := Entry(nl[k], col);
      if k == row {
        ClumpPosUnique(marked, n, p);
      } else {
        var q := ClumpPos(cs, e);
        assert Absorbed(cs, e);
        ClumpPosUnique(cs, n, q);
        ClumpPosUnique(marked, n, q);
        assert marked[q].hasMixed;
      }
    }
    forall a, b | 0 <= a < b < |nl| && Entry(nl[a], col) != -1
      ensures Entry(nl[a], col) != Entry(nl[b], col)
    {
      if a == row {
        assert Entry(nl[b], col) == Entry(links[b], col);
        assert !Absorbed(cs, index);
      } else if b == row {
        assert Entry(nl[a], col) == Entry(links[a], col);
        assert Absorbed(cs, Entry(links[a], col));
      } else {
        assert Entry(nl[a], col) == Entry(links[a], col);
      }
    }
  }

  /** Renumbering the clumps after a region without a clump leaves keeps them well
      indexed against one region fewer. */
  lemma ShiftKeepsIndexed(cs: seq<ClumpVal>, n: int, index: int)
    requires WellIndexed(cs, n) && 0 <= index < n
    requires forall k :: 0 <= k < |cs| ==> cs[k].index != index
    ensures WellIndexed(ShiftAbove(cs, index), n - 1)
  {
    var sh := ShiftAbove(cs, index);
    forall a, b | 0 <= a < b < |sh|
      ensures sh[a].index != sh[b].index
    {
      assert cs[a].index != cs[b].index;
    }
  }

  /** Dropping region `index`, which has no clump, keeps the invariant against the clumps
      the removal renumbers: every entry moves down exactly as the clump it names. */
  lemma DropKeepsAbsorbed(links: seq<Link>, col: Column, cs: seq<ClumpVal>, n: int, index: int)
    requires WellIndexed(cs, n) && LinksAbsorbed(links, col, cs)
    requires Decide(cs, index) == Drop && 0 <= index < n
    ensures WellIndexed(ShiftAbove(cs, index), n - 1)
    ensures LinksAbsorbed(DecrementAbove(links, col, index), col, ShiftAbove(cs, index))
  {
    ShiftKeepsIndexed(cs, n, index);
    DropEntriesAbsorbed(links, col, cs, n, index);
    DropEntriesDistinct(links, col, cs, index);
  }

  /** After the drop, every non-empty entry still names an absorbed clump. */
  lemma DropEntriesAbsorbed(links: seq<Link>, col: Column, cs: seq<ClumpVal>, n: int, index: int)
    requires WellIndexed(cs, n) && LinksAbsorbed(links, col, cs) && 0 <= index < n
    requires forall k :: 0 <= k < |cs| ==> cs[k].index != index
    ensures var nl := DecrementAbove(links, col, index);
      forall k :: 0 <= k < |nl| ==> Entry(nl[k], col) == -1 || Absorbed(ShiftAbove(cs, index), Entry(nl[k], col))
  {
    var sh := ShiftAbove(cs, index);
    var nl := DecrementAbove(links, col, index);
    ShiftKeepsIndexed(cs, n, index);
    forall k | 0 <= k < |nl| && Entry(nl[k], col) != -1
      ensures Absorbed(sh, Entry(nl[k], col))
    {
      var e := Entry(links[k], col);
      assert e != -1;
      var q := ClumpPos(cs, e);
      assert Absorbed(cs, e);
      assert sh[q].index == Entry(nl[k], col);
      ClumpPosUnique(sh, n - 1, q);
    }
  }

  /** After the drop, no two rows name the same region: moving every entry above `index`
      down by one is one-to-one on entries other than `index`. */
  lemma DropEntriesDistinct(links: seq<Link>, col: Column, cs: seq<ClumpVal>, index: int)
    requires LinksAbsorbed(links, col, cs) && 0 <= index
    requires forall k :: 0 <= k < |cs| ==> cs[k].index != index
    ensures var nl := DecrementAbove(links, col, index);
      forall a, b :: 0 <= a < b < |nl| && Entry(nl[a], col) != -1 ==> Entry(nl[a], col) != Entry(nl[b], col)
  {
    var nl := DecrementAbove(links, col, index);
    forall a, b | 0 <= a < b < |nl| && Entry(nl[a], col) != -1
      ensures Entry(nl[a], col) != Entry(nl[b], col)
    {
      var ea := Entry(links[a], col);
      var eb := Entry(links[b], col);
      assert ea != -1;
      assert Absorbed(cs, ea);
      if eb != -1 {
        assert Absorbed(cs, eb);
      }
    }
  }

  /** Changing clump fields other than the index keeps a dataset consistent. */
  lemma RetagKeepsConsistent(d: Dataset, cs: seq<ClumpVal>)
    requires Consistent(d) && d.clumps.Some? && |cs| == |d.clumps.value|
    requires forall k :: 0 <= k < |cs| ==> cs[k].index == d.clumps.value[k].index
    ensures Consistent(d.(clumps := Some(cs)))
  {
    var n := |Rois(d)|;
    assert WellIndexed(d.clumps.value, n);
    forall a, b | 0 <= a < b < |cs|
      ensures cs[a].index != cs[b].index
    {
      assert d.clumps.value[a].index != d.clumps.value[b].index;
    }
  }

  /** Giving one clump a new region keeps a dataset consistent. */
  lemma RetagOneKeepsConsistent(d: Dataset, p: int, roi: Region)
    requires Consistent(d) && d.clumps.Some? && 0 <= p < |d.clumps.value|
    ensures var cs := d.clumps.value;
      Consistent(d.(clumps := Some(cs[p := cs[p].(roi := roi)])))
  {
    var cs := d.clumps.value;
    RetagKeepsConsistent(d, cs[p := cs[p].(roi := roi)]);
  }

  /** The pixel count `updateData` records for one colour of a row: the region's own count
      when the row links no clump of that colour, otherwise the linked clump's per-nodule
      area cut to an integer, or 0 when no clump has that index (the lookup's failure is
      caught and the fresh array's zero stays). */
  function LinkedCount(own: int, e: int, cs: seq<ClumpVal>): int
  {
    if e == -1 then own
    else if ClumpPos(cs, e) == -1 then 0
    else TruncToInt(cs[ClumpPos(cs, e)].area)
  }

  /** One colour's half of a `(red, green)` pixel count. */
  function CountOf(c: (nat, nat), col: Column): nat
  {
    if col == RedColumn then c.0 else c.1
  }

  /** Two clump lists that differ at most in the clumps' regions. */
  predicate SameClumps(a: seq<ClumpVal>, b: seq<ClumpVal>)
  {
    && |a| == |b|
    && forall k :: 0 <= k < |a| ==>
         a[k].index == b[k].index && a[k].area == b[k].area && a[k].hasMixed == b[k].hasMixed
  }

  /** Lookups by region position only see the clumps' indices. */
  lemma {:induction false} ClumpPosSame(a: seq<ClumpVal>, b: seq<ClumpVal>, e: int)
    requires SameClumps(a, b)
    ensures ClumpPos(a, e) == ClumpPos(b, e)
  {
    if |a| > 0 && a[0].index != e {
      assert SameClumps(a[1..], b[1..]);
      ClumpPosSame(a[1..], b[1..], e);
    }
  }

  lemma SameClumpsTrans(a: seq<ClumpVal>, b: seq<ClumpVal>, c: seq<ClumpVal>)
    requires SameClumps(a, b) && SameClumps(b, c)
    ensures SameClumps(a, c)
  {
  }

  /** The count `updateData` takes from a clump only sees its index and area. */
  lemma LinkedCountSame(own: int, e: int, a: seq<ClumpVal>, b: seq<ClumpVal>)
    requires SameClumps(a, b)
    ensures LinkedCount(own, e, a) == LinkedCount(own, e, b)
  {
    ClumpPosSame(a, b, e);
  }

  /** The linkage invariant only sees the clumps' indices and marks. */
  lemma LinksAbsorbedSame(links: seq<Link>, col: Column, a: seq<ClumpVal>, b: seq<ClumpVal>)
    requires SameClumps(a, b) && LinksAbsorbed(links, col, a)
    ensures LinksAbsorbed(links, col, b)
  {
    forall k | 0 <= k < |links| && Entry(links[k], col) != -1
      ensures Absorbed(b, Entry(links[k], col))
    {
      ClumpPosSame(a, b, Entry(links[k], col));
    }
  }

  /** The rows `[0, n)` of `updateData` recorded so far for column `col`: each pixel count
      is the region's own count or its linked clump's area. */
  predicate CountsUpTo(pix: seq<int>, img: Image, rois: seq<Region>, links: seq<Link>, col: Column,
                       cs: seq<ClumpVal>, n: int)
    requires img.WellFormed()
  {
    && 0 <= n <= |pix| && n <= |rois| && n <= |links|
    && forall k :: 0 <= k < n ==>
         pix[k] == LinkedCount(CountOf(ColoredArea(img, rois[k].points), col), Entry(links[k], col), cs)
  }

  /** What `updateData` leaves for its first `n` rows, given the red and green counts it
      recorded: each count is the region's own or its linked clump's area, each area row
      holds the sum of the two (later rows unchanged), the clumps differ at most in their
      regions, and every linked clump and its region took the mixed region over. `rows0`,
      `red0` and `green0` are the area rows and clumps before, the rest after. */
  predicate RowsMeasured(img: Image, rs: seq<Region>, links: seq<Link>, n: int,
                         reds: seq<int>, greens: seq<int>, rows0: seq<AreaRow>, rows1: seq<AreaRow>,
                         red0: seq<ClumpVal>, red1: seq<ClumpVal>, redRois: seq<Region>,
                         green0: seq<ClumpVal>, green1: seq<ClumpVal>, greenRois: seq<Region>)
    requires img.WellFormed()
  {
    && |reds| == n && |greens| == n
    && CountsUpTo(reds, img, rs, links, RedColumn, red0, n)
    && CountsUpTo(greens, img, rs, links, GreenColumn, green0, n)
    && |rows1| == |rows0| && n <= |rows0|
    && (forall k :: 0 <= k < n ==> rows1[k] == rows0[k].(pixels := reds[k] + greens[k]))
    && (forall k :: n <= k < |rows1| ==> rows1[k] == rows0[k])
    && SameClumps(red0, red1) && SameClumps(green0, green1)
    && (LinksAbsorbed(links, RedColumn, red0) ==> TakenOver(links, RedColumn, red1, redRois, rs, n))
    && (LinksAbsorbed(links, GreenColumn, green0) ==> TakenOver(links, GreenColumn, green1, greenRois, rs, n))
  }

  /** The rows `[0, n)` of `updateData` handed over so far for column `col`: the clump a
      row links, and its region's place in the colour dataset, hold the row's mixed region. */
  predicate TakenOver(links: seq<Link>, col: Column, cs: seq<ClumpVal>, srcRois: seq<Region>,
                      rois: seq<Region>, n: int)
  {
    && 0 <= n <= |links| && n <= |rois|
    && forall k :: 0 <= k < n && Entry(links[k], col) != -1 ==>
         var e := Entry(links[k], col);
         && ClumpPos(cs, e) != -1 && cs[ClumpPos(cs, e)].roi == rois[k]
         && 0 <= e < |srcRois| && srcRois[e] == rois[k]
  }

  /** One colour of an `updateData` row, on that colour's clumps `cs0` and regions `rs0`:
      a found linked clump takes `roi`, and so does the region it names; otherwise nothing
      changes. */
  predicate HandedOver(cs0: seq<ClumpVal>, rs0: seq<Region>, e: int, roi: Region,
                       cs1: seq<ClumpVal>, rs1: seq<Region>)
  {
    && SameClumps(cs0, cs1)
    && if e != -1 && ClumpPos(cs0, e) != -1 then
         var p := ClumpPos(cs0, e);
         && cs1 == cs0[p := cs0[p].(roi := roi)]
         && 0 <= e < |rs0| && rs1 == rs0[e := roi]
       else
         cs1 == cs0 && rs1 == rs0
  }

  /** The clump list of a colour dataset, empty when it has none. */
  function ClumpsOf(d: Dataset): seq<ClumpVal>
  {
    if d.clumps.Some? then d.clumps.value else []
  }

  /** One colour of an `updateData` row on the colour dataset `d` (`getClump`, then
      `setRoi`): when the row links region `e` and `d` has its clump, the clump takes the
      mixed region `roi`, and so does position `e`, whose area row and the pixel cache
      follow the new region; with no link, no clump list or no such clump (the caught
      exception) nothing changes. In a consistent dataset a clump's region always has its
      place and its area row (`HandOverSpecKeeps`), so the last guard never holds there. */
  function HandOverSpec(d: Dataset, e: int, roi: Region, width: int): Dataset
  {
    if e == -1 || d.clumps.Null? || ClumpPos(d.clumps.value, e) == -1 then d
    else if !(d.rois.Some? && d.areas.Some? && 0 <= e < |d.areas.value|) then d
    else
      var cs := d.clumps.value;
      var p := ClumpPos(cs, e);
      SetRoiSpec(d.(clumps := Some(cs[p := cs[p].(roi := roi)])), e, roi, width)
  }

  /** What one handover leaves of a consistent colour dataset: a consistent dataset in
      which the clump and the region it names take the mixed region, as `HandedOver` says;
      the area row of that region counts the mixed region's pixels and the pixel cache is
      that of the new regions; nothing else changes. */
  lemma HandOverSpecKeeps(d: Dataset, e: int, roi: Region, width: int)
    requires Consistent(d)
    ensures var r := HandOverSpec(d, e, roi, width);
      && Consistent(r)
      && r.numNodules == d.numNodules && r.table == d.table
      && r.circularity == d.circularity && r.singles == d.singles
      && r.rois.Some? == d.rois.Some? && r.clumps.Some? == d.clumps.Some?
      && HandedOver(ClumpsOf(d), Rois(d), e, roi, ClumpsOf(r), Rois(r))
      && r.areas.Some? == d.areas.Some? && (r.areas.Some? ==> |r.areas.value| == |d.areas.value|)
      && (r != d ==>
            && 0 <= e < |Rois(d)| && d.areas.Some?
            && r.areas.value == d.areas.value[e := d.areas.value[e].(pixels := roi.PixelCount())]
            && r.pixels == Some(PixelCache(Rois(r), width)))
  {
    if e != -1 && d.clumps.Some? && ClumpPos(d.clumps.value, e) != -1 {
      var cs := d.clumps.value;
      var p := ClumpPos(cs, e);
      var t := d.(clumps := Some(cs[p := cs[p].(roi := roi)]));
      RetagOneKeepsConsistent(d, p, roi);
      SetRoiConsistent(t, e, roi, width);
    }
  }

  /** No row among rows `[k, n)` links region `j` in column `col`. */
  predicate Unlinked(links: seq<Link>, col: Column, k: int, n: int, j: int)
    requires 0 <= k && n <= |links|
  {
    forall i :: k <= i < n ==> Entry(links[i], col) != j
  }

  /** Column `col` of `updateData`'s rows `[k, n)` on the colour dataset `d`: each row in
      turn hands its linked clump and region over to its mixed region `rs[i]`. */
  function HandOverFrom(d: Dataset, links: seq<Link>, col: Column, rs: seq<Region>, k: nat, n: nat,
                        width: int): Dataset
    requires k <= n <= |links| && n <= |rs|
    decreases n - k
  {
    if k == n then d
    else HandOverFrom(HandOverSpec(d, Entry(links[k], col), rs[k], width), links, col, rs, k + 1, n, width)
  }

  /** Column `col` of `updateData`'s first `n` rows on the colour dataset `d`. */
  function HandOverRows(d: Dataset, links: seq<Link>, col: Column, rs: seq<Region>, n: nat, width: int): Dataset
    requires n <= |links| && n <= |rs|
  {
    HandOverFrom(d, links, col, rs, 0, n, width)
  }

  /** What the rows of `updateData` leave of a consistent colour dataset: a consistent
      dataset in which every position no row links keeps its region and its area row;
      nothing but regions, area rows, the clumps' regions and the pixel cache changes; and
      the cache, once anything changed, is that of the new regions. */
  lemma {:induction false} HandOverRowsKeep(d: Dataset, links: seq<Link>, col: Column, rs: seq<Region>,
                                           k: nat, n: nat, width: int)
    requires Consistent(d) && k <= n <= |links| && n <= |rs|
    ensures var r := HandOverFrom(d, links, col, rs, k, n, width);
      && Consistent(r)
      && r.numNodules == d.numNodules && r.table == d.table
      && r.circularity == d.circularity && r.singles == d.singles
      && r.rois.Some? == d.rois.Some? && r.clumps.Some? == d.clumps.Some?
      && |Rois(r)| == |Rois(d)| && SameClumps(ClumpsOf(d), ClumpsOf(r))
      && r.areas.Some? == d.areas.Some? && (r.areas.Some? ==> |r.areas.value| == |d.areas.value|)
      && (forall j :: 0 <= j < |Rois(d)| && Unlinked(links, col, k, n, j) ==> Rois(r)[j] == Rois(d)[j])
      && (d.areas.Some? ==>
            forall j :: 0 <= j < |d.areas.value| && Unlinked(links, col, k, n, j) ==> r.areas.value[j] == d.areas.value[j])
      && (r == d || r.pixels == Some(PixelCache(Rois(r), width)))
    decreases n - k
  {
    if k < n {
      var e := Entry(links[k], col);
      HandOverSpecKeeps(d, e, rs[k], width);
      var t := HandOverSpec(d, e, rs[k], width);
      HandOverRowsKeep(t, links, col, rs, k + 1, n, width);
      var r := HandOverFrom(t, links, col, rs, k + 1, n, width);
      assert r == HandOverFrom(d, links, col, rs, k, n, width);
      SameClumpsTrans(ClumpsOf(d), ClumpsOf(t), ClumpsOf(r));
    }
  }

  /** Handing row `n` over keeps the earlier rows handed over, because no two rows link the
      same clump. */
  lemma TakenOverStep(links: seq<Link>, col: Column, cs: seq<ClumpVal>, srcRois: seq<Region>,
                      rois: seq<Region>, n: int, cs1: seq<ClumpVal>, rs1: seq<Region>)
    requires TakenOver(links, col, cs, srcRois, rois, n) && n < |links| && n < |rois|
    requires LinksAbsorbed(links, col, cs)
    requires HandedOver(cs, srcRois, Entry(links[n], col), rois[n], cs1, rs1)
    ensures TakenOver(links, col, cs1, rs1, rois, n + 1)
  {
    var e := Entry(links[n], col);
    if e != -1 {
      assert Absorbed(cs, e);
    }
    forall k | 0 <= k < n + 1 && Entry(links[k], col) != -1
      ensures var f := Entry(links[k], col);
        && ClumpPos(cs1, f) != -1 && cs1[ClumpPos(cs1, f)].roi == rois[k]
        && 0 <= f < |rs1| && rs1[f] == rois[k]
    {
      var f := Entry(links[k], col);
      ClumpPosSame(cs, cs1, f);
      if k < n && e != -1 {
        assert f != e;
        assert cs[ClumpPos(cs, f)].index == f;
      }
    }
  }

  /** The regions still to be considered once `x` is dealt with: every copy of `x` goes
      (the identity filter on `consideredRois`). */
  function Omit<T(==)>(rs: seq<T>, x: T): (r: seq<T>)
    ensures forall k :: 0 <= k < |r| ==> r[k] in rs && r[k] != x
    ensures forall k :: 0 <= k < |rs| && rs[k] != x ==> rs[k] in r
    ensures |r| <= |rs|
    ensures x in rs ==> |r| < |rs|
  {
    if |rs| == 0 then []
    else
      var init := Omit(rs[..|rs| - 1], x);
      var last := rs[|rs| - 1];
      assert rs == rs[..|rs| - 1] + [last];
      if last == x then init else init + [last]
  }

  // ---------------------------------------------------------------- mixed dataset

  /** Everything the mixed dataset holds: the colour dataset it extends, the red and green
      pixel counts per region, and the linkage table. */
  datatype MixedState = MixedState(
    base: Dataset,
    red: Opt<seq<int>>,
    green: Opt<seq<int>>,
    links: Opt<seq<Link>>)

  /** The arrays `updateData` establishes: one pixel count of each colour and one linkage
      row per region. */
  predicate Linked(m: MixedState)
  {
    && m.red.Some? && m.green.Some? && m.links.Some?
    && |m.red.value| == |Rois(m.base)|
    && |m.green.value| == |Rois(m.base)|
    && |m.links.value| == |Rois(m.base)|
  }

  /** `addRoi` on the mixed dataset: the colour dataset appends the region, the linkage
      table gains an empty row and each pixel array gains the region's count. The copy
      loop runs over the red array's length, so a longer green array comes back with
      zeros past that length. */
  function AddMixedSpec(m: MixedState, roi: Region, width: int, c: (nat, nat)): (r: MixedState)
    requires m.base.rois.Some? && m.red.Some? && m.green.Some? && m.links.Some?
    requires |m.red.value| <= |m.green.value|
  {
    var red := m.red.value;
    var green := m.green.value;
    MixedState(
      AddRoiSpec(m.base, roi, width),
      Some(red + [c.0]),
      Some(green[..|red|] + seq(|green| - |red|, _ => 0) + [c.1]),
      Some(m.links.value + [UNLINKED]))
  }

  /** Appending keeps the arrays aligned: every earlier row is kept, the new linkage row
      is empty and the new pixel counts are the region's. */
  lemma AddMixedLinked(m: MixedState, roi: Region, width: int, c: (nat, nat))
    requires Linked(m) && m.base.rois.Some?
    ensures var r := AddMixedSpec(m, roi, width, c);
      && Linked(r)
      && r.links.value == m.links.value + [UNLINKED]
      && r.red.value == m.red.value + [c.0]
      && r.green.value == m.green.value + [c.1]
      && r.base.numNodules == m.base.numNodules + 1
  {
    assert m.green.value[..|m.red.value|] == m.green.value;
  }

  /** `removeRoi` on the mixed dataset. The colour dataset removes the region; when the
      pixel arrays exist, the same position leaves both of them and the linkage table and
      the count drops by one. `false` stands for the exception Java raises when the
      arrays exist but the region is not one of the dataset's: nothing changes then. */
  function RemoveMixedSpec(m: MixedState, roi: Region, width: int): (r: (bool, MixedState))
    requires m.base.rois.Some? && AreasAligned(m.base)
    requires m.green.Some? ==> m.red.Some? && m.links.Some?
    requires m.green.Some? && roi in Rois(m.base) ==>
      var i := IndexOf(Rois(m.base), roi);
      i < |m.red.value| && i < |m.green.value| && i < |m.links.value|
    ensures !r.0 ==> r.1 == m
  {
    var i := IndexOf(Rois(m.base), roi);
    var b := RemoveRoiSpec(m.base, roi, width).1;
    if m.green.Null? then (true, m.(base := b))
    else if i == -1 then (false, m)
    else
      (true, MixedState(
        b.(numNodules := b.numNodules - 1),
        Some(Without(m.red.value, i)),
        Some(Without(m.green.value, i)),
        Some(Without(m.links.value, i))))
  }

  /** Removing a region of a linked dataset drops the same position from every array, so
      the arrays stay aligned; with the pixel arrays present and no clumps, the count drops
      by exactly one. */
  lemma RemoveMixedLinked(m: MixedState, roi: Region, width: int)
    requires Linked(m) && m.base.rois.Some? && Consistent(m.base) && m.base.clumps.Null?
    requires roi in Rois(m.base)
    ensures var (ok, r) := RemoveMixedSpec(m, roi, width);
      var i := IndexOf(Rois(m.base), roi);
      && ok && Linked(r) && Consistent(r.base)
      && Rois(r.base) == Without(Rois(m.base), i)
      && r.red.value == Without(m.red.value, i)
      && r.green.value == Without(m.green.value, i)
      && r.links.value == Without(m.links.value, i)
      && r.base.numNodules == m.base.numNodules - 1
  {
    var i := IndexOf(Rois(m.base), roi);
    RemoveAtConsistent(m.base, i, width);
  }

  /** `setRoi` on the mixed dataset: the colour dataset replaces the region and, when the
      pixel arrays exist, both take the new region's counts at `index`. */
  function SetMixedSpec(m: MixedState, index: int, roi: Region, width: int, c: (nat, nat)): (r: MixedState)
    requires m.base.rois.Some? && m.base.areas.Some? && 0 <= index < |m.base.areas.value|
    requires m.red.Some? ==> m.green.Some? && index < |m.red.value| && index < |m.green.value|
  {
    MixedState(
      SetRoiSpec(m.base, index, roi, width),
      if m.red.Some? then Some(m.red.value[index := c.0]) else Null,
      if m.red.Some? then Some(m.green.value[index := c.1]) else m.green,
      m.links)
  }

  /** Replacing a region keeps a linked dataset linked and its linkage unchanged, and the
      pixel counts at `index` become the new region's. */
  lemma SetMixedLinked(m: MixedState, index: int, roi: Region, width: int, c: (nat, nat))
    requires Linked(m) && m.base.rois.Some? && m.base.areas.Some? && Consistent(m.base)
    requires 0 <= index < |Rois(m.base)|
    ensures index < |m.base.areas.value|
    ensures var r := SetMixedSpec(m, index, roi, width, c);
      && Linked(r) && Consistent(r.base) && r.links == m.links
      && Rois(r.base)[index] == roi
      && r.red.value[index] == c.0 && r.green.value[index] == c.1
  {
  }

  /** `removeFromClumped`: no change when the table is null or `index` is not one of its
      rows, otherwise exactly that row goes. */
  function RemoveFromClumpedSpec(links: Opt<seq<Link>>, index: int): (r: Opt<seq<Link>>)
    ensures links.Null? ==> r.Null?
    ensures links.Some? && 0 <= index < |links.value| ==> r == Some(Without(links.value, index))
    ensures links.Some? && !(0 <= index < |links.value|) ==> r == links
  {
    if links.Null? || !(0 <= index < |links.value|) then links
    else Some(Without(links.value, index))
  }

  // ---------------------------------------------------------------- merging mixed regions

  /** Two different regions whose outlines are less than 3 pixels apart. */
  predicate Close(geom: Geometry, a: Region, b: Region)
  {
    a != b && Within(ClosestDistance(geom, a.outline, b.outline), 3.0)
  }

  /** First position `j` of `rs` whose region is close to `a`, or -1. */
  function FirstClose(geom: Geometry, rs: seq<Region>, a: Region): (j: int)
    ensures -1 <= j < |rs|
    ensures 0 <= j ==> Close(geom, a, rs[j])
  {
    if |rs| == 0 then -1
    else
      var j := FirstClose(geom, rs[..|rs| - 1], a);
      if j != -1 then j
      else if Close(geom, a, rs[|rs| - 1]) then |rs| - 1
      else -1
  }

  /** The inner scan finds the first close region, and -1 only when there is none. */
  lemma {:induction false} FirstCloseSpec(geom: Geometry, rs: seq<Region>, a: Region)
    ensures FirstClose(geom, rs, a) == -1 <==> forall k :: 0 <= k < |rs| ==> !Close(geom, a, rs[k])
    ensures forall k :: 0 <= k < FirstClose(geom, rs, a) ==> !Close(geom, a, rs[k])
  {
    if |rs| > 0 {
      var init := rs[..|rs| - 1];
      FirstCloseSpec(geom, init, a);
      assert forall k :: 0 <= k < |init| ==> init[k] == rs[k];
    }
  }

  /** The pair `unionMixedNodules` merges: the first position `i` from `from` on that has a
      close region, with the first such region `j`. */
  function FirstPairFrom(geom: Geometry, rs: seq<Region>, from: nat): (r: Opt<(int, int)>)
    ensures r.Some? ==> from <= r.value.0 < |rs| && r.value.1 == FirstClose(geom, rs, rs[r.value.0]) != -1
    decreases |rs| - from
  {
    if from >= |rs| then Null
    else if FirstClose(geom, rs, rs[from]) != -1 then Some((from, FirstClose(geom, rs, rs[from])))
    else FirstPairFrom(geom, rs, from + 1)
  }

  /** The scan finds a pair exactly when some position from `from` on has a close region,
      and every position it passes over has none. */
  lemma {:induction false} FirstPairFromSpec(geom: Geometry, rs: seq<Region>, from: nat)
    ensures FirstPairFrom(geom, rs, from).Null? <==>
      forall i :: from <= i < |rs| ==> FirstClose(geom, rs, rs[i]) == -1
    ensures FirstPairFrom(geom, rs, from).Some? ==>
      forall i :: from <= i < FirstPairFrom(geom, rs, from).value.0 ==> FirstClose(geom, rs, rs[i]) == -1
    decreases |rs| - from
  {
    if from < |rs| && FirstClose(geom, rs, rs[from]) == -1 {
      FirstPairFromSpec(geom, rs, from + 1);
    }
  }

  /** A scan that passes over positions `from` to `i - 1` and finds a close region for
      position `i` reports the pair at `i`. */
  lemma {:induction false} FirstPairFromFinds(geom: Geometry, rs: seq<Region>, from: nat, i: int)
    requires from <= i < |rs| && FirstClose(geom, rs, rs[i]) != -1
    requires forall k :: from <= k < i ==> FirstClose(geom, rs, rs[k]) == -1
    ensures FirstPairFrom(geom, rs, from) == Some((i, FirstClose(geom, rs, rs[i])))
    decreases i - from
  {
    if from < i {
      FirstPairFromFinds(geom, rs, from + 1, i);
    }
  }

  /** One round of `unionMixedNodules`, given the merged region `u` the geometry builds:
      region `i` becomes `u`, the partner leaves through the mixed `removeRoi`, its row
      leaves `clumped`, and the count drops by one. The pixel arrays do not exist yet. */
  function UnionMixedSpec(m: MixedState, i: int, j: int, u: Region, width: int): (r: MixedState)
    requires m.red.Null? && m.green.Null?
    requires m.base.rois.Some? && m.base.areas.Some? && Consistent(m.base)
    requires 0 <= i < |Rois(m.base)| && 0 <= j < |Rois(m.base)|
  {
    var roi2 := Rois(m.base)[j];
    var s := SetMixedSpec(m, i, u, width, (0, 0));
    var index := IndexOf(Rois(s.base), roi2);
    var removed := RemoveMixedSpec(s, roi2, width).1;
    removed.(base := removed.base.(numNodules := removed.base.numNodules - 1),
             links := RemoveFromClumpedSpec(removed.links, index))
  }

  /** A merge of two different regions, even when the list names one of them twice, takes
      exactly one region away and lowers the count by exactly one. */
  lemma UnionMixedCount(m: MixedState, i: int, j: int, u: Region, width: int)
    requires m.red.Null? && m.green.Null? && m.base.clumps.Null?
    requires m.base.rois.Some? && m.base.areas.Some? && Consistent(m.base)
    requires 0 <= i < |Rois(m.base)| && 0 <= j < |Rois(m.base)| && Rois(m.base)[i] != Rois(m.base)[j]
    ensures var r := UnionMixedSpec(m, i, j, u, width);
      && |Rois(r.base)| == |Rois(m.base)| - 1
      && r.base.numNodules == m.base.numNodules - 1
  {
    var s := SetMixedSpec(m, i, u, width, (0, 0));
    SetRoiConsistent(m.base, i, u, width);
    var roi2 := Rois(m.base)[j];
    assert Rois(s.base)[j] == roi2;
  }

  /** A merge of two distinct regions leaves one region fewer, with the merged region in
      place of the first and the second one gone, every other region in order, and the
      count one lower. */
  lemma UnionMixedMerges(m: MixedState, i: int, j: int, u: Region, width: int)
    requires m.red.Null? && m.green.Null? && m.base.clumps.Null?
    requires m.base.rois.Some? && m.base.areas.Some? && Consistent(m.base)
    requires 0 <= i < |Rois(m.base)| && 0 <= j < |Rois(m.base)| && i != j
    requires NoDuplicates(Rois(m.base)) && u !in Rois(m.base)
    ensures var r := UnionMixedSpec(m, i, j, u, width);
      && Consistent(r.base) && r.base.clumps.Null?
      && Rois(r.base) == Without(Rois(m.base)[i := u], j)
      && |Rois(r.base)| == |Rois(m.base)| - 1
      && r.base.numNodules == m.base.numNodules - 1
      && u in Rois(r.base) && Rois(m.base)[j] !in Rois(r.base)
      && NoDuplicates(Rois(r.base))
  {
    var rs := Rois(m.base);
    var srs := rs[i := u];
    SetRoiConsistent(m.base, i, u, width);
    var s := SetRoiSpec(m.base, i, u, width);
    assert Rois(s) == srs;
    ReplaceDistinct(rs, i, u, j);
    RemoveAtConsistent(s, j, width);
    var b := RemoveAt(s, j, width);
    UnionMixedBase(m, i, j, u, width);
    var w := Without(srs, j);
    assert Rois(b) == w;
    assert u == w[if i < j then i else i - 1];
    WithoutKeepsDistinct(srs, j);
    DistinctWithoutGone(srs, j);
  }

  /** The dataset half of a merge: region `i` replaced by the union, then region `j`
      removed, and the count one lower. */
  lemma UnionMixedBase(m: MixedState, i: int, j: int, u: Region, width: int)
    requires m.red.Null? && m.green.Null? && m.base.clumps.Null?
    requires m.base.rois.Some? && m.base.areas.Some? && Consistent(m.base)
    requires 0 <= i < |Rois(m.base)| && 0 <= j < |Rois(m.base)| && i != j
    requires NoDuplicates(Rois(m.base)) && u !in Rois(m.base)
    ensures var s := SetRoiSpec(m.base, i, u, width);
      && 0 <= j < |Rois(s)| && j < |s.areas.value|
      && var b := RemoveAt(s, j, width);
         UnionMixedSpec(m, i, j, u, width).base == b.(numNodules := b.numNodules - 1)
  {
    var rs := Rois(m.base);
    var s := SetRoiSpec(m.base, i, u, width);
    ReplaceDistinct(rs, i, u, j);
    assert IndexOf(Rois(s), rs[j]) == j;
    var b := RemoveAt(s, j, width);
    assert RemoveRoiSpec(s, rs[j], width).1 == b;
    assert SetMixedSpec(m, i, u, width, (0, 0)).base == s;
  }

  /** Replacing position `i` of a list of distinct regions by a new one keeps them distinct
      and leaves every other region where it was. */
  lemma ReplaceDistinct<T>(rs: seq<T>, i: int, u: T, j: int)
    requires NoDuplicates(rs) && u !in rs && 0 <= i < |rs| && 0 <= j < |rs| && i != j
    ensures NoDuplicates(rs[i := u])
    ensures IndexOf(rs[i := u], rs[j]) == j
  {
    var srs := rs[i := u];
    assert srs[j] == rs[j];
  }

  /** Dropping position `j` of a duplicate-free list removes that element altogether. */
  lemma DistinctWithoutGone<T>(s: seq<T>, j: int)
    requires NoDuplicates(s) && 0 <= j < |s|
    ensures s[j] !in Without(s, j)
  {
    var w := Without(s, j);
    forall k | 0 <= k < |w|
      ensures w[k] != s[j]
    {
      assert w[k] == s[if k < j then k else k + 1];
    }
  }

  // ---------------------------------------------------------------- rejecting regions

  /** What the user does with the "Is this a mixed nodule?" dialog of `removeFakeNodules`:
      press Yes, press No, or close it without pressing either. */
  datatype Reply = Yes | No | Dismissed

  // `MixedData.YES`, `NO`: the values the buttons store in `BUTTON`, which starts at -1.
  const YES: int := 1
  const NO: int := 0
  const NO_BUTTON_YET: int := -1

  /** `BUTTON` after one dialog: a pressed button sets it, a closed dialog leaves it. */
  function Press(button: int, r: Reply): int
  {
    match r
    case Yes => YES
    case No => NO
    case Dismissed => button
  }

  /** `BUTTON` after the dialogs answered by `replies`, starting from `button`. */
  function ButtonAfter(button: int, replies: seq<Reply>): int
  {
    if |replies| == 0 then button
    else Press(ButtonAfter(button, replies[..|replies| - 1]), replies[|replies| - 1])
  }

  /** `BUTTON` reads No exactly when the last button pressed was No, or when no button
      was pressed and it read No already. */
  lemma {:induction false} ButtonAfterLastPressed(button: int, replies: seq<Reply>)
    ensures ButtonAfter(button, replies) == NO <==>
      || (exists k :: 0 <= k < |replies| && replies[k] == No &&
            forall j :: k < j < |replies| ==> replies[j] == Dismissed)
      || (button == NO && forall j :: 0 <= j < |replies| ==> replies[j] == Dismissed)
  {
    if |replies| > 0 {
      var n := |replies| - 1;
      var init := replies[..n];
      ButtonAfterLastPressed(button, init);
      assert forall j :: 0 <= j < n ==> init[j] == replies[j];
      if replies[n] == Dismissed {
        if ButtonAfter(button, replies) == NO {
          if button == NO && forall j :: 0 <= j < n ==> init[j] == Dismissed {
          } else {
            var k :| 0 <= k < n && init[k] == No && forall j :: k < j < n ==> init[j] == Dismissed;
            assert replies[k] == No && forall j :: k < j < |replies| ==> replies[j] == Dismissed;
          }
        }
      }
    }
  }

  /** The user's answers to the dialogs `removeFakeNodules` shows, one per region in
      order, where `ask` gives the answer to the dialog for a region. */
  function Replies(rs: seq<Region>, ask: Region -> Reply): (r: seq<Reply>)
    ensures |r| == |rs|
  {
    seq(|rs|, k requires 0 <= k < |rs| => ask(rs[k]))
  }

  /** The regions `removeFakeNodules` collects for deletion, in order: those whose dialog
      leaves `BUTTON` at No. */
  function Rejected<T>(rs: seq<T>, button: int, replies: seq<Reply>): seq<T>
    requires |rs| == |replies|
  {
    if |rs| == 0 then []
    else
      var n := |rs| - 1;
      Rejected(rs[..n], button, replies[..n]) + (if ButtonAfter(button, replies) == NO then [rs[n]] else [])
  }

  /** Only listed regions are collected, and of distinct regions exactly those whose
      dialog leaves `BUTTON` at No, each once. */
  lemma {:induction false} RejectedSpec<T>(rs: seq<T>, button: int, replies: seq<Reply>)
    requires |rs| == |replies|
    ensures forall x :: x in Rejected(rs, button, replies) ==> x in rs
    ensures NoDuplicates(rs) ==> NoDuplicates(Rejected(rs, button, replies))
    ensures NoDuplicates(rs) ==> forall k :: 0 <= k < |rs| ==>
      (rs[k] in Rejected(rs, button, replies) <==> ButtonAfter(button, replies[..k + 1]) == NO)
  {
    if |rs| > 0 {
      var n := |rs| - 1;
      var p := Rejected(rs[..n], button, replies[..n]);
      RejectedSpec(rs[..n], button, replies[..n]);
      assert replies[..n + 1] == replies;
      if NoDuplicates(rs) {
        assert rs[n] !in rs[..n] by {
          forall j | 0 <= j < n ensures rs[..n][j] != rs[n] {
            assert rs[..n][j] == rs[j];
          }
        }
        assert NoDuplicates(rs[..n]) by {
          forall a, b | 0 <= a < b < n ensures rs[..n][a] != rs[..n][b] {
            assert rs[..n][a] == rs[a] && rs[..n][b] == rs[b];
          }
        }
        forall k | 0 <= k < n
          ensures rs[k] in Rejected(rs, button, replies) <==> ButtonAfter(button, replies[..k + 1]) == NO
        {
          assert rs[..n][k] == rs[k] && rs[k] != rs[n];
          assert replies[..n][..k + 1] == replies[..k + 1];
        }
      }
    }
  }

  /** Removing one listed region from distinct regions without clumps leaves the others,
      still distinct and consistent, with the count unchanged. */
  lemma RemoveOneMembers(d: Dataset, x: Region, width: int)
    requires d.rois.Some? && Consistent(d) && d.clumps.Null? && NoDuplicates(Rois(d)) && x in Rois(d)
    ensures var r := RemoveRoiSpec(d, x, width).1;
      && r.rois.Some? && Consistent(r) && r.clumps.Null? && NoDuplicates(Rois(r))
      && |Rois(r)| == |Rois(d)| - 1
      && r.numNodules == d.numNodules
      && forall y :: y in Rois(r) <==> y in Rois(d) && y != x
  {
    var rs := Rois(d);
    var i := IndexOf(rs, x);
    var d1 := RemoveAt(d, i, width);
    assert RemoveRoiSpec(d, x, width).1 == d1;
    RemoveAtConsistent(d, i, width);
    WithoutKeepsDistinct(rs, i);
    DistinctWithoutGone(rs, i);
    WithoutMembers(rs, i);
    forall y | y in rs && y != x
      ensures y in Rois(d1)
    {
      WithoutKeeps(rs, i, y);
    }
  }

  /** The removal loop of `removeFakeNodules`: `removeRoi` for each listed region, the last
      one first. */
  function RemoveEvery(d: Dataset, del: seq<Region>, width: int): (r: Dataset)
    requires d.rois.Some? && AreasAligned(d)
    ensures r.rois.Some? && AreasAligned(r)
    decreases |del|
  {
    if |del| == 0 then d
    else RemoveEvery(RemoveRoiSpec(d, del[|del| - 1], width).1, del[..|del| - 1], width)
  }

  /** Removing distinct listed regions from distinct regions without clumps leaves exactly
      the regions not listed, still distinct and consistent, with the count unchanged. */
  lemma {:induction false} RemoveEveryMembers(d: Dataset, del: seq<Region>, width: int)
    requires d.rois.Some? && Consistent(d) && d.clumps.Null? && NoDuplicates(Rois(d))
    requires NoDuplicates(del) && forall k :: 0 <= k < |del| ==> del[k] in Rois(d)
    ensures var r := RemoveEvery(d, del, width);
      && Consistent(r) && r.clumps.Null? && NoDuplicates(Rois(r))
      && |Rois(r)| == |Rois(d)| - |del|
      && r.numNodules == d.numNodules
      && forall x :: x in Rois(r) <==> x in Rois(d) && x !in del
    decreases |del|
  {
    if |del| > 0 {
      var n := |del| - 1;
      var x := del[n];
      var d1 := RemoveRoiSpec(d, x, width).1;
      RemoveOneMembers(d, x, width);
      var rest := del[..n];
      forall k | 0 <= k < |rest|
        ensures rest[k] in Rois(d1)
      {
        assert rest[k] == del[k] && del[k] != x;
      }
      assert NoDuplicates(rest) by {
        forall a, b | 0 <= a < b < n ensures rest[a] != rest[b] {
          assert rest[a] == del[a] && rest[b] == del[b];
        }
      }
      RemoveEveryMembers(d1, rest, width);
      assert del == rest + [x];
    }
  }

  /** Dropping a position takes exactly that element out of the multiset. */
  lemma MultisetWithout<T>(s: seq<T>, i: int)
    requires 0 <= i < |s|
    ensures multiset(Without(s, i)) == multiset(s) - multiset{s[i]}
  {
    assert s == s[..i] + [s[i]] + s[i + 1..];
  }

  /** The collected regions are a sub-multiset of the regions, duplicates or not. */
  lemma {:induction false} RejectedSub<T>(rs: seq<T>, button: int, replies: seq<Reply>)
    requires |rs| == |replies|
    ensures multiset(Rejected(rs, button, replies)) <= multiset(rs)
  {
    if |rs| > 0 {
      var n := |rs| - 1;
      RejectedSub(rs[..n], button, replies[..n]);
      assert rs == rs[..n] + [rs[n]];
    }
  }

  /** Each listed region, duplicates or not, is still there when its turn comes, so
      removing them takes away exactly as many regions; without clumps the count stays. */
  lemma {:induction false} RemoveEveryCount(d: Dataset, del: seq<Region>, width: int)
    requires d.rois.Some? && Consistent(d) && d.clumps.Null?
    requires multiset(del) <= multiset(Rois(d))
    ensures var r := RemoveEvery(d, del, width);
      && Consistent(r) && r.clumps.Null?
      && |Rois(r)| == |Rois(d)| - |del|
      && r.numNodules == d.numNodules
      && (d.areas.Some? ==> r.areas.Some?)
    decreases |del|
  {
    if |del| > 0 {
      var n := |del| - 1;
      var x := del[n];
      var rs := Rois(d);
      assert del == del[..n] + [x];
      assert x in multiset(rs);
      var i := IndexOf(rs, x);
      var d1 := RemoveAt(d, i, width);
      assert RemoveRoiSpec(d, x, width).1 == d1;
      RemoveAtConsistent(d, i, width);
      MultisetWithout(rs, i);
      RemoveEveryCount(d1, del[..n], width);
    }
  }

  /** `removeFakeNodules` takes away as many regions as it lowers the count by, whatever
      the answers, and leaves the dataset consistent. */
  lemma RemoveFakeCount(m: MixedState, button: int, replies: seq<Reply>, width: int)
    requires m.base.rois.Some? && Consistent(m.base) && m.base.clumps.Null?
    requires |replies| == |Rois(m.base)|
    ensures var r := RemoveFakeSpec(m, button, replies, width);
      && r.base.rois.Some? && Consistent(r.base) && r.base.clumps.Null?
      && (m.base.areas.Some? ==> r.base.areas.Some?)
      && r.red == m.red && r.green == m.green && r.links == m.links
      && r.base.numNodules - |Rois(r.base)| == m.base.numNodules - |Rois(m.base)|
  {
    var del := Rejected(Rois(m.base), button, replies);
    RejectedSub(Rois(m.base), button, replies);
    RemoveEveryCount(m.base, del, width);
  }

  /** `removeFakeNodules` before the pixel arrays exist: every rejected region leaves
      through `removeRoi`, the last one first, and the count then drops by their number. */
  function RemoveFakeSpec(m: MixedState, button: int, replies: seq<Reply>, width: int): (r: MixedState)
    requires m.base.rois.Some? && AreasAligned(m.base) && |replies| == |Rois(m.base)|
  {
    var del := Rejected(Rois(m.base), button, replies);
    var b := RemoveEvery(m.base, del, width);
    m.(base := b.(numNodules := b.numNodules - |del|))
  }

  /** On distinct regions without clumps, the regions answered No (as `BUTTON` reads after
      their dialog) are gone and all others stay; the count falls with the number of
      regions, so the count minus the number of regions is kept. */
  lemma RemoveFakeKeeps(m: MixedState, button: int, replies: seq<Reply>, width: int)
    requires m.base.rois.Some? && Consistent(m.base) && m.base.clumps.Null?
    requires NoDuplicates(Rois(m.base)) && |replies| == |Rois(m.base)|
    ensures var r := RemoveFakeSpec(m, button, replies, width);
      var rs := Rois(m.base);
      && Consistent(r.base) && r.base.clumps.Null? && NoDuplicates(Rois(r.base))
      && r.red == m.red && r.green == m.green && r.links == m.links
      && r.base.numNodules - |Rois(r.base)| == m.base.numNodules - |rs|
      && (forall k :: 0 <= k < |rs| ==>
            (rs[k] in Rois(r.base) <==> ButtonAfter(button, replies[..k + 1]) != NO))
      && (forall x :: x in Rois(r.base) ==> x in rs)
  {
    var rs := Rois(m.base);
    var del := Rejected(rs, button, replies);
    RejectedSpec(rs, button, replies);
    forall k | 0 <= k < |del|
      ensures del[k] in rs
    {
      assert del[k] in del;
    }
    RemoveEveryMembers(m.base, del, width);
    var b := RemoveEvery(m.base, del, width);
    var r := RemoveFakeSpec(m, button, replies, width);
    assert r.base == b.(numNodules := b.numNodules - |del|);
    assert Rois(r.base) == Rois(b);
    forall k | 0 <= k < |rs|
      ensures rs[k] in Rois(r.base) <==> ButtonAfter(button, replies[..k + 1]) != NO
    {
      assert rs[k] in Rois(b) <==> rs[k] !in del;
    }
  }
}
