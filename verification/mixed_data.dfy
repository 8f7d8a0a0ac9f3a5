/** The mixed dataset (`MixedData`): a colour dataset that also records, per region, its red
    and green pixel counts and which red and green clumps it absorbed. Each operation is
    proved to take `MView()` to the `MixedSpec` function for it. */
module Mixed {
  import opened Common
  import opened Regions
  import opened Clumps
  import opened ColorSpec
  import opened Palette
  import opened MixedSpec
  import opened Channels
  import opened Absorption

  /** `getColoredArea`: counts the region's points that pass the green test and the ones
      that do not. `NoduleSegmentation.image` is passed in as `img`. */
  method GetColoredArea(img: Image, roi: Region) returns (red: nat, green: nat)
    requires img.WellFormed()
    ensures (red, green) == ColoredArea(img, roi.points)
  {
    var pts := roi.points;
    red, green := 0, 0;
    var k := 0;
    while k < |pts|
      invariant 0 <= k <= |pts|
      invariant green == GreenCount(img, pts[..k]) && red + green == k
    {
      var p := pts[k];
      if AboveParabola(PixelAt(img, p.x, p.y)) {
        green := green + 1;
      } else {
        red := red + 1;
      }
      assert pts[..k + 1][..k] == pts[..k];
      k := k + 1;
    }
    assert pts[..|pts|] == pts;
  }

  /** A colour dataset consistent with column `col` of `links`: every entry of the column
      names an absorbed clump of it, and no two rows the same one. */
  predicate Ready(links: seq<Link>, col: Column, src: ColorData)
    reads src, src.clumps
  {
    src.Valid() && LinksAbsorbed(links, col, Vals(src.clumps))
  }

  /** A colour dataset with a region has clumps: `unionNodules` walks its clump list for
      each region in reach. A dataset in which `getData` found no region has none. */
  predicate Clumped(src: ColorData)
    reads src
  {
    src.RoiList() != [] ==> src.hasClumps
  }

  /** One colour of a row in `updateData`: with no linked clump (`e == -1`) the region's
      own count; otherwise the linked clump's area cut to an integer, and both the clump and
      its colour dataset take the mixed region `roi` in place of their own. A link to a
      missing clump (the caught exception) yields 0 and changes nothing. */
  method LinkedColumn(src: ColorData, e: int, own: int, roi: Region) returns (n: int)
    requires src.Valid()
    modifies src`rois, src`areas, src`pixels, set c | c in src.clumps
    ensures src.Valid() && src.clumps == old(src.clumps)
    ensures n == LinkedCount(own, e, old(Vals(src.clumps)))
    ensures HandedOver(old(Vals(src.clumps)), old(src.RoiList()), e, roi, Vals(src.clumps), src.RoiList())
    ensures src.View() == HandOverSpec(old(src.View()), e, roi, src.width)
  {
    if e == -1 {
      return own;
    }
    if !src.hasClumps {
      return 0;
    }
    var c := src.GetClump(e);
    if c == null {
      return 0;
    }
    n := HandOver(src, e, roi);
  }

  /** The found-clump path of `LinkedColumn`: the clump of region `e` and region `e` of
      `src` both become `roi`; the clump's area cut to an integer comes back. */
  method HandOver(src: ColorData, e: int, roi: Region) returns (n: int)
    requires src.Valid() && src.hasClumps && ClumpPos(Vals(src.clumps), e) != -1
    modifies src`rois, src`areas, src`pixels, set c | c in src.clumps
    ensures src.Valid() && src.clumps == old(src.clumps)
    ensures n == TruncToInt(old(Vals(src.clumps))[ClumpPos(old(Vals(src.clumps)), e)].area)
    ensures HandedOver(old(Vals(src.clumps)), old(src.RoiList()), e, roi, Vals(src.clumps), src.RoiList())
    ensures src.View() == HandOverSpec(old(src.View()), e, roi, src.width)
  {
    ghost var cs := Vals(src.clumps);
    ghost var rs := src.RoiList();
    var index;
    n, index := ClaimClump(src, e, roi);
    ghost var cs1 := Vals(src.clumps);
    assert SameClumps(cs, cs1);
    src.SetRoi(index, roi);
    assert Vals(src.clumps) == cs1;
    assert src.RoiList() == rs[e := roi];
  }

  /** The clump half of `LinkedColumn`: the clump of region `e` takes the mixed region as
      its own; its area cut to an integer and its index come back. */
  method ClaimClump(src: ColorData, e: int, roi: Region) returns (n: int, index: int)
    requires src.Valid() && src.hasClumps && ClumpPos(Vals(src.clumps), e) != -1
    modifies set c | c in src.clumps
    ensures src.Valid() && index == e
    ensures var p := ClumpPos(old(Vals(src.clumps)), e);
      && n == TruncToInt(old(Vals(src.clumps))[p].area)
      && Vals(src.clumps) == old(Vals(src.clumps))[p := old(Vals(src.clumps))[p].(roi := roi)]
      && src.View() == old(src.View()).(clumps := Some(Vals(src.clumps)))
  {
    ghost var cs := Vals(src.clumps);
    ghost var p := ClumpPos(cs, e);
    var c := src.GetClump(e);
    assert c == src.clumps[p] && cs[p] == c.Val();
    DistinctObjects(src.clumps, |src.RoiList()|);
    ghost var d := src.View();
    ghost var cs1 := cs[p := cs[p].(roi := roi)];
    RetagOneKeepsConsistent(d, p, roi);
    n := TruncToInt(c.area);
    index := c.index;
    RetagClump(src.clumps, p, c, roi);
    assert Vals(src.clumps) == cs1;
    assert src.View() == d.(clumps := Some(cs1));
  }

  /** Clump `c`, at position `p` of a sequence of distinct clumps, takes region `roi`; the
      others keep theirs. */
  method RetagClump(cs: seq<NoduleClump>, ghost p: int, c: NoduleClump, roi: Region)
    requires 0 <= p < |cs| && cs[p] == c && forall a, b :: 0 <= a < b < |cs| ==> cs[a] != cs[b]
    modifies c
    ensures Vals(cs) == old(Vals(cs))[p := old(Vals(cs))[p].(roi := roi)]
  {
    ghost var vs := Vals(cs);
    c.roi := roi;
    forall k | 0 <= k < |cs|
      ensures cs[k].Val() == vs[p := vs[p].(roi := roi)][k]
    {
      if k != p {
        assert k < p || p < k;
        assert cs[k] != cs[p];
      }
    }
  }

  /** The clump of region `cur`, at position `p`, is marked as belonging to a mixed region. */
  method MarkClumpOf(src: ColorData, p: int, cur: int)
    requires src.Valid() && src.hasClumps
    requires Decide(Vals(src.clumps), cur) == LinkClump(p)
    modifies src.clumps[p]
    ensures src.Valid()
    ensures Vals(src.clumps) == old(Vals(src.clumps))[p := old(Vals(src.clumps))[p].(hasMixed := true)]
    ensures src.View() == old(src.View()).(clumps := Some(Vals(src.clumps)))
  {
    ghost var cs := Vals(src.clumps);
    ghost var n := |src.RoiList()|;
    DistinctObjects(src.clumps, n);
    LinkThenSkip(cs, n, cur);
    MarkMixed(src.clumps, p, src.clumps[p]);
    assert Vals(src.clumps) == cs[p := cs[p].(hasMixed := true)];
  }

  /** Clump `c`, at position `p` of a sequence of distinct clumps, is marked as belonging
      to a mixed region; the others are unchanged. */
  method MarkMixed(cs: seq<NoduleClump>, ghost p: int, c: NoduleClump)
    requires 0 <= p < |cs| && cs[p] == c && forall a, b :: 0 <= a < b < |cs| ==> cs[a] != cs[b]
    modifies c
    ensures Vals(cs) == old(Vals(cs))[p := old(Vals(cs))[p].(hasMixed := true)]
  {
    ghost var vs := Vals(cs);
    c.hasMixed := true;
    forall k | 0 <= k < |cs|
      ensures cs[k].Val() == vs[p := vs[p].(hasMixed := true)][k]
    {
      if k != p {
        assert k < p || p < k;
        assert cs[k] != cs[p];
      }
    }
  }

  /** A valid colour dataset's clumps name distinct existing regions. */
  lemma ValidIndexed(d: ColorData)
    requires d.Valid()
    ensures WellIndexed(Vals(d.clumps), |Rois(d.View())|)
  {
  }

  /** One colour of `updateData`'s row loop, run over all rows in turn (the source
      interleaves the two colours row by row; they touch disjoint objects): the pixel
      counts of column `col` for regions `rs[..n]` with links `links`, while each linked
      clump found, and its region in `src`, take the mixed region over. */
  method ColourPass(src: ColorData, col: Column, img: Image, rs: seq<Region>, links: seq<Link>, n: int)
    returns (pix: seq<int>)
    requires src.Valid() && img.WellFormed()
    requires 0 <= n <= |rs| && n <= |links|
    modifies src`rois, src`areas, src`pixels, set c | c in src.clumps
    ensures src.Valid() && src.clumps == old(src.clumps)
    ensures |pix| == n && CountsUpTo(pix, img, rs, links, col, old(Vals(src.clumps)), n)
    ensures SameClumps(old(Vals(src.clumps)), Vals(src.clumps))
    ensures LinksAbsorbed(links, col, old(Vals(src.clumps))) ==>
      TakenOver(links, col, Vals(src.clumps), src.RoiList(), rs, n)
    ensures src.View() == HandOverRows(old(src.View()), links, col, rs, n, src.width)
  {
    pix := seq(n, _ => 0);
    ghost var v0 := src.View();
    ghost var cs0 := Vals(src.clumps);
    ghost var cl := src.clumps;
    ghost var absorbed := LinksAbsorbed(links, col, cs0);
    var ii := 0;
    while ii < n
      invariant 0 <= ii <= n
      invariant Passing(src, col, img, rs, links, n, pix, ii, cs0, cl, absorbed, v0)
    {
      pix := ColourStep(src, col, img, rs, links, n, pix, ii, cs0, cl, absorbed, v0);
      ii := ii + 1;
    }
  }

  /** Where `ColourPass` stands after its first `ii` rows, from the colour dataset `v0`
      with clumps `cl` (of values `cs0`): the counts so far, the clumps changed only in
      their regions, the rows so far handed over. */
  predicate Passing(src: ColorData, col: Column, img: Image, rs: seq<Region>, links: seq<Link>, n: int,
                    pix: seq<int>, ii: int, cs0: seq<ClumpVal>, cl: seq<NoduleClump>, absorbed: bool, v0: Dataset)
    reads src, src.clumps
  {
    && 0 <= ii <= n <= |rs| && n <= |links| && |pix| == n && img.WellFormed()
    && src.Valid() && src.clumps == cl && SameClumps(cs0, Vals(src.clumps))
    && CountsUpTo(pix, img, rs, links, col, cs0, ii)
    && (absorbed ==> LinksAbsorbed(links, col, cs0) && TakenOver(links, col, Vals(src.clumps), src.RoiList(), rs, ii))
    && HandOverFrom(src.View(), links, col, rs, ii, n, src.width) == HandOverRows(v0, links, col, rs, n, src.width)
  }

  /** The rows of `updateData` once there are mixed regions: both colour passes, then
      the area pass over `data`. */
  method MeasureRows(data: ColorData, red: ColorData, green: ColorData, img: Image, links: seq<Link>, n: int)
    returns (reds: seq<int>, greens: seq<int>)
    requires data.Valid() && !data.hasClumps && red.Valid() && green.Valid() && img.WellFormed()
    requires red != green && data != red && data != green
    requires forall c :: c in red.clumps ==> c !in green.clumps
    requires data.areas.Some? && 0 <= n <= |data.RoiList()| && n <= |data.areas.value| && n <= |links|
    modifies data`areas, red`rois, red`areas, red`pixels, green`rois, green`areas, green`pixels
    modifies set c | c in red.clumps, set c | c in green.clumps
    ensures data.Valid() && !data.hasClumps && red.Valid() && green.Valid()
    ensures red.clumps == old(red.clumps) && green.clumps == old(green.clumps)
    ensures data.View() == old(data.View()).(areas := data.areas) && data.areas.Some?
    ensures RowsMeasured(img, data.RoiList(), links, n, reds, greens, old(data.areas.value), data.areas.value,
      old(Vals(red.clumps)), Vals(red.clumps), red.RoiList(), old(Vals(green.clumps)), Vals(green.clumps), green.RoiList())
    ensures red.View() == HandOverRows(old(red.View()), links, RedColumn, data.RoiList(), n, red.width)
    ensures green.View() == HandOverRows(old(green.View()), links, GreenColumn, data.RoiList(), n, green.width)
  {
    ghost var d0 := data.View();
    reds, greens := BothColours(red, green, img, data.RoiList(), links, n);
    assert data.View() == d0;
    ghost var rv, rr := Vals(red.clumps), red.RoiList();
    ghost var gv, gr := Vals(green.clumps), green.RoiList();
    ghost var red1, green1 := red.View(), green.View();
    AreaPass(data, reds, greens, n);
    assert Vals(green.clumps) == gv && green.RoiList() == gr;
    assert Vals(red.clumps) == rv && red.RoiList() == rr;
    assert red.View() == red1 && green.View() == green1;
  }

  /** The area half of `updateData`'s row loop: area row `k` of each of the first `n`
      regions becomes the sum of its red and green pixel counts; both branches of the
      source store that same sum. */
  method AreaPass(data: ColorData, reds: seq<int>, greens: seq<int>, n: int)
    requires data.Valid() && data.areas.Some? && 0 <= n <= |data.areas.value|
    requires n <= |reds| && n <= |greens|
    modifies data`areas
    ensures data.Valid() && data.View() == old(data.View()).(areas := data.areas)
    ensures data.areas.Some? && |data.areas.value| == |old(data.areas.value)|
    ensures forall k :: 0 <= k < n ==>
      data.areas.value[k] == old(data.areas.value)[k].(pixels := reds[k] + greens[k])
    ensures forall k :: n <= k < |data.areas.value| ==> data.areas.value[k] == old(data.areas.value)[k]
  {
    ghost var a0 := data.areas.value;
    var ii := 0;
    while ii < n
      invariant 0 <= ii <= n
      invariant data.Valid() && data.View() == old(data.View()).(areas := data.areas)
      invariant data.areas.Some? && |data.areas.value| == |a0|
      invariant forall k :: 0 <= k < ii ==> data.areas.value[k] == a0[k].(pixels := reds[k] + greens[k])
      invariant forall k :: ii <= k < |a0| ==> data.areas.value[k] == a0[k]
    {
      data.UpdateArea(ii, greens[ii] + reds[ii]);
      ii := ii + 1;
    }
  }

  /** The two colour passes of `updateData`, green first. */
  method BothColours(red: ColorData, green: ColorData, img: Image, rs: seq<Region>, links: seq<Link>, n: int)
    returns (reds: seq<int>, greens: seq<int>)
    requires red.Valid() && green.Valid() && img.WellFormed()
    requires red != green && forall c :: c in red.clumps ==> c !in green.clumps
    requires 0 <= n <= |rs| && n <= |links|
    modifies red`rois, red`areas, red`pixels, green`rois, green`areas, green`pixels
    modifies set c | c in red.clumps, set c | c in green.clumps
    ensures red.Valid() && red.clumps == old(red.clumps)
    ensures green.Valid() && green.clumps == old(green.clumps)
    ensures |reds| == n && CountsUpTo(reds, img, rs, links, RedColumn, old(Vals(red.clumps)), n)
    ensures |greens| == n && CountsUpTo(greens, img, rs, links, GreenColumn, old(Vals(green.clumps)), n)
    ensures SameClumps(old(Vals(red.clumps)), Vals(red.clumps))
    ensures SameClumps(old(Vals(green.clumps)), Vals(green.clumps))
    ensures LinksAbsorbed(links, RedColumn, old(Vals(red.clumps))) ==>
      TakenOver(links, RedColumn, Vals(red.clumps), red.RoiList(), rs, n)
    ensures LinksAbsorbed(links, GreenColumn, old(Vals(green.clumps))) ==>
      TakenOver(links, GreenColumn, Vals(green.clumps), green.RoiList(), rs, n)
    ensures red.View() == HandOverRows(old(red.View()), links, RedColumn, rs, n, red.width)
    ensures green.View() == HandOverRows(old(green.View()), links, GreenColumn, rs, n, green.width)
  {
    ghost var rv0, rr0 := Vals(red.clumps), red.RoiList();
    ghost var red0 := red.View();
    greens := ColourPass(green, GreenColumn, img, rs, links, n);
    assert Vals(red.clumps) == rv0 && red.RoiList() == rr0;
    ghost var gv, gr := Vals(green.clumps), green.RoiList();
    ghost var green1 := green.View();
    assert red.View() == red0;
    reds := ColourPass(red, RedColumn, img, rs, links, n);
    assert Vals(green.clumps) == gv && green.RoiList() == gr;
    assert green.View() == green1;
  }

  /** Row `ii` of `ColourPass`: its count goes into `pix`, and its linked clump and that
      clump's region take the row's mixed region over, as `HandOverSpec` says. */
  method ColourStep(src: ColorData, col: Column, img: Image, rs: seq<Region>, links: seq<Link>, n: int,
                    pix0: seq<int>, ii: int, ghost cs0: seq<ClumpVal>, ghost cl: seq<NoduleClump>,
                    ghost absorbed: bool, ghost v0: Dataset) returns (pix: seq<int>)
    requires Passing(src, col, img, rs, links, n, pix0, ii, cs0, cl, absorbed, v0) && ii < n
    modifies src`rois, src`areas, src`pixels, set c | c in src.clumps
    ensures Passing(src, col, img, rs, links, n, pix, ii + 1, cs0, cl, absorbed, v0)
    ensures pix == pix0[ii := LinkedCount(CountOf(ColoredArea(img, rs[ii].points), col), Entry(links[ii], col), cs0)]
    ensures src.View() == HandOverSpec(old(src.View()), Entry(links[ii], col), rs[ii], src.width)
  {
    ghost var cs, r0 := Vals(src.clumps), src.RoiList();
    if absorbed {
      LinksAbsorbedSame(links, col, cs0, cs);
    }
    var redArea, greenArea := GetColoredArea(img, rs[ii]);
    var own := if col == RedColumn then redArea else greenArea;
    var e := Entry(links[ii], col);
    LinkedCountSame(own, e, cs0, cs);
    var v := LinkedColumn(src, e, own, rs[ii]);
    pix := pix0[ii := v];
    ghost var cs1, r1 := Vals(src.clumps), src.RoiList();
    assert HandedOver(cs, r0, e, rs[ii], cs1, r1);
    SameClumpsTrans(cs0, cs, cs1);
    if absorbed {
      TakenOverStep(links, col, cs, r0, rs, ii, cs1, r1);
    }
  }

  class MixedData {
    /** The colour dataset `MixedData` extends. */
    const data: ColorData
    var redPixels: Opt<seq<int>>
    var greenPixels: Opt<seq<int>>
    /** One row per region: the positions of the red and green clumps it absorbed. */
    var clumped: Opt<seq<Link>>
    /** `BUTTON`: the last button pressed in a `removeFakeNodules` dialog. */
    var button: int

    function MView(): MixedState
      reads this, data, data.clumps
    {
      MixedState(data.View(), redPixels, greenPixels, clumped)
    }

    /** The colour dataset is consistent, and holds no clumps: the mixed measurement never
        splits regions into clumps. */
    predicate Valid()
      reads data, data.clumps
    {
      data.Valid() && !data.hasClumps
    }

    /** A mixed dataset before any measurement: the colour dataset's initial state and no
        pixel arrays or linkage table yet. */
    constructor (color: Rgb, colorThreshold: int, width: nat, height: nat)
      ensures fresh(data) && Valid()
      ensures data.width == width && data.height == height && data.highAreaThreshold == colorThreshold
      ensures MView() == MixedState(Dataset(-1, Null, Null, [], Null, Null, Null, Null), Null, Null, Null)
      ensures button == NO_BUTTON_YET
    {
      data := new ColorData(color, colorThreshold, width, height);
      redPixels := Null;
      greenPixels := Null;
      clumped := Null;
      button := NO_BUTTON_YET;
    }

    /** `getPixelArea`: the red or green pixel count of region `index`, -1 for any other
        colour name. */
    function GetPixelArea(index: int, color: string): (n: int)
      reads this
      requires color == "red" ==> redPixels.Some? && 0 <= index < |redPixels.value|
      requires color == "green" ==> greenPixels.Some? && 0 <= index < |greenPixels.value|
      ensures color == "red" ==> n == redPixels.value[index]
      ensures color == "green" ==> n == greenPixels.value[index]
      ensures color != "red" && color != "green" ==> n == -1
    {
      if color == "red" then redPixels.value[index]
      else if color == "green" then greenPixels.value[index]
      else -1
    }

    /** `setRoi`: the colour dataset replaces the region, and once the pixel arrays exist
        they take the new region's counts. */
    method SetRoi(index: int, roi: Region, img: Image)
      requires Valid() && data.rois.Some? && data.areas.Some? && 0 <= index < |data.areas.value|
      requires redPixels.Some? ==>
        greenPixels.Some? && index < |redPixels.value| && index < |greenPixels.value|
      requires img.WellFormed()
      modifies this`redPixels, this`greenPixels, data
      ensures Valid()
      ensures MView() == SetMixedSpec(old(MView()), index, roi, data.width, ColoredArea(img, roi.points))
    {
      data.SetRoi(index, roi);
      if redPixels.Some? {
        var red, green := GetColoredArea(img, roi);
        redPixels := Some(redPixels.value[index := red]);
        greenPixels := Some(greenPixels.value[index := green]);
      }
    }

    /** `addRoi`: the colour dataset appends the region, `clumped` gains an empty row and the
        pixel arrays gain the region's counts. */
    method AddRoi(roi: Region, img: Image)
      requires Valid() && data.rois.Some?
      requires redPixels.Some? && greenPixels.Some? && clumped.Some?
      requires |redPixels.value| <= |greenPixels.value|
      requires img.WellFormed()
      modifies this`redPixels, this`greenPixels, this`clumped, data
      ensures Valid()
      ensures MView() == AddMixedSpec(old(MView()), roi, data.width, ColoredArea(img, roi.points))
    {
      data.AddRoi(roi);
      var rows := clumped.value;
      var newClumped: seq<Link> := [];
      var ii := 0;
      while ii < |rows|
        invariant 0 <= ii <= |rows| && newClumped == rows[..ii]
      {
        newClumped := newClumped + [rows[ii]];
        ii := ii + 1;
      }
      assert newClumped == rows;
      clumped := Some(newClumped + [UNLINKED]);
      var red := redPixels.value;
      var green := greenPixels.value;
      var newRed: seq<int> := [];
      var newGreen: seq<int> := [];
      ii := 0;
      while ii < |red|
        invariant 0 <= ii <= |red| && newRed == red[..ii] && newGreen == green[..ii]
      {
        newRed := newRed + [red[ii]];
        newGreen := newGreen + [green[ii]];
        ii := ii + 1;
      }
      assert newRed == red && newGreen == green[..|red|];
      var r, g := GetColoredArea(img, roi);
      redPixels := Some(newRed + [r]);
      // the new green array is zero-filled past the copied part
      greenPixels := Some(newGreen + seq(|green| - |red|, _ => 0) + [g]);
    }

    /** `removeRoi`: the colour dataset removes the region; once the pixel arrays exist the
        same position leaves them and `clumped`, and the count drops by one. `false` stands
        for the out-of-bounds exception raised when the region is not found then. */
    method RemoveRoi(roi: Region) returns (ok: bool)
      requires Valid() && data.rois.Some?
      requires greenPixels.Some? ==> redPixels.Some? && clumped.Some?
      requires greenPixels.Some? && roi in Rois(data.View()) ==>
        var i := IndexOf(Rois(data.View()), roi);
        i < |redPixels.value| && i < |greenPixels.value| && i < |clumped.value|
      modifies this`redPixels, this`greenPixels, this`clumped, data, set c | c in data.clumps
      ensures Valid() && data.rois.Some?
      ensures (ok, MView()) == RemoveMixedSpec(old(MView()), roi, data.width)
      ensures forall c :: c in data.clumps ==> c in old(data.clumps)
    {
      ghost var m0 := MView();
      var index := data.GetIndex(roi);
      assert greenPixels.Some? && index != -1 ==>
        index < |redPixels.value| && index < |greenPixels.value| && index < |clumped.value|;
      var _ := data.RemoveRoi(roi);
      if greenPixels.Some? {
        if index == -1 {
          return false;
        }
        redPixels := Some(Without(redPixels.value, index));
        greenPixels := Some(Without(greenPixels.value, index));
        clumped := Some(Without(clumped.value, index));
        data.SetCount(data.numNodules - 1);
      }
      ok := true;
    }

    /** `removeFromClumped`: drops row `index` of `clumped` when the table exists and has it. */
    method RemoveFromClumped(index: int)
      modifies this`clumped
      ensures clumped == RemoveFromClumpedSpec(old(clumped), index)
    {
      if clumped.Null? {
        return;
      }
      var rows := clumped.value;
      if index < 0 || index >= |rows| {
        return;
      }
      var newArray: seq<Link> := [];
      var i := 0;
      while i < |rows|
        invariant 0 <= i <= |rows|
        invariant i <= index ==> newArray == rows[..i]
        invariant i > index ==> newArray == rows[..index] + rows[index + 1..i]
      {
        if i != index {
          newArray := newArray + [rows[i]];
        }
        i := i + 1;
      }
      assert rows[index + 1..|rows|] == rows[index + 1..];
      clumped := Some(newArray);
    }

    /** `findMixedNodules`, after `getData` measured the mixed regions without clumps (so
        the count equals the number of regions) and before the pixel arrays exist: close
        mixed regions merge, the regions the user rejects go (`ask` gives the user's answer
        to the dialog shown for a region), the linkage table is reset, each region absorbs
        the red and green regions within reach, and `updateData` measures the result. At the
        end the count equals the number of regions again, both columns of `clumped` name
        only absorbed clumps, each at most once, and, unless no region is left, the pixel
        arrays and the linkage table have one entry per region. */
    method FindMixedNodules(img: Image, red: ColorData, green: ColorData, geom: Geometry, ask: Region -> Reply)
      returns (ghost merges: seq<Region>, ghost rounds: int, ghost merged: MixedState, ghost pruned: MixedState)
      requires Valid() && data.rois.Some? && data.areas.Some?
      requires data.numNodules == |data.RoiList()|
      requires redPixels.Null? && greenPixels.Null?
      requires img.WellFormed()
      requires red.Valid() && green.Valid() && red != green && data != red && data != green
      requires Clumped(red) && Clumped(green)
      requires forall c :: c in red.clumps ==> c !in green.clumps
      modifies this, data, red, green, set c | c in red.clumps, set c | c in green.clumps
      ensures Valid() && data.numNodules == |data.RoiList()|
      ensures clumped.Some? && |clumped.value| == |data.RoiList()|
      ensures Ready(clumped.value, RedColumn, red) && Ready(clumped.value, GreenColumn, green)
      ensures data.RoiList() != [] ==> Linked(MView())
      ensures Pruned(geom, old(MView()), old(button), ask, merges, rounds, merged, pruned, button, data.width)
      ensures Absorbable(old(red.View())) && Absorbable(old(green.View()))
      ensures GrownAndMeasured(geom, old(red.View()), old(green.View()), pruned.links.value, Rois(pruned.base),
                               red.width, green.width, red.View(), green.View(), clumped.value, data.RoiList())
    {
      ghost var rv, gv := red.View(), green.View();
      merges, rounds, merged := Prune(geom, img, ask);
      assert red.View() == rv && green.View() == gv;
      pruned := MView();
      ghost var b := button;
      assert Pruned(geom, old(MView()), old(button), ask, merges, rounds, merged, pruned, b, data.width);
      ghost var links0, rs0 := clumped.value, data.RoiList();
      assert links0 == pruned.links.value && rs0 == Rois(pruned.base);
      Grow(geom, img, red, green);
      assert button == b;
      assert GrownAndMeasured(geom, rv, gv, links0, rs0, red.width, green.width,
                              red.View(), green.View(), clumped.value, data.RoiList());
    }

    /** The steps of `findMixedNodules` after the pruning: each region absorbs the red and
        green regions within reach, as `AbsorbRows` runs the rows from the pruned state, and
        `updateData` measures the result, leaving the clumps' indices and areas as the
        absorption left them. */
    method Grow(geom: Geometry, img: Image, red: ColorData, green: ColorData)
      requires Valid() && data.rois.Some? && data.areas.Some?
      requires data.numNodules == |data.RoiList()|
      requires redPixels.Null? && greenPixels.Null?
      requires img.WellFormed()
      requires red.Valid() && green.Valid() && red != green && data != red && data != green
      requires Clumped(red) && Clumped(green)
      requires forall c :: c in red.clumps ==> c !in green.clumps
      requires clumped.Some? && |clumped.value| == |data.RoiList()|
      requires forall k :: 0 <= k < |clumped.value| ==> clumped.value[k] == UNLINKED
      modifies this`clumped, this`redPixels, this`greenPixels, data, red, green,
        set c | c in red.clumps, set c | c in green.clumps
      ensures Valid() && data.numNodules == |data.RoiList()|
      ensures clumped.Some? && |clumped.value| == |data.RoiList()|
      ensures Ready(clumped.value, RedColumn, red) && Ready(clumped.value, GreenColumn, green)
      ensures data.RoiList() != [] ==> Linked(MView())
      ensures Absorbable(old(red.View())) && Absorbable(old(green.View()))
      ensures GrownAndMeasured(geom, old(red.View()), old(green.View()), old(clumped.value), old(data.RoiList()),
                               red.width, green.width, red.View(), green.View(), clumped.value, data.RoiList())
    {
      AbsorbAll(geom, img, red, green);
      ghost var ra, ga, rs1 := red.View(), green.View(), data.RoiList();
      Measure(img, red, green);
      assert data.RoiList() == rs1;
      HandOverRowsKeep(ra, clumped.value, RedColumn, rs1, 0, |rs1|, red.width);
      HandOverRowsKeep(ga, clumped.value, GreenColumn, rs1, 0, |rs1|, green.width);
    }

    /** The steps of `findMixedNodules` that touch the mixed dataset alone: the merge loop
        runs its turns to `merged`, building the regions `merges`; the user then answers the
        dialog of each remaining region in order (`ask`), the rejected ones go as
        `removeFakeNodules` removes them, and the linkage table is reset to one unlinked row
        per region left. */
    method Prune(geom: Geometry, img: Image, ask: Region -> Reply)
      returns (ghost merges: seq<Region>, ghost rounds: int, ghost merged: MixedState)
      requires Valid() && data.rois.Some? && data.areas.Some?
      requires data.numNodules == |data.RoiList()|
      requires redPixels.Null? && greenPixels.Null?
      requires img.WellFormed()
      modifies this, data
      ensures Valid() && data.rois.Some? && data.areas.Some?
      ensures data.numNodules == |data.RoiList()|
      ensures redPixels.Null? && greenPixels.Null?
      ensures clumped.Some? && |clumped.value| == |data.RoiList()|
      ensures forall k :: 0 <= k < |clumped.value| ==> clumped.value[k] == UNLINKED
      ensures Pruned(geom, old(MView()), old(button), ask, merges, rounds, merged, MView(), button, data.width)
    {
      var r;
      r, merges := MergeCloseRegions(geom, img);
      rounds := r;
      merged := MView();
      MergeTurnsCounts(geom, old(MView()), merges, 0, rounds, merged, data.width);
      var rs := data.rois.value;
      var replies := Replies(rs, ask);
      RemoveFakeCount(merged, button, replies, data.width);
      RemoveFakeNodules(replies);
      ResetClumped();
    }

    /** `updateData` at the end of `findMixedNodules`, as seen from there: the regions and
        the count stay, the colour datasets stay ready, and once there is a region the pixel
        arrays and the linkage table have one entry per region. */
    method Measure(img: Image, red: ColorData, green: ColorData)
      requires Valid() && data.rois.Some? && data.areas.Some?
      requires data.numNodules == |data.RoiList()|
      requires img.WellFormed()
      requires red != green && data != red && data != green
      requires forall c :: c in red.clumps ==> c !in green.clumps
      requires clumped.Some? && |clumped.value| == |data.RoiList()|
      requires Ready(clumped.value, RedColumn, red) && Ready(clumped.value, GreenColumn, green)
      modifies this`redPixels, this`greenPixels, data`areas, red`rois, red`areas, red`pixels,
        green`rois, green`areas, green`pixels, set c | c in red.clumps, set c | c in green.clumps
      ensures Valid() && data.numNodules == |data.RoiList()|
      ensures clumped.Some? && |clumped.value| == |data.RoiList()|
      ensures Ready(clumped.value, RedColumn, red) && Ready(clumped.value, GreenColumn, green)
      ensures data.RoiList() != [] ==> Linked(MView())
      ensures red.clumps == old(red.clumps) && green.clumps == old(green.clumps)
      ensures data.RoiList() == [] ==>
        MView() == old(MView()) && red.View() == old(red.View()) && green.View() == old(green.View())
      ensures data.RoiList() != [] ==>
        && data.View() == old(data.View()).(areas := data.areas) && clumped == old(clumped)
        && redPixels.Some? && greenPixels.Some? && data.areas.Some?
        && RowsMeasured(img, data.RoiList(), clumped.value, data.numNodules, redPixels.value, greenPixels.value,
             old(data.areas.value), data.areas.value, old(Vals(red.clumps)), Vals(red.clumps), red.RoiList(),
             old(Vals(green.clumps)), Vals(green.clumps), green.RoiList())
    ensures red.View() == HandOverRows(old(red.View()), clumped.value, RedColumn, data.RoiList(), |data.RoiList()|, red.width)
    ensures green.View() ==
      HandOverRows(old(green.View()), clumped.value, GreenColumn, data.RoiList(), |data.RoiList()|, green.width)
    {
      ghost var rv, gv := Vals(red.clumps), Vals(green.clumps);
      UpdateData(img, red, green);
      LinksAbsorbedSame(clumped.value, RedColumn, rv, Vals(red.clumps));
      LinksAbsorbedSame(clumped.value, GreenColumn, gv, Vals(green.clumps));
    }

    /** The absorption loop of `findMixedNodules`: each region, in turn, absorbs the red and
        green regions within reach (`unionNodules` with its row of `clumped`) and takes the
        grown region's place. Every region is kept or replaced by a new one, the count and
        the number of regions stay, and both columns keep their invariant. */
    method AbsorbAll(geom: Geometry, img: Image, red: ColorData, green: ColorData)
      requires Valid() && data.rois.Some? && data.areas.Some?
      requires redPixels.Null? && greenPixels.Null?
      requires img.WellFormed()
      requires red != green && data != red && data != green
      requires Clumped(red) && Clumped(green)
      requires forall c :: c in red.clumps ==> c !in green.clumps
      requires clumped.Some? && |clumped.value| == |data.RoiList()|
      requires Ready(clumped.value, RedColumn, red) && Ready(clumped.value, GreenColumn, green)
      modifies this`clumped, this`redPixels, this`greenPixels, data, red, green,
        set c | c in red.clumps, set c | c in green.clumps
      ensures Valid() && data.rois.Some? && data.areas.Some?
      ensures redPixels.Null? && greenPixels.Null?
      ensures Clumped(red) && Clumped(green)
      ensures forall c :: c in red.clumps ==> c in old(red.clumps)
      ensures forall c :: c in green.clumps ==> c in old(green.clumps)
      ensures data.numNodules == old(data.numNodules)
      ensures |data.RoiList()| == old(|data.RoiList()|)
      ensures forall k :: 0 <= k < |data.RoiList()| ==>
        data.RoiList()[k] == old(data.RoiList())[k] || fresh(data.RoiList()[k])
      ensures clumped.Some? && |clumped.value| == |data.RoiList()|
      ensures Ready(clumped.value, RedColumn, red) && Ready(clumped.value, GreenColumn, green)
      ensures var a := AbsorbRows(geom, old(red.View()), old(green.View()), old(clumped.value),
                                  Shapes(old(data.RoiList())), 0, red.width, green.width);
        && red.View() == a.red && green.View() == a.green && clumped == Some(a.links)
        && (NoDuplicates(old(data.RoiList())) ==> GrownAsRun(data.RoiList(), old(data.RoiList()), a, |data.RoiList()|))
    {
      var rs := data.rois.value;
      var n := |rs|;
      ghost var ms := Shapes(rs);
      ghost var a := AbsorbRows(geom, red.View(), green.View(), clumped.value, ms, 0, red.width, green.width);
      RowsAheadStart(geom, red.View(), green.View(), clumped.value, ms, red.width, green.width);
      ghost var rc, gc, count := red.clumps, green.clumps, data.numNodules;
      var counter := 0;
      while counter < n
        invariant Absorbing(geom, red, green, rs, ms, counter, a, rc, gc, count)
        invariant forall k :: 0 <= k < n ==> data.RoiList()[k] == rs[k] || fresh(data.RoiList()[k])
      {
        AbsorbTurn(geom, img, red, green, rs, counter, ms, a, rc, gc, count);
        counter := counter + 1;
      }
      RowsAheadEnd(geom, red.View(), green.View(), clumped.value, ms, red.width, green.width, a);
    }

    /** What the absorption loop keeps once the first `counter` of the mixed regions `rs`
        (of shapes `ms`) are done, in the whole run `a`: the invariants of both columns, the
        count `count`, the colour datasets' clumps among their first ones `rc` and `gc`, the
        regions not yet done in place, the rest of `a` ahead, and, for distinct regions,
        each region done at its own position with the shape `a` gives it. */
    ghost predicate Absorbing(geom: Geometry, red: ColorData, green: ColorData, rs: seq<Region>, ms: seq<Shape>,
                              counter: int, a: RowsResult, rc: seq<NoduleClump>, gc: seq<NoduleClump>, count: int)
      reads this, data, data.clumps, red, red.clumps, green, green.clumps
    {
      && 0 <= counter <= |rs| && ms == Shapes(rs)
      && Valid() && data.rois.Some? && data.areas.Some? && |data.RoiList()| == |rs|
      && redPixels.Null? && greenPixels.Null?
      && data.numNodules == count
      && (forall k :: counter <= k < |rs| ==> data.RoiList()[k] == rs[k])
      && (forall c :: c in red.clumps ==> c in rc)
      && (forall c :: c in green.clumps ==> c in gc)
      && (forall c :: c in red.clumps ==> c !in green.clumps)
      && clumped.Some? && |clumped.value| == |rs|
      && Ready(clumped.value, RedColumn, red) && Ready(clumped.value, GreenColumn, green)
      && Clumped(red) && Clumped(green)
      && RowsAhead(geom, red.View(), green.View(), clumped.value, ms, counter, red.width, green.width, a)
      && (NoDuplicates(rs) ==> GrownAsRun(data.RoiList(), rs, a, counter))
      && (NoDuplicates(rs) ==> forall k :: 0 <= k < counter ==> data.RoiList()[k] !in rs[counter..])
    }

    /** A turn of the absorption loop as the loop sees it: `AbsorbRow` for row `counter`
        and its region `rs[counter]`, which grows to the shape the whole run `a` gives it
        while the rest of `a` stays ahead. */
    method AbsorbTurn(geom: Geometry, img: Image, red: ColorData, green: ColorData, rs: seq<Region>,
                      counter: int, ghost ms: seq<Shape>, ghost a: RowsResult,
                      ghost rc: seq<NoduleClump>, ghost gc: seq<NoduleClump>, ghost count: int)
      requires Absorbing(geom, red, green, rs, ms, counter, a, rc, gc, count) && counter < |rs|
      requires img.WellFormed()
      requires red != green && data != red && data != green
      modifies this`clumped, this`redPixels, this`greenPixels, data, red, green,
        set c | c in red.clumps, set c | c in green.clumps
      ensures Absorbing(geom, red, green, rs, ms, counter + 1, a, rc, gc, count)
      ensures forall k :: 0 <= k < |rs| ==> data.RoiList()[k] == old(data.RoiList())[k] || fresh(data.RoiList()[k])
    {
      ghost var before := data.RoiList();
      RowsAheadStep(geom, red.View(), green.View(), clumped.value, ms, counter, red.width, green.width, a);
      if NoDuplicates(rs) {
        assert rs[counter] in rs[counter..];
        assert rs[counter] !in before[..counter];
      }
      AbsorbRow(geom, img, red, green, rs[counter], counter);
      if NoDuplicates(rs) {
        GrownStep(before, data.RoiList(), rs, a, counter);
      }
    }

    /** One turn of the absorption loop: `roi`, found at its first position, absorbs the
        red and green regions within reach on behalf of row `row`, and its place takes the
        result. */
    method AbsorbRow(geom: Geometry, img: Image, red: ColorData, green: ColorData, roi: Region, row: int)
      requires Valid() && data.rois.Some? && data.areas.Some? && roi in data.RoiList()
      requires redPixels.Null? && greenPixels.Null?
      requires img.WellFormed()
      requires red != green && data != red && data != green
      requires forall c :: c in red.clumps ==> c !in green.clumps
      requires clumped.Some? && 0 <= row < |clumped.value|
      requires Ready(clumped.value, RedColumn, red) && Ready(clumped.value, GreenColumn, green)
      requires Clumped(red) && Clumped(green)
      modifies this`clumped, this`redPixels, this`greenPixels, data, red, green,
        set c | c in red.clumps, set c | c in green.clumps
      ensures Clumped(red) && Clumped(green)
      ensures Valid() && data.rois.Some? && data.areas.Some?
      ensures redPixels.Null? && greenPixels.Null?
      ensures forall c :: c in red.clumps ==> c in old(red.clumps)
      ensures forall c :: c in green.clumps ==> c in old(green.clumps)
      ensures data.numNodules == old(data.numNodules)
      ensures var i := old(IndexOf(data.RoiList(), roi));
        && |data.RoiList()| == old(|data.RoiList()|)
        && (forall k :: 0 <= k < |data.RoiList()| && k != i ==> data.RoiList()[k] == old(data.RoiList())[k])
        && (data.RoiList()[i] == roi || fresh(data.RoiList()[i]))
      ensures clumped.Some? && |clumped.value| == old(|clumped.value|)
      ensures Ready(clumped.value, RedColumn, red) && Ready(clumped.value, GreenColumn, green)
      ensures var u := UnionRowSpec(geom, old(red.View()), old(green.View()), old(clumped.value), row,
                                    roi.GetShape(), red.width, green.width);
        var i := old(IndexOf(data.RoiList(), roi));
        && red.View() == u.red && green.View() == u.green && clumped == Some(u.links)
        && data.RoiList()[i].GetShape() == u.shape && (data.RoiList()[i] == roi <==> !u.grown)
    {
      ghost var rs := data.RoiList();
      var index := data.GetIndex(roi);
      var temp := UnionRow(geom, roi, red, green, row);
      ghost var links := clumped.value;
      ghost var rv := red.View();
      ghost var gv := green.View();
      assert Valid() && data.RoiList() == rs;
      PlaceRegion(index, temp);
      assert clumped.value == links;
      assert red.View() == rv;
      assert green.View() == gv;
    }

    /** `setRoi` before the pixel arrays exist, which is the colour dataset's `setRoi`: only
        region `index` changes, along with its area row and the pixel cache. */
    method PlaceRegion(index: int, roi: Region)
      requires Valid() && data.rois.Some? && data.areas.Some? && 0 <= index < |data.RoiList()|
      requires redPixels.Null?
      modifies data`rois, data`areas, data`pixels
      ensures Valid() && data.rois.Some? && data.areas.Some?
      ensures data.numNodules == old(data.numNodules)
      ensures data.RoiList() == old(data.RoiList())[index := roi]
    {
      data.SetRoi(index, roi);
    }

    /** `unionNodules` as the absorption loop relies on it. */
    method UnionRow(geom: Geometry, mixed: Region, red: ColorData, green: ColorData, row: int)
      returns (r: Region)
      requires red != green
      requires forall c :: c in red.clumps ==> c !in green.clumps
      requires clumped.Some? && 0 <= row < |clumped.value|
      requires Ready(clumped.value, RedColumn, red) && Ready(clumped.value, GreenColumn, green)
      requires Clumped(red) && Clumped(green)
      modifies this`clumped, red, green, set c | c in red.clumps, set c | c in green.clumps
      ensures Clumped(red) && Clumped(green)
      ensures forall c :: c in red.clumps ==> c in old(red.clumps)
      ensures forall c :: c in green.clumps ==> c in old(green.clumps)
      ensures clumped.Some? && |clumped.value| == old(|clumped.value|)
      ensures Ready(clumped.value, RedColumn, red) && Ready(clumped.value, GreenColumn, green)
      ensures r == mixed || fresh(r)
      ensures var u := UnionRowSpec(geom, old(red.View()), old(green.View()), old(clumped.value), row,
                                    mixed.GetShape(), red.width, green.width);
        && red.View() == u.red && green.View() == u.green && clumped == Some(u.links)
        && r.GetShape() == u.shape && (r == mixed <==> !u.grown)
    {
      r := UnionNodules(geom, mixed, red, green, row);
    }

    /** The linkage reset of `findMixedNodules`: one row per region, every entry -1. */
    method ResetClumped()
      requires data.rois.Some?
      modifies this`clumped
      ensures clumped.Some? && |clumped.value| == |data.RoiList()|
      ensures forall k :: 0 <= k < |clumped.value| ==> clumped.value[k] == UNLINKED
    {
      var n := |data.rois.value|;
      var rows := seq(n, _ => Link(0, 0));
      var ii := 0;
      while ii < n
        invariant 0 <= ii <= n && |rows| == n
        invariant forall k :: 0 <= k < ii ==> rows[k] == UNLINKED
      {
        rows := rows[ii := Link(-1, -1)];
        ii := ii + 1;
      }
      clumped := Some(rows);
    }

    /** `unionNodules`: the mixed region absorbs the green regions within reach (when green
        regions exist), then the red ones, recording in row `row` of `clumped` the clumps it
        takes. Both columns keep their invariant, each colour only loses regions, and when
        no region of either colour touches `mixed` nothing changes. */
    method UnionNodules(geom: Geometry, mixed: Region, red: ColorData, green: ColorData, row: int)
      returns (r: Region)
      requires red.Valid() && green.Valid() && red != green
      requires red.RoiList() != [] ==> red.hasClumps
      requires green.RoiList() != [] ==> green.hasClumps
      requires forall c :: c in red.clumps ==> c !in green.clumps
      requires clumped.Some? && 0 <= row < |clumped.value|
      requires LinksAbsorbed(clumped.value, RedColumn, Vals(red.clumps))
      requires LinksAbsorbed(clumped.value, GreenColumn, Vals(green.clumps))
      modifies this`clumped, red, green, set c | c in red.clumps, set c | c in green.clumps
      ensures red.Valid() && green.Valid()
      ensures red.rois.Some? == old(red.rois.Some?) && green.rois.Some? == old(green.rois.Some?)
      ensures red.hasClumps == old(red.hasClumps) && green.hasClumps == old(green.hasClumps)
      ensures forall c :: c in red.clumps ==> c in old(red.clumps)
      ensures forall c :: c in green.clumps ==> c in old(green.clumps)
      ensures clumped.Some? && |clumped.value| == |old(clumped.value)|
      ensures LinksAbsorbed(clumped.value, RedColumn, Vals(red.clumps))
      ensures LinksAbsorbed(clumped.value, GreenColumn, Vals(green.clumps))
      ensures r == mixed || fresh(r)
      ensures (forall k :: 0 <= k < |old(red.RoiList())| ==> !Touches(geom, mixed, old(red.RoiList())[k])) &&
              (forall k :: 0 <= k < |old(green.RoiList())| ==> !Touches(geom, mixed, old(green.RoiList())[k])) ==>
                r == mixed
      ensures var u := UnionRowSpec(geom, old(red.View()), old(green.View()), old(clumped.value), row,
                                    mixed.GetShape(), red.width, green.width);
        && red.View() == u.red && green.View() == u.green && clumped == Some(u.links)
        && r.GetShape() == u.shape && (r == mixed <==> !u.grown)
    {
      ghost var ms := mixed.GetShape();
      ghost var gs := if green.rois.Some? then
          ColourScan(geom, green.View(), clumped.value, row, ms, green.RoiList(), green.RoiList(), 0, GreenColumn, green.width)
        else Scan(green.View(), clumped.value, ms, false);
      ghost var rv := red.View();
      r := mixed;
      if green.rois.Some? {
        r := ColourUnion(geom, r, green, red, row, GreenColumn);
      }
      assert green.View() == gs.v && clumped == Some(gs.links) && red.View() == rv;
      assert r.GetShape() == gs.shape && (r == mixed <==> !gs.grown);
      ghost var r1 := r;
      if red.rois.Some? {
        r := ColourUnion(geom, r, red, green, row, RedColumn);
      }
      assert r == r1 || fresh(r);
    }

    /** One colour of `unionNodules`: the scan over all regions of `src` in column `col`,
        which leaves the other colour's dataset, clumps and column alone. */
    method ColourUnion(geom: Geometry, mixed: Region, src: ColorData, other: ColorData, row: int, col: Column)
      returns (r: Region)
      requires src.Valid() && src.rois.Some? && (src.RoiList() != [] ==> src.hasClumps)
      requires other.Valid() && src != other
      requires forall c :: c in src.clumps ==> c !in other.clumps
      requires clumped.Some? && 0 <= row < |clumped.value|
      requires LinksAbsorbed(clumped.value, col, Vals(src.clumps))
      requires LinksAbsorbed(clumped.value, Other(col), Vals(other.clumps))
      modifies this`clumped, src, set c | c in src.clumps
      ensures src.Valid() && src.rois.Some? && src.hasClumps == old(src.hasClumps)
      ensures forall c :: c in src.clumps ==> c in old(src.clumps)
      ensures clumped.Some? && |clumped.value| == |old(clumped.value)|
      ensures LinksAbsorbed(clumped.value, col, Vals(src.clumps))
      ensures LinksAbsorbed(clumped.value, Other(col), Vals(other.clumps))
      ensures other.View() == old(other.View())
      ensures r == mixed || fresh(r)
      ensures (forall k :: 0 <= k < |old(src.RoiList())| ==> !Touches(geom, mixed, old(src.RoiList())[k])) ==>
        r == mixed
      ensures var s := ColourScan(geom, old(src.View()), old(clumped.value), row, mixed.GetShape(),
                                  old(src.RoiList()), old(src.RoiList()), 0, col, src.width);
        && src.View() == s.v && clumped == Some(s.links)
        && r.GetShape() == s.shape && (r == mixed <==> !s.grown)
    {
      ghost var ov := Vals(other.clumps);
      ghost var links := clumped.value;
      var considered := src.rois.value;
      assert considered == src.RoiList();
      r := UnionColour(src, geom, row, mixed, considered, col);
      assert Vals(other.clumps) == ov;
      LinksAbsorbedOther(links, clumped.value, Other(col), ov);
    }

    /** `unionGreenNodule` (column `GreenColumn`) and `unionRedNodules` (`RedColumn`):
        scans `considered` for regions of `src` touching `mixed` and absorbs them one at a
        time (`AbsorbAndGrow`). A clump some mixed region already absorbed is left alone and
        the green scan goes on with the next region. Throughout, the linkage invariant of
        `col` holds, the other column is untouched and `src` only loses regions; when no
        region touches `mixed` nothing changes. */
    method UnionColour(src: ColorData, geom: Geometry, row: int, mixed: Region,
                       considered: seq<Region>, col: Column) returns (r: Region)
      requires src.Valid() && src.rois.Some? && (src.RoiList() != [] ==> src.hasClumps)
      requires forall k :: 0 <= k < |considered| ==> considered[k] in Rois(src.View())
      requires clumped.Some? && 0 <= row < |clumped.value|
      requires LinksAbsorbed(clumped.value, col, Vals(src.clumps))
      modifies this`clumped, src, set c | c in src.clumps
      decreases |considered|, 1
      ensures src.Valid() && src.rois.Some? && src.hasClumps == old(src.hasClumps)
      ensures forall c :: c in src.clumps ==> c in old(src.clumps)
      ensures clumped.Some? && LinksAbsorbed(clumped.value, col, Vals(src.clumps))
      ensures r == mixed || fresh(r)
      ensures (forall k :: 0 <= k < |considered| ==> !Touches(geom, mixed, considered[k])) ==> r == mixed
      ensures var s := ColourScan(geom, old(src.View()), old(clumped.value), row, mixed.GetShape(),
                                  considered, considered, 0, col, src.width);
        && src.View() == s.v && clumped == Some(s.links)
        && r.GetShape() == s.shape && (r == mixed <==> !s.grown)
    {
      ghost var v0, links0, ms := src.View(), clumped.value, mixed.GetShape();
      ghost var target := ColourScan(geom, v0, links0, row, ms, considered, considered, 0, col, src.width);
      r := mixed;
      var rest := considered;
      var k := 0;
      while k < |considered|
        invariant 0 <= k <= |considered|
        invariant src.View() == v0 && clumped == old(clumped)
        invariant src.clumps == old(src.clumps)
        invariant ScanInv(v0, considered, rest, col)
        invariant ColourScan(geom, v0, links0, row, ms, considered, rest, k, col, src.width) == target
      {
        var done, grown, after := ScanAt(src, geom, row, mixed, considered, rest, k, col, links0);
        if done {
          r := grown;
          return;
        }
        rest := after;
        k := k + 1;
      }
    }

    /** Position `k` of the scan of `UnionColour`: a region out of reach is passed over;
        one in reach goes to `AbsorbAndGrow`, and unless the green scan passed over its
        absorbed clump (`done` false, the region then leaves `rest`), the scan ends there. */
    method ScanAt(src: ColorData, geom: Geometry, row: int, mixed: Region, considered: seq<Region>,
                  rest: seq<Region>, k: int, col: Column, ghost links0: seq<Link>)
      returns (done: bool, r: Region, after: seq<Region>)
      requires src.Valid() && src.rois.Some? && src.hasClumps
      requires clumped == Some(links0) && 0 <= row < |links0|
      requires LinksAbsorbed(links0, col, Vals(src.clumps))
      requires 0 <= k < |considered| && ScanInv(src.View(), considered, rest, col)
      modifies this`clumped, src, set c | c in src.clumps
      decreases |considered|, 1, 0
      ensures src.Valid() && src.rois.Some? && src.hasClumps
      ensures forall c :: c in src.clumps ==> c in old(src.clumps)
      ensures clumped.Some? && LinksAbsorbed(clumped.value, col, Vals(src.clumps))
      ensures r == mixed || fresh(r)
      ensures done ==> Touches(geom, mixed, considered[k])
      ensures var s := ColourScan(geom, old(src.View()), links0, row, mixed.GetShape(), considered, rest, k, col, src.width);
        if done then
          src.View() == s.v && clumped == Some(s.links) && r.GetShape() == s.shape && (r == mixed <==> !s.grown)
        else
          && r == mixed && src.View() == old(src.View()) && clumped == old(clumped) && src.clumps == old(src.clumps)
          && ScanInv(src.View(), considered, after, col)
          && ColourScan(geom, src.View(), links0, row, mixed.GetShape(), considered, after, k + 1, col, src.width) == s
    {
      var g := considered[k];
      var cur := src.GetIndex(g);
      if Touches(geom, mixed, g) {
        done, r := AbsorbAndGrow(src, geom, row, mixed, g, cur, rest, col);
        after := if done then rest else Omit(rest, g);
      } else {
        done, r, after := false, mixed, rest;
      }
    }

    /** The body of the scan once region `g` (position `cur` of `src`) touches `mixed`:
        `g` is absorbed, and unless its clump was already absorbed elsewhere the scan
        restarts on the grown region without `g`. The red scan restarts on the unchanged
        region after such a clump too. `done` is false only for the green scan passing over
        an absorbed clump, and then nothing has changed. */
    method AbsorbAndGrow(src: ColorData, geom: Geometry, row: int, mixed: Region, g: Region,
                         cur: int, rest: seq<Region>, col: Column) returns (done: bool, r: Region)
      requires src.Valid() && src.rois.Some? && src.hasClumps
      requires cur == IndexOf(Rois(src.View()), g) && cur != -1
      requires forall k :: 0 <= k < |rest| ==> rest[k] in Rois(src.View())
      requires g in rest || (col == GreenColumn && Decide(Vals(src.clumps), cur) == Skip)
      requires clumped.Some? && 0 <= row < |clumped.value|
      requires LinksAbsorbed(clumped.value, col, Vals(src.clumps))
      modifies this`clumped, src, set c | c in src.clumps
      decreases |rest|, 0
      ensures src.Valid() && src.rois.Some? && src.hasClumps
      ensures forall c :: c in src.clumps ==> c in old(src.clumps)
      ensures clumped.Some? && |clumped.value| == |old(clumped.value)|
      ensures LinksAbsorbed(clumped.value, col, Vals(src.clumps))
      ensures forall k :: 0 <= k < |clumped.value| ==>
        Entry(clumped.value[k], Other(col)) == Entry(old(clumped.value)[k], Other(col))
      ensures forall k :: 0 <= k < |Rois(src.View())| ==> Rois(src.View())[k] in old(Rois(src.View()))
      ensures r == mixed || fresh(r)
      ensures r == mixed ==> src.View() == old(src.View()) && clumped == old(clumped)
      ensures !done <==> col == GreenColumn && old(Decide(Vals(src.clumps), cur)) == Skip
      ensures !done ==> r == mixed && src.clumps == old(src.clumps)
      ensures done ==>
        var s := AbsorbStep(geom, old(src.View()), old(clumped.value), row, mixed.GetShape(), g, rest, col, src.width);
        && src.View() == s.v && clumped == Some(s.links)
        && r.GetShape() == s.shape && (r == mixed <==> !s.grown)
    {
      ghost var v0 := src.View();
      ghost var rs := Rois(v0);
      ghost var dec := Decide(Vals(src.clumps), cur);
      var others := Omit(rest, g);
      OmitInside(rest, rs, cur);
      var skip := Absorb(src, g, cur, row, col);
      assert skip <==> dec == Skip;
      if skip && col == GreenColumn {
        assert src.View() == v0 && clumped == old(clumped);
        return false, mixed;
      }
      assert g in rest;
      assert |others| < |rest|;
      ghost var rs1 := Rois(src.View());
      ghost var links1 := clumped.value;
      if rs1 != rs {
        WithoutMembers(rs, cur);
      }
      r := Regrow(src, geom, row, mixed, g, !skip, others, col);
      done := true;
      forall k | 0 <= k < |clumped.value|
        ensures Entry(clumped.value[k], Other(col)) == Entry(old(clumped.value)[k], Other(col))
      {
        assert Entry(clumped.value[k], Other(col)) == Entry(links1[k], Other(col));
      }
      forall k | 0 <= k < |Rois(src.View())|
        ensures Rois(src.View())[k] in rs
      {
        assert Rois(src.View())[k] in rs1;
      }
    }

    /** The restart of the scan: on the union of `mixed` and `g` when `g` was absorbed,
        on `mixed` itself otherwise. */
    method Regrow(src: ColorData, geom: Geometry, row: int, mixed: Region, g: Region, grow: bool,
                  others: seq<Region>, col: Column) returns (r: Region)
      requires src.Valid() && src.rois.Some? && src.hasClumps
      requires forall k :: 0 <= k < |others| ==> others[k] in Rois(src.View())
      requires clumped.Some? && 0 <= row < |clumped.value|
      requires LinksAbsorbed(clumped.value, col, Vals(src.clumps))
      modifies this`clumped, src, set c | c in src.clumps
      decreases |others|, 2
      ensures src.Valid() && src.rois.Some? && src.hasClumps
      ensures forall c :: c in src.clumps ==> c in old(src.clumps)
      ensures clumped.Some? && |clumped.value| == |old(clumped.value)|
      ensures LinksAbsorbed(clumped.value, col, Vals(src.clumps))
      ensures forall k :: 0 <= k < |clumped.value| ==>
        Entry(clumped.value[k], Other(col)) == Entry(old(clumped.value)[k], Other(col))
      ensures forall k :: 0 <= k < |Rois(src.View())| ==> Rois(src.View())[k] in old(Rois(src.View()))
      ensures r == mixed || fresh(r)
      ensures grow ==> r != mixed
      ensures r == mixed ==> src.View() == old(src.View()) && clumped == old(clumped)
      ensures var s := ColourScan(geom, old(src.View()), old(clumped.value), row,
                                  if grow then geom.union(mixed.GetShape(), g.GetShape()) else mixed.GetShape(),
                                  others, others, 0, col, src.width);
        && src.View() == s.v && clumped == Some(s.links)
        && r.GetShape() == s.shape && (r == mixed <==> !grow && !s.grown)
    {
      var next := mixed;
      if grow {
        next := new Region(geom.union(mixed.GetShape(), g.GetShape()));
      }
      r := UnionColour(src, geom, row, next, others, col);
    }

    /** One absorption step of `unionGreenNodule` (column `GreenColumn`) and
        `unionRedNodules` (`RedColumn`) for region `g` of colour dataset `src`, found at
        position `cur`, on behalf of mixed region `row`. The clump scan decides: a clump a
        mixed region already absorbed is skipped; a free clump is linked into the row and
        marked; a region with no clump leaves `src`, and the column's entries above it move
        down. The green scan goes on past an absorbed clump, the red one stops there; both
        find the same clump since no two clumps name one region. */
    method Absorb(src: ColorData, g: Region, cur: int, row: int, col: Column) returns (skip: bool)
      requires src.Valid() && src.rois.Some? && src.hasClumps
      requires cur == IndexOf(Rois(src.View()), g) && cur != -1
      requires clumped.Some? && 0 <= row < |clumped.value|
      requires LinksAbsorbed(clumped.value, col, Vals(src.clumps))
      modifies this`clumped, src, set c | c in src.clumps
      ensures src.Valid() && src.rois.Some? && src.hasClumps
      ensures forall c :: c in src.clumps ==> c in old(src.clumps)
      ensures clumped.Some? && |clumped.value| == |old(clumped.value)|
      ensures LinksAbsorbed(clumped.value, col, Vals(src.clumps))
      ensures forall k :: 0 <= k < |clumped.value| ==>
        Entry(clumped.value[k], Other(col)) == Entry(old(clumped.value)[k], Other(col))
      ensures Rois(src.View()) == old(Rois(src.View())) || Rois(src.View()) == Without(old(Rois(src.View())), cur)
      ensures match Decide(old(Vals(src.clumps)), cur)
        case Skip =>
          skip && src.View() == old(src.View()) && clumped == old(clumped) && src.clumps == old(src.clumps)
        case LinkClump(p) =>
          && !skip
          && src.View() == old(src.View()).(clumps := Some(old(Vals(src.clumps))[p := old(Vals(src.clumps))[p].(hasMixed := true)]))
          && clumped == Some(old(clumped.value)[row := WithEntry(old(clumped.value)[row], col, cur)])
        case Drop =>
          && !skip
          && src.View() == RemoveRoiSpec(old(src.View()), g, src.width).1
          && clumped == Some(DecrementAbove(old(clumped.value), col, cur))
    {
      var remove, k;
      remove, skip, k := ScanClumps(src, cur, col);
      if remove {
        DropRegion(src, g, cur, col);
      } else if !skip {
        LinkRow(src, k, cur, row, col);
      }
    }

    /** The clump scan of `unionGreenNodule` and `unionRedNodules` for region position
        `cur`: it looks for the clump naming `cur`. Finding it already absorbed sets `skip`
        (the green scan goes on, the red one stops); finding it free stops at its position
        `k`, where the source links it; finding none leaves `remove` set. */
    method ScanClumps(src: ColorData, cur: int, col: Column) returns (remove: bool, skip: bool, k: int)
      requires src.Valid() && src.hasClumps
      ensures match Decide(Vals(src.clumps), cur)
        case Skip => skip && !remove
        case LinkClump(p) => !skip && !remove && k == p
        case Drop => remove && !skip
    {
      ghost var cs := Vals(src.clumps);
      skip := false;
      remove := true;
      k := 0;
      while k < |src.clumps|
        invariant 0 <= k <= |src.clumps|
        invariant remove != skip
        invariant remove ==> forall j :: 0 <= j < k ==> cs[j].index != cur
        invariant skip ==> Decide(cs, cur) == Skip && ClumpPos(cs, cur) < k
      {
        var c := src.clumps[k];
        if c.index == cur && c.hasMixed {
          skip := true;
          remove := false;
          if col == RedColumn {
            break;
          }
        } else if c.index == cur {
          assert Decide(cs, cur) == LinkClump(k);
          remove := false;
          break;
        }
        k := k + 1;
      }
      assert remove ==> Decide(cs, cur) == Drop;
    }

    /** The linking branch of the clump scan: region `cur`'s clump, at position `p`, is
        linked into column `col` of row `row` and marked as absorbed. */
    method LinkRow(src: ColorData, p: int, cur: int, row: int, col: Column)
      requires src.Valid() && src.hasClumps
      requires Decide(Vals(src.clumps), cur) == LinkClump(p)
      requires clumped.Some? && 0 <= row < |clumped.value|
      requires LinksAbsorbed(clumped.value, col, Vals(src.clumps))
      modifies this`clumped, src.clumps[p]
      ensures src.Valid()
      ensures src.View() == old(src.View()).(clumps := Some(old(Vals(src.clumps))[p := old(Vals(src.clumps))[p].(hasMixed := true)]))
      ensures clumped == Some(old(clumped.value)[row := WithEntry(old(clumped.value)[row], col, cur)])
      ensures LinksAbsorbed(clumped.value, col, Vals(src.clumps))
    {
      ValidIndexed(src);
      LinkKeepsAbsorbed(clumped.value, col, Vals(src.clumps), |src.RoiList()|, row, cur);
      clumped := Some(clumped.value[row := WithEntry(clumped.value[row], col, cur)]);
      MarkClumpOf(src, p, cur);
    }

    /** The removing branch of the clump scan: region `g`, at position `cur` and with no
        clump, leaves `src`, and the entries of column `col` above it move down. */
    method DropRegion(src: ColorData, g: Region, cur: int, col: Column)
      requires src.Valid() && src.rois.Some? && src.hasClumps
      requires cur == IndexOf(src.RoiList(), g) && cur != -1
      requires Decide(Vals(src.clumps), cur) == Drop
      requires clumped.Some? && LinksAbsorbed(clumped.value, col, Vals(src.clumps))
      modifies this`clumped, src, set c | c in src.clumps
      ensures src.Valid() && src.rois.Some? && src.hasClumps
      ensures forall c :: c in src.clumps ==> c in old(src.clumps)
      ensures src.View() == RemoveRoiSpec(old(src.View()), g, src.width).1
      ensures Rois(src.View()) == Without(old(Rois(src.View())), cur)
      ensures clumped == Some(DecrementAbove(old(clumped.value), col, cur))
      ensures LinksAbsorbed(clumped.value, col, Vals(src.clumps))
    {
      ghost var cs := Vals(src.clumps);
      DropKeepsAbsorbed(clumped.value, col, cs, |src.RoiList()|, cur);
      var _ := src.RemoveRoi(g);
      assert Vals(src.clumps) == ShiftAbove(cs, cur);
      DecrementColumn(col, cur);
    }

    /** `updateData`: with no mixed regions nothing happens. Otherwise, for each of the
        first `numNodules` regions, its red and green pixel counts are recorded: its own
        count in a colour where the row links no clump, else the linked clump's area, and
        the linked clump and its colour dataset take the mixed region over. The region's
        area row becomes the sum of the two counts. */
    method UpdateData(img: Image, red: ColorData, green: ColorData)
      requires Valid() && img.WellFormed() && red.Valid() && green.Valid()
      requires red != green && data != red && data != green
      requires forall c :: c in red.clumps ==> c !in green.clumps
      requires data.RoiList() != [] ==>
        && 0 <= data.numNodules <= |data.RoiList()|
        && data.areas.Some? && data.numNodules <= |data.areas.value|
        && clumped.Some? && data.numNodules <= |clumped.value|
      modifies this`redPixels, this`greenPixels, data`areas, red`rois, red`areas, red`pixels,
        green`rois, green`areas, green`pixels, set c | c in red.clumps, set c | c in green.clumps
      ensures Valid() && red.Valid() && green.Valid()
      ensures red.clumps == old(red.clumps) && green.clumps == old(green.clumps)
      ensures data.RoiList() == [] ==>
        MView() == old(MView()) && red.View() == old(red.View()) && green.View() == old(green.View())
      ensures data.RoiList() != [] ==>
        var n := data.numNodules;
        var rs := data.RoiList();
        var links := clumped.value;
        && data.View() == old(data.View()).(areas := data.areas) && clumped == old(clumped)
        && redPixels.Some? && greenPixels.Some? && data.areas.Some?
        && RowsMeasured(img, rs, links, n, redPixels.value, greenPixels.value,
             old(data.areas.value), data.areas.value, old(Vals(red.clumps)), Vals(red.clumps), red.RoiList(),
             old(Vals(green.clumps)), Vals(green.clumps), green.RoiList())
        && red.View() == HandOverRows(old(red.View()), links, RedColumn, rs, n, red.width)
        && green.View() == HandOverRows(old(green.View()), links, GreenColumn, rs, n, green.width)
    {
      if data.rois.Null? || |data.rois.value| == 0 {
        return;
      }
      FillPixels(img, red, green);
    }

    /** The rows of `updateData` once there are mixed regions (see there). */
    method FillPixels(img: Image, red: ColorData, green: ColorData)
      requires Valid() && img.WellFormed() && red.Valid() && green.Valid()
      requires red != green && data != red && data != green
      requires forall c :: c in red.clumps ==> c !in green.clumps
      requires data.RoiList() != []
      requires 0 <= data.numNodules <= |data.RoiList()|
      requires data.areas.Some? && data.numNodules <= |data.areas.value|
      requires clumped.Some? && data.numNodules <= |clumped.value|
      modifies this`redPixels, this`greenPixels, data`areas, red`rois, red`areas, red`pixels,
        green`rois, green`areas, green`pixels, set c | c in red.clumps, set c | c in green.clumps
      ensures Valid() && red.Valid() && green.Valid()
      ensures red.clumps == old(red.clumps) && green.clumps == old(green.clumps)
      ensures data.RoiList() != [] ==>
        var n := data.numNodules;
        var rs := data.RoiList();
        var links := clumped.value;
        && data.View() == old(data.View()).(areas := data.areas) && clumped == old(clumped)
        && redPixels.Some? && greenPixels.Some? && data.areas.Some?
        && RowsMeasured(img, rs, links, n, redPixels.value, greenPixels.value,
             old(data.areas.value), data.areas.value, old(Vals(red.clumps)), Vals(red.clumps), red.RoiList(),
             old(Vals(green.clumps)), Vals(green.clumps), green.RoiList())
        && red.View() == HandOverRows(old(red.View()), links, RedColumn, rs, n, red.width)
        && green.View() == HandOverRows(old(green.View()), links, GreenColumn, rs, n, green.width)
    {
      var numNods := data.numNodules;
      var reds, greens := MeasureRows(data, red, green, img, clumped.value, numNods);
      ghost var rv, rr, gv, gr := Vals(red.clumps), red.RoiList(), Vals(green.clumps), green.RoiList();
      ghost var dv, rows := data.View(), data.areas.value;
      greenPixels := Some(greens);
      redPixels := Some(reds);
      assert data.View() == dv && data.areas.value == rows;
      assert Vals(red.clumps) == rv && red.RoiList() == rr;
      assert Vals(green.clumps) == gv && green.RoiList() == gr;
    }

    /** The first loop of `findMixedNodules`: `unionMixedNodules` runs while the loop
        counter is below the count, stopping early once the count is 1. Each merge removes
        one region and lowers the count by one, so the count minus the number of regions
        stays as it was. The counter rises with every call while the count falls with every
        merge, so the loop can end with close regions still apart. */
    method MergeCloseRegions(geom: Geometry, img: Image) returns (rounds: int, ghost merges: seq<Region>)
      requires Valid() && data.rois.Some? && data.areas.Some?
      requires redPixels.Null? && greenPixels.Null?
      requires img.WellFormed()
      modifies this`redPixels, this`greenPixels, this`clumped, data
      ensures Valid() && data.rois.Some? && data.areas.Some?
      ensures redPixels.Null? && greenPixels.Null?
      ensures data.numNodules - |data.RoiList()| == old(data.numNodules - |data.RoiList()|)
      ensures 0 <= old(|data.RoiList()|) - |data.RoiList()| <= rounds
      ensures rounds >= data.numNodules || data.numNodules == 1
      ensures FirstPairFrom(geom, old(data.RoiList()), 0).Null? ==> MView() == old(MView())
      ensures Mergeable(old(MView())) && MergeTurns(geom, old(MView()), merges, 0, rounds, MView(), data.width)
      ensures MergeStops(MView(), rounds)
    {
      ghost var m0 := MView();
      ghost var w := data.width;
      merges := [];
      rounds := 0;
      while rounds < data.numNodules
        invariant Valid() && data.rois.Some? && data.areas.Some?
        invariant redPixels.Null? && greenPixels.Null?
        invariant 0 <= rounds
        invariant MergeTurns(geom, m0, merges, 0, rounds, MView(), w)
        decreases data.numNodules - rounds
      {
        if data.numNodules == 1 {
          break;
        }
        merges := MergeTurn(geom, img, m0, merges, rounds);
        rounds := rounds + 1;
      }
      MergeTurnsCounts(geom, m0, merges, 0, rounds, MView(), w);
      if FirstPairFrom(geom, Rois(m0.base), 0).Null? {
        MergeTurnsNone(geom, m0, merges, 0, rounds, MView(), w);
      }
    }

    /** One turn of the merge loop: `unionMixedNodules` extends the turns so far by one,
        adding the merged region, if any, to `merges`. */
    method MergeTurn(geom: Geometry, img: Image, ghost m0: MixedState, ghost merges: seq<Region>, rounds: int)
      returns (ghost after: seq<Region>)
      requires Valid() && data.rois.Some? && data.areas.Some?
      requires redPixels.Null? && greenPixels.Null? && img.WellFormed()
      requires 0 <= rounds && !MergeStops(MView(), rounds)
      requires MergeTurns(geom, m0, merges, 0, rounds, MView(), data.width)
      modifies this`redPixels, this`greenPixels, this`clumped, data
      ensures Valid() && data.rois.Some? && data.areas.Some?
      ensures redPixels.Null? && greenPixels.Null?
      ensures data.numNodules <= old(data.numNodules)
      ensures MergeTurns(geom, m0, after, 0, rounds + 1, MView(), data.width)
    {
      ghost var before := MView();
      var merged, u := UnionMixedNodules(geom, img);
      if merged {
        MergeTurnsMerge(geom, m0, merges, 0, rounds, before, u, data.width);
        after := merges + [u];
      } else {
        MergeTurnsIdle(geom, m0, merges, 0, rounds, before, data.width);
        after := merges;
      }
    }

    /** `removeFakeNodules`, with the dialogs replaced by the user's `replies`, one per
        region: the regions for which `BUTTON` reads No after their dialog leave through
        `removeRoi`, the last one first, and the count drops by their number. It runs
        before the pixel arrays exist. */
    method RemoveFakeNodules(replies: seq<Reply>)
      requires Valid() && data.rois.Some? && greenPixels.Null?
      requires |replies| == |data.RoiList()|
      modifies this, data
      ensures Valid() && data.rois.Some? && greenPixels.Null?
      ensures button == ButtonAfter(old(button), replies)
      ensures MView() == RemoveFakeSpec(old(MView()), old(button), replies, data.width)
    {
      var rs := data.rois.value;
      ghost var b0 := button;
      var del: seq<Region> := [];
      var k := 0;
      while k < |rs|
        invariant 0 <= k <= |rs|
        invariant button == ButtonAfter(b0, replies[..k])
        invariant del == Rejected(rs[..k], b0, replies[..k])
        invariant MView() == old(MView()) && unchanged(data)
      {
        match replies[k] {
          case Yes => button := YES;
          case No => button := NO;
          case Dismissed =>
        }
        assert replies[..k + 1][..k] == replies[..k];
        if button == NO {
          del := del + [rs[k]];
        }
        assert rs[..k + 1][..k] == rs[..k];
        k := k + 1;
      }
      assert rs[..k] == rs && replies[..k] == replies;
      RemoveListed(del);
    }

    /** The removal loop of `removeFakeNodules`: `removeRoi` on each listed region, the last
        one first, then the count drops by their number. */
    method RemoveListed(del: seq<Region>)
      requires Valid() && data.rois.Some? && greenPixels.Null?
      modifies this, data
      ensures Valid() && data.rois.Some? && greenPixels.Null? && button == old(button)
      ensures var b := RemoveEvery(old(data.View()), del, data.width);
        MView() == old(MView()).(base := b.(numNodules := b.numNodules - |del|))
    {
      RemoveAllListed(del);
      data.SetCount(data.numNodules - |del|);
    }

    /** The loop of `RemoveListed`: the listed regions leave the dataset, the last first. */
    method RemoveAllListed(del: seq<Region>)
      requires Valid() && data.rois.Some? && greenPixels.Null?
      modifies this`redPixels, this`greenPixels, this`clumped, data, set c | c in data.clumps
      ensures Valid() && data.rois.Some? && greenPixels.Null?
      ensures MView() == old(MView()).(base := RemoveEvery(old(data.View()), del, data.width))
    {
      ghost var final := RemoveEvery(data.View(), del, data.width);
      var left := |del|;
      assert del[..left] == del;
      while left > 0
        invariant 0 <= left <= |del|
        invariant Valid() && data.rois.Some? && greenPixels.Null?
        invariant redPixels == old(redPixels) && clumped == old(clumped)
        invariant RemoveEvery(data.View(), del[..left], data.width) == final
      {
        assert del[..left][..left - 1] == del[..left - 1];
        RemoveLastListed(del[..left]);
        left := left - 1;
      }
      assert del[..0] == [];
    }

    /** One turn of the removal loop: the last region of `prefix` leaves the dataset. */
    method RemoveLastListed(prefix: seq<Region>)
      requires Valid() && data.rois.Some? && greenPixels.Null? && |prefix| > 0
      modifies this`redPixels, this`greenPixels, this`clumped, data, set c | c in data.clumps
      ensures Valid() && data.rois.Some? && greenPixels.Null?
      ensures redPixels == old(redPixels) && clumped == old(clumped)
      ensures RemoveEvery(data.View(), prefix[..|prefix| - 1], data.width)
        == RemoveEvery(old(data.View()), prefix, data.width)
    {
      ghost var before := data.View();
      var _ := RemoveRoi(prefix[|prefix| - 1]);
      assert data.View() == RemoveRoiSpec(before, prefix[|prefix| - 1], data.width).1;
    }

    /** `unionMixedNodules`: finds the first region with another region less than 3
        pixels away (`FirstPairFrom`), puts the union of the two in its place and removes
        the other one with its `clumped` row; at most one merge per call. It runs before
        the pixel arrays exist. */
    method UnionMixedNodules(geom: Geometry, img: Image) returns (merged: bool, u: Region?)
      requires Valid() && data.rois.Some? && data.areas.Some?
      requires redPixels.Null? && greenPixels.Null?
      requires img.WellFormed()
      modifies this`redPixels, this`greenPixels, this`clumped, data
      ensures Valid() && data.rois.Some? && data.areas.Some?
      ensures redPixels.Null? && greenPixels.Null?
      ensures merged <==> FirstPairFrom(geom, old(data.RoiList()), 0).Some?
      ensures !merged ==> MView() == old(MView())
      ensures merged ==>
        var rs := old(data.RoiList());
        var i := FirstPairFrom(geom, rs, 0).value.0;
        var j := FirstPairFrom(geom, rs, 0).value.1;
        && u != null && fresh(u) && u.GetShape() == geom.union(rs[i].GetShape(), rs[j].GetShape())
        && MView() == UnionMixedSpec(old(MView()), i, j, u, data.width)
    {
      var rs := data.rois.value;
      var ii := 0;
      while ii < |rs|
        invariant 0 <= ii <= |rs|
        invariant forall k :: 0 <= k < ii ==> FirstClose(geom, rs, rs[k]) == -1
        invariant unchanged(this) && unchanged(data)
      {
        var roi1 := rs[ii];
        var jj := 0;
        while jj < |rs|
          invariant 0 <= jj <= |rs|
          invariant forall k :: 0 <= k < jj ==> !Close(geom, roi1, rs[k])
          invariant unchanged(this) && unchanged(data)
        {
          var roi2 := rs[jj];
          if roi1 != roi2 && Within(ClosestDistance(geom, roi1.outline, roi2.outline), 3.0) {
            FirstCloseSpec(geom, rs, roi1);
            assert FirstClose(geom, rs, roi1) == jj;
            FirstPairFromFinds(geom, rs, 0, ii);
            u := MergePair(geom, img, ii, jj);
            return true, u;
          }
          jj := jj + 1;
        }
        FirstCloseSpec(geom, rs, roi1);
        ii := ii + 1;
      }
      FirstPairFromSpec(geom, rs, 0);
      return false, null;
    }

    /** The merge of `unionMixedNodules` for regions `i` and `j`: region `i` becomes their
        union, region `j` leaves through `removeRoi` and, as that succeeds, its `clumped`
        row goes too; the count then drops by one. */
    method MergePair(geom: Geometry, img: Image, i: int, j: int) returns (u: Region)
      requires Valid() && data.rois.Some? && data.areas.Some?
      requires redPixels.Null? && greenPixels.Null?
      requires 0 <= i < |data.RoiList()| && 0 <= j < |data.RoiList()|
      requires img.WellFormed()
      modifies this`redPixels, this`greenPixels, this`clumped, data
      ensures Valid() && data.rois.Some? && data.areas.Some?
      ensures redPixels.Null? && greenPixels.Null?
      ensures fresh(u)
      ensures u.GetShape() == geom.union(old(data.RoiList())[i].GetShape(), old(data.RoiList())[j].GetShape())
      ensures MView() == UnionMixedSpec(old(MView()), i, j, u, data.width)
    {
      ghost var m0 := MView();
      var roi1 := data.rois.value[i];
      var roi2 := data.rois.value[j];
      u := new Region(geom.union(roi1.GetShape(), roi2.GetShape()));
      SetRoi(i, u, img);
      ghost var s := MView();
      assert s == SetMixedSpec(m0, i, u, data.width, (0, 0));
      DropPartner(roi2);
    }

    /** The second half of a merge in `unionMixedNodules`: `roi2` leaves through
        `removeRoi`, its `clumped` row at the position it had goes too, and the count
        drops by one. */
    method DropPartner(roi2: Region)
      requires Valid() && data.rois.Some? && data.areas.Some?
      requires redPixels.Null? && greenPixels.Null?
      modifies this`redPixels, this`greenPixels, this`clumped, data
      ensures Valid() && data.rois.Some? && data.areas.Some?
      ensures redPixels.Null? && greenPixels.Null?
      ensures var removed := RemoveMixedSpec(old(MView()), roi2, data.width).1;
        MView() == removed.(base := removed.base.(numNodules := removed.base.numNodules - 1),
                            links := RemoveFromClumpedSpec(removed.links, old(IndexOf(data.RoiList(), roi2))))
    {
      var index := data.GetIndex(roi2);
      var ok := RemoveRoi(roi2);
      if ok {
        RemoveFromClumped(index);
      }
      data.SetCount(data.numNodules - 1);
    }

    /** The decrement loop after a colour region is removed: every entry of column `col`
        above `index` moves down by one. */
    method DecrementColumn(col: Column, index: int)
      requires clumped.Some?
      modifies this`clumped
      ensures clumped == Some(DecrementAbove(old(clumped.value), col, index))
    {
      var rows := clumped.value;
      ghost var target := DecrementAbove(rows, col, index);
      var ii := 0;
      while ii < |rows|
        invariant 0 <= ii <= |rows|
        invariant |rows| == |target|
        invariant forall k :: 0 <= k < ii ==> rows[k] == target[k]
        invariant forall k :: ii <= k < |rows| ==> rows[k] == old(clumped.value)[k]
      {
        if Entry(rows[ii], col) > index {
          rows := rows[ii := WithEntry(rows[ii], col, Entry(rows[ii], col) - 1)];
        }
        ii := ii + 1;
      }
      assert rows == target;
      clumped := Some(rows);
    }
  }
}
