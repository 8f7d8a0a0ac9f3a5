/** The passes of `findMixedNodules` as functions of values: the scans by which a mixed
    region absorbs the red and green regions within reach (`unionGreenNodule`,
    `unionRedNodules`, `unionNodules` and the loop over all mixed regions), and the
    rounds of `unionMixedNodules`. The methods of `MixedData` are proved to follow them. */
module Absorption {
  import opened Common
  import opened Regions
  import opened Clumps
  import opened ColorSpec
  import opened MixedSpec

  /** The regions left to consider once `rs[cur]` is dealt with lie in `rs`, and survive
      the removal of position `cur`. */
  lemma OmitInside(rest: seq<Region>, rs: seq<Region>, cur: int)
    requires 0 <= cur < |rs|
    requires forall j :: 0 <= j < |rest| ==> rest[j] in rs
    ensures forall j :: 0 <= j < |Omit(rest, rs[cur])| ==> Omit(rest, rs[cur])[j] in rs
    ensures forall j :: 0 <= j < |Omit(rest, rs[cur])| ==> Omit(rest, rs[cur])[j] in Without(rs, cur)
  {
    var others := Omit(rest, rs[cur]);
    forall j | 0 <= j < |others|
      ensures others[j] in rs && others[j] in Without(rs, cur)
    {
      var x := others[j];
      assert x in rest;
      var i :| 0 <= i < |rest| && rest[i] == x;
      WithoutKeeps(rs, cur, x);
    }
  }

  // ---------------------------------------------------------------- one colour

  /** `Touches` seen from the mixed region's shape: region `r` lies less than half a pixel
      from outline of `m`. */
  predicate Reaches(geom: Geometry, m: Shape, r: Region)
  {
    Within(ClosestDistance(geom, m.outline, r.outline), 0.5)
  }

  /** A colour dataset a scan works on: it has a region list and aligned area rows, and
      clumps once it has a region (`getData` leaves a dataset without regions without a
      clump list, and a scan over its empty list never reads one). */
  predicate Scannable(v: Dataset)
  {
    v.rois.Some? && AreasAligned(v) && (Rois(v) != [] ==> v.clumps.Some?)
  }

  /** Where a scan stands: the regions it considers and the ones still on its list are
      regions of `v`, the list is no longer than the considered regions, the red scan never
      shortens it, and a considered region the green scan took off it is one whose clump
      some mixed region had already absorbed. */
  predicate ScanInv(v: Dataset, considered: seq<Region>, rest: seq<Region>, col: Column)
  {
    && (forall j :: 0 <= j < |considered| ==> considered[j] in Rois(v))
    && (forall j :: 0 <= j < |rest| ==> rest[j] in Rois(v))
    && |rest| <= |considered|
    && (col == RedColumn ==> rest == considered)
    && (forall j :: 0 <= j < |considered| && considered[j] !in rest ==>
          v.clumps.Some? && Decide(v.clumps.value, IndexOf(Rois(v), considered[j])) == Skip)
  }

  /** The outcome of a scan: the colour dataset, the linkage table, the shape the mixed
      region has grown to, and whether it grew at all (the source then holds a new region). */
  datatype Scan = Scan(v: Dataset, links: seq<Link>, shape: Shape, grown: bool)

  /** `unionGreenNodule` (column `GreenColumn`) and `unionRedNodules` (`RedColumn`) from
      position `k` of `considered` on, for the mixed region of shape `m` and linkage row
      `row`: a region out of reach is passed over; the green scan passes over a region whose
      clump is already absorbed, taking it off `rest`; any other region in reach is dealt
      with by `AbsorbStep`, which ends this scan. */
  function ColourScan(geom: Geometry, v: Dataset, links: seq<Link>, row: int, m: Shape,
                      considered: seq<Region>, rest: seq<Region>, k: nat, col: Column, width: int): (r: Scan)
    requires Scannable(v) && 0 <= row < |links| && k <= |considered|
    requires ScanInv(v, considered, rest, col)
    ensures Scannable(r.v) && |r.links| == |links|
    ensures forall j :: 0 <= j < |links| ==> Entry(r.links[j], Other(col)) == Entry(links[j], Other(col))
    ensures forall x :: x in Rois(r.v) ==> x in Rois(v)
    ensures !r.grown ==> r.v == v && r.links == links && r.shape == m
    decreases |considered|, 1, |considered| - k
  {
    if k == |considered| then Scan(v, links, m, false)
    else
      var g := considered[k];
      if !Reaches(geom, m, g) then
        ColourScan(geom, v, links, row, m, considered, rest, k + 1, col, width)
      else if col == GreenColumn && Decide(v.clumps.value, IndexOf(Rois(v), g)) == Skip then
        ColourScan(geom, v, links, row, m, considered, Omit(rest, g), k + 1, col, width)
      else
        AbsorbStep(geom, v, links, row, m, g, rest, col, width)
  }

  /** Region `g` of `v` is in reach and is not a green region passed over: the clump scan
      decides. An absorbed clump (only the red scan gets here with one) leaves everything as
      it is; a free clump is marked and linked into column `col` of row `row`; a region
      without a clump leaves `v` and the column's entries above it move down. In the last
      two cases the mixed region grows by `g`. Either way the scan starts again on the rest
      of the list without `g`. */
  function AbsorbStep(geom: Geometry, v: Dataset, links: seq<Link>, row: int, m: Shape,
                      g: Region, rest: seq<Region>, col: Column, width: int): (r: Scan)
    requires Scannable(v) && 0 <= row < |links|
    requires g in rest && forall j :: 0 <= j < |rest| ==> rest[j] in Rois(v)
    ensures Scannable(r.v) && |r.links| == |links|
    ensures forall j :: 0 <= j < |links| ==> Entry(r.links[j], Other(col)) == Entry(links[j], Other(col))
    ensures forall x :: x in Rois(r.v) ==> x in Rois(v)
    ensures !r.grown ==> r.v == v && r.links == links && r.shape == m
    decreases |rest|, 0, 0
  {
    var rs := Rois(v);
    var cur := IndexOf(rs, g);
    var others := Omit(rest, g);
    OmitInside(rest, rs, cur);
    match Decide(v.clumps.value, cur)
    case Skip =>
      ColourScan(geom, v, links, row, m, others, others, 0, col, width)
    case LinkClump(p) =>
      var cs := v.clumps.value;
      var marked := v.(clumps := Some(cs[p := cs[p].(hasMixed := true)]));
      var linked := links[row := WithEntry(links[row], col, cur)];
      var s := ColourScan(geom, marked, linked, row, geom.union(m, g.GetShape()), others, others, 0, col, width);
      s.(grown := true)
    case Drop =>
      var dropped := RemoveRoiSpec(v, g, width).1;
      WithoutMembers(rs, cur);
      var s := ColourScan(geom, dropped, DecrementAbove(links, col, cur), row, geom.union(m, g.GetShape()),
                          others, others, 0, col, width);
      s.(grown := true)
  }

  /** A scan none of whose remaining regions is in reach changes nothing. */
  lemma {:induction false} ScanUntouched(geom: Geometry, v: Dataset, links: seq<Link>, row: int, m: Shape,
                                         considered: seq<Region>, rest: seq<Region>, k: nat, col: Column, width: int)
    requires Scannable(v) && 0 <= row < |links| && k <= |considered|
    requires ScanInv(v, considered, rest, col)
    requires forall j :: k <= j < |considered| ==> !Reaches(geom, m, considered[j])
    ensures ColourScan(geom, v, links, row, m, considered, rest, k, col, width) == Scan(v, links, m, false)
    decreases |considered| - k
  {
    if k < |considered| {
      ScanUntouched(geom, v, links, row, m, considered, rest, k + 1, col, width);
    }
  }

  /** When the first region in reach is not one the green scan passes over, the scan is
      the absorption step for that region. */
  lemma {:induction false} ScanFirstAbsorbed(geom: Geometry, v: Dataset, links: seq<Link>, row: int, m: Shape,
                                             considered: seq<Region>, rest: seq<Region>, k: nat, col: Column, width: int, i: int)
    requires Scannable(v) && 0 <= row < |links| && k <= i < |considered|
    requires ScanInv(v, considered, rest, col)
    requires Reaches(geom, m, considered[i])
    requires col == RedColumn || Decide(v.clumps.value, IndexOf(Rois(v), considered[i])) != Skip
    requires forall j :: k <= j < i ==> !Reaches(geom, m, considered[j])
    ensures considered[i] in rest
    ensures ColourScan(geom, v, links, row, m, considered, rest, k, col, width)
      == AbsorbStep(geom, v, links, row, m, considered[i], rest, col, width)
    decreases i - k
  {
    if k < i {
      ScanFirstAbsorbed(geom, v, links, row, m, considered, rest, k + 1, col, width, i);
    }
  }

  // ---------------------------------------------------------------- one mixed region

  /** A colour dataset `unionNodules` can scan: when it has regions it is `Scannable`. */
  predicate Absorbable(v: Dataset)
  {
    v.rois.Some? ==> Scannable(v)
  }

  /** The outcome of `unionNodules` for one mixed region. */
  datatype RowResult = RowResult(red: Dataset, green: Dataset, links: seq<Link>, shape: Shape, grown: bool)

  /** `unionNodules` for row `row` and a mixed region of shape `m`: the green scan over all
      green regions (when there are any), then the red scan over all red regions, starting
      from the table and the shape the green scan left. */
  function UnionRowSpec(geom: Geometry, red: Dataset, green: Dataset, links: seq<Link>, row: int, m: Shape,
                        redWidth: int, greenWidth: int): (r: RowResult)
    requires Absorbable(red) && Absorbable(green) && 0 <= row < |links|
    ensures Absorbable(r.red) && Absorbable(r.green) && |r.links| == |links|
    ensures !r.grown ==> r.red == red && r.green == green && r.links == links && r.shape == m
  {
    var gs := if green.rois.Some? then
        ColourScan(geom, green, links, row, m, Rois(green), Rois(green), 0, GreenColumn, greenWidth)
      else Scan(green, links, m, false);
    var rs := if red.rois.Some? then
        ColourScan(geom, red, gs.links, row, gs.shape, Rois(red), Rois(red), 0, RedColumn, redWidth)
      else Scan(red, gs.links, gs.shape, false);
    RowResult(rs.v, gs.v, rs.links, rs.shape, gs.grown || rs.grown)
  }

  /** A mixed region no red or green region reaches absorbs nothing. */
  lemma UnionRowUntouched(geom: Geometry, red: Dataset, green: Dataset, links: seq<Link>, row: int, m: Shape,
                          redWidth: int, greenWidth: int)
    requires Absorbable(red) && Absorbable(green) && 0 <= row < |links|
    requires forall j :: 0 <= j < |Rois(red)| ==> !Reaches(geom, m, Rois(red)[j])
    requires forall j :: 0 <= j < |Rois(green)| ==> !Reaches(geom, m, Rois(green)[j])
    ensures UnionRowSpec(geom, red, green, links, row, m, redWidth, greenWidth)
      == RowResult(red, green, links, m, false)
  {
    if green.rois.Some? {
      ScanUntouched(geom, green, links, row, m, Rois(green), Rois(green), 0, GreenColumn, greenWidth);
    }
    if red.rois.Some? {
      ScanUntouched(geom, red, links, row, m, Rois(red), Rois(red), 0, RedColumn, redWidth);
    }
  }

  /** A colour dataset in which `getData` found no region has no clump list, yet
      `unionNodules` can scan it: its scan, red or green, reads no clump and leaves it as
      it was. */
  lemma NoRegionsScanned(geom: Geometry, d: Dataset, mixed: bool, width: int, high: int, other: Dataset,
                         links: seq<Link>, row: int, m: Shape, otherWidth: int)
    requires d.clumps.Null? && d.singles.Null?
    requires Absorbable(other) && 0 <= row < |links|
    ensures var e := GetDataSpec(d, true, mixed, [], [], width, high);
      && e.clumps.Null? && Rois(e) == [] && Absorbable(e)
      && UnionRowSpec(geom, other, e, links, row, m, otherWidth, width).green == e
      && UnionRowSpec(geom, e, other, links, row, m, width, otherWidth).red == e
  {
    var e := GetDataSpec(d, true, mixed, [], [], width, high);
    assert Rois(e) == [];
    ScanUntouched(geom, e, links, row, m, [], [], 0, GreenColumn, width);
    var gs := if other.rois.Some? then
        ColourScan(geom, other, links, row, m, Rois(other), Rois(other), 0, GreenColumn, otherWidth)
      else Scan(other, links, m, false);
    ScanUntouched(geom, e, gs.links, row, gs.shape, [], [], 0, RedColumn, width);
  }

  // ---------------------------------------------------------------- all mixed regions

  /** The shapes of a list of regions. */
  function Shapes(rs: seq<Region>): (r: seq<Shape>)
    ensures |r| == |rs| && forall k :: 0 <= k < |rs| ==> r[k] == rs[k].GetShape()
  {
    seq(|rs|, k requires 0 <= k < |rs| => rs[k].GetShape())
  }

  /** The outcome of the absorption loop: the colour datasets and the table at the end,
      and for each mixed region the shape it grew to and whether it grew. */
  datatype RowsResult = RowsResult(red: Dataset, green: Dataset, links: seq<Link>, shapes: seq<Shape>, grown: seq<bool>)

  /** The absorption loop of `findMixedNodules` from row `counter` on, for mixed regions of
      shapes `ms`: each row in turn runs `unionNodules` on the datasets and the table the
      rows before it left. */
  function AbsorbRows(geom: Geometry, red: Dataset, green: Dataset, links: seq<Link>, ms: seq<Shape>,
                      counter: nat, redWidth: int, greenWidth: int): (r: RowsResult)
    requires Absorbable(red) && Absorbable(green) && |links| == |ms| && counter <= |ms|
    ensures Absorbable(r.red) && Absorbable(r.green) && |r.links| == |links|
    ensures |r.shapes| == |ms| - counter && |r.grown| == |ms| - counter
    ensures forall k :: 0 <= k < |r.grown| && !r.grown[k] ==> r.shapes[k] == ms[counter + k]
    decreases |ms| - counter
  {
    if counter == |ms| then RowsResult(red, green, links, [], [])
    else
      var u := UnionRowSpec(geom, red, green, links, counter, ms[counter], redWidth, greenWidth);
      var t := AbsorbRows(geom, u.red, u.green, u.links, ms, counter + 1, redWidth, greenWidth);
      RowsResult(t.red, t.green, t.links, [u.shape] + t.shapes, [u.grown] + t.grown)
  }

  /** The first `n` regions of `now` are those of `before` as the run `a` grew them: each
      has the shape `a` gives it, and is the region it was exactly when `a` did not grow it. */
  predicate GrownAsRun(now: seq<Region>, before: seq<Region>, a: RowsResult, n: int)
  {
    && 0 <= n <= |now| && n <= |before| && n <= |a.shapes| && n <= |a.grown|
    && forall k :: 0 <= k < n ==> now[k].GetShape() == a.shapes[k] && (now[k] == before[k] <==> !a.grown[k])
  }

  /** The end of `findMixedNodules` after the pruning, from the colour datasets `red0` and
      `green0`, the table `links0` and the mixed regions `rs0`: the absorption loop leaves the
      table `links1` that `AbsorbRows` computes and, for distinct regions, at each position a
      region of the shape the run gives it, unchanged exactly when not grown (`rs1`); then
      `updateData` hands every linked clump and its region over to the grown region of its
      row, one row after the other, in the colour datasets the run left (`red1`, `green1`),
      whose clumps keep the indices, areas and marks the run gave them. */
  predicate GrownAndMeasured(geom: Geometry, red0: Dataset, green0: Dataset, links0: seq<Link>, rs0: seq<Region>,
                             redWidth: int, greenWidth: int,
                             red1: Dataset, green1: Dataset, links1: seq<Link>, rs1: seq<Region>)
    requires Absorbable(red0) && Absorbable(green0) && |links0| == |rs0|
  {
    var a := AbsorbRows(geom, red0, green0, links0, Shapes(rs0), 0, redWidth, greenWidth);
    && links1 == a.links && |rs1| == |rs0|
    && (NoDuplicates(rs0) ==> GrownAsRun(rs1, rs0, a, |rs1|))
    && SameClumps(ClumpsOf(a.red), ClumpsOf(red1)) && SameClumps(ClumpsOf(a.green), ClumpsOf(green1))
    && red1 == HandOverRows(a.red, a.links, RedColumn, rs1, |rs1|, redWidth)
    && green1 == HandOverRows(a.green, a.links, GreenColumn, rs1, |rs1|, greenWidth)
  }

  /** Among distinct regions `rs`, a turn that puts in place of region `counter` either
      that region or one not among `rs`, with the shape and growth `a` gives it, extends
      the regions grown as `a` says by one, and no region done is among those still to do. */
  lemma GrownStep(before: seq<Region>, now: seq<Region>, rs: seq<Region>, a: RowsResult, counter: int)
    requires |now| == |before| == |rs| && 0 <= counter < |rs| && NoDuplicates(rs)
    requires GrownAsRun(before, rs, a, counter) && counter < |a.shapes| && counter < |a.grown|
    requires forall k :: 0 <= k < counter ==> before[k] !in rs[counter..]
    requires forall k :: 0 <= k < |now| && k != counter ==> now[k] == before[k]
    requires now[counter] == rs[counter] || now[counter] !in rs
    requires now[counter].GetShape() == a.shapes[counter] && (now[counter] == rs[counter] <==> !a.grown[counter])
    ensures GrownAsRun(now, rs, a, counter + 1)
    ensures forall k :: 0 <= k < counter + 1 ==> now[k] !in rs[counter + 1..]
  {
    forall k | 0 <= k < counter + 1
      ensures now[k] !in rs[counter + 1..]
    {
      if k == counter {
        if now[k] == rs[counter] {
          forall j | counter + 1 <= j < |rs|
            ensures rs[j] != rs[counter]
          {
          }
        }
      } else {
        assert before[k] !in rs[counter..];
      }
    }
  }

  /** Where the absorption loop stands against a whole run `a`: the rows from `counter` on,
      run from the present datasets and table, end where `a` ends and grow the regions the
      way `a` says. */
  predicate RowsAhead(geom: Geometry, red: Dataset, green: Dataset, links: seq<Link>, ms: seq<Shape>,
                      counter: nat, redWidth: int, greenWidth: int, a: RowsResult)
    requires Absorbable(red) && Absorbable(green) && |links| == |ms| && counter <= |ms|
  {
    var t := AbsorbRows(geom, red, green, links, ms, counter, redWidth, greenWidth);
    && |a.shapes| == |ms| && |a.grown| == |ms|
    && t.red == a.red && t.green == a.green && t.links == a.links
    && t.shapes == a.shapes[counter..] && t.grown == a.grown[counter..]
  }

  /** A whole run stands ahead of its own start. */
  lemma RowsAheadStart(geom: Geometry, red: Dataset, green: Dataset, links: seq<Link>, ms: seq<Shape>,
                       redWidth: int, greenWidth: int)
    requires Absorbable(red) && Absorbable(green) && |links| == |ms|
    ensures RowsAhead(geom, red, green, links, ms, 0, redWidth, greenWidth,
                      AbsorbRows(geom, red, green, links, ms, 0, redWidth, greenWidth))
  {
    var a := AbsorbRows(geom, red, green, links, ms, 0, redWidth, greenWidth);
    assert a.shapes[0..] == a.shapes && a.grown[0..] == a.grown;
  }

  /** One row of the loop: `unionNodules` on row `counter` grows its region to the shape
      the run gives it, and leaves the rest of the run ahead. */
  lemma RowsAheadStep(geom: Geometry, red: Dataset, green: Dataset, links: seq<Link>, ms: seq<Shape>,
                      counter: nat, redWidth: int, greenWidth: int, a: RowsResult)
    requires Absorbable(red) && Absorbable(green) && |links| == |ms| && counter < |ms|
    requires RowsAhead(geom, red, green, links, ms, counter, redWidth, greenWidth, a)
    ensures var u := UnionRowSpec(geom, red, green, links, counter, ms[counter], redWidth, greenWidth);
      && RowsAhead(geom, u.red, u.green, u.links, ms, counter + 1, redWidth, greenWidth, a)
      && a.shapes[counter] == u.shape && a.grown[counter] == u.grown
  {
    var u := UnionRowSpec(geom, red, green, links, counter, ms[counter], redWidth, greenWidth);
    var t := AbsorbRows(geom, u.red, u.green, u.links, ms, counter + 1, redWidth, greenWidth);
    assert a.shapes[counter..] == [u.shape] + t.shapes && a.grown[counter..] == [u.grown] + t.grown;
    assert a.shapes[counter + 1..] == a.shapes[counter..][1..];
    assert a.grown[counter + 1..] == a.grown[counter..][1..];
  }

  /** At the end of the loop the run is complete. */
  lemma RowsAheadEnd(geom: Geometry, red: Dataset, green: Dataset, links: seq<Link>, ms: seq<Shape>,
                     redWidth: int, greenWidth: int, a: RowsResult)
    requires Absorbable(red) && Absorbable(green) && |links| == |ms|
    requires RowsAhead(geom, red, green, links, ms, |ms|, redWidth, greenWidth, a)
    ensures red == a.red && green == a.green && links == a.links
  {
  }

  // ---------------------------------------------------------------- merging

  /** The mixed dataset `unionMixedNodules` works on: no pixel arrays and no clumps yet,
      regions and consistent area rows. */
  predicate Mergeable(m: MixedState)
  {
    && m.red.Null? && m.green.Null? && m.base.clumps.Null?
    && m.base.rois.Some? && m.base.areas.Some? && Consistent(m.base)
  }

  /** A merge keeps the dataset mergeable. */
  lemma UnionMixedKeeps(m: MixedState, i: int, j: int, u: Region, width: int)
    requires Mergeable(m) && 0 <= i < |Rois(m.base)| && 0 <= j < |Rois(m.base)|
    ensures Mergeable(UnionMixedSpec(m, i, j, u, width))
  {
    SetRoiConsistent(m.base, i, u, width);
    var s := SetMixedSpec(m, i, u, width, (0, 0));
    var roi2 := Rois(m.base)[j];
    if roi2 in Rois(s.base) {
      RemoveAtConsistent(s.base, IndexOf(Rois(s.base), roi2), width);
    }
  }

  /** The stopping test of the merge loop of `findMixedNodules`: the counter has reached
      the count, or the count is 1. */
  predicate MergeStops(m: MixedState, rounds: int)
  {
    rounds >= m.base.numNodules || m.base.numNodules == 1
  }

  /** The dataset after a turn that merges the pair `p` into `u`: `UnionMixedSpec` on a
      mergeable dataset whose regions hold both indices, and `m` itself otherwise. */
  function MergedState(m: MixedState, p: (int, int), u: Region, width: int): (r: MixedState)
    ensures Mergeable(m) && 0 <= p.0 < |Rois(m.base)| && 0 <= p.1 < |Rois(m.base)| ==>
      Mergeable(r) && r == UnionMixedSpec(m, p.0, p.1, u, width)
  {
    if Mergeable(m) && 0 <= p.0 < |Rois(m.base)| && 0 <= p.1 < |Rois(m.base)| then
      UnionMixedKeeps(m, p.0, p.1, u, width);
      UnionMixedSpec(m, p.0, p.1, u, width)
    else m
  }

  /** The turns `r0` up to `r1` (exclusive) of the merge loop of `findMixedNodules`,
      starting at `m` and ending at `final`, where `us` are the merged regions these turns
      build, in order: none of the turns meets the stopping test; a turn with no pair of
      close regions changes nothing; otherwise the first pair merges into the next region of
      `us`, whose shape is their union. A whole run of the loop is the turns from 0 up to
      the first counter at which the stopping test holds. */
  predicate MergeTurns(geom: Geometry, m: MixedState, us: seq<Region>, r0: int, r1: int,
                       final: MixedState, width: int)
    decreases r1 - r0
  {
    if r0 >= r1 then us == [] && final == m
    else
      && !MergeStops(m, r0)
      && match FirstPairFrom(geom, Rois(m.base), 0)
         case Null => MergeTurns(geom, m, us, r0 + 1, r1, final, width)
         case Some(p) =>
           var rs := Rois(m.base);
           && |us| > 0
           && us[0].GetShape() == geom.union(rs[p.0].GetShape(), rs[p.1].GetShape())
           && MergeTurns(geom, MergedState(m, p, us[0], width), us[1..], r0 + 1, r1, final, width)
  }

  /** Each merge takes one region away and lowers the count by one, so the turns end with
      as many regions fewer, and a lower count, as they merged, and they merge at most once
      per turn. */
  lemma {:induction false} MergeTurnsCounts(geom: Geometry, m: MixedState, us: seq<Region>, r0: int, r1: int,
                                            final: MixedState, width: int)
    requires Mergeable(m) && MergeTurns(geom, m, us, r0, r1, final, width)
    ensures Mergeable(final)
    ensures |Rois(final.base)| == |Rois(m.base)| - |us|
    ensures final.base.numNodules == m.base.numNodules - |us|
    ensures |us| <= if r0 <= r1 then r1 - r0 else 0
    decreases r1 - r0
  {
    if r0 < r1 {
      match FirstPairFrom(geom, Rois(m.base), 0)
      case Null =>
        MergeTurnsCounts(geom, m, us, r0 + 1, r1, final, width);
      case Some(p) =>
        var rs := Rois(m.base);
        var next := MergedState(m, p, us[0], width);
        assert Close(geom, rs[p.0], rs[p.1]);
        UnionMixedCount(m, p.0, p.1, us[0], width);
        assert |Rois(next.base)| == |rs| - 1 && next.base.numNodules == m.base.numNodules - 1;
        assert MergeTurns(geom, next, us[1..], r0 + 1, r1, final, width);
        MergeTurnsCounts(geom, next, us[1..], r0 + 1, r1, final, width);
    }
  }

  /** With no pair of close regions at the start, every turn finds none: nothing merges
      and nothing changes. */
  lemma {:induction false} MergeTurnsNone(geom: Geometry, m: MixedState, us: seq<Region>, r0: int, r1: int,
                                          final: MixedState, width: int)
    requires MergeTurns(geom, m, us, r0, r1, final, width)
    requires FirstPairFrom(geom, Rois(m.base), 0).Null?
    ensures us == [] && final == m
    decreases r1 - r0
  {
    if r0 < r1 {
      MergeTurnsNone(geom, m, us, r0 + 1, r1, final, width);
    }
  }

  /** A turn at `cur` that finds no pair of close regions extends the turns that led there
      by one and changes nothing. */
  lemma {:induction false} MergeTurnsIdle(geom: Geometry, m: MixedState, us: seq<Region>, r0: int, r: int,
                                          cur: MixedState, width: int)
    requires r0 <= r && MergeTurns(geom, m, us, r0, r, cur, width)
    requires !MergeStops(cur, r) && FirstPairFrom(geom, Rois(cur.base), 0).Null?
    ensures MergeTurns(geom, m, us, r0, r + 1, cur, width)
    decreases r - r0
  {
    if r0 < r {
      match FirstPairFrom(geom, Rois(m.base), 0)
      case Null =>
        MergeTurnsIdle(geom, m, us, r0 + 1, r, cur, width);
      case Some(p) =>
        MergeTurnsIdle(geom, MergedState(m, p, us[0], width), us[1..], r0 + 1, r, cur, width);
    }
  }

  /** A turn at `cur` that merges its first pair of close regions into `u` extends the
      turns that led there by one, with `u` appended to the merged regions. */
  lemma {:induction false} MergeTurnsMerge(geom: Geometry, m: MixedState, us: seq<Region>, r0: int, r: int,
                                           cur: MixedState, u: Region, width: int)
    requires r0 <= r && MergeTurns(geom, m, us, r0, r, cur, width)
    requires !MergeStops(cur, r) && FirstPairFrom(geom, Rois(cur.base), 0).Some?
    requires var p := FirstPairFrom(geom, Rois(cur.base), 0).value;
      u.GetShape() == geom.union(Rois(cur.base)[p.0].GetShape(), Rois(cur.base)[p.1].GetShape())
    ensures var p := FirstPairFrom(geom, Rois(cur.base), 0).value;
      MergeTurns(geom, m, us + [u], r0, r + 1, MergedState(cur, p, u, width), width)
    decreases r - r0
  {
    var p := FirstPairFrom(geom, Rois(cur.base), 0).value;
    var next := MergedState(cur, p, u, width);
    if r0 == r {
      assert [u][1..] == [];
      assert MergeTurns(geom, next, [], r + 1, r + 1, next, width);
    } else {
      match FirstPairFrom(geom, Rois(m.base), 0)
      case Null =>
        MergeTurnsMerge(geom, m, us, r0 + 1, r, cur, u, width);
      case Some(q) =>
        MergeTurnsMerge(geom, MergedState(m, q, us[0], width), us[1..], r0 + 1, r, cur, u, width);
        assert (us + [u])[1..] == us[1..] + [u];
    }
  }

  /** The mixed-only steps of `findMixedNodules` from `m0`, with `BUTTON` at `b0`: the merge
      loop runs its turns to `merged`, building `merges`; the user answers the dialog of
      each remaining region in order (`ask`), leaving `BUTTON` at `button`; the rejected
      regions go as `removeFakeNodules` removes them; and `after` holds one unlinked row per
      region left. */
  predicate Pruned(geom: Geometry, m0: MixedState, b0: int, ask: Region -> Reply, merges: seq<Region>,
                   rounds: int, merged: MixedState, after: MixedState, button: int, width: int)
  {
    && Mergeable(m0) && Mergeable(merged)
    && MergeTurns(geom, m0, merges, 0, rounds, merged, width) && MergeStops(merged, rounds)
    && var replies := Replies(Rois(merged.base), ask);
    && button == ButtonAfter(b0, replies)
    && after == RemoveFakeSpec(merged, b0, replies, width).(links := after.links)
    && after.links.Some? && |after.links.value| == |Rois(after.base)|
    && forall k :: 0 <= k < |after.links.value| ==> after.links.value[k] == UNLINKED
  }
}
