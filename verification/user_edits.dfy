/** The bookkeeping of `UserEditsHandler`, through which the user corrects the result
    by clicking on regions: deleting a red or green region together with the mixed regions
    built from it and renumbering the linkage table, listing the mixed regions linked to a
    clump, correcting the count of a clump, and the count adjustments made when the
    results are exported. */
module UserEdits {
  import opened Common
  import opened Regions
  import opened Clumps
  import opened ColorSpec
  import opened Channels
  import opened MixedSpec
  import opened Mixed
  import opened Segmentation

  // ---------------------------------------------------------------- colour of a region

  /** `RED`, `GREEN` and `MIXED` of the handler. */
  datatype Colour = RedColour | GreenColour | MixedColour

  /** The colour decoding of `redraw`: (255, 0, ...) is red, (0, 255, ...) is green and
      anything else is mixed. */
  function DecodeColour(colour: seq<int>): (c: Colour)
    requires |colour| >= 2
    ensures c == RedColour <==> colour[0] == 255 && colour[1] == 0
    ensures c == GreenColour <==> colour[0] == 0 && colour[1] == 255
  {
    if colour[0] == 255 && colour[1] == 0 then RedColour
    else if colour[0] == 0 && colour[1] == 255 then GreenColour
    else MixedColour
  }

  /** The colours of the three datasets decode to their own kind. */
  lemma DatasetColours()
    ensures DecodeColour(RED) == RedColour
    ensures DecodeColour(GREEN) == GreenColour
    ensures DecodeColour(YELLOW) == MixedColour
  {
  }

  // ---------------------------------------------------------------- linked mixed regions

  /** `mixedClump`: the mixed regions whose `col` entry names region `index`, in ascending
      order; none while there is no linkage table. */
  method MixedClump(mixed: MixedData, index: int, col: Column) returns (rows: seq<int>)
    ensures mixed.clumped.Null? ==> rows == []
    ensures mixed.clumped.Some? ==> rows == RowsLinkedTo(mixed.clumped.value, col, index)
  {
    if mixed.clumped.Null? {
      return [];
    }
    var clumped := mixed.clumped.value;
    rows := [];
    var nod := 0;
    while nod < |clumped|
      invariant 0 <= nod <= |clumped|
      invariant rows == RowsLinkedTo(clumped[..nod], col, index)
    {
      assert clumped[..nod + 1][..nod] == clumped[..nod];
      if Entry(clumped[nod], col) == index {
        rows := rows + [nod];
      }
      nod := nod + 1;
    }
    assert clumped[..nod] == clumped;
  }

  /** The entries of `xs` whose row of `links` does not name region `index` in column
      `col`, in their order. */
  function Survivors<T>(xs: seq<T>, links: seq<Link>, col: Column, index: int): (r: seq<T>)
    requires |xs| == |links|
    ensures |r| == |xs| - |RowsLinkedTo(links, col, index)|
    ensures forall x :: x in r ==> x in xs
  {
    if |xs| == 0 then []
    else
      var n := |xs| - 1;
      var init := Survivors(xs[..n], links[..n], col, index);
      if Entry(links[n], col) == index then init else init + [xs[n]]
  }

  /** No surviving row names the deleted region. */
  lemma {:induction false} SurvivorsUnlinked(links: seq<Link>, col: Column, index: int)
    ensures forall k :: 0 <= k < |Survivors(links, links, col, index)| ==>
      Entry(Survivors(links, links, col, index)[k], col) != index
  {
    if |links| > 0 {
      var n := |links| - 1;
      SurvivorsUnlinked(links[..n], col, index);
    }
  }

  // ---------------------------------------------------------------- deleting a region

  /** The removal loop of a red or green delete, from row `n - 1` down to row 0: each
      mixed region whose `col` entry is `index` goes with `removeRoi(getRoi(ii))`. */
  function Cascade(m: MixedState, col: Column, index: int, n: int, width: int): (r: MixedState)
    requires Linked(m) && m.base.rois.Some? && Consistent(m.base) && m.base.clumps.Null?
    requires 0 <= n <= |Rois(m.base)|
    ensures Linked(r) && r.base.rois.Some? && Consistent(r.base) && r.base.clumps.Null?
    decreases n
  {
    if n == 0 then m
    else
      var k := n - 1;
      if Entry(m.links.value[k], col) == index then
        var roi := Rois(m.base)[k];
        RemoveMixedLinked(m, roi, width);
        Cascade(RemoveMixedSpec(m, roi, width).1, col, index, k, width)
      else
        Cascade(m, col, index, k, width)
  }

  /** One step of the survivor lists: dropping row `n - 1` when it is linked, or keeping
      it when it is not, leaves the unlinked rows before it followed by the rest. */
  lemma SurvivorsStep<T>(xs: seq<T>, links: seq<Link>, col: Column, index: int, n: int)
    requires |xs| == |links| && 0 < n <= |xs|
    ensures Entry(links[n - 1], col) == index ==>
      Survivors(Without(xs, n - 1)[..n - 1], Without(links, n - 1)[..n - 1], col, index) + Without(xs, n - 1)[n - 1..]
      == Survivors(xs[..n], links[..n], col, index) + xs[n..]
    ensures Entry(links[n - 1], col) != index ==>
      Survivors(xs[..n - 1], links[..n - 1], col, index) + xs[n - 1..]
      == Survivors(xs[..n], links[..n], col, index) + xs[n..]
  {
    var k := n - 1;
    assert xs[..n][..k] == xs[..k] && links[..n][..k] == links[..k];
    assert Without(xs, k)[..k] == xs[..k] && Without(links, k)[..k] == links[..k];
    assert Without(xs, k)[k..] == xs[n..];
    assert xs[k..] == [xs[k]] + xs[n..];
  }

  /** Removing mixed row `k` by its region, when the regions are distinct, drops position
      `k` from the regions and the linkage rows and one nodule from the count. */
  lemma RemoveRowAt(m: MixedState, k: int, width: int)
    requires Linked(m) && m.base.rois.Some? && Consistent(m.base) && m.base.clumps.Null?
    requires NoDuplicates(Rois(m.base)) && 0 <= k < |Rois(m.base)|
    ensures var next := RemoveMixedSpec(m, Rois(m.base)[k], width).1;
      && Linked(next) && next.base.rois.Some? && Consistent(next.base) && next.base.clumps.Null?
      && NoDuplicates(Rois(next.base))
      && Rois(next.base) == Without(Rois(m.base), k)
      && next.links.value == Without(m.links.value, k)
      && next.base.numNodules == m.base.numNodules - 1
  {
    var rois := Rois(m.base);
    var roi := rois[k];
    IndexOfDistinct(rois, k);
    RemoveMixedLinked(m, roi, width);
    WithoutKeepsDistinct(rois, k);
  }

  /** With distinct regions, the loop removes exactly the linked rows among the first `n`:
      the regions and the linkage rows that stay are the unlinked ones in their order, the
      rows from `n` on are untouched, and the count drops by the number of linked rows. */
  lemma {:induction false} CascadeRemovesLinked(m: MixedState, col: Column, index: int, n: int, width: int)
    requires Linked(m) && m.base.rois.Some? && Consistent(m.base) && m.base.clumps.Null?
    requires 0 <= n <= |Rois(m.base)|
    requires NoDuplicates(Rois(m.base))
    ensures var r := Cascade(m, col, index, n, width);
      var links := m.links.value;
      var rois := Rois(m.base);
      && r.links.value == Survivors(links[..n], links[..n], col, index) + links[n..]
      && Rois(r.base) == Survivors(rois[..n], links[..n], col, index) + rois[n..]
      && r.base.numNodules == m.base.numNodules - |RowsLinkedTo(links[..n], col, index)|
    decreases n
  {
    if n > 0 {
      var k := n - 1;
      var links := m.links.value;
      var rois := Rois(m.base);
      assert links[..n][..|links[..n]| - 1] == links[..k];
      SurvivorsStep(links, links, col, index, n);
      SurvivorsStep(rois, links, col, index, n);
      if Entry(links[k], col) == index {
        RemoveRowAt(m, k, width);
        CascadeRemovesLinked(RemoveMixedSpec(m, rois[k], width).1, col, index, k, width);
      } else {
        CascadeRemovesLinked(m, col, index, k, width);
      }
    }
  }

  /** The loop of a red or green delete on the mixed dataset. With no mixed regions the
      loop does not run, whether or not the linkage table exists. */
  method RemoveLinkedMixed(mixed: MixedData, col: Column, index: int)
    requires mixed.Valid() && mixed.data.rois.Some?
    requires Linked(mixed.MView()) || |mixed.data.RoiList()| == 0
    modifies mixed`redPixels, mixed`greenPixels, mixed`clumped, mixed.data
    ensures mixed.Valid() && mixed.data.rois.Some?
    ensures old(Linked(mixed.MView())) ==> Linked(mixed.MView())
    ensures old(Linked(mixed.MView())) ==>
      mixed.MView() == Cascade(old(mixed.MView()), col, index, old(|mixed.data.RoiList()|), mixed.data.width)
    ensures old(|mixed.data.RoiList()|) == 0 ==> mixed.MView() == old(mixed.MView())
  {
    ghost var m0 := mixed.MView();
    ghost var n0 := |mixed.data.RoiList()|;
    var ii := |mixed.data.RoiList()| - 1;
    while ii > -1
      invariant -1 <= ii < |mixed.data.RoiList()|
      invariant mixed.Valid() && mixed.data.rois.Some?
      invariant Linked(mixed.MView()) || (ii == -1 && mixed.MView() == m0)
      invariant Linked(m0) ==> Linked(mixed.MView())
      invariant n0 == 0 ==> mixed.MView() == m0
      invariant Linked(m0) ==>
        Cascade(mixed.MView(), col, index, ii + 1, mixed.data.width) == Cascade(m0, col, index, n0, mixed.data.width)
    {
      CascadeStep(mixed, col, index, ii);
      ii := ii - 1;
    }
  }

  /** One pass of that loop: row `ii` goes when its `col` entry is `index`. */
  method CascadeStep(mixed: MixedData, col: Column, index: int, ii: int)
    requires mixed.Valid() && mixed.data.rois.Some? && Linked(mixed.MView())
    requires 0 <= ii < |mixed.data.RoiList()|
    modifies mixed`redPixels, mixed`greenPixels, mixed`clumped, mixed.data
    ensures mixed.Valid() && mixed.data.rois.Some? && Linked(mixed.MView())
    ensures ii <= |mixed.data.RoiList()|
    ensures Cascade(mixed.MView(), col, index, ii, mixed.data.width)
         == Cascade(old(mixed.MView()), col, index, ii + 1, mixed.data.width)
  {
    if Entry(mixed.clumped.value[ii], col) == index {
      var roi := mixed.data.RoiList()[ii];
      ghost var m := mixed.MView();
      RemoveMixedLinked(m, roi, mixed.data.width);
      var _ := mixed.RemoveRoi(roi);
    }
  }

  /** `adjustMixedClumped`: from the last mixed region down to the first, every entry of
      column `col` above `index` moves down by one. Rows past the region count are left
      alone. The table is only read inside the loop, so with no mixed regions it may be
      missing and nothing happens. */
  method AdjustMixedClumped(mixed: MixedData, index: int, col: Column)
    requires mixed.data.rois.Some?
    requires mixed.clumped.Some? ==> |mixed.data.RoiList()| <= |mixed.clumped.value|
    requires mixed.clumped.Null? ==> |mixed.data.RoiList()| == 0
    modifies mixed`clumped
    ensures |mixed.data.RoiList()| == 0 ==> mixed.clumped == old(mixed.clumped)
    ensures old(mixed.clumped).Some? ==> var n := |mixed.data.RoiList()|;
      mixed.clumped == Some(DecrementAbove(old(mixed.clumped.value)[..n], col, index) + old(mixed.clumped.value)[n..])
  {
    var n := |mixed.data.RoiList()|;
    if n == 0 {
      assert mixed.clumped.Some? ==> DecrementAbove([], col, index) + mixed.clumped.value == mixed.clumped.value;
      return;
    }
    var rows := mixed.clumped.value;
    ghost var target := DecrementAbove(rows[..n], col, index) + rows[n..];
    var ii := n - 1;
    while ii > -1
      invariant -1 <= ii < n && |rows| == |target|
      invariant forall k :: ii < k < |rows| ==> rows[k] == target[k]
      invariant forall k :: 0 <= k <= ii ==> rows[k] == old(mixed.clumped.value)[k]
    {
      if Entry(rows[ii], col) > index {
        rows := rows[ii := WithEntry(rows[ii], col, Entry(rows[ii], col) - 1)];
      }
      ii := ii - 1;
    }
    assert rows == target;
    mixed.clumped := Some(rows);
  }

  /** Deleting red (`col` = red) or green region `index`: the colour dataset removes it,
      the mixed regions linked to it go, and the linkage entries above it move down. */
  method DeleteRegion(src: ColorData, mixed: MixedData, col: Column, index: int)
    requires src.Valid() && src.rois.Some? && 0 <= index < |src.RoiList()|
    requires mixed.Valid() && mixed.data.rois.Some?
    requires Linked(mixed.MView()) || |mixed.data.RoiList()| == 0
    requires src != mixed.data
    modifies src, (set c | c in src.clumps)
    modifies mixed`redPixels, mixed`greenPixels, mixed`clumped, mixed.data
    ensures src.Valid() && mixed.Valid()
    ensures src.View() == RemoveRoiSpec(old(src.View()), old(src.RoiList()[index]), src.width).1
    ensures mixed.MView() == Deleted(old(mixed.MView()), col, index, mixed.data.width)
  {
    ghost var m0 := mixed.MView();
    RemoveSourceRegion(src, index);
    ghost var s1 := src.View();
    assert mixed.MView() == m0 && mixed.Valid();
    DeleteLinkedMixed(mixed, col, index);
    assert src.View() == s1 && src.Valid();
  }

  /** The colour side of a red or green delete: region `index` leaves its dataset. */
  method RemoveSourceRegion(src: ColorData, index: int)
    requires src.Valid() && src.rois.Some? && 0 <= index < |src.RoiList()|
    modifies src, (set c | c in src.clumps)
    ensures src.Valid()
    ensures src.View() == RemoveRoiSpec(old(src.View()), old(src.RoiList()[index]), src.width).1
  {
    var _ := src.RemoveRoi(src.RoiList()[index]);
  }

  /** The mixed dataset after a red or green delete of colour region `index`: every mixed
      region linked to it goes, then the later links of column `col` move down by one.
      Without mixed regions (and perhaps without a linkage table) nothing changes. */
  function Deleted(m: MixedState, col: Column, index: int, width: int): MixedState
    requires Linked(m) || |Rois(m.base)| == 0
    requires m.base.rois.Some? && Consistent(m.base) && m.base.clumps.Null?
  {
    if !Linked(m) then m
    else
    var c := Cascade(m, col, index, |Rois(m.base)|, width);
    c.(links := Some(DecrementAbove(c.links.value, col, index)))
  }

  /** The mixed side of a red or green delete: the removal loop, then the renumbering. */
  method DeleteLinkedMixed(mixed: MixedData, col: Column, index: int)
    requires mixed.Valid() && mixed.data.rois.Some?
    requires Linked(mixed.MView()) || |mixed.data.RoiList()| == 0
    modifies mixed`redPixels, mixed`greenPixels, mixed`clumped, mixed.data
    ensures mixed.Valid()
    ensures mixed.MView() == Deleted(old(mixed.MView()), col, index, mixed.data.width)
  {
    RemoveLinkedMixed(mixed, col, index);
    Renumber(mixed, index, col);
  }

  /** `adjustMixedClumped` on a linked mixed dataset, where it covers every row, or on one
      without regions, where it changes nothing. */
  method Renumber(mixed: MixedData, index: int, col: Column)
    requires mixed.Valid() && mixed.data.rois.Some?
    requires Linked(mixed.MView()) || |mixed.data.RoiList()| == 0
    modifies mixed`clumped
    ensures mixed.Valid()
    ensures old(Linked(mixed.MView())) ==>
      mixed.MView() == old(mixed.MView()).(links := Some(DecrementAbove(old(mixed.clumped.value), col, index)))
    ensures old(|mixed.data.RoiList()|) == 0 ==> mixed.MView() == old(mixed.MView())
  {
    if !Linked(mixed.MView()) {
      AdjustMixedClumped(mixed, index, col);
      return;
    }
    ghost var m0 := mixed.MView();
    ghost var links := mixed.clumped.value;
    ghost var n := |mixed.data.RoiList()|;
    assert n == |links|;
    assert links[..n] == links && links[n..] == [];
    AdjustMixedClumped(mixed, index, col);
    assert mixed.clumped == Some(DecrementAbove(links[..n], col, index) + links[n..]);
    assert DecrementAbove(links[..n], col, index) + links[n..] == DecrementAbove(links, col, index);
    assert mixed.data.View() == m0.base;
  }

  /** What the removal loop of a delete leaves, when the mixed regions are distinct: the
      regions and linkage rows of the unlinked mixed regions, in order, and a count lower
      by the number of linked rows. When each `col` entry was empty or named one of the
      colour regions `rs`, every remaining entry is empty or names one of them other than
      `index`, which is what `DecrementFollowsRemoval` needs to show that the renumbering
      keeps each link on its region. */
  lemma DeleteLeavesUnlinked(m: MixedState, col: Column, index: int, width: int, rs: seq<Region>)
    requires Linked(m) && m.base.rois.Some? && Consistent(m.base) && m.base.clumps.Null?
    requires NoDuplicates(Rois(m.base))
    requires forall k :: 0 <= k < |m.links.value| ==>
      Entry(m.links.value[k], col) == -1 || 0 <= Entry(m.links.value[k], col) < |rs|
    ensures var c := Cascade(m, col, index, |Rois(m.base)|, width);
      var kept := c.links.value;
      && kept == Survivors(m.links.value, m.links.value, col, index)
      && Rois(c.base) == Survivors(Rois(m.base), m.links.value, col, index)
      && c.base.numNodules == m.base.numNodules - |RowsLinkedTo(m.links.value, col, index)|
      && forall k :: 0 <= k < |kept| ==>
           Entry(kept[k], col) == -1 || (0 <= Entry(kept[k], col) < |rs| && Entry(kept[k], col) != index)
  {
    var links := m.links.value;
    var n := |Rois(m.base)|;
    CascadeRemovesLinked(m, col, index, n, width);
    assert links[..n] == links && Rois(m.base)[..n] == Rois(m.base);
    assert links[n..] == [] && Rois(m.base)[n..] == [];
    var kept := Survivors(links, links, col, index);
    SurvivorsUnlinked(links, col, index);
    forall k | 0 <= k < |kept|
      ensures Entry(kept[k], col) == -1 || (0 <= Entry(kept[k], col) < |rs| && Entry(kept[k], col) != index)
    {
      assert kept[k] in links;
    }
  }

  // ---------------------------------------------------------------- correcting a clump

  /** The `CORRECT` choice for the clump on region `index`: the clump takes the count the
      user entered (`correctClump`), its `areas` row records the value that returns,
      and the dataset count moves by that value less the clump's former count. An
      `IllegalStateException` from `correctClump` leaves everything as it was. */
  method CorrectCount(color: ColorData, index: int, entered: int) returns (r: Result<int>)
    requires color.Valid() && color.hasClumps && ClumpPos(Vals(color.clumps), index) != -1
    modifies color`numNodules, color`areas, color.clumps[ClumpPos(Vals(color.clumps), index)]
    ensures color.Valid() && color.areas.Some? && 0 <= index < |color.areas.value|
    ensures entered > 0 ==> r == Ok(entered)
    ensures entered == 0 || entered == -1 ==> r == Ok(-1)
    ensures entered < -1 ==> r == IllegalState && color.View() == old(color.View())
    ensures var p := old(ClumpPos(Vals(color.clumps), index));
      && (r.Ok? ==>
          && color.areas == Some(old(color.areas.value)[index := old(color.areas.value)[index].(count := r.value)])
          && color.numNodules == old(color.numNodules) + r.value - old(color.clumps[p].numNodules))
      && (entered >= 0 ==> color.clumps[p].numNodules == entered)
      && (entered == -1 ==> color.clumps[p].Val() == old(color.clumps[p].Val()))
      && (entered == 0 ==> color.clumps[p].area == 0.0)
      && (entered > 0 ==> color.clumps[p].Val().TotalArea() == old(color.clumps[p].Val()).TotalArea())
  {
    ghost var p := ClumpPos(Vals(color.clumps), index);
    var clump := color.GetClump(index);
    var currentNumNodules := clump.numNodules;
    r := CorrectClumpOf(color, clump, p, entered);
    if r.IllegalState? {
      return;
    }
    ghost var c := clump.Val();
    RecordCorrection(color, index, r.value, r.value - currentNumNodules);
    assert clump.Val() == c;
  }

  /** `correctClump` on clump `p` of a dataset: only that clump changes, and the dataset
      stays consistent since the clump keeps its region position. */
  method CorrectClumpOf(color: ColorData, clump: NoduleClump, ghost p: int, entered: int) returns (r: Result<int>)
    requires color.Valid() && color.hasClumps && 0 <= p < |color.clumps| && clump == color.clumps[p]
    modifies clump
    ensures color.Valid()
    ensures clump.index == old(clump.index) && clump.hasMixed == old(clump.hasMixed)
    ensures color.View() == old(color.View()).(clumps := Some(old(Vals(color.clumps))[p := clump.Val()]))
    ensures entered >= 0 ==> clump.numNodules == entered
    ensures entered == -1 ==> clump.Val() == old(clump.Val())
    ensures entered == 0 ==> clump.area == 0.0
    ensures entered > 0 ==> clump.Val().TotalArea() == old(clump.Val()).TotalArea()
    ensures entered > 0 ==> r == Ok(entered)
    ensures entered == 0 || entered == -1 ==> r == Ok(-1)
    ensures entered < -1 ==> r == IllegalState && color.View() == old(color.View())
  {
    ghost var d := color.View();
    DistinctObjects(color.clumps, |color.RoiList()|);
    r := clump.CorrectClump(entered);
    ghost var c := clump.Val();
    assert forall j :: 0 <= j < |color.clumps| && j != p ==> color.clumps[j].Val() == old(color.clumps[j].Val());
    assert Vals(color.clumps) == d.clumps.value[p := c];
    CorrectedConsistent(d, p, c);
    if r.IllegalState? {
      assert d.clumps.value[p := c] == d.clumps.value;
    }
  }

  /** The bookkeeping after `correctClump` returned `v`: row `index` of `areas` records
      `v` and the count moves by `delta`. */
  method RecordCorrection(color: ColorData, index: int, v: int, delta: int)
    requires color.Valid() && color.areas.Some? && 0 <= index < |color.areas.value|
    modifies color`numNodules, color`areas
    ensures color.Valid()
    ensures color.View() == old(color.View()).(numNodules := old(color.numNodules) + delta,
      areas := Some(old(color.areas.value)[index := old(color.areas.value)[index].(count := v)]))
  {
    var rows := color.areas.value;
    color.areas := Some(rows[index := rows[index].(count := v)]);
    color.numNodules := color.numNodules + delta;
  }

  /** A correction that keeps the clump's region position keeps the dataset consistent. */
  lemma CorrectedConsistent(d: Dataset, p: int, c: ClumpVal)
    requires Consistent(d) && d.clumps.Some? && 0 <= p < |d.clumps.value|
    requires c.index == d.clumps.value[p].index
    ensures Consistent(d.(clumps := Some(d.clumps.value[p := c])))
  {
  }

  /** Changing one `areas` count by `v - rows[i].count` changes their sum by the same
      amount, so a count kept equal to the sum of the column stays equal to it after a
      correction whose row held the clump's former count. */
  lemma {:induction false} SumCountsUpdate(rows: seq<AreaRow>, i: int, v: int)
    requires 0 <= i < |rows|
    ensures SumCounts(rows[i := rows[i].(count := v)]) == SumCounts(rows) - rows[i].count + v
  {
    var n := |rows| - 1;
    var u := rows[i := rows[i].(count := v)];
    if i < n {
      assert u[..n] == rows[..n][i := rows[i].(count := v)];
      SumCountsUpdate(rows[..n], i, v);
    } else {
      assert u[..n] == rows[..n];
    }
  }

  // ---------------------------------------------------------------- export counts

  /** Number of clumps a mixed region has absorbed. */
  function Claimed(cs: seq<ClumpVal>): (n: nat)
    ensures n <= |cs|
    ensures n == 0 <==> forall k :: 0 <= k < |cs| ==> !cs[k].hasMixed
  {
    if |cs| == 0 then 0
    else Claimed(cs[..|cs| - 1]) + (if cs[|cs| - 1].hasMixed then 1 else 0)
  }

  /** A clump as exported: one nodule fewer once a mixed region holds one of its nodules. */
  function Discounted(c: ClumpVal): (d: ClumpVal)
    ensures d.index == c.index && d.hasMixed == c.hasMixed
    ensures d.numNodules == c.numNodules - (if c.hasMixed then 1 else 0)
  {
    if c.hasMixed then c.(numNodules := c.numNodules - 1) else c
  }

  /** `areas` after the export: the count of the row of each absorbed clump drops by one,
      once per clump. */
  function ClaimRows(rows: seq<AreaRow>, cs: seq<ClumpVal>): (r: seq<AreaRow>)
    requires forall k :: 0 <= k < |cs| ==> 0 <= cs[k].index < |rows|
    ensures |r| == |rows|
  {
    if |cs| == 0 then rows
    else
      var n := |cs| - 1;
      var prev := ClaimRows(rows, cs[..n]);
      var i := cs[n].index;
      if cs[n].hasMixed then prev[i := prev[i].(count := prev[i].count - 1)] else prev
  }

  /** The `areas` column loses exactly as many nodules as there are absorbed clumps, the
      number by which the exported count drops. */
  lemma {:induction false} ClaimRowsTotal(rows: seq<AreaRow>, cs: seq<ClumpVal>)
    requires forall k :: 0 <= k < |cs| ==> 0 <= cs[k].index < |rows|
    ensures SumCounts(ClaimRows(rows, cs)) == SumCounts(rows) - Claimed(cs)
  {
    if |cs| > 0 {
      var n := |cs| - 1;
      ClaimRowsTotal(rows, cs[..n]);
      var prev := ClaimRows(rows, cs[..n]);
      var i := cs[n].index;
      if cs[n].hasMixed {
        SumCountsUpdate(prev, i, prev[i].count - 1);
      }
    }
  }

  /** A dataset whose clumps can be exported: consistent, with clumps. */
  predicate ExportReady(d: Dataset)
  {
    Consistent(d) && d.clumps.Some?
  }

  /** The clumps with the first `k` discounted. */
  function DiscountedUpTo(cs: seq<ClumpVal>, k: int): (r: seq<ClumpVal>)
    ensures |r| == |cs|
  {
    seq(|cs|, j requires 0 <= j < |cs| => if j < k then Discounted(cs[j]) else cs[j])
  }

  /** The dataset once the export loop has handled its first `k` clumps. */
  function PartlyExported(d: Dataset, k: int): (r: Dataset)
    requires ExportReady(d) && 0 <= k <= |d.clumps.value|
  {
    var cs := d.clumps.value;
    d.(areas := Some(ClaimRows(d.areas.value, cs[..k])), clumps := Some(DiscountedUpTo(cs, k)))
  }

  /** The dataset after one colour's export loop: without clumps nothing changes;
      otherwise every absorbed clump and its `areas` row lose one nodule. */
  function Exported(d: Dataset): (r: Dataset)
    requires Consistent(d)
  {
    if d.clumps.Null? then d else PartlyExported(d, |d.clumps.value|)
  }

  /** The export keeps a dataset consistent and the regions, their order and the clumps'
      region positions as they were; it takes exactly one nodule per absorbed clump out of
      the `areas` column. */
  lemma ExportedSpec(d: Dataset)
    requires Consistent(d)
    ensures var r := Exported(d);
      && Consistent(r) && r.rois == d.rois && r.numNodules == d.numNodules
      && (d.clumps.Some? ==>
            && |r.clumps.value| == |d.clumps.value|
            && (forall k :: 0 <= k < |d.clumps.value| ==> r.clumps.value[k] == Discounted(d.clumps.value[k]))
            && SumCounts(r.areas.value) == SumCounts(d.areas.value) - Claimed(d.clumps.value))
  {
    if d.clumps.Some? {
      var cs := d.clumps.value;
      PartlyExportedConsistent(d, |cs|);
      assert cs[..|cs|] == cs;
      ClaimRowsTotal(d.areas.value, cs);
    }
  }

  lemma PartlyExportedConsistent(d: Dataset, k: int)
    requires ExportReady(d) && 0 <= k <= |d.clumps.value|
    ensures Consistent(PartlyExported(d, k))
  {
  }

  /** One round of the export loop on clump `k`: when a mixed region absorbed it, the
      clump and its `areas` row lose one nodule. */
  method DiscountStep(color: ColorData, clump: NoduleClump, ghost d: Dataset, ghost k: int) returns (claimed: bool)
    requires color.Valid() && ExportReady(d) && 0 <= k < |d.clumps.value|
    requires |color.clumps| == |d.clumps.value| && clump == color.clumps[k]
    requires color.View() == PartlyExported(d, k)
    modifies clump, color`areas
    ensures color.Valid() && color.View() == PartlyExported(d, k + 1)
    ensures claimed == d.clumps.value[k].hasMixed
  {
    ghost var cs := d.clumps.value;
    ghost var v0 := color.View();
    ghost var after := PartlyExported(d, k + 1);
    PartlyExportedConsistent(d, k + 1);
    DistinctObjects(color.clumps, |color.RoiList()|);
    assert cs[..k + 1][..k] == cs[..k];
    assert clump.Val() == cs[k];
    claimed := clump.hasMixed;
    if claimed {
      clump.numNodules := clump.numNodules - 1;
      var rows := color.areas.value;
      color.areas := Some(rows[clump.index := rows[clump.index].(count := rows[clump.index].count - 1)]);
    }
    assert color.areas == after.areas;
    assert forall j :: 0 <= j < |color.clumps| && j != k ==> color.clumps[j].Val() == old(color.clumps[j].Val());
    assert Vals(color.clumps) == DiscountedUpTo(cs, k + 1);
    assert color.View() == v0.(areas := after.areas, clumps := after.clumps);
  }

  /** One colour's loop of `saveCSV`: for each clump a mixed region absorbed, the count to
      export, the clump's count and its `areas` row lose one nodule. Without clumps the
      loop runs over a null list, which throws, and the handler catches it: nothing
      changes. */
  method DiscountMixed(color: ColorData) returns (total: int)
    requires color.Valid()
    modifies color`areas, set c | c in color.clumps
    ensures color.Valid()
    ensures color.View() == Exported(old(color.View()))
    ensures total == old(color.numNodules) - ClaimedIn(old(color.View()))
  {
    if !color.hasClumps {
      return color.numNodules;
    }
    total := DiscountClumps(color);
  }

  /** The export loop of `DiscountMixed` over an existing clump list. */
  method DiscountClumps(color: ColorData) returns (total: int)
    requires color.Valid() && color.hasClumps
    modifies color`areas, set c | c in color.clumps
    ensures color.Valid()
    ensures color.View() == PartlyExported(old(color.View()), |old(Vals(color.clumps))|)
    ensures total == old(color.numNodules) - Claimed(old(Vals(color.clumps)))
  {
    total := color.numNodules;
    ghost var d := color.View();
    ghost var cs := d.clumps.value;
    assert cs[..0] == [] && d.(areas := Some(ClaimRows(d.areas.value, []))) == d;
    assert DiscountedUpTo(cs, 0) == cs;
    var k := 0;
    while k < |color.clumps|
      invariant 0 <= k <= |color.clumps| == |cs| && color.clumps == old(color.clumps)
      invariant color.Valid() && color.View() == PartlyExported(d, k)
      invariant total == d.numNodules - Claimed(cs[..k])
    {
      ClaimedStep(cs, k);
      var clump := color.clumps[k];
      var claimed := DiscountStep(color, clump, d, k);
      if claimed {
        total := total - 1;
      }
      k := k + 1;
    }
    assert cs[..k] == cs;
  }

  /** Number of absorbed clumps of a dataset, none without clumps. */
  function ClaimedIn(d: Dataset): nat
  {
    if d.clumps.Some? then Claimed(d.clumps.value) else 0
  }

  lemma ClaimedStep(cs: seq<ClumpVal>, k: int)
    requires 0 <= k < |cs|
    ensures Claimed(cs[..k + 1]) == Claimed(cs[..k]) + (if cs[k].hasMixed then 1 else 0)
  {
    assert cs[..k + 1][..k] == cs[..k];
  }

  /** The counts `saveCSV` writes: red and green lose one nodule per clump a mixed region
      absorbed (changing the clumps and `areas` as `DiscountMixed` does), and all three are
      raised to 0 when negative. */
  method ExportCounts(red: ColorData, green: ColorData, mixed: MixedData) returns (numRed: int, numGreen: int, numMixed: int)
    requires red.Valid() && green.Valid() && red != green
    requires forall c :: c in red.clumps ==> c !in green.clumps
    modifies red`areas, (set c | c in red.clumps), green`areas, (set c | c in green.clumps)
    ensures red.Valid() && green.Valid()
    ensures red.View() == Exported(old(red.View())) && green.View() == Exported(old(green.View()))
    ensures var r := old(red.numNodules) - ClaimedIn(old(red.View()));
      numRed == if r < 0 then 0 else r
    ensures var g := old(green.numNodules) - ClaimedIn(old(green.View()));
      numGreen == if g < 0 then 0 else g
    ensures numMixed == if mixed.data.numNodules < 0 then 0 else mixed.data.numNodules
  {
    numMixed := mixed.data.numNodules;
    ghost var g0 := green.View();
    numRed := DiscountMixed(red);
    assert green.View() == g0 && green.Valid();
    ghost var r1 := red.View();
    numGreen := DiscountMixed(green);
    assert red.View() == r1;
    if numRed < 0 {
      numRed := 0;
    }
    if numGreen < 0 {
      numGreen := 0;
    }
    if numMixed < 0 {
      numMixed := 0;
    }
  }
}
