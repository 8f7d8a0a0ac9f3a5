/** One colour's dataset (`ColorData`): its regions, the rows measured for them, the
    clumps standing for several nodules, and the operations that edit them in place.
    Each operation is proved to take `View()` to the `ColorSpec` function for it. */
module Channels {
  import opened Common
  import opened Regions
  import opened Clumps
  import opened ColorSpec

  /** The fields of every clump object, in order. */
  function Vals(cs: seq<NoduleClump>): (r: seq<ClumpVal>)
    reads cs
    ensures |r| == |cs| && forall k :: 0 <= k < |cs| ==> r[k] == cs[k].Val()
  {
    seq(|cs|, k requires 0 <= k < |cs| reads cs => cs[k].Val())
  }

  /** Clumps naming distinct regions are distinct objects. */
  lemma DistinctObjects(cs: seq<NoduleClump>, n: int)
    requires WellIndexed(Vals(cs), n)
    ensures forall a, b :: 0 <= a < b < |cs| ==> cs[a] != cs[b]
  {
    forall a, b | 0 <= a < b < |cs|
      ensures cs[a] != cs[b]
    {
      assert Vals(cs)[a].index != Vals(cs)[b].index;
    }
  }

  /** Dropping a clump object drops its fields. */
  lemma ValsWithout(cs: seq<NoduleClump>, p: int)
    requires 0 <= p < |cs|
    ensures Vals(Without(cs, p)) == Without(Vals(cs), p)
  {
  }

  class ColorData {
    /** RGB of this colour (`COLOR`). */
    const color: Rgb
    /** Area above which a region likely holds several nodules. */
    const highAreaThreshold: int
    /** Size of the analysed image. */
    const width: nat
    const height: nat

    var numNodules: int
    var rois: Opt<seq<Region>>
    var areas: Opt<seq<AreaRow>>
    var table: seq<TableRow>
    var circularity: Opt<seq<real>>
    /** `noduleClumps`, which is `null` while `hasClumps` is false. */
    var hasClumps: bool
    var clumps: seq<NoduleClump>
    var singles: Opt<seq<int>>
    var pixels: Opt<seq<int>>

    /** The regions, none before the first measurement. */
    function RoiList(): seq<Region>
      reads this`rois
    {
      if rois.Some? then rois.value else []
    }

    function ClumpView(): Opt<seq<ClumpVal>>
      reads this`hasClumps, this`clumps, clumps
    {
      if hasClumps then Some(Vals(clumps)) else Null
    }

    function View(): Dataset
      reads this, clumps
    {
      Dataset(numNodules, rois, areas, table, circularity, ClumpView(), singles, pixels)
    }

    predicate Valid()
      reads this, clumps
    {
      && (!hasClumps ==> clumps == [])
      && Consistent(View())
    }

    /** A dataset before any measurement: no regions, rows or clumps, count -1. */
    constructor (color: Rgb, colorThreshold: int, width: nat, height: nat)
      ensures this.color == color && highAreaThreshold == colorThreshold
      ensures this.width == width && this.height == height
      ensures View() == Dataset(-1, Null, Null, [], Null, Null, Null, Null)
      ensures Valid()
    {
      this.color := color;
      highAreaThreshold := colorThreshold;
      this.width := width;
      this.height := height;
      numNodules := -1;
      rois := Null;
      areas := Null;
      table := [];
      circularity := Null;
      hasClumps := false;
      clumps := [];
      singles := Null;
      pixels := Null;
    }

    // ------------------------------------------------------------ lookups

    /** `getClump`: the first clump naming region `index`, or null. */
    method GetClump(index: int) returns (c: NoduleClump?)
      requires hasClumps
      ensures var p := ClumpPos(Vals(clumps), index);
        (p == -1 ==> c == null) && (p != -1 ==> c == clumps[p])
    {
      var k := 0;
      while k < |clumps|
        invariant 0 <= k <= |clumps|
        invariant forall j :: 0 <= j < k ==> clumps[j].index != index
      {
        if clumps[k].index == index {
          return clumps[k];
        }
        k := k + 1;
      }
      return null;
    }

    /** `getIndex`: the first position holding `roi`, or -1 (also when there are no regions). */
    method GetIndex(roi: Region) returns (i: int)
      ensures rois.Null? ==> i == -1
      ensures rois.Some? ==> i == IndexOf(rois.value, roi)
      ensures i == -1 <==> roi !in Rois(View())
      ensures i != -1 ==> Rois(View())[i] == roi
    {
      if rois.Null? {
        return -1;
      }
      var rs := rois.value;
      var k := 0;
      while k < |rs|
        invariant 0 <= k <= |rs|
        invariant roi !in rs[..k]
      {
        if rs[k] == roi {
          assert IndexOf(rs, roi) == k;
          return k;
        }
        assert rs[..k + 1] == rs[..k] + [rs[k]];
        k := k + 1;
      }
      assert rs[..k] == rs;
      return -1;
    }

    /** `isSplit`: the position in the clump array of the clump naming region `ii`,
        or -1. */
    method IsSplit(ii: int) returns (k: int)
      ensures k == SplitPos(ClumpView(), ii)
      ensures k != -1 ==> 0 <= k < |clumps| && clumps[k].index == ii
    {
      if !hasClumps {
        return -1;
      }
      var splitIndices: seq<int> := [];
      var cc := 0;
      while cc < |clumps|
        invariant 0 <= cc <= |clumps|
        invariant |splitIndices| == cc
        invariant forall j :: 0 <= j < cc ==> splitIndices[j] == clumps[j].index
      {
        splitIndices := splitIndices + [clumps[cc].index];
        cc := cc + 1;
      }
      var kk := 0;
      while kk < |splitIndices|
        invariant 0 <= kk <= |splitIndices|
        invariant forall j :: 0 <= j < kk ==> splitIndices[j] != ii
      {
        if splitIndices[kk] == ii {
          return kk;
        }
        kk := kk + 1;
      }
      return -1;
    }

    // ------------------------------------------------------------ pixels

    /** The collection loop of `updatePixels`: the indices of every contained point,
        region by region. */
    static method CollectPixels(rs: seq<Region>, width: int) returns (list: seq<int>)
      ensures list == PixelIndices(rs, width)
    {
      list := [];
      var k := 0;
      while k < |rs|
        invariant 0 <= k <= |rs|
        invariant list == PixelIndices(rs[..k], width)
      {
        var pts := rs[k].points;
        var j := 0;
        while j < |pts|
          invariant 0 <= j <= |pts|
          invariant list == PixelIndices(rs[..k], width) + PointIndices(pts[..j], width)
        {
          list := list + [pts[j].y * width + pts[j].x];
          j := j + 1;
        }
        assert pts[..j] == pts;
        assert rs[..k + 1][..k] == rs[..k];
        k := k + 1;
      }
      assert rs[..k] == rs;
    }

    /** `updatePixels`: the cache becomes every covered index, each once. */
    method UpdatePixels()
      requires rois.Some?
      modifies this`pixels
      ensures pixels == Some(PixelCache(rois.value, width))
    {
      var list := CollectPixels(rois.value, width);
      pixels := Some(Distinct(list));
    }

    // ------------------------------------------------------------ replace and append

    /** `setRoi`. */
    method SetRoi(index: int, roi: Region)
      requires Valid() && rois.Some? && areas.Some? && 0 <= index < |areas.value|
      modifies this`rois, this`areas, this`pixels
      ensures Valid()
      ensures View() == SetRoiSpec(old(View()), index, roi, width)
    {
      SetRoiConsistent(View(), index, roi, width);
      if 0 <= index < |rois.value| {
        rois := Some(rois.value[index := roi]);
      }
      var newArea := roi.PixelCount();
      areas := Some(areas.value[index := areas.value[index].(pixels := newArea)]);
      UpdatePixels();
    }

    /** `updateArea`: overwrite the pixel area of one `areas` row. */
    method UpdateArea(index: int, area: int)
      requires areas.Some? && 0 <= index < |areas.value|
      modifies this`areas
      ensures areas == Some(old(areas.value)[index := old(areas.value)[index].(pixels := area)])
    {
      areas := Some(areas.value[index := areas.value[index].(pixels := area)]);
    }

    /** `updateAreas`: rebuild `areas` from the regions and the clumps. */
    method UpdateAreas()
      requires rois.Some?
      modifies this`areas
      ensures areas == Some(UpdatedAreas(rois.value, ClumpView()))
    {
      var rs := rois.value;
      var newareas: seq<AreaRow> := [];
      var ii := 0;
      while ii < |rs|
        invariant 0 <= ii <= |rs|
        invariant newareas == UpdatedAreas(rs, ClumpView())[..ii]
      {
        var area := rs[ii].PixelCount();
        var index := IsSplit(ii);
        if index != -1 {
          newareas := newareas + [AreaRow(clumps[index].numNodules, TruncToInt(clumps[index].area))];
        } else {
          newareas := newareas + [AreaRow(1, area)];
        }
        ii := ii + 1;
      }
      assert UpdatedAreas(rs, ClumpView())[..ii] == UpdatedAreas(rs, ClumpView());
      areas := Some(newareas);
    }

    /** The copying loop of `addRoi`: a new list with the same regions. */
    static method CopyRegions(rs: seq<Region>) returns (copy: seq<Region>)
      ensures copy == rs
    {
      copy := [];
      var ii := 0;
      while ii < |rs|
        invariant 0 <= ii <= |rs|
        invariant copy == rs[..ii]
      {
        copy := copy + [rs[ii]];
        ii := ii + 1;
      }
      assert rs[..ii] == rs;
    }

    /** `addRoi`. */
    method AddRoi(roi: Region)
      requires Valid() && rois.Some?
      modifies this`rois, this`pixels, this`areas, this`numNodules
      ensures Valid()
      ensures View() == AddRoiSpec(old(View()), roi, width)
    {
      ghost var d := View();
      AddRoiConsistent(d, roi, width);
      var newrois := CopyRegions(rois.value);
      rois := Some(newrois + [roi]);
      UpdatePixels();
      assert ClumpView() == d.clumps;
      if areas.Some? {
        UpdateAreas();
      }
      numNodules := numNodules + 1;
      assert ClumpView() == d.clumps;
      assert View() == AddRoiSpec(d, roi, width);
    }

    // ------------------------------------------------------------ removal

    /** `removeClump`: drop the first clump naming region `index1`; `false` stands for
        the `IndexOutOfBoundsException` thrown when there is none. */
    method RemoveClump(index1: int) returns (found: bool)
      requires hasClumps
      modifies this`clumps
      ensures var p := ClumpPos(Vals(old(clumps)), index1);
        && found == (p != -1)
        && clumps == if p != -1 then Without(old(clumps), p) else old(clumps)
    {
      var index := -1;
      var ii := 0;
      while ii < |clumps|
        invariant 0 <= ii <= |clumps|
        invariant forall j :: 0 <= j < ii ==> clumps[j].index != index1
      {
        if clumps[ii].index == index1 {
          index := ii;
          break;
        }
        ii := ii + 1;
      }
      if index < 0 || index >= |clumps| {
        return false;
      }
      clumps := clumps[..index] + clumps[index + 1..];
      return true;
    }

    /** The renumbering loop of `removeRoi`: every clump behind region `index` moves
        down one position. */
    method ShiftClumps(index: int)
      requires forall a, b :: 0 <= a < b < |clumps| ==> clumps[a] != clumps[b]
      modifies set c | c in clumps
      ensures Vals(clumps) == ShiftAbove(old(Vals(clumps)), index)
    {
      var k := 0;
      while k < |clumps|
        invariant 0 <= k <= |clumps|
        invariant forall j :: 0 <= j < |clumps| ==>
          clumps[j].Val() == if j < k then ShiftAbove(old(Vals(clumps)), index)[j] else old(clumps[j].Val())
      {
        if clumps[k].index > index {
          clumps[k].index := clumps[k].index - 1;
        }
        k := k + 1;
      }
    }

    /** The copy loop of `removeRoi`: every region except the one at `index`, in order. */
    static method CopyWithout(rs: seq<Region>, index: int) returns (newrois: seq<Region>)
      requires 0 <= index < |rs|
      ensures newrois == Without(rs, index)
    {
      newrois := [];
      var ii := 0;
      while ii < |rs|
        invariant 0 <= ii <= |rs|
        invariant newrois == if ii <= index then rs[..ii] else rs[..index] + rs[index + 1..ii]
        decreases |rs| - ii
      {
        if ii == index && index == |rs| - 1 {
          break;
        }
        if ii == index {
          ii := ii + 1;
        }
        newrois := newrois + [rs[ii]];
        ii := ii + 1;
      }
      if ii < |rs| {
        assert newrois == rs[..index] && index == |rs| - 1;
      }
    }

    /** `removeTableData`: delete the given rows, the last index first. */
    method RemoveTableData(indices: seq<int>)
      modifies this`table
      ensures table == DeleteRows(old(table), indices)
    {
      var ii := |indices| - 1;
      assert indices[..ii + 1] == indices;
      while ii >= 0
        invariant -1 <= ii < |indices|
        invariant DeleteRows(table, indices[..ii + 1]) == DeleteRows(old(table), indices)
      {
        assert indices[..ii + 1][..ii] == indices[..ii];
        table := DeleteRow(table, indices[ii]);
        ii := ii - 1;
      }
    }

    /** `removeAreas`: drop the rows at the given ascending positions. */
    method RemoveAreas(indices: seq<int>)
      requires areas.Some? && |areas.value| > 0
      requires StrictlyAscending(indices)
      requires forall k :: 0 <= k < |indices| ==> 0 <= indices[k] < |areas.value|
      modifies this`areas
      ensures areas == Some(KeepOthers(old(areas.value), indices))
    {
      var rows := areas.value;
      var newArray: seq<AreaRow> := [];
      var indicesIndex := 0;
      var i := 0;
      while i < |rows|
        invariant 0 <= i <= |rows| && 0 <= indicesIndex <= |indices|
        invariant forall k :: 0 <= k < indicesIndex ==> indices[k] < i
        invariant forall k :: indicesIndex <= k < |indices| ==> indices[k] >= i
        invariant newArray == KeepOthers(rows[..i], indices)
      {
        assert rows[..i + 1][..i] == rows[..i];
        if indicesIndex < |indices| && i == indices[indicesIndex] {
          indicesIndex := indicesIndex + 1;
        } else {
          assert i !in indices;
          newArray := newArray + [rows[i]];
        }
        i := i + 1;
      }
      assert rows[..i] == rows;
      areas := Some(newArray);
    }

    /** The first clump loop of `removeRoi`: the count loses the nodules of the clump
        of region `index` and that clump goes, or the count loses one when there is none. */
    method DropClumpOf(index: int)
      requires hasClumps && NoDuplicates(clumps)
      modifies this`numNodules, this`clumps
      ensures hasClumps && NoDuplicates(clumps)
      ensures var cs := old(Vals(clumps)); var p := ClumpPos(cs, index);
        Vals(clumps) == if p >= 0 then Without(cs, p) else cs
      ensures numNodules == CountAfterRemoval(old(numNodules), old(Vals(clumps)), index)
      ensures forall c :: c in clumps ==> c in old(clumps)
    {
      ghost var cs := Vals(clumps);
      ghost var objs := clumps;
      var p := -1;
      var j := 0;
      while j < |clumps|
        invariant 0 <= j <= |clumps| && p == -1
        invariant forall k :: 0 <= k < j ==> clumps[k].index != index
      {
        if clumps[j].index == index {
          p := j;
          break;
        }
        j := j + 1;
      }
      assert p == ClumpPos(cs, index);
      if p == -1 {
        numNodules := numNodules - 1;
        assert Vals(clumps) == cs;
        return;
      }
      ValsWithout(objs, p);
      ghost var rest := Without(objs, p);
      assert Vals(rest) == Without(cs, p);
      numNodules := numNodules - clumps[p].numNodules;
      assert Vals(clumps) == cs && ClumpPos(Vals(clumps), index) == p;
      var _ := RemoveClump(index);
      assert clumps == rest;
      WithoutKeepsDistinct(objs, p);
      WithoutMembers(objs, p);
    }

    /** The clump part of `removeRoi` for region `index`: `DropClumpOf`, then the later
        clumps are renumbered. */
    method RemoveClumpOf(index: int)
      requires hasClumps && NoDuplicates(clumps)
      modifies this`numNodules, this`clumps, set c | c in clumps
      ensures hasClumps
      ensures Vals(clumps) == ClumpsAfterRemoval(old(Vals(clumps)), index)
      ensures numNodules == CountAfterRemoval(old(numNodules), old(Vals(clumps)), index)
      ensures forall c :: c in clumps ==> c in old(clumps)
    {
      DropClumpOf(index);
      ShiftClumps(index);
    }

    /** The row part of `removeRoi` for region `index`: the region, its table and
        `areas` rows go, `circularity` is reset and the pixel cache rebuilt. */
    method RemoveRowsAt(index: int)
      requires rois.Some? && 0 <= index < |rois.value|
      requires areas.Some? ==> index < |areas.value|
      modifies this`rois, this`circularity, this`table, this`areas, this`pixels
      ensures rois == Some(Without(old(rois.value), index))
      ensures circularity == if old(circularity).Some? then Some(Zeros(|rois.value|)) else Null
      ensures table == DeleteRow(old(table), index)
      ensures areas == if old(areas).Some? then Some(Without(old(areas.value), index)) else Null
      ensures pixels == Some(PixelCache(rois.value, width))
    {
      var newrois := CopyWithout(rois.value, index);
      rois := Some(newrois);
      if circularity.Some? {
        circularity := Some(Zeros(|newrois|));
      }
      RemoveTableData([index]);
      assert [index][..0] == [];
      if areas.Some? {
        KeepOthersWithout(areas.value, [], index);
        KeepOthersNone(Without(areas.value, index));
        assert [] + [index] == [index];
        RemoveAreas([index]);
      }
      UpdatePixels();
    }

    /** `removeRoi` once the region is found at `index`. */
    method RemoveAtIndex(index: int)
      requires Valid() && rois.Some? && 0 <= index < |rois.value|
      modifies this, set c | c in clumps
      ensures Valid() && rois.Some?
      ensures View() == RemoveAt(old(View()), index, width)
      ensures forall c :: c in clumps ==> c in old(clumps)
    {
      ghost var d := View();
      RemoveAtConsistent(d, index, width);
      ghost var target := RemoveAt(d, index, width);
      if hasClumps {
        DistinctObjects(clumps, |Rois(d)|);
        RemoveClumpOf(index);
      }
      ghost var d1 := View();
      assert d1 == d.(numNodules := target.numNodules, clumps := target.clumps);
      RemoveRowsAt(index);
      assert ClumpView() == d1.clumps;
      assert View() == d1.(rois := target.rois, areas := target.areas, table := target.table,
        circularity := target.circularity, pixels := target.pixels);
    }

    /** `removeRoi`: remove `roi` (found by reference) with its rows and clump;
        `false` with nothing changed when it is not one of the regions. The search is
        the one `getIndex` makes, since regions compare by reference here. */
    method RemoveRoi(roi: Region) returns (removed: bool)
      requires Valid() && rois.Some?
      modifies this, set c | c in clumps
      ensures Valid() && rois.Some?
      ensures (removed, View()) == RemoveRoiSpec(old(View()), roi, width)
      ensures forall c :: c in clumps ==> c in old(clumps)
    {
      var index := GetIndex(roi);
      if index == -1 {
        return false;
      }
      RemoveAtIndex(index);
      return true;
    }

    /** A subclass writing the inherited `numNodules` field: only the count changes. */
    method SetCount(n: int)
      requires Valid()
      modifies this`numNodules
      ensures Valid()
      ensures View() == old(View()).(numNodules := n)
    {
      numNodules := n;
    }

    /** The order check of `removeArrayOfRois`, from the last pair down. */
    static method Ascending(indices: seq<int>) returns (b: bool)
      ensures b == NonDecreasing(indices)
    {
      var ii := |indices| - 1;
      while ii > 0
        invariant 0 <= ii < |indices| || (ii == -1 && |indices| == 0)
        invariant forall k :: ii < k < |indices| ==> indices[k - 1] <= indices[k]
      {
        if indices[ii] < indices[ii - 1] {
          return false;
        }
        ii := ii - 1;
      }
      return true;
    }

    /** One round of the removal loop of `removeArrayOfRois`: `removeRoi(rois[index])`,
        or `false` (the array index exception) when `index` is not a region position. */
    method RemoveStep(index: int) returns (ok: bool)
      requires Valid() && rois.Some?
      modifies this, set c | c in clumps
      ensures Valid() && rois.Some?
      ensures ok == (0 <= index < |Rois(old(View()))|)
      ensures !ok ==> View() == old(View())
      ensures ok ==> View() == RemoveAt(old(View()), IndexOf(Rois(old(View())), Rois(old(View()))[index]), width)
      ensures forall c :: c in clumps ==> c in old(clumps)
    {
      if !(0 <= index < |rois.value|) {
        return false;
      }
      var _ := RemoveRoi(rois.value[index]);
      return true;
    }

    /** The removal loop of `removeArrayOfRois`; `false` when an index is out of range. */
    method RemoveEach(indices: seq<int>) returns (ok: bool)
      requires Valid() && rois.Some?
      modifies this, set c | c in clumps
      ensures Valid() && rois.Some?
      ensures (View(), ok) == RemoveDescending(old(View()), indices, width)
      ensures forall c :: c in clumps ==> c in old(clumps)
    {
      ghost var final := RemoveDescending(View(), indices, width);
      var ii := |indices| - 1;
      assert indices[..ii + 1] == indices;
      while ii >= 0
        invariant -1 <= ii < |indices|
        invariant Valid() && rois.Some?
        invariant RemoveDescending(View(), indices[..ii + 1], width) == final
        invariant forall c :: c in clumps ==> c in old(clumps)
      {
        var step := RemoveLast(indices, ii);
        if !step {
          return false;
        }
        ii := ii - 1;
      }
      assert indices[..0] == [];
      return true;
    }

    /** One pass of that loop, on `indices[ii]`, the last of the indices still to go. */
    method RemoveLast(indices: seq<int>, ii: int) returns (ok: bool)
      requires Valid() && rois.Some? && 0 <= ii < |indices|
      modifies this, set c | c in clumps
      ensures Valid() && rois.Some?
      ensures forall c :: c in clumps ==> c in old(clumps)
      ensures ok ==> RemoveDescending(View(), indices[..ii], width) == RemoveDescending(old(View()), indices[..ii + 1], width)
      ensures !ok ==> (View(), false) == RemoveDescending(old(View()), indices[..ii + 1], width)
    {
      assert indices[..ii + 1][..ii] == indices[..ii];
      ok := RemoveStep(indices[ii]);
    }

    /** `removeArrayOfRois`. */
    method RemoveArrayOfRois(indices: seq<int>) returns (st: Status)
      requires Valid() && rois.Some?
      modifies this, set c | c in clumps
      ensures Valid() && rois.Some?
      ensures (st, View()) == RemoveArraySpec(old(View()), indices, width)
      ensures forall c :: c in clumps ==> c in old(clumps)
    {
      if |rois.value| != |table| {
        return Mismatch;
      }
      var ascending := Ascending(indices);
      if !ascending {
        return Unordered;
      }
      var ok := RemoveEach(indices);
      if !ok {
        return OutOfRange;
      }
      if !hasClumps {
        return Done;
      }
      if |indices| == 0 {
        return OutOfRange;
      }
      var _ := GetClump(indices[0]);
      return Done;
    }
  
    // ------------------------------------------------------------ cleaning and splitting

    /** `cleanData`: remove every region whose measured area is below the noise threshold. */
    method CleanData() returns (st: Status)
      requires Valid() && rois.Some?
      modifies this, set c | c in clumps
      ensures Valid() && rois.Some?
      ensures (st, View()) == RemoveArraySpec(old(View()), NoisyRows(old(table)), width)
    {
      if |rois.value| != |table| {
        return Mismatch;
      }
      var delete: seq<int> := [];
      var ii := 0;
      while ii < |table|
        invariant 0 <= ii <= |table|
        invariant delete == NoisyRows(table[..ii])
      {
        assert table[..ii + 1][..ii] == table[..ii];
        if table[ii].area < LOW_AREA_THRESHOLD {
          delete := delete + [ii];
        }
        ii := ii + 1;
      }
      assert table[..ii] == table;
      st := RemoveArrayOfRois(delete);
    }

    /** `singleNodules`: list the positions that look like single nodules; `false` (the
        size-mismatch exception) when regions and table rows differ in number. */
    method SingleNodules() returns (ok: bool)
      requires rois.Some?
      modifies this`singles
      ensures ok == (|rois.value| == |table|)
      ensures ok ==> singles == Some(SingleIndices(table, |rois.value|, highAreaThreshold))
      ensures !ok ==> singles == old(singles)
    {
      if |rois.value| != |table| {
        return false;
      }
      var contestants: seq<int> := [];
      var ii := 0;
      while ii < |rois.value|
        invariant 0 <= ii <= |rois.value|
        invariant contestants == SingleIndices(table, ii, highAreaThreshold)
      {
        var circularity := table[ii].circularity;
        if (circularity > WEAK_CIRC_THRESHOLD && table[ii].area < highAreaThreshold) ||
           circularity > STRONG_CIRC_THRESHOLD {
          contestants := contestants + [ii];
        }
        ii := ii + 1;
      }
      singles := Some(contestants);
      return true;
    }

    /** `averageArea`. */
    method AverageArea() returns (avg: Result<Average>)
      requires rois.Some? && SinglesInTable(View())
      modifies this`singles
      ensures (avg, singles) == AverageSpec(old(View()), highAreaThreshold)
    {
      if areas.Null? || |areas.value| == 0 {
        return Ok(Avg(1.0));
      }
      if singles.Null? {
        var ok := SingleNodules();
        if !ok {
          return IllegalState;
        }
      }
      var mean := MeanOf(singles.value);
      return Ok(mean);
    }

    /** The summing loop of `averageArea` over the single-nodule positions `indices`. */
    method MeanOf(indices: seq<int>) returns (mean: Average)
      requires forall k :: 0 <= k < |indices| ==> 0 <= indices[k] < |table|
      ensures mean == MeanArea(table, indices)
    {
      var area := 0.0;
      var k := 0;
      while k < |indices|
        invariant 0 <= k <= |indices|
        invariant area == SumAreas(table, indices[..k])
      {
        assert indices[..k + 1][..k] == indices[..k];
        area := area + table[indices[k]].area as real;
        k := k + 1;
      }
      assert indices[..k] == indices;
      if |indices| == 0 {
        return NaN;
      }
      return Avg(area / |indices| as real);
    }

    /** The candidate loops of `splitting`: a region is a candidate when the scan of the
        single list reaches its last entry without meeting the region and the region is
        larger than the area threshold. */
    method FindCandidates(indices: seq<int>) returns (cands: seq<int>)
      requires rois.Some? && |rois.value| <= |table|
      ensures cands == Candidates(table, |rois.value|, indices, highAreaThreshold)
    {
      cands := [];
      var ii := 0;
      while ii < |rois.value|
        invariant 0 <= ii <= |rois.value|
        invariant cands == Candidates(table, ii, indices, highAreaThreshold)
      {
        ghost var before := cands;
        var jj := 0;
        while jj < |indices|
          invariant 0 <= jj <= |indices|
          invariant forall k :: 0 <= k < jj ==> indices[k] != ii
          invariant cands == before + (if jj == |indices| && jj > 0 && table[ii].area > highAreaThreshold then [ii] else [])
        {
          if ii == indices[jj] {
            break;
          }
          if jj == |indices| - 1 && table[ii].area > highAreaThreshold {
            cands := cands + [ii];
          }
          jj := jj + 1;
        }
        ii := ii + 1;
      }
    }

    /** The clump-building loop of `splitting`: one new clump per candidate. */
    method MakeClumps(cands: seq<int>, avg: real) returns (split: seq<NoduleClump>)
      requires rois.Some? && avg > 0.0
      requires forall k :: 0 <= k < |cands| ==> 0 <= cands[k] < |rois.value| && cands[k] < |table|
      ensures forall c :: c in split ==> fresh(c)
      ensures Vals(split) == SplitClumps(rois.value, table, cands, avg)
    {
      split := [];
      var k := 0;
      while k < |cands|
        invariant 0 <= k <= |cands| && |split| == k
        invariant forall c :: c in split ==> fresh(c)
        invariant forall j :: 0 <= j < k ==> split[j].Val() == SplitClumps(rois.value, table, cands, avg)[j]
      {
        var index := cands[k];
        var area := table[index].area as real;
        var nods := area / avg - 1.0;
        var n: int;
        if nods < 2.0 {
          n := 2;
        } else {
          RoundDownSpec(nods);
          n := RoundDown(nods);
        }
        assert n == EstimateCount(table[index].area, avg);
        var clump := new NoduleClump(index, rois.value[index], area / n as real, n);
        split := split + [clump];
        k := k + 1;
      }
    }

    /** `splitting`. */
    method Splitting()
      requires Valid() && rois.Some? && SinglesInTable(View()) && |rois.value| == |table|
      requires forall k :: 0 <= k < |table| ==> table[k].area > 0
      modifies this
      ensures Valid() && rois.Some?
      ensures View() == SplitSpec(old(View()), highAreaThreshold)
    {
      ghost var d := View();
      SplitSpecConsistent(d, highAreaThreshold);
      var avg := AverageArea();
      ghost var d1 := View();
      assert d1 == d.(singles := singles);
      if avg.value == Avg(1.0) {
        return;
      }
      AverageAtLeast(d, highAreaThreshold, 1);
      var a := if avg.value.Avg? then avg.value.value else 1.0;
      BuildClumps(a);
    }

    /** The candidate and clump-building loops of `splitting`, for average area `a`. */
    method BuildClumps(a: real)
      requires rois.Some? && singles.Some? && a > 0.0 && |rois.value| <= |table|
      modifies this`hasClumps, this`clumps
      ensures var cands := Candidates(table, |rois.value|, singles.value, highAreaThreshold);
        View() == old(View()).(clumps := Some(SplitClumps(rois.value, table, cands, a)))
    {
      ghost var d := View();
      var cands := FindCandidates(singles.value);
      ghost var made := SplitClumps(rois.value, table, cands, a);
      var split := MakeClumps(cands, a);
      InstallClumps(split);
      assert ClumpView() == Some(made);
      assert View() == d.(clumps := Some(made));
    }

    /** Makes `split` the clump list; no clump object changes. */
    method InstallClumps(split: seq<NoduleClump>)
      modifies this`hasClumps, this`clumps
      ensures hasClumps && clumps == split
      ensures ClumpView() == Some(old(Vals(split)))
    {
      clumps := split;
      hasClumps := true;
    }

    /** `fillCircularity`. */
    method FillCircularity()
      requires rois.Some? && |rois.value| <= |table|
      modifies this`circularity
      ensures circularity == Some(Circularities(table, |rois.value|))
    {
      var circ: seq<real> := [];
      var ii := 0;
      while ii < |rois.value|
        invariant 0 <= ii <= |rois.value|
        invariant circ == Circularities(table, ii)
      {
        circ := circ + [table[ii].circularity];
        ii := ii + 1;
      }
      circularity := Some(circ);
    }

    /** The part of `getData` after a successful measurement: the measured regions and
        rows are installed with one `areas` row of one nodule per row. */
    method Install(found: seq<Region>, rows: seq<TableRow>)
      modifies this`rois, this`table, this`areas
      ensures rois == Some(found) && table == rows && areas == Some(InitialAreas(rows))
    {
      rois := Some(found);
      table := rows;
      var newareas: seq<AreaRow> := [];
      var ii := 0;
      while ii < |rows|
        invariant 0 <= ii <= |rows|
        invariant newareas == InitialAreas(rows[..ii])
      {
        assert rows[..ii + 1][..ii] == rows[..ii];
        newareas := newareas + [AreaRow(1, rows[ii].area)];
        ii := ii + 1;
      }
      assert rows[..ii] == rows;
      areas := Some(newareas);
    }

    /** The counting loop at the end of `getData`. */
    static method CountNodules(rows: seq<AreaRow>) returns (n: int)
      ensures n == SumCounts(rows)
    {
      n := 0;
      var ii := 0;
      while ii < |rows|
        invariant 0 <= ii <= |rows|
        invariant n == SumCounts(rows[..ii])
      {
        assert rows[..ii + 1][..ii] == rows[..ii];
        n := n + rows[ii].count;
        ii := ii + 1;
      }
      assert rows[..ii] == rows;
    }

    /** The steps of `getData` after cleaning: splitting, rebuilding `areas` and filling
        the circularities, for a single-colour dataset only. */
    method Finish(mixed: bool)
      requires Valid() && rois.Some? && areas.Some? && singles.Null? && |rois.value| == |table|
      requires forall k :: 0 <= k < |table| ==> table[k].area >= LOW_AREA_THRESHOLD
      modifies this
      ensures Valid() && rois.Some? && areas.Some?
      ensures mixed ==> View() == old(View())
      ensures !mixed ==> var sp := SplitSpec(old(View()), highAreaThreshold);
        View() == sp.(areas := Some(UpdatedAreas(Rois(sp), sp.clumps)),
                      circularity := Some(Circularities(sp.table, |Rois(sp)|)))
    {
      if !mixed {
        Splitting();
        ghost var sp := View();
        UpdateAreas();
        FillCircularity();
        assert View() == sp.(areas := Some(UpdatedAreas(Rois(sp), sp.clumps)),
                             circularity := Some(Circularities(sp.table, |Rois(sp)|)));
      }
    }

    /** The measured regions and rows installed, then `cleanData`. */
    method Prepare(found: seq<Region>, rows: seq<TableRow>)
      requires Valid() && !hasClumps && singles.Null?
      requires |found| == |rows| && NoDuplicates(found)
      modifies this
      ensures Valid() && rois.Some?
      ensures View() == Cleaned(old(View()), found, rows, width)
    {
      ghost var d := View();
      Install(found, rows);
      ghost var m := View();
      assert m == d.(rois := Some(found), table := rows, areas := Some(InitialAreas(rows)));
      CleanDataSpec(m, width);
      KeepOthersLength(found, InitialAreas(rows), NoisyRows(rows));
      var _ := CleanData();
    }

    /** The end of `getData`: `Finish`, then the count is the total of the `areas` rows. */
    method Complete(mixed: bool)
      requires Valid() && rois.Some? && areas.Some? && singles.Null? && |rois.value| == |table|
      requires forall k :: 0 <= k < |table| ==> table[k].area >= LOW_AREA_THRESHOLD
      modifies this
      ensures Valid()
      ensures var s := Finished(old(View()), mixed, highAreaThreshold);
        View() == s.(numNodules := SumCounts(s.areas.value))
    {
      ghost var s := Finished(View(), mixed, highAreaThreshold);
      Finish(mixed);
      assert View() == s;
      var count := CountNodules(areas.value);
      SetCount(count);
    }

    /** `getData` once regions were found. */
    method Generate(mixed: bool, found: seq<Region>, rows: seq<TableRow>)
      requires Valid() && !hasClumps && singles.Null?
      requires |found| == |rows| && NoDuplicates(found) && |found| > 0
      modifies this
      ensures Valid()
      ensures View() == GetDataSpec(old(View()), true, mixed, found, rows, width, highAreaThreshold)
    {
      Prepare(found, rows);
      Complete(mixed);
    }

    /** `getData(mixed)`. The measurement (thresholding the map and splitting it into
        regions) is outside the model: `found` and `rows` are what it produced, and
        `hasMap` says whether a map exists at all. */
    method GetData(hasMap: bool, mixed: bool, found: seq<Region>, rows: seq<TableRow>)
      requires Valid() && !hasClumps && singles.Null?
      requires |found| == |rows| && NoDuplicates(found)
      modifies this
      ensures Valid()
      ensures View() == GetDataSpec(old(View()), hasMap, mixed, found, rows, width, highAreaThreshold)
    {
      ghost var d := View();
      GetDataConsistent(d, hasMap, mixed, found, rows, width, highAreaThreshold);
      if !hasMap {
        return;
      }
      if |found| == 0 {
        areas := Some([AreaRow(0, 0)]);
        table := [TableRow(0, 0.0)];
        rois := Some([]);
        return;
      }
      Generate(mixed, found, rows);
    }

    // ------------------------------------------------------------ binary map

    /** The white fill of `convertToBinary`, row by row. */
    static method FillWhite(b: array<int>, width: nat, height: nat)
      requires b.Length == width * height
      modifies b
      ensures forall k :: 0 <= k < b.Length ==> b[k] == 255
    {
      var ii := 0;
      var base := 0;
      while ii < height
        invariant 0 <= ii <= height && base == ii * width
        invariant forall k :: 0 <= k < base ==> b[k] == 255
      {
        RowFits(ii, width, height);
        FillRow(b, base, width);
        ii := ii + 1;
        base := base + width;
      }
      assert base == b.Length;
    }

    /** Row `y` of a `width` by `height` image starts at `y * width` and ends within it. */
    static lemma RowFits(y: int, width: nat, height: nat)
      requires 0 <= y < height
      ensures 0 <= y * width && y * width + width <= width * height
      ensures (y + 1) * width == y * width + width
    {
      MulMonotone(y + 1, height, width);
    }

    /** One row of the white fill: the `width` pixels from `base` on become 255. */
    static method FillRow(b: array<int>, base: nat, width: nat)
      requires base + width <= b.Length
      requires forall k :: 0 <= k < base ==> b[k] == 255
      modifies b
      ensures forall k :: 0 <= k < base + width ==> b[k] == 255
    {
      var jj := 0;
      while jj < width
        invariant 0 <= jj <= width
        invariant forall k :: 0 <= k < base + jj ==> b[k] == 255
      {
        b[base + jj] := 255;
        jj := jj + 1;
      }
    }

    /** The marking loop of `convertToBinary`: each index is decoded into a point, and a
        point inside the image is set to 0 (`putPixel` ignores the others). */
    static method MarkPixels(b: array<int>, list: seq<int>, width: nat, height: nat)
      requires width > 0 && b.Length == width * height
      requires forall k :: 0 <= k < b.Length ==> b[k] == 255
      modifies b
      ensures forall k :: 0 <= k < b.Length ==> b[k] == if k in list then 0 else 255
    {
      var p := 0;
      while p < |list|
        invariant 0 <= p <= |list|
        invariant forall k :: 0 <= k < b.Length ==> b[k] == if k in list[..p] then 0 else 255
      {
        var pix := list[p];
        var x := JavaRem(pix, width);
        var y := JavaDiv(pix - x, width);
        PixelDecode(pix, width, height);
        assert list[..p + 1] == list[..p] + [pix];
        if 0 <= x < width && 0 <= y < height {
          b[y * width + x] := 0;
        }
        p := p + 1;
      }
      assert list[..p] == list;
    }

    /** `convertToBinary`: a fresh `width` by `height` byte image, black (0) at every cached
        pixel index that lies in the image and white (255) elsewhere; null without a cache. */
    method ConvertToBinary() returns (m: array?<int>)
      requires width > 0
      ensures m == null <==> pixels.Null?
      ensures m != null ==> fresh(m) && m.Length == width * height
      ensures m != null ==> forall k :: 0 <= k < m.Length ==> m[k] == if k in pixels.value then 0 else 255
    {
      if pixels.Null? {
        return null;
      }
      var b := new int[width * height];
      FillWhite(b, width, height);
      MarkPixels(b, pixels.value, width, height);
      return b;
    }
  }
}
