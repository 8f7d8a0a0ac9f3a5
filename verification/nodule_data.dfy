/** `NoduleData`: one image, its binary segmentation map (0 = nodule pixel, 255 = background)
    and the lists of green, red and mixed nodule pixels it hands to the three colour datasets.
    Thresholding, clustering and the measurement of lightness and greyscale happen in ImageJ
    and Weka; their results enter here as arguments. */
module Segmentation {
  import opened Common
  import opened Regions
  import opened Palette
  import opened PixelLists
  import opened Dilation
  import opened FileTypes

  /** The largest area a single nodule may have, per colour. */
  datatype SingleBounds = SingleBounds(red: int, green: int, mixed: int)

  /** A colour map built by `createMap`: its title and which pixels carry the colour. */
  datatype ColourMap = ColourMap(title: string, painted: seq<bool>)

  const RED: seq<int> := [255, 0, 0]
  const GREEN: seq<int> := [0, 255, 0]
  const YELLOW: seq<int> := [255, 255, 0]

  /** The title suffix `createMap` chooses by colour. */
  function MapSuffix(color: seq<int>): string
    requires |color| >= 2
  {
    if color[0] == 255 && color[1] == 255 then "_mixed"
    else if color[0] == 255 then "_red"
    else "_green"
  }

  /** The three colours of the model get the three suffixes. */
  lemma MapSuffixes()
    ensures MapSuffix(RED) == "_red" && MapSuffix(GREEN) == "_green" && MapSuffix(YELLOW) == "_mixed"
  {
  }

  /** A region counts as green when more than 50 of its pixels lie above the parabola. */
  function GreenFlags(img: Image, rois: seq<Region>): (flags: seq<bool>)
    requires img.WellFormed()
    ensures |flags| == |rois|
    ensures forall k :: 0 <= k < |rois| && |rois[k].points| <= 50 ==> !flags[k]
  {
    seq(|rois|, k requires 0 <= k < |rois| => GreenCount(img, rois[k].points) > 50)
  }

  /** The flags `improveSegmentation` loosens the green threshold by: the green regions in the
      darkest band of green lightness, none otherwise. */
  function LoosenFlags(img: Image, rois: seq<Region>, section: int): (flags: seq<bool>)
    requires img.WellFormed()
    ensures |flags| == |rois|
    ensures forall k :: 0 <= k < |rois| && flags[k] ==> section < LIGHT_SECTION_TWO
  {
    if section < LIGHT_SECTION_TWO then GreenFlags(img, rois) else seq(|rois|, _ => false)
  }

  /** The inner loop of `greenRoi`: the pixels of a region above the parabola. */
  method CountGreen(img: Image, pts: seq<Point>) returns (numGreen: nat)
    requires img.WellFormed()
    ensures numGreen == GreenCount(img, pts)
  {
    numGreen := 0;
    var ii := 0;
    while ii < |pts|
      invariant 0 <= ii <= |pts|
      invariant numGreen == GreenCount(img, pts[..ii])
    {
      assert pts[..ii + 1][..ii] == pts[..ii];
      var p := pts[ii];
      var c := PixelAt(img, p.x, p.y);
      if c.g as real > (c.r * c.r) as real * BOTTOM_A + BOTTOM_B {
        numGreen := numGreen + 1;
      }
      ii := ii + 1;
    }
    assert pts[..ii] == pts;
  }

  /** `greenRoi`: one flag per region, raised when more than 50 of its pixels are green. */
  method GreenRoi(img: Image, rois: seq<Region>) returns (greenRois: seq<bool>)
    requires img.WellFormed()
    ensures greenRois == GreenFlags(img, rois)
  {
    greenRois := [];
    var ii := 0;
    while ii < |rois|
      invariant 0 <= ii <= |rois|
      invariant greenRois == GreenFlags(img, rois)[..ii]
    {
      var numGreen := CountGreen(img, rois[ii].points);
      greenRois := greenRois + [numGreen > 50];
      ii := ii + 1;
    }
  }

  /** The nodule pixels after the red improvement: the map's own nodule pixels, merged with
      those of the red-only segmentation when the red lightness is below 82 and a red model
      was chosen (`Null`: the chosen file was not a model). */
  function SegmentedNodules(mask: seq<int>, redLightness: real, redAssignments: Opt<seq<int>>): seq<int>
  {
    var nodules := ZeroPositions(mask);
    if redLightness < 82.0 && redAssignments.Some? then Merge(nodules, ZeroPositions(redAssignments.value))
    else nodules
  }

  // ---------------------------------------------------------------- two null dereferences

  /** How a step of the source ends: with a value, or by dereferencing null. */
  datatype Ending<T> = Returns(value: T) | NullDereference

  /** The red-only model `improveRedNoduleSegmentation` loads, with its chooser dialog shown
      first: nothing selected, or a selection without the ".model" extension, loads none. */
  function PickRedModel(selected: Opt<string>): Opt<string>
  {
    if selected.Some? && EqualsIgnoreCase(Extension(selected.value), "model") then selected else Null
  }

  /** The same lines as written, given what `getSelectedFile()` returns: the selection's name
      is read before anything checks that there is one. */
  function PickRedModelAsWritten(selected: Opt<string>): (r: Ending<Opt<string>>)
  {
    match selected
    case Null => NullDereference
    case Some(f) => Returns(if EqualsIgnoreCase(Extension(f), "model") then selected else Null)
  }

  /** What the chooser holds as written: it is created and titled, but no dialog is ever
      opened on it, so nothing is selected. */
  const SELECTION_AS_WRITTEN: Opt<string> := Null

  /** The red-only nodule assignments of the loaded model; `load` stands for the Weka
      clustering with the model in that file. */
  function RedAssignmentsOf(file: Opt<string>, load: string -> seq<int>): Opt<seq<int>>
  {
    match file
    case Null => Null
    case Some(f) => Some(load(f))
  }

  /** The nodule pixels `generateSegmentedMap` goes on to sort, as written. */
  function SegmentedNodulesAsWritten(mask: seq<int>, redLightness: real, selected: Opt<string>,
                                     load: string -> seq<int>): Ending<seq<int>>
  {
    if redLightness < 82.0 then
      match PickRedModelAsWritten(selected)
      case NullDereference => NullDereference
      case Returns(file) => Returns(SegmentedNodules(mask, redLightness, RedAssignmentsOf(file, load)))
    else Returns(SegmentedNodules(mask, redLightness, Null))
  }

  /** As written, every image whose red lightness is below 82 ends in a null dereference.
      With the dialog shown the step always completes, loads only ".model" files, and agrees
      with the written code whenever a file is selected or the red lightness is 82 or more. */
  lemma RedChooserFinding(mask: seq<int>, redLightness: real, selected: Opt<string>, load: string -> seq<int>)
    ensures redLightness < 82.0 ==>
      SegmentedNodulesAsWritten(mask, redLightness, SELECTION_AS_WRITTEN, load) == NullDereference
    ensures selected.Some? || redLightness >= 82.0 ==>
      SegmentedNodulesAsWritten(mask, redLightness, selected, load)
        == Returns(SegmentedNodules(mask, redLightness, RedAssignmentsOf(PickRedModel(selected), load)))
    ensures PickRedModel(selected).Some? <==>
      selected.Some? && EqualsIgnoreCase(Extension(selected.value), "model")
    ensures PickRedModel(selected).Some? ==> PickRedModel(selected) == selected
  {
  }

  /** Lines 460-475 of `improveSegmentation` as written, given the outline search's result
      (`getRois`, null when the map holds no nodule): `averageLightness` iterates over the
      regions before the null check, and `getScaledBounds` never returns null, so the check's
      early return cannot be reached. */
  function RegionsAsWritten(found: Opt<seq<Region>>): Ending<seq<Region>>
  {
    match found
    case Null => NullDereference
    case Some(rs) => Returns(rs)
  }

  /** As written, a map without nodules ends in a null dereference, where the early return
      ("no ROi's found") was meant to leave it alone; with regions both agree. */
  lemma NoRegionsFinding(found: Opt<seq<Region>>)
    ensures RegionsAsWritten(Null) == NullDereference
    ensures found.Some? ==> RegionsAsWritten(found) == Returns(found.value)
  {
  }

  class NoduleData {
    const image: Image
    const title: string
    const singles: SingleBounds
    /** The binary segmentation map, one entry per pixel of `image`. */
    var binaryMap: array<int>
    var greenLightSection: int
    var averageGreenLightness: real
    var averageRedLightness: real
    /** The pixel lists handed to the green, red and mixed datasets (`setPixels`). */
    var greenPixels: seq<int>
    var redPixels: seq<int>
    var mixedPixels: seq<int>
    /** The colour maps handed to the three datasets (`setMap`). */
    var greenMap: ColourMap
    var redMap: ColourMap
    var mixedMap: ColourMap

    ghost predicate Valid()
      reads this
    {
      image.WellFormed() && image.width > 0 && binaryMap.Length == |image.pixels|
    }

    /** The three colour maps show the three pixel lists: each is titled with its colour's
        suffix, covers the image and paints exactly the pixels of its list. */
    ghost predicate MapsPainted()
      reads this
    {
      && greenMap.title == title + "_green" && redMap.title == title + "_red" && mixedMap.title == title + "_mixed"
      && |greenMap.painted| == |redMap.painted| == |mixedMap.painted| == |image.pixels|
      && forall k :: 0 <= k < |image.pixels| ==>
        && (greenMap.painted[k] <==> k in greenPixels)
        && (redMap.painted[k] <==> k in redPixels)
        && (mixedMap.painted[k] <==> k in mixedPixels)
    }

    constructor (image: Image, title: string, singles: SingleBounds, initial: seq<int>)
      requires image.WellFormed() && image.width > 0 && |initial| == |image.pixels|
      ensures Valid() && fresh(binaryMap)
      ensures this.image == image && this.title == title && this.singles == singles
      ensures binaryMap[..] == initial
      ensures greenPixels == [] && redPixels == [] && mixedPixels == []
    {
      this.image := image;
      this.title := title;
      this.singles := singles;
      binaryMap := new int[|initial|](k requires 0 <= k < |initial| => initial[k]);
      greenLightSection := LIGHT_SECTION_ONE;
      averageGreenLightness := 0.0;
      averageRedLightness := 0.0;
      greenPixels, redPixels, mixedPixels := [], [], [];
      greenMap, redMap, mixedMap := ColourMap([], []), ColourMap([], []), ColourMap([], []);
    }

    /** The bucketing part of `averageLightness`; the averages themselves are measured on the
        lightness channel by ImageJ. */
    method SetLightness(greenLightness: real, redLightness: real)
      modifies this`greenLightSection, this`averageGreenLightness, this`averageRedLightness
      ensures greenLightSection == LightSection(greenLightness)
      ensures averageGreenLightness == greenLightness && averageRedLightness == redLightness
    {
      if greenLightness < 85.0 {
        greenLightSection := LIGHT_SECTION_ONE;
      } else if greenLightness < 90.0 {
        greenLightSection := LIGHT_SECTION_TWO;
      } else if greenLightness < 95.0 {
        greenLightSection := LIGHT_SECTION_THREE;
      } else {
        greenLightSection := LIGHT_SECTION_FOUR;
      }
      averageGreenLightness := greenLightness;
      averageRedLightness := redLightness;
    }

    /** `improveSegmentation`: `found` holds the regions of the current map (`Null` when it
        has none) and `bounds` their bounding boxes, `grey` the 8-bit greyscale of the image.
        Without regions nothing changes: the early return ("no ROi's found"), taken before
        the regions are used. Otherwise every scaled box is scanned once, in order, on a copy
        of the map that then replaces it. */
    method ImproveSegmentation(found: Opt<seq<Region>>, bounds: seq<Rect>, greenLightness: real,
                               redLightness: real, grey: seq<int>)
      requires Valid() && |grey| == |image.pixels|
      requires found.Some? ==> |bounds| == |found.value|
      modifies this`binaryMap, this`greenLightSection, this`averageGreenLightness, this`averageRedLightness
      ensures Valid()
      ensures found.Null? ==> binaryMap == old(binaryMap) && greenLightSection == old(greenLightSection)
                              && averageRedLightness == old(averageRedLightness)
      ensures found.Some? ==> fresh(binaryMap)
      ensures found.Some? ==> greenLightSection == LightSection(greenLightness) && averageRedLightness == redLightness
      ensures found.Some? ==>
        binaryMap[..] == DilateAll(image, grey, old(binaryMap[..]), ScaledAll(bounds),
                                   LoosenFlags(image, found.value, greenLightSection), greenLightSection)
    {
      if found.Null? {
        return;
      }
      var rois := found.value;
      SetLightness(greenLightness, redLightness);
      var loosenGreenThreshold;
      if greenLightSection < LIGHT_SECTION_TWO {
        loosenGreenThreshold := GreenRoi(image, rois);
      } else {
        loosenGreenThreshold := seq(|rois|, _ => false);
      }
      var roiRects := GetScaledBounds(bounds);
      var current := binaryMap[..];
      var byteMap := new int[|current|](k requires 0 <= k < |current| => current[k]);
      assert byteMap[..] == current;
      DilateRects(image, grey, byteMap, roiRects, loosenGreenThreshold, greenLightSection);
      binaryMap := byteMap;
    }

    /** `updateBinaryMap`: a new map with 0 at the listed positions and 255 elsewhere. */
    method UpdateBinaryMap(nodulePixels: seq<int>)
      requires Valid()
      requires forall p :: p in nodulePixels ==> 0 <= p < |image.pixels|
      modifies this`binaryMap
      ensures Valid() && fresh(binaryMap)
      ensures binaryMap[..] == BinaryMap(|image.pixels|, nodulePixels)
    {
      var pixels := new int[|image.pixels|];
      var ii := 0;
      while ii < pixels.Length
        invariant 0 <= ii <= pixels.Length
        invariant forall k :: 0 <= k < ii ==> pixels[k] == 255
      {
        pixels[ii] := 255;
        ii := ii + 1;
      }
      ii := 0;
      while ii < |nodulePixels|
        invariant 0 <= ii <= |nodulePixels|
        invariant forall k :: 0 <= k < pixels.Length ==> pixels[k] == if k in nodulePixels[..ii] then 0 else 255
      {
        assert nodulePixels[ii] in nodulePixels;
        pixels[nodulePixels[ii]] := 0;
        assert forall k :: k in nodulePixels[..ii + 1] <==> k in nodulePixels[..ii] || k == nodulePixels[ii] by {
          assert nodulePixels[..ii + 1] == nodulePixels[..ii] + [nodulePixels[ii]];
        }
        ii := ii + 1;
      }
      assert nodulePixels[..ii] == nodulePixels;
      binaryMap := pixels;
    }

    /** `improveRedNoduleSegmentation`, with the chooser dialog shown: `selected` is the file
        picked in it and `load` the red-only clustering with a model file. The nodule pixels
        of that segmentation are merged into `nodulePixels` and the binary map is rebuilt
        from the result. No selection, or a file that is not a model, leaves everything as
        it was. */
    method ImproveRedNoduleSegmentation(nodulePixels: seq<int>, selected: Opt<string>, load: string -> seq<int>)
      returns (uniqueArray: seq<int>)
      requires Valid()
      requires forall p :: p in nodulePixels ==> 0 <= p < |image.pixels|
      requires forall f :: |load(f)| == |image.pixels|
      modifies this`binaryMap
      ensures var redAssignments := RedAssignmentsOf(PickRedModel(selected), load);
        redAssignments.Null? ==> uniqueArray == nodulePixels && binaryMap == old(binaryMap)
      ensures var redAssignments := RedAssignmentsOf(PickRedModel(selected), load);
        redAssignments.Some? ==>
        && uniqueArray == Merge(nodulePixels, ZeroPositions(redAssignments.value))
        && fresh(binaryMap) && binaryMap[..] == BinaryMap(|image.pixels|, uniqueArray)
      ensures Valid()
    {
      var file := PickRedModel(selected);
      if file.Null? {
        return nodulePixels;
      }
      var redAssignments := load(file.value);
      assert RedAssignmentsOf(file, load) == Some(redAssignments);
      assert |redAssignments| == |image.pixels|;
      var redPixelsList := NodulePixelIndices(redAssignments);
      uniqueArray := Merge(nodulePixels, redPixelsList);
      MergeSpec(nodulePixels, redPixelsList);
      MergeWithin(nodulePixels, redPixelsList, |image.pixels|);
      UpdateBinaryMap(uniqueArray);
    }

    /** `createMap`: each listed position is decoded to (x, y) and painted; positions outside
        the image are ignored. The title names the colour. */
    method CreateMap(pixels: seq<int>, color: seq<int>) returns (m: ColourMap)
      requires Valid() && |color| == 3
      ensures m.title == title + MapSuffix(color)
      ensures |m.painted| == |image.pixels|
      ensures forall k :: 0 <= k < |m.painted| ==> (m.painted[k] <==> k in pixels)
    {
      var width := image.width;
      var nmp := new bool[|image.pixels|];
      var ii := 0;
      while ii < nmp.Length
        invariant 0 <= ii <= nmp.Length
        invariant forall k :: 0 <= k < ii ==> !nmp[k]
      {
        nmp[ii] := false;
        ii := ii + 1;
      }
      ii := 0;
      while ii < |pixels|
        invariant 0 <= ii <= |pixels|
        invariant forall k :: 0 <= k < nmp.Length ==> (nmp[k] <==> k in pixels[..ii])
      {
        var loc := pixels[ii];
        var x := JavaRem(loc, width);
        var y := JavaDiv(loc - x, width);
        PixelDecode(loc, width, image.height);
        if image.Inside(x, y) {
          nmp[y * width + x] := true;
        }
        assert forall k :: k in pixels[..ii + 1] <==> k in pixels[..ii] || k == loc by {
          assert pixels[..ii + 1] == pixels[..ii] + [loc];
        }
        ii := ii + 1;
      }
      assert pixels[..ii] == pixels;
      var suffix;
      if color[0] == 255 && color[1] == 255 {
        suffix := "_mixed";
      } else if color[0] == 255 {
        suffix := "_red";
      } else {
        suffix := "_green";
      }
      m := ColourMap(title + suffix, nmp[..]);
    }

    /** The nodule pixels `generateSegmentedMap` sorts by colour: those of the map, merged with
        the red-only segmentation when the red lightness is below 82. They are always exactly
        the nodule pixels of the map as it stands afterwards. */
    method NodulePixels(selected: Opt<string>, load: string -> seq<int>) returns (nodulePixelIndices: seq<int>)
      requires Valid()
      requires forall f :: |load(f)| == |image.pixels|
      modifies this`binaryMap
      ensures Valid()
      ensures nodulePixelIndices
           == SegmentedNodules(old(binaryMap[..]), averageRedLightness, RedAssignmentsOf(PickRedModel(selected), load))
      ensures nodulePixelIndices == ZeroPositions(binaryMap[..])
      ensures RedAssignmentsOf(PickRedModel(selected), load).Null? || averageRedLightness >= 82.0 ==>
        binaryMap == old(binaryMap) && binaryMap[..] == old(binaryMap[..])
    {
      var clusterAssignments := binaryMap[..];
      ghost var redAssignments := RedAssignmentsOf(PickRedModel(selected), load);
      nodulePixelIndices := NodulePixelIndices(clusterAssignments);
      if averageRedLightness < 82.0 {
        assert |clusterAssignments| == |image.pixels|;
        nodulePixelIndices := ImproveRedNoduleSegmentation(nodulePixelIndices, selected, load);
        if redAssignments.Some? {
          MergeSpec(ZeroPositions(clusterAssignments), ZeroPositions(redAssignments.value));
          BinaryMapRoundTrip(|image.pixels|, nodulePixelIndices);
        }
      }
    }

    /** The classification loop of `generateSegmentedMap` and the three colour maps. */
    method SplitByColour(nodulePixelIndices: seq<int>)
      requires Valid()
      modifies this`greenPixels, this`redPixels, this`mixedPixels, this`greenMap, this`redMap, this`mixedMap
      ensures greenPixels == OfClass(image, nodulePixelIndices, GreenPixel)
      ensures redPixels == OfClass(image, nodulePixelIndices, RedPixel)
      ensures mixedPixels == OfClass(image, nodulePixelIndices, MixedPixel)
      ensures multiset(greenPixels) + multiset(redPixels) + multiset(mixedPixels) == multiset(nodulePixelIndices)
      ensures MapsPainted()
    {
      greenPixels, redPixels, mixedPixels := Classify(image, nodulePixelIndices);
      ClassesPartition(image, nodulePixelIndices);
      redMap := CreateMap(redPixels, RED);
      greenMap := CreateMap(greenPixels, GREEN);
      mixedMap := CreateMap(mixedPixels, YELLOW);
    }

    /** `generateSegmentedMap`: improve the map, then list and sort its nodule pixels. */
    method GenerateSegmentedMap(found: Opt<seq<Region>>, bounds: seq<Rect>, greenLightness: real,
                                redLightness: real, grey: seq<int>, selected: Opt<string>, load: string -> seq<int>)
      requires Valid() && |grey| == |image.pixels|
      requires found.Some? ==> |bounds| == |found.value|
      requires forall f :: |load(f)| == |image.pixels|
      modifies this
      ensures Valid()
      ensures var section := LightSection(greenLightness);
        var dilated := if found.Null? then old(binaryMap[..])
          else DilateAll(image, grey, old(binaryMap[..]), ScaledAll(bounds), LoosenFlags(image, found.value, section), section);
        var red := if found.Null? then old(averageRedLightness) else redLightness;
        var nodules := SegmentedNodules(dilated, red, RedAssignmentsOf(PickRedModel(selected), load));
        && greenPixels == OfClass(image, nodules, GreenPixel)
        && redPixels == OfClass(image, nodules, RedPixel)
        && mixedPixels == OfClass(image, nodules, MixedPixel)
      ensures multiset(greenPixels) + multiset(redPixels) + multiset(mixedPixels) == multiset(ZeroPositions(binaryMap[..]))
      ensures MapsPainted()
    {
      ghost var section := LightSection(greenLightness);
      ghost var dilated := if found.Null? then binaryMap[..]
        else DilateAll(image, grey, binaryMap[..], ScaledAll(bounds), LoosenFlags(image, found.value, section), section);
      ghost var red := if found.Null? then averageRedLightness else redLightness;
      ghost var redAssignments := RedAssignmentsOf(PickRedModel(selected), load);
      ImproveSegmentation(found, bounds, greenLightness, redLightness, grey);
      assert binaryMap[..] == dilated && averageRedLightness == red;
      var nodulePixelIndices := NodulePixels(selected, load);
      assert nodulePixelIndices == SegmentedNodules(dilated, red, redAssignments);
      SplitByColour(nodulePixelIndices);
    }
  }

  /** The constructor of `NoduleData`: a zero single-nodule bound for any colour is rejected;
      otherwise the data starts from the given binary map. */
  method NewNoduleData(image: Image, title: string, initial: seq<int>, redSingle: int, greenSingle: int, mixedSingle: int)
    returns (r: Result<NoduleData>)
    requires image.WellFormed() && image.width > 0 && |initial| == |image.pixels|
    ensures r.IllegalState? <==> redSingle == 0 || greenSingle == 0 || mixedSingle == 0
    ensures r.Ok? ==>
      && fresh(r.value) && r.value.Valid() && r.value.binaryMap[..] == initial
      && r.value.singles == SingleBounds(redSingle, greenSingle, mixedSingle)
  {
    if greenSingle == 0 || redSingle == 0 || mixedSingle == 0 {
      return IllegalState;
    }
    var d := new NoduleData(image, title, SingleBounds(redSingle, greenSingle, mixedSingle), initial);
    return Ok(d);
  }
}
