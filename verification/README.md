# Nodule segmentation bookkeeping, modelled in Dafny

This project models the core of the ImageJ plugin that segments nodules in an RGB
image. The plugin classifies them as red, green or mixed, and lets the user correct
the result. The model covers:

- The per-colour dataset (`ColorData`), modelled as a class `Channels.ColorData`. It
  holds arrays aligned by position:
  - the regions (`rois`);
  - the `areas` rows (nodule count and pixel area);
  - the measurement table;
  - `circularity`;
  - the clumps (`NoduleClump`, class `Clumps.NoduleClump`), each naming a region by
    position;
  - the pixel cache.

  Each operation on the class is proved to move the dataset's value view (`View()`)
  exactly as a specification function in `ColorSpec` says. The lemmas about those
  functions prove the invariant `Consistent`: `areas` aligned with the regions, and
  clumps naming distinct existing positions. They also prove that positions are
  renumbered correctly after removals. Other rules covered: the count kept by each
  edit, the single-nodule and split-candidate selection, the clump count estimate
  with `roundDown`, and the total `getData` reports.
- The mixed dataset (`MixedData`, class `Mixed.MixedData`). It holds a colour dataset
  (`data`) plus the red and green pixel counts and the linkage table `clumped`, which
  records, per mixed region, the red and the green clump it absorbed. The model
  covers:
  - `addRoi`, `setRoi`, `removeRoi` and `removeFromClumped`, keeping the arrays
    aligned;
  - the merging of close mixed regions and the removal of rejected regions;
  - the recursive absorption of red and green regions (skip, link the clump, or remove
    the region and renumber the column);
  - `updateData`;
  - the distance functions.
- The segmentation steps of `NoduleData` that are pure bookkeeping:
  - the constructor guard;
  - the nodule pixel list and its classification into green, red and mixed;
  - the sorted merge of the red-only segmentation;
  - the binary map rebuild, the scaled boxes and the lightness bands;
  - the in-place dilation of the mask (`Dilation.DilateInPlace` on an `array<int>`);
  - `createMap`, `Line` and `parabola`.
- The bookkeeping that `UserEditsHandler` runs around the user's edits:
  - the delete cascade;
  - `adjustMixedClumped` and `mixedClump`;
  - the CORRECT branch;
  - the export counts of `saveCSV`;
  - the colour decoding of `redraw`.
- `Menu.getFileType`.

Regions are objects of class `Regions.Region`, compared by identity as Java's `==`
compares them. Their polygon outline and contained points are constant fields. Area
intersection and `ShapeRoi.or` are supplied as the two functions of a
`Regions.Geometry` value. Doubles are `real`; Java's `int` division, remainder and
`(int)` cast are written out in `Common`.

## Model

| member | source | states |
|---|---|---|
| Channels.ColorData.constructor | src/main/java/noduledata/imagej/ColorData.java:79-93 | A new dataset has count -1 and no regions, `areas`, circularities, clumps, single list or pixel cache; it keeps the colour and the area threshold, and is consistent. |
| Channels.ColorData.GetClump | src/main/java/noduledata/imagej/ColorData.java:97-106 | Returns the first clump whose index is `index`, and null exactly when no clump names that position. |
| Channels.ColorData.GetIndex | src/main/java/noduledata/imagej/ColorData.java:200-216 | -1 when there are no regions or the object is not among them; otherwise a position holding that very object, the first one. |
| Channels.ColorData.IsSplit | src/main/java/noduledata/imagej/ColorData.java:1208-1230 | The position in the clump list of the clump naming region `ii`, -1 when none does or there is no clump list. |
| Channels.ColorData.CollectPixels | src/main/java/noduledata/imagej/ColorData.java:152-163 | The loop collects `y * width + x` for every contained point, region by region. |
| Channels.ColorData.UpdatePixels | src/main/java/noduledata/imagej/ColorData.java:148-170 | The cache becomes the duplicate-free list of covered pixel indices. |
| ColorSpec.PixelCacheSpec | src/main/java/noduledata/imagej/ColorData.java:148-170 | An index is in the rebuilt cache exactly when a contained point of some region encodes to it, and no index appears twice. |
| Channels.ColorData.SetRoi | src/main/java/noduledata/imagej/ColorData.java:132-142 | The dataset moves as `SetRoiSpec` says and stays consistent. |
| ColorSpec.SetRoiSpec | src/main/java/noduledata/imagej/ColorData.java:132-142 | The region at `index` is replaced only when `index` is a region position; the number of regions and rows, the clumps and the count stay. |
| ColorSpec.SetRoiConsistent | src/main/java/noduledata/imagej/ColorData.java:132-142 | Replacing a region keeps the dataset consistent and puts `roi` at `index`. |
| Channels.ColorData.UpdateArea | src/main/java/noduledata/imagej/ColorData.java:1080-1082 | Only the pixel area of row `index` changes. |
| Channels.ColorData.AddRoi | src/main/java/noduledata/imagej/ColorData.java:224-241 | The dataset moves as `AddRoiSpec` says and stays consistent. |
| ColorSpec.AddRoiSpec | src/main/java/noduledata/imagej/ColorData.java:224-241 | The region is appended at the end, the count grows by one, and the clumps and table are untouched. |
| ColorSpec.AddRoiConsistent | src/main/java/noduledata/imagej/ColorData.java:224-241 | Appending keeps the dataset consistent and every earlier region at its position. |
| Channels.ColorData.RemoveClump | src/main/java/noduledata/imagej/ColorData.java:247-271 | Succeeds exactly when some clump names `index1`, and then removes the first such clump and no other; otherwise nothing changes (the exception). |
| ColorSpec.ClumpPos | src/main/java/noduledata/imagej/ColorData.java:299-306 | The position of the first clump naming a region, -1 exactly when none does. |
| ColorSpec.SplitPos | src/main/java/noduledata/imagej/ColorData.java:1208-1230 | -1 without a clump list, otherwise the position of the clump naming the region. |
| Channels.ColorData.DropClumpOf | src/main/java/noduledata/imagej/ColorData.java:297-310 | The clump of region `index` goes and the count drops by its nodules, or by one when the region has no clump. |
| ColorSpec.DropClumpSpec | src/main/java/noduledata/imagej/ColorData.java:299-306 | After dropping the clump of region `i`, the remaining clumps are well indexed and none names `i`. |
| Channels.ColorData.ShiftClumps | src/main/java/noduledata/imagej/ColorData.java:312-316 | Every clump with index above the removed position moves down by one; the others are unchanged. |
| ColorSpec.ShiftAbove | src/main/java/noduledata/imagej/ColorData.java:312-316 | Same length; exactly the clumps naming a later region are decremented. |
| ColorSpec.ShiftAboveWellIndexed | src/main/java/noduledata/imagej/ColorData.java:312-316 | Renumbering after a removal keeps distinct clumps distinct and in range of one region fewer. |
| Channels.ColorData.RemoveClumpOf | src/main/java/noduledata/imagej/ColorData.java:297-318 | The clump list becomes `ClumpsAfterRemoval` and the count `CountAfterRemoval`; no new clump object appears. |
| ColorSpec.ClumpsAfterRemovalSpec | src/main/java/noduledata/imagej/ColorData.java:297-318 | After region `i` goes, the clumps are well indexed over one region fewer, and one clump fewer exactly when a clump named `i`. |
| Channels.ColorData.CopyWithout | src/main/java/noduledata/imagej/ColorData.java:320-336 | The copy loop, including its early break for the last position, yields every region except position `index`, in order. |
| Channels.ColorData.RemoveTableData | src/main/java/noduledata/imagej/ColorData.java:418-424 | The table rows are deleted one by one, the last listed index first. |
| ColorSpec.DeleteRow | src/main/java/noduledata/imagej/ColorData.java:418-424 | A row inside the table is dropped; an index outside it leaves the table alone. |
| Channels.ColorData.RemoveAreas | src/main/java/noduledata/imagej/ColorData.java:394-412 | `areas` keeps exactly the rows at positions not listed, in order. |
| Channels.ColorData.RemoveRowsAt | src/main/java/noduledata/imagej/ColorData.java:320-351 | The region, its table row and its `areas` row go; `circularity`, when present, becomes all zeros of the new length; the pixel cache is rebuilt. |
| Channels.ColorData.RemoveAtIndex | src/main/java/noduledata/imagej/ColorData.java:297-352 | A found region is removed as `RemoveAt` says; the dataset stays consistent. |
| ColorSpec.RemoveAt | src/main/java/noduledata/imagej/ColorData.java:297-351 | Regions and `areas` lose exactly position `i`, alignment is kept, the single list is untouched. |
| ColorSpec.RemoveAtConsistent | src/main/java/noduledata/imagej/ColorData.java:297-351 | Removing a found region keeps the dataset consistent with one region fewer. |
| Channels.ColorData.RemoveRoi | src/main/java/noduledata/imagej/ColorData.java:278-353 | The result and new dataset are `RemoveRoiSpec`; the dataset stays consistent and no new clump object appears. |
| ColorSpec.RemoveRoiSpec | src/main/java/noduledata/imagej/ColorData.java:278-294 | False, with nothing changed, exactly when the object is not one of the regions; otherwise the first position holding it is removed. |
| Channels.ColorData.Ascending | src/main/java/noduledata/imagej/ColorData.java:366-371 | The check from the last pair down accepts exactly the non-decreasing index lists. |
| Channels.ColorData.RemoveStep | src/main/java/noduledata/imagej/ColorData.java:374-377 | One round removes the region at `index` when it is a region position, and fails with nothing changed otherwise. |
| Channels.ColorData.RemoveEach | src/main/java/noduledata/imagej/ColorData.java:374-377 | The removal loop, last index first, yields `RemoveDescending`. |
| Channels.ColorData.RemoveLast | src/main/java/noduledata/imagej/ColorData.java:374-377 | One round at the last listed index: finishing the loop on the remaining indices gives the whole loop's result, and a failing round is the whole loop's failure. |
| ColorSpec.RemoveDescending | src/main/java/noduledata/imagej/ColorData.java:374-377 | The loop keeps regions and rows aligned and keeps the single list; it creates no clump list. |
| ColorSpec.RemoveDescendingKeepsOthers | src/main/java/noduledata/imagej/ColorData.java:373-377 | With distinct regions and strictly ascending indices in range, the loop succeeds and leaves exactly the regions, table rows and `areas` rows at the unlisted positions: each index refers to its original position. |
| ColorSpec.KeepOthersMember | src/main/java/noduledata/imagej/ColorData.java:394-412 | An element survives exactly when some unlisted position holds it. |
| Channels.ColorData.RemoveArrayOfRois | src/main/java/noduledata/imagej/ColorData.java:359-386 | The outcome and new dataset are `RemoveArraySpec`. |
| ColorSpec.RemoveArraySpec | src/main/java/noduledata/imagej/ColorData.java:359-386 | Fails with the exception exactly when regions and table rows differ in number; a mismatch or an unordered list leaves the dataset unchanged. |
| Channels.ColorData.CleanData | src/main/java/noduledata/imagej/ColorData.java:768-800 | Cleaning is `removeArrayOfRois` on the noisy rows. |
| ColorSpec.NoisyRows | src/main/java/noduledata/imagej/ColorData.java:768-800 | Strictly ascending, and holds exactly the table positions whose area is below 300. |
| ColorSpec.CleanDataSpec | src/main/java/noduledata/imagej/ColorData.java:768-800 | On a fresh measurement, cleaning completes and keeps exactly the regions, rows and `areas` rows whose area reaches 300, in order, without clumps. |
| Channels.ColorData.SingleNodules | src/main/java/noduledata/imagej/ColorData.java:1023-1044 | Fails exactly when regions and table rows differ in number (the exception); otherwise the single list becomes `SingleIndices`. |
| ColorSpec.SingleIndices | src/main/java/noduledata/imagej/ColorData.java:1023-1044 | Strictly ascending; holds exactly the positions with circularity above 0.45 and area below the threshold, or circularity above 0.6. |
| Channels.ColorData.AverageArea | src/main/java/noduledata/imagej/ColorData.java:1051-1073 | Returns `AverageSpec`, with the single list it leaves. |
| Channels.ColorData.MeanOf | src/main/java/noduledata/imagej/ColorData.java:1065-1068 | The summing loop yields the mean table area over the single positions, NaN when there are none. |
| ColorSpec.AverageSpec | src/main/java/noduledata/imagej/ColorData.java:1051-1073 | Throws exactly when `areas` is non-empty, no single list exists yet and regions and rows differ in number; 1 when `areas` is missing or empty; an existing single list is kept. |
| ColorSpec.MeanArea | src/main/java/noduledata/imagej/ColorData.java:1065-1068 | The mean is NaN exactly when there are no single positions. |
| ColorSpec.AverageAtLeast | src/main/java/noduledata/imagej/ColorData.java:1051-1073 | When every table area is at least `lo`, a computed average is at least `lo`, and NaN exactly when no region looked single. |
| Channels.ColorData.FindCandidates | src/main/java/noduledata/imagej/ColorData.java:1121-1130 | The candidate loops yield `Candidates`. |
| ColorSpec.Candidates | src/main/java/noduledata/imagej/ColorData.java:1121-1130 | Strictly ascending; holds exactly the non-single positions whose area exceeds the threshold, and none when the single list is empty. |
| ColorSpec.RoundDownSpec | src/main/java/noduledata/imagej/ColorData.java:1189-1200 | For non-negative values, rounds up exactly when the fractional part is at least 0.8, and truncates otherwise. |
| ColorSpec.RoundDownExamples | src/main/java/noduledata/imagej/ColorData.java:1189-1200 | 2.79 rounds to 2 and 2.81 to 3. |
| ColorSpec.EstimateCount | src/main/java/noduledata/imagej/ColorData.java:1136-1146 | The count is at least 2, and within 0.8 below to 0.2 above `area/avg - 1` whenever that estimate reaches 2. |
| Channels.ColorData.MakeClumps | src/main/java/noduledata/imagej/ColorData.java:1134-1147 | One fresh clump per candidate, with the values `SplitClumps` gives. |
| Channels.ColorData.BuildClumps | src/main/java/noduledata/imagej/ColorData.java:1121-1147 | Only the clump list changes, to one clump per candidate as `SplitClumps` describes. |
| Channels.ColorData.InstallClumps | src/main/java/noduledata/imagej/ColorData.java:1149-1155 | The clump list becomes exactly the built clumps, in order. |
| ColorSpec.SplitClumps | src/main/java/noduledata/imagej/ColorData.java:1134-1147 | One clump per candidate, naming it and its region, unclaimed, of at least 2 nodules whose per-nodule areas add up to the region's measured area. |
| ColorSpec.SplitClumpsWellIndexed | src/main/java/noduledata/imagej/ColorData.java:1134-1147 | Clumps made from strictly ascending candidates in range are well indexed. |
| Channels.ColorData.Splitting | src/main/java/noduledata/imagej/ColorData.java:1110-1156 | The dataset moves as `SplitSpec` says and stays consistent. |
| ColorSpec.SplitSpec | src/main/java/noduledata/imagej/ColorData.java:1110-1156 | Splitting leaves regions, table, `areas`, count and pixel cache unchanged. |
| ColorSpec.SplitSpecConsistent | src/main/java/noduledata/imagej/ColorData.java:1110-1156 | Splitting keeps the dataset consistent. |
| ColorSpec.SplitClumpsChosen | src/main/java/noduledata/imagej/ColorData.java:1110-1156 | Every clump splitting creates names a non-single region larger than the threshold and holds at least two nodules whose areas add up to the region's. |
| ColorSpec.CandidateClumps | src/main/java/noduledata/imagej/ColorData.java:1121-1147 | The clumps built from the candidates meet that description. |
| Channels.ColorData.UpdateAreas | src/main/java/noduledata/imagej/ColorData.java:1163-1184 | `areas` becomes `UpdatedAreas` of the regions and clumps. |
| ColorSpec.UpdatedAreas | src/main/java/noduledata/imagej/ColorData.java:1163-1184 | Exactly one row per region. |
| ColorSpec.UpdatedAreasTotal | src/main/java/noduledata/imagej/ColorData.java:1163-1184 | The rebuilt rows total one nodule per plain region plus each clump's own count. |
| ColorSpec.ClumpsBelowStep | src/main/java/noduledata/imagej/ColorData.java:1163-1184 | Moving the bound past position `j` adds one clump and its count exactly when a clump names `j`. |
| Channels.ColorData.FillCircularity | src/main/java/noduledata/imagej/ColorData.java:806-811 | The circularity column becomes the table's circularity for every region. |
| ColorSpec.Circularities | src/main/java/noduledata/imagej/ColorData.java:806-811 | One entry per region, equal to that row's circularity. |
| Channels.ColorData.Install | src/main/java/noduledata/imagej/ColorData.java:732-737 | The measured regions and rows are installed, each `areas` row one nodule of the measured area. |
| ColorSpec.InitialAreas | src/main/java/noduledata/imagej/ColorData.java:732-737 | One row of count 1 and the measured area per table row. |
| Channels.ColorData.Prepare | src/main/java/noduledata/imagej/ColorData.java:732-739 | Installing and cleaning yields `Cleaned`. |
| ColorSpec.Cleaned | src/main/java/noduledata/imagej/ColorData.java:732-739 | Regions and rows aligned, no clumps, every kept area at least 300. |
| Channels.ColorData.Finish | src/main/java/noduledata/imagej/ColorData.java:741-745 | For mixed data nothing changes; otherwise splitting, `updateAreas` and `fillCircularity` in that order. |
| Channels.ColorData.Complete | src/main/java/noduledata/imagej/ColorData.java:741-754 | After `Finish`, the count is the sum of the `areas` counts. |
| Channels.ColorData.CountNodules | src/main/java/noduledata/imagej/ColorData.java:747-754 | The sum of the `areas` counts. |
| Channels.ColorData.SetCount | src/main/java/noduledata/imagej/ColorData.java:754 | Writing the public count changes it alone and keeps the dataset consistent; `getData` and the mixed dataset's removals write the count this way. |
| Channels.ColorData.Generate | src/main/java/noduledata/imagej/ColorData.java:713-754 | `getData` with a map yields `GetDataSpec`. |
| Channels.ColorData.GetData | src/main/java/noduledata/imagej/ColorData.java:696-755 | The dataset moves as `GetDataSpec` says and stays consistent. |
| ColorSpec.GetDataSpec | src/main/java/noduledata/imagej/ColorData.java:696-755 | Without a map nothing changes; with one there are regions and `areas`, and regions and rows align once regions were found. |
| ColorSpec.GetDataConsistent | src/main/java/noduledata/imagej/ColorData.java:696-755 | `getData` leaves a consistent dataset; with no region found it holds no regions and the single zero `areas` row, and the count is unchanged. |
| ColorSpec.GetDataRegions | src/main/java/noduledata/imagej/ColorData.java:732-739 | `getData` keeps exactly the regions and rows whose area reaches 300, in measured order. |
| ColorSpec.CleanedCount | src/main/java/noduledata/imagej/ColorData.java:732-739 | After cleaning, the `areas` counts sum to the number of regions. |
| ColorSpec.SplitCount | src/main/java/noduledata/imagej/ColorData.java:741-754 | After splitting, the rebuilt counts total the plain regions plus the clumps' counts, which is at least one per region plus one per clump. |
| ColorSpec.GetDataCount | src/main/java/noduledata/imagej/ColorData.java:747-754 | The reported count is one per kept region for mixed data; for one colour it is the plain regions plus the clumps' counts, at least the regions plus the clumps. |
| Channels.ColorData.MarkPixels | src/main/java/noduledata/imagej/ColorData.java:998-1002 | Each cached index is decoded the Java way and, when it lies in the image, that pixel becomes 0. |
| Channels.ColorData.ConvertToBinary | src/main/java/noduledata/imagej/ColorData.java:982-1006 | Null exactly when there is no pixel cache; otherwise a fresh `width * height` image holding 0 at cached indices and 255 elsewhere. |
| Channels.ColorData.FillWhite | src/main/java/noduledata/imagej/ColorData.java:991-995 | Every pixel of the new image becomes 255. |
| Common.PixelDecode | src/main/java/noduledata/imagej/ColorData.java:998-1002 | Decoding `x = pix % w`, `y = (pix - x) / w` with Java's operators lands inside the image exactly when the index is in range, and then gives back the index. |
| Common.PixelRoundTrip | src/main/java/noduledata/imagej/ColorData.java:998-1002 | Encoding a point and decoding it again gives the point back. |
| Common.IndexOf | src/main/java/noduledata/imagej/ColorData.java:283-289 | -1 exactly when the element is absent; otherwise the first position holding it. |
| Clumps.NoduleClump.Empty | src/main/java/noduledata/imagej/NoduleClump.java:31-36 | Index, area and count are -1 and there is no region. |
| Clumps.NoduleClump.constructor | src/main/java/noduledata/imagej/NoduleClump.java:48-55 | The fields are stored as given, and the clump is not claimed. |
| Clumps.NoduleClump.CorrectClump | src/main/java/noduledata/imagej/NoduleClump.java:117-147 | 0 empties the clump and returns -1; -1 changes nothing and returns -1; a positive count is stored, keeps count times area constant and is returned; anything below -1 is the exception with nothing changed. Index, region and claim never change. |
| Clumps.UserInput | src/main/java/noduledata/imagej/NoduleClump.java:62-108 | The result is the first positive answer; there is none exactly when no answer is positive. |
| Mixed.MixedData.constructor | src/main/java/noduledata/imagej/MixedData.java:59-61 | A fresh colour dataset in its initial state, no pixel arrays or linkage table, no button pressed. |
| Mixed.MixedData.GetPixelArea | src/main/java/noduledata/imagej/MixedData.java:66-77 | The red or green count of the region, -1 for any other colour name. |
| Mixed.MixedData.SetRoi | src/main/java/noduledata/imagej/MixedData.java:83-92 | The mixed dataset moves as `SetMixedSpec` says. |
| MixedSpec.SetMixedLinked | src/main/java/noduledata/imagej/MixedData.java:83-92 | Replacing a region keeps a linked dataset linked and consistent, keeps the linkage table, and sets both pixel counts at `index` to the new region's. |
| Mixed.MixedData.AddRoi | src/main/java/noduledata/imagej/MixedData.java:98-127 | The mixed dataset moves as `AddMixedSpec` says. |
| MixedSpec.AddMixedLinked | src/main/java/noduledata/imagej/MixedData.java:98-127 | Every earlier row is kept; the new linkage row is (-1, -1); the new pixel counts are the region's; the count grows by one. |
| Mixed.MixedData.RemoveRoi | src/main/java/noduledata/imagej/MixedData.java:134-160 | The mixed dataset and result are `RemoveMixedSpec`; no new clump object appears. |
| MixedSpec.RemoveMixedSpec | src/main/java/noduledata/imagej/MixedData.java:134-160 | A failed removal changes nothing. |
| MixedSpec.RemoveMixedLinked | src/main/java/noduledata/imagej/MixedData.java:134-160 | On a linked dataset the removal succeeds and drops the same position from the regions, both pixel arrays and the linkage table, in order; the count drops by one. |
| Mixed.MixedData.RemoveFromClumped | src/main/java/noduledata/imagej/MixedData.java:359-384 | The linkage table becomes `RemoveFromClumpedSpec`. |
| MixedSpec.RemoveFromClumpedSpec | src/main/java/noduledata/imagej/MixedData.java:359-384 | No change when the table is null or the index out of range; otherwise exactly that row goes. |
| MixedSpec.FirstCloseSpec | src/main/java/noduledata/imagej/MixedData.java:326-333 | The inner scan finds the first other region less than 3 away, and -1 exactly when there is none. |
| MixedSpec.FirstPairFromSpec | src/main/java/noduledata/imagej/MixedData.java:324-350 | A pair is found exactly when some region has a close partner, and the regions scanned before it have none. |
| Mixed.MixedData.UnionMixedNodules | src/main/java/noduledata/imagej/MixedData.java:320-353 | Merges exactly when a close pair exists, and then only the first pair: the first region becomes a fresh union of the two; otherwise nothing changes. |
| Mixed.MixedData.MergePair | src/main/java/noduledata/imagej/MixedData.java:334-345 | The merge of regions `i` and `j` yields `UnionMixedSpec` with a fresh union region. |
| Mixed.MixedData.DropPartner | src/main/java/noduledata/imagej/MixedData.java:337-344 | The partner leaves through `removeRoi`, its linkage row goes, and the count drops once more. |
| MixedSpec.UnionMixedCount | src/main/java/noduledata/imagej/MixedData.java:334-345 | A merge of two different regions, even when one appears twice, removes exactly one region and lowers the count by exactly one. |
| MixedSpec.UnionMixedMerges | src/main/java/noduledata/imagej/MixedData.java:334-345 | With distinct regions the union takes the first region's place, the partner is gone, the rest keep their order, and the list stays duplicate-free. |
| MixedSpec.UnionMixedBase | src/main/java/noduledata/imagej/MixedData.java:334-345 | The dataset half of a merge is `setRoi`, then `removeRoi`, with the count one lower. |
| Mixed.MixedData.MergeCloseRegions | src/main/java/noduledata/imagej/MixedData.java:237-242 | The loop runs exactly the turns `MergeTurns` describes from the old dataset to the new one, counter 0 to `rounds`, and stops where the source stops (counter at the count, or count 1); count minus regions is kept, at most one region goes per round, and with no close pair nothing changes. |
| MixedSpec.ButtonAfterLastPressed | src/main/java/noduledata/imagej/MixedData.java:166-215 | `BUTTON` reads No exactly when the last pressed button was No, or none was pressed and it read No already. |
| MixedSpec.RejectedSpec | src/main/java/noduledata/imagej/MixedData.java:217-219 | Only listed regions are collected; of distinct regions, exactly those whose dialog leaves `BUTTON` at No, each once. |
| MixedSpec.RemoveEveryMembers | src/main/java/noduledata/imagej/MixedData.java:222-225 | Removing distinct listed regions keeps exactly the unlisted ones, distinct and consistent, with the count untouched. |
| MixedSpec.RemoveEveryCount | src/main/java/noduledata/imagej/MixedData.java:222-225 | Duplicates or not, the loop removes as many regions as are listed. |
| Mixed.MixedData.RemoveAllListed | src/main/java/noduledata/imagej/MixedData.java:222-225 | The loop yields `RemoveEvery` and touches nothing else. |
| Mixed.MixedData.RemoveListed | src/main/java/noduledata/imagej/MixedData.java:222-226 | The listed regions go, the last first, and the count then drops by their number. |
| Mixed.MixedData.RemoveLastListed | src/main/java/noduledata/imagej/MixedData.java:222-224 | One turn of the removal loop: removing the last listed region leaves a state from which the rest of the list removes what the whole list removes from the old state. |
| Mixed.MixedData.RemoveFakeNodules | src/main/java/noduledata/imagej/MixedData.java:166-227 | `BUTTON` ends as the replies leave it, and the dataset becomes `RemoveFakeSpec`. |
| MixedSpec.RemoveFakeCount | src/main/java/noduledata/imagej/MixedData.java:166-227 | Whatever the answers, as many regions go as the count drops by; the dataset stays consistent and the pixel arrays and links are untouched. |
| MixedSpec.RemoveFakeKeeps | src/main/java/noduledata/imagej/MixedData.java:166-227 | On distinct regions, a region stays exactly when `BUTTON` does not read No after its dialog. |
| Mixed.MixedData.ResetClumped | src/main/java/noduledata/imagej/MixedData.java:247-251 | One linkage row per region, every entry -1. |
| Mixed.MixedData.Prune | src/main/java/noduledata/imagej/MixedData.java:237-251 | `Pruned`: the merge turns lead to `merged`, `BUTTON` ends as the replies to the dialogs of the merged regions leave it, the dataset is `RemoveFakeSpec` of `merged` for those replies, and the linkage table has one unlinked row per region left. |
| Mixed.MixedData.FindMixedNodules | src/main/java/noduledata/imagej/MixedData.java:233-278 | The pruning is `Pruned` from the old state. Then `GrownAndMeasured` holds. The linkage table is the one `AbsorbRows` computes from the pruned regions and the old colour datasets. For distinct pruned regions, each region has the shape that run gives it and is unchanged exactly when not grown. The red and green datasets are `HandOverRows` of the ones the run leaves: every linked clump, the region it names, that region's area row and the pixel cache follow the grown region. The clumps keep the run's indices, areas and flags. The count equals the number of regions, and with regions the arrays are aligned and `Linked`. |
| Mixed.MixedData.AbsorbAll | src/main/java/noduledata/imagej/MixedData.java:253-273 | The colour datasets and the table end as `AbsorbRows` from the old ones says; for distinct regions each position holds a region of the shape that run gives it, unchanged exactly when the run did not grow it; count and number of regions are kept. |
| Mixed.MixedData.AbsorbRow | src/main/java/noduledata/imagej/MixedData.java:259-269 | Only the region's own position changes: the colour datasets and the table become `UnionRowSpec` for that row, and the position holds a region of the shape it gives, the old region exactly when nothing was absorbed. |
| Mixed.MixedData.UnionRow | src/main/java/noduledata/imagej/MixedData.java:259-265 | The result, colour datasets and table are `UnionRowSpec`: same region exactly when it did not grow, otherwise a fresh one of the grown shape. |
| Mixed.MixedData.PlaceRegion | src/main/java/noduledata/imagej/MixedData.java:269 | Only the region at `index` is replaced; the count is kept. |
| Mixed.MixedData.UnionNodules | src/main/java/noduledata/imagej/MixedData.java:394-418 | Green scan then red scan as `UnionRowSpec` says, for datasets, table and result shape; no new clump appears; with nothing touching, the region comes back unchanged. |
| Mixed.MixedData.ColourUnion | src/main/java/noduledata/imagej/MixedData.java:404-415 | One colour's scan over all its regions ends as `ColourScan` says; the other colour's dataset is untouched; with nothing touching, the region comes back unchanged. |
| Mixed.MixedData.UnionColour | src/main/java/noduledata/imagej/MixedData.java:430-489 | The scan over `considered` ends with the dataset, table and region shape `ColourScan` computes from the old state, the region unchanged exactly when nothing grew, and only old clumps left. |
| MixedSpec.Omit | src/main/java/noduledata/imagej/MixedData.java:451 | The filtered list holds every other listed region and no copy of the matched one, so it is shorter when that region was listed: the recursion terminates. |
| Mixed.MixedData.Absorb | src/main/java/noduledata/imagej/MixedData.java:453-479 | A claimed clump is skipped with nothing changed; an unclaimed clump is linked into the row and marked; a region with no clump leaves its dataset and the column's later entries move down. |
| Mixed.MixedData.AbsorbAndGrow | src/main/java/noduledata/imagej/MixedData.java:453-485 | The scan stops with nothing changed exactly when a green region's clump is already claimed; otherwise datasets, table and shape end as `AbsorbStep` says, and the other column is untouched. |
| Mixed.MixedData.Regrow | src/main/java/noduledata/imagej/MixedData.java:480-485 | The restarted scan, on the union of the region and `g` when `g` was absorbed, ends as `ColourScan` says; after an absorption the result is a new region. |
| Absorption.ColourScan | src/main/java/noduledata/imagej/MixedData.java:430-489 | The scan keeps the other column and the table length, only loses regions, and changes nothing unless the region grows. |
| Absorption.AbsorbStep | src/main/java/noduledata/imagej/MixedData.java:453-485 | A skipped clump restarts the scan unchanged; a linked or dropped region grows the shape and restarts on the rest; the other column is kept and nothing changes unless the region grows. |
| Absorption.ScanUntouched | src/main/java/noduledata/imagej/MixedData.java:430-489 | A scan none of whose remaining regions is within reach returns the dataset, table and shape it started with. |
| Absorption.ScanFirstAbsorbed | src/main/java/noduledata/imagej/MixedData.java:500-566 | The first region in reach that the green scan does not pass over is the one the scan absorbs. |
| Absorption.UnionRowSpec | src/main/java/noduledata/imagej/MixedData.java:394-418 | The row's union keeps the table length and, when the region does not grow, both datasets and the table. |
| Absorption.UnionRowUntouched | src/main/java/noduledata/imagej/MixedData.java:394-418 | A mixed region no red or green region reaches absorbs nothing. |
| Absorption.NoRegionsScanned | src/main/java/noduledata/imagej/MixedData.java:394-418 | A colour dataset in which `getData` found no region has no clump list, yet `unionNodules` can scan it. As the red or the green dataset of a row it comes back unchanged. |
| Absorption.AbsorbRows | src/main/java/noduledata/imagej/MixedData.java:253-273 | The loop keeps the table length, gives one shape and one growth flag per row, and a row that does not grow keeps its shape. |
| Absorption.RowsAheadStep | src/main/java/noduledata/imagej/MixedData.java:259-269 | One turn of the loop is `UnionRowSpec` for its row and leaves the rest of the run ahead. |
| Absorption.GrownStep | src/main/java/noduledata/imagej/MixedData.java:259-269 | Replacing region `counter` by itself or a new region of the shape the run gives it extends the regions grown as the run says by one. |
| Absorption.MergeTurnsCounts | src/main/java/noduledata/imagej/MixedData.java:237-242 | The merge turns end mergeable with as many regions fewer, and a count as much lower, as they merged, at most one per turn. |
| Absorption.MergeTurnsNone | src/main/java/noduledata/imagej/MixedData.java:320-353 | With no close pair at the start, no turn merges and nothing changes. |
| Absorption.MergeTurnsIdle | src/main/java/noduledata/imagej/MixedData.java:320-353 | A turn with no close pair extends the turns so far and changes nothing. |
| Absorption.MergeTurnsMerge | src/main/java/noduledata/imagej/MixedData.java:320-353 | A turn merging its first close pair into a region of their union extends the turns so far by that merge. |
| Mixed.MixedData.MergeTurn | src/main/java/noduledata/imagej/MixedData.java:237-242 | One `unionMixedNodules` call extends the turns described by `MergeTurns` by one. |
| Mixed.MixedData.AbsorbTurn | src/main/java/noduledata/imagej/MixedData.java:253-273 | One turn of the absorption loop keeps `Absorbing` with the counter one higher. |
| Mixed.MixedData.ScanAt | src/main/java/noduledata/imagej/MixedData.java:430-489 | One position of the scan: either the scan ends there as `ColourScan` says, or nothing changes and the rest of the scan from the next position is the same `ColourScan`. |
| Mixed.MixedData.Grow | src/main/java/noduledata/imagej/MixedData.java:253-278 | The absorption loop and `updateData` from an unlinked table end as `GrownAndMeasured` says: the table `AbsorbRows` computes; regions grown as that run says (for distinct regions); colour datasets that are `HandOverRows` of the run's, with the run's clumps. With regions the dataset is `Linked`. |
| MixedSpec.Decide | src/main/java/noduledata/imagej/MixedData.java:455-467 | Drop exactly when no clump names the region; Link names an unclaimed clump of it; Skip only when it has a claimed clump. |
| Mixed.MixedData.ScanClumps | src/main/java/noduledata/imagej/MixedData.java:453-467 | The clump scan's flags match the three outcomes of `Decide`. |
| Mixed.MixedData.LinkRow | src/main/java/noduledata/imagej/MixedData.java:460-465 | The clump is marked, the row's entry in the column becomes its index, and the invariant holds. |
| MixedSpec.LinkThenSkip | src/main/java/noduledata/imagej/MixedData.java:455-466 | Marking a linked clump keeps the clumps well indexed, and a second look at the same region skips it. |
| MixedSpec.LinkKeepsAbsorbed | src/main/java/noduledata/imagej/MixedData.java:460-465 | Linking keeps every entry naming an absorbed clump, and no two rows naming the same one. |
| Mixed.MixedData.DropRegion | src/main/java/noduledata/imagej/MixedData.java:469-479 | The region leaves its dataset by `removeRoi`, the column is decremented above it, and the invariant holds. |
| Mixed.MixedData.DecrementColumn | src/main/java/noduledata/imagej/MixedData.java:472-476 | The column becomes `DecrementAbove`. |
| MixedSpec.DecrementAbove | src/main/java/noduledata/imagej/MixedData.java:472-476 | Same number of rows; the other column is untouched. |
| MixedSpec.DecrementFollowsRemoval | src/main/java/noduledata/imagej/MixedData.java:469-476 | After removing a region, empty entries stay empty and every other entry still names the same region. |
| MixedSpec.DropKeepsAbsorbed | src/main/java/noduledata/imagej/MixedData.java:469-476 | Dropping a region without a clump keeps the clumps well indexed and the column's invariant against the renumbered clumps. |
| MixedSpec.ColoredAreaSpec | src/main/java/noduledata/imagej/MixedData.java:635-659 | Every point counts once, as red or green; a region is all green exactly when every point passes the parabola test, all red exactly when none does. |
| Mixed.GetColoredArea | src/main/java/noduledata/imagej/MixedData.java:635-659 | The loop's counts are `ColoredArea` of the region's points. |
| Palette.AboveParabolaInIntegers | src/main/java/noduledata/imagej/MixedData.java:642-658 | The green test `g > 0.002 r² + 45` is exactly `500 g > r² + 22500` on integers. |
| MixedSpec.EndpointDistance | src/main/java/noduledata/imagej/MixedData.java:577-593 | Without a crossing, the distance is one of the four endpoint distances and none is smaller. |
| MixedSpec.SegmentDistanceSq | src/main/java/noduledata/imagej/MixedData.java:577-593 | The squared distance is non-negative and, at a crossing, at most the length of the first segment. |
| MixedSpec.SegmentDistanceSharedStart | src/main/java/noduledata/imagej/MixedData.java:577-593 | Segments sharing their start point, or where the first starts at the second's end, are at distance zero. |
| MixedSpec.SegmentDistanceFromStart | src/main/java/noduledata/imagej/MixedData.java:582-586 | The crossing branch measures from the first point, not between the segments: two segments crossing in their middles are reported one unit apart. |
| MixedSpec.SegmentsMinSpec | src/main/java/noduledata/imagej/MixedData.java:616-626 | The fold is infinite exactly when an outline has fewer than two points, never above any consecutive-vertex segment pair's distance, and equal to one of them. |
| MixedSpec.RowMinSpec | src/main/java/noduledata/imagej/MixedData.java:620-625 | The inner fold is the minimum over the second outline's segments. |
| Mixed.MixedData.UpdateData | src/main/java/noduledata/imagej/MixedData.java:668-737 | With no regions nothing changes. Otherwise each row's colour counts are its own or its linked clump's area, and the area row is their sum. Each colour dataset becomes `HandOverRows` of the old one over the first `numNodules` rows: each linked clump, the region it names, that region's area row and the pixel cache follow the mixed region. |
| Mixed.MixedData.Measure | src/main/java/noduledata/imagej/MixedData.java:677-735 | With no regions nothing changes. Otherwise the regions, count and table stay, each row is measured as `RowsMeasured` says, and the dataset ends `Linked`. Each colour dataset becomes `HandOverRows` of the old one over all rows (the identity when there are none). |
| Mixed.MeasureRows | src/main/java/noduledata/imagej/MixedData.java:684-735 | The rows are measured as `RowsMeasured` states; of the mixed dataset only `areas` changes. Each colour dataset becomes `HandOverRows` of the old one over the first `n` rows. |
| Mixed.ColourPass | src/main/java/noduledata/imagej/MixedData.java:684-730 | Each of the first `n` rows holds its own colour count or its linked clump's area. With absorbed links every linked clump is handed over. The colour dataset ends as `HandOverRows` of the old one. |
| Mixed.BothColours | src/main/java/noduledata/imagej/MixedData.java:684-730 | The green and the red pass: for each colour, the per-row counts of `ColourPass`, the clumps differing only in regions, every linked clump handed over when the links are absorbed, and the dataset ending as `HandOverRows` of the old one. |
| Mixed.ColourStep | src/main/java/noduledata/imagej/MixedData.java:697-728 | Row `ii`'s count is its own area when unlinked and its linked clump's area otherwise. The colour dataset moves as `HandOverSpec` says, one row further along `HandOverRows`. |
| Mixed.HandOver | src/main/java/noduledata/imagej/MixedData.java:709-717 | The linked clump yields its area cut to an integer. It and its region take the mixed region, and the colour dataset moves as `HandOverSpec` says: `setRoi` rewrites that region's area row and the pixel cache. |
| Mixed.ClaimClump | src/main/java/noduledata/imagej/MixedData.java:711-712 | Exactly that clump's region becomes the mixed region, and the result is its area cut to an integer. |
| Mixed.MixedData.FillPixels | src/main/java/noduledata/imagej/MixedData.java:677-735 | The row loop establishes `RowsMeasured`. Each colour dataset becomes `HandOverRows` of the old one over the first `numNodules` rows. |
| Mixed.LinkedColumn | src/main/java/noduledata/imagej/MixedData.java:697-728 | An unlinked row keeps the region's own count. A linked row takes the clump's area cut to an integer, and the colour dataset moves as `HandOverSpec` says; a missing clump changes nothing. |
| MixedSpec.HandOverSpecKeeps | src/main/java/noduledata/imagej/MixedData.java:709-727 | One colour of a row on a consistent dataset leaves it consistent. The clump and region take the mixed region as `HandedOver` says. When anything changed, that region's area row counts the mixed region's pixels and the pixel cache is that of the new regions. Count, table, circularities and singles stay. |
| MixedSpec.HandOverRowsKeep | src/main/java/noduledata/imagej/MixedData.java:684-735 | After rows `[k, n)` the dataset is consistent. It has as many regions and rows, with clumps differing only in their regions. Every position no row links keeps its region and its area row, and a changed dataset caches the pixels of its new regions. |
| Mixed.AreaPass | src/main/java/noduledata/imagej/MixedData.java:692-729 | Area row `k` of the first `n` rows becomes red plus green; later rows are unchanged. |
| MixedSpec.TakenOverStep | src/main/java/noduledata/imagej/MixedData.java:704-730 | Handing a row over keeps the earlier rows handed over, since no two rows link the same clump. |
| Segmentation.NewNoduleData | src/main/java/noduledata/imagej/NoduleData.java:102-142 | The exception exactly when a single-nodule bound is 0; otherwise a fresh, valid instance holding the bounds and map. |
| Segmentation.NoduleData.constructor | src/main/java/noduledata/imagej/NoduleData.java:102-142 | The instance holds the image, title, bounds and initial map, with empty colour lists. |
| PixelLists.ZeroPositions | src/main/java/noduledata/imagej/NoduleData.java:205-211 | Strictly ascending, holding exactly the positions whose assignment is 0. |
| PixelLists.NodulePixelIndices | src/main/java/noduledata/imagej/NoduleData.java:205-211 | The scan lists `ZeroPositions`. |
| Palette.ClassOf | src/main/java/noduledata/imagej/NoduleData.java:224-242 | On integer channels: green exactly when `g > r + 25` or `g > 240`; red exactly when neither holds and `500 g < r² + 22500` or `r > 180`. |
| Palette.BelowParabolaInIntegers | src/main/java/noduledata/imagej/NoduleData.java:234 | The red test `g < 0.002 r² + 45` is exactly `500 g < r² + 22500` on integers. |
| Palette.MixedBand | src/main/java/noduledata/imagej/NoduleData.java:224-242 | Mixed exactly in the band `r <= 180`, `g <= 240`, `g <= r + 25`, `500 g >= r² + 22500`; a mixed pixel strictly above the parabola passes the green test of `getColoredArea`. |
| Palette.ClassOfExamples | src/main/java/noduledata/imagej/NoduleData.java:224-242 | Pure green is green, pure red is red, and (100, 100, 0) is mixed. |
| PixelLists.Classify | src/main/java/noduledata/imagej/NoduleData.java:224-242 | The loop fills the three lists with `OfClass` of each class, in input order. |
| PixelLists.OfClass | src/main/java/noduledata/imagej/NoduleData.java:224-242 | No longer than the input; holds exactly the input entries of that class. |
| PixelLists.ClassesPartition | src/main/java/noduledata/imagej/NoduleData.java:224-250 | The three lists together hold each input entry as often as the input does, and their lengths add up to its length. |
| Segmentation.NoduleData.SplitByColour | src/main/java/noduledata/imagej/NoduleData.java:224-267 | The three lists partition the nodule pixels, and each colour map paints exactly its list under its title (`MapsPainted`). |
| Segmentation.NoduleData.NodulePixels | src/main/java/noduledata/imagej/NoduleData.java:205-216 | The nodule pixels are the map's, merged with the red-only segmentation of the picked model file when the red lightness is below 82, and they are the zeros of the map left behind. Without that merge the map is the same array with the same contents. |
| Segmentation.NoduleData.GenerateSegmentedMap | src/main/java/noduledata/imagej/NoduleData.java:190-268 | The colour lists are the classes of the nodules of the dilated map (merged with the red-only segmentation when red is dark), or of the untouched map when it has no regions. Together they partition the zeros of the final map. Each colour map paints exactly its list under its suffixed title (`MapsPainted`). |
| Segmentation.GreenRoi | src/main/java/noduledata/imagej/NoduleData.java:357-385 | One flag per region, `GreenFlags`. |
| Segmentation.CountGreen | src/main/java/noduledata/imagej/NoduleData.java:362-375 | The inner loop counts the region's pixels above the parabola. |
| Segmentation.GreenFlags | src/main/java/noduledata/imagej/NoduleData.java:357-385 | One flag per region; a region of at most 50 pixels is never green. |
| Segmentation.LoosenFlags | src/main/java/noduledata/imagej/NoduleData.java:464-469 | One flag per region, raised only in the darkest green band. |
| Segmentation.NoduleData.SetLightness | src/main/java/noduledata/imagej/NoduleData.java:431-442 | The green band is `LightSection` of the green lightness. |
| Dilation.LightSectionOrdered | src/main/java/noduledata/imagej/NoduleData.java:431-442 | A lighter image never lands in a darker band; the bands are below 85, [85, 90), [90, 95) and from 95 on. |
| Dilation.LoosenedThreshold | src/main/java/noduledata/imagej/NoduleData.java:495-512 | Bands 0 to 3 give 70, 80, 90 and 100; any other value leaves the default. |
| Dilation.ThresholdsInUse | src/main/java/noduledata/imagej/NoduleData.java:493-568 | With the reset after every rectangle, a rectangle gets 70 when its flag is up and 80 otherwise. |
| Dilation.ScaledShape | src/main/java/noduledata/imagej/NoduleData.java:322-348 | Ten times as wide and high, moved left and up by `(9w)/2` and `(9h)/2` in integer arithmetic, clamped at 0. |
| Dilation.ScaledCovers | src/main/java/noduledata/imagej/NoduleData.java:322-348 | A box inside the image lies within its scaled box. |
| Dilation.GetScaledBounds | src/main/java/noduledata/imagej/NoduleData.java:322-348 | One scaled box per region, in order. |
| Dilation.VisitPixel | src/main/java/noduledata/imagej/NoduleData.java:522-555 | One pixel of the scan in place equals `DilatePixel`: nodule pixels skipped, a bright pixel next to a nodule pixel joins, else a colourful pixel joins and is counted. |
| Dilation.DilateInPlace | src/main/java/noduledata/imagej/NoduleData.java:516-558 | The scan of one rectangle on the array equals `DilateRect`, and the count is its added pixels. |
| Dilation.DilateRects | src/main/java/noduledata/imagej/NoduleData.java:486-570 | The array after all rectangles equals `DilateAll` with each rectangle's threshold. |
| Dilation.DilateAllGrows | src/main/java/noduledata/imagej/NoduleData.java:518-558 | The pass never clears a nodule pixel and writes nothing but 0. |
| Dilation.ScanRectWithin | src/main/java/noduledata/imagej/NoduleData.java:518-558 | The scan of a rectangle changes no pixel outside it. |
| Segmentation.NoduleData.ImproveSegmentation | src/main/java/noduledata/imagej/NoduleData.java:457-577 | Without regions nothing changes; otherwise the band is set from the lightness, and the new map is the dilation of the old over the scaled boxes with the loosened flags. |
| PixelLists.MergeSpec | src/main/java/noduledata/imagej/NoduleData.java:629-643 | The merged list is strictly ascending and holds exactly the elements of both inputs. |
| PixelLists.Sort | src/main/java/noduledata/imagej/NoduleData.java:638-639 | Strictly ascending, same length, same elements. |
| Common.DistinctSpec | src/main/java/noduledata/imagej/NoduleData.java:638 | `distinct()` keeps exactly the input's elements, each once. |
| PixelLists.AscendingUnique | src/main/java/noduledata/imagej/NoduleData.java:638-639 | A strictly ascending list is determined by its elements. |
| Segmentation.NoduleData.ImproveRedNoduleSegmentation | src/main/java/noduledata/imagej/NoduleData.java:587-645 | When the picked file is not a model (or none is picked) nothing changes; otherwise the result is the merge with the red-only nodule pixels of that model, and the map is rebuilt from it. |
| Segmentation.RedChooserFinding | src/main/java/noduledata/imagej/NoduleData.java:590-606 | As written, a red lightness below 82 always ends in a null dereference; with the dialog shown, only a ".model" file is loaded, and the result agrees with the written code whenever a file is selected. |
| Segmentation.NoRegionsFinding | src/main/java/noduledata/imagej/NoduleData.java:460-475 | As written, a map without regions ends in a null dereference; with regions the written and intended entries agree. |
| Segmentation.NoduleData.UpdateBinaryMap | src/main/java/noduledata/imagej/NoduleData.java:653-671 | A fresh map, `BinaryMap` of the list. |
| PixelLists.BinaryMapRoundTrip | src/main/java/noduledata/imagej/NoduleData.java:653-671 | Reading the nodule pixels back from a rebuilt map gives the list it was built from, for an ascending list inside the image. |
| Segmentation.NoduleData.CreateMap | src/main/java/noduledata/imagej/NoduleData.java:773-795 | A pixel is painted exactly when its index is listed (out-of-image indices are ignored), and the title carries the colour's suffix. |
| Segmentation.MapSuffixes | src/main/java/noduledata/imagej/NoduleData.java:786-794 | Red gets "_red", green "_green" and yellow "_mixed". |
| PlotLines.Line | src/main/java/noduledata/imagej/NoduleData.java:926-934 | Four coordinates, starting at x = 0 and ending at x = 255. |
| PlotLines.LineNearExact | src/main/java/noduledata/imagej/NoduleData.java:926-934 | Both drawn ends lie less than one unit from the exact line, on the side of zero. |
| PlotLines.DrawnLines | src/main/java/noduledata/imagej/NoduleData.java:854-867 | The top cut-off line is (0, 25)-(255, 280); the initial segmentation line is (0, 195)-(255, -207). |
| PlotLines.Parabola | src/main/java/noduledata/imagej/NoduleData.java:943-955 | 510 points, in equal pairs at x = 0, 1, ..., 254, each on the parabola. |
| UserEdits.DecodeColour | src/main/java/noduledata/imagej/UserEditsHandler.java:697-703 | Red exactly for (255, 0, ...), green exactly for (0, 255, ...), mixed otherwise. |
| UserEdits.DatasetColours | src/main/java/noduledata/imagej/UserEditsHandler.java:697-703 | The three dataset colours decode to their own kind. |
| UserEdits.MixedClump | src/main/java/noduledata/imagej/UserEditsHandler.java:651-682 | No rows without a linkage table; otherwise exactly the rows whose entry names the region, ascending. |
| MixedSpec.RowsLinkedTo | src/main/java/noduledata/imagej/UserEditsHandler.java:651-682 | Strictly ascending, holding exactly the rows whose entry is `index`. |
| UserEdits.AdjustMixedClumped | src/main/java/noduledata/imagej/UserEditsHandler.java:626-645 | Over the regions' rows, the column becomes `DecrementAbove`; later rows are untouched; with no mixed regions the table, present or missing, is unchanged. |
| UserEdits.RemoveLinkedMixed | src/main/java/noduledata/imagej/UserEditsHandler.java:448-454 | On a linked dataset the descending loop yields `Cascade` over all rows and keeps it linked; with no mixed regions nothing changes. |
| UserEdits.CascadeStep | src/main/java/noduledata/imagej/UserEditsHandler.java:450-454 | One turn of the descending loop: `Cascade` from row `ii` of the new state equals `Cascade` from row `ii + 1` of the old one, and the mixed dataset stays linked. |
| UserEdits.CascadeRemovesLinked | src/main/java/noduledata/imagej/UserEditsHandler.java:448-454 | With distinct regions, the loop removes exactly the linked rows, keeps the rest in order, and lowers the count by their number. |
| UserEdits.DeleteLeavesUnlinked | src/main/java/noduledata/imagej/UserEditsHandler.java:445-457 | After the loop, every remaining link is empty or names another colour region. |
| UserEdits.SurvivorsUnlinked | src/main/java/noduledata/imagej/UserEditsHandler.java:448-454 | No surviving row names the deleted region. |
| UserEdits.DeleteRegion | src/main/java/noduledata/imagej/UserEditsHandler.java:445-457 | The colour region leaves its dataset, the linked mixed regions go, and the column is renumbered (`Deleted`); with no mixed regions the mixed side is unchanged, linkage table or not; both datasets stay valid. |
| UserEdits.RemoveSourceRegion | src/main/java/noduledata/imagej/UserEditsHandler.java:446 | The colour region leaves its dataset as `removeRoi` says. |
| UserEdits.DeleteLinkedMixed | src/main/java/noduledata/imagej/UserEditsHandler.java:448-455 | The mixed dataset becomes `Deleted`: the rows linked to the region go and the column is renumbered, and nothing changes when there are no mixed regions. |
| UserEdits.Renumber | src/main/java/noduledata/imagej/UserEditsHandler.java:455 | On a linked dataset only the linkage column changes, to `DecrementAbove`; with no mixed regions nothing changes. |
| UserEdits.CorrectCount | src/main/java/noduledata/imagej/UserEditsHandler.java:924-930 | The clump takes the entered count, keeping its total area for a positive count and zeroing its area for 0; -1 leaves the clump as it was. The `areas` row records the returned value, and the count moves by returned minus old. A value below -1 changes nothing. |
| UserEdits.RecordCorrection | src/main/java/noduledata/imagej/UserEditsHandler.java:928-929 | Only row `index`'s nodule count changes, to `v`, and the count moves by `delta`. |
| UserEdits.CorrectClumpOf | src/main/java/noduledata/imagej/UserEditsHandler.java:926-927 | Only the corrected clump changes, and the dataset stays consistent. The clump's new value follows `correctClump`: the entered count with the total area kept (positive), a zero area (0), or unchanged (-1). |
| UserEdits.SumCountsUpdate | src/main/java/noduledata/imagej/UserEditsHandler.java:926-929 | Changing one row by new minus old changes the column sum by the same amount, as the count does. |
| UserEdits.ClaimRowsTotal | src/main/java/noduledata/imagej/UserEditsHandler.java:1221-1242 | The `areas` column loses exactly one nodule per claimed clump. |
| UserEdits.ExportedSpec | src/main/java/noduledata/imagej/UserEditsHandler.java:1221-1242 | The export keeps the dataset consistent and its regions, discounts each claimed clump by one, and lowers the `areas` total by their number. |
| UserEdits.DiscountMixed | src/main/java/noduledata/imagej/UserEditsHandler.java:1221-1230 | One colour's loop leaves `Exported`, and the total loses one per claimed clump. |
| UserEdits.DiscountClumps | src/main/java/noduledata/imagej/UserEditsHandler.java:1221-1230 | Each claimed clump and its `areas` row lose one nodule, and the result is the count less the claimed clumps. |
| UserEdits.DiscountStep | src/main/java/noduledata/imagej/UserEditsHandler.java:1222-1227 | One clump of the loop: the dataset moves from `PartlyExported(d, k)` to `PartlyExported(d, k + 1)`, and the result says whether the clump was claimed. |
| UserEdits.ExportCounts | src/main/java/noduledata/imagej/UserEditsHandler.java:1214-1252 | Red and green lose one per claimed clump, and all three totals are clamped at zero. |
| FileTypes.Extension | src/main/java/noduledata/imagej/Menu.java:189-211 | The text after the last dot, which contains no dot, or the whole name without one. |
| FileTypes.GetFileType | src/main/java/noduledata/imagej/Menu.java:189-211 | Always 1 to 4; FOLDER exactly for directories; IMAGE exactly for non-directories with an accepted extension and MODEL exactly for "model", both matched as Java's `equalsIgnoreCase` does against lower-case literals (ASCII case, plus dotless and dotted i, long s and the Kelvin sign). |
| FileTypes.TifIsNotAnImage | src/main/java/noduledata/imagej/Menu.java:189-211 | Any name whose extension equals "tif" ignoring case is of another type as a file and a folder as a directory. |
| FileTypes.TifExtension | src/main/java/noduledata/imagej/Menu.java:196-202 | An extension equal to "tif" ignoring case matches none of the six image extensions and not "model". |
| FileTypes.DotlessIIsAnImage | src/main/java/noduledata/imagej/Menu.java:196-199 | Java's case-insensitive match accepts ".gıf" (dotless i) as an image extension. |
| FileTypes.ModelExtensionAnyCase | src/main/java/noduledata/imagej/Menu.java:201-209 | ".MODEL" is a model file. |

## Left out

- ImageJ and Weka measurement (`measure`, `getRois`, `ResultsTable`, clustering, probability maps) is not modelled. The regions, table rows, red-only assignments and greyscale values it produces are parameters.
- Polygon geometry is not modelled. `Area` intersection and `ShapeRoi.or` are the functions of a `Geometry` value; `getPolygon` and `getContainedPoints` are a region's constant fields.
- Distances are compared squared over `real`, without `sqrt` or floating-point rounding. Doubles are `real` throughout. The model's one NaN is the empty average of `MeanArea`; the lightness averages of `averageLightness` (NoduleData.java:428-429), which divide by pixel counts that can be zero, are parameters measured outside the model, so their NaN case is not modelled.
- Java `int` overflow is not modelled, and neither is the saturation of `(int)` casts at the int range.
- Dialogs are not modelled. The user's answers are parameters: `replies` for `removeFakeNodules`, `answers` for `userInput`, `entered` for CORRECT. `Display`, `mouseClicked`'s dialog flow, `SingleNoduleClicked`, the REDRAW and REDRAWMIXED branches, `redrawClumped`, `redrawMixedFromClump`, `Menu.display` and `selectFiles` are left out.
- Rendering and file output are left out: `updateMap`, `showMap`, `drawRoi`, `Visualize` (except its lines), `showAnnotatedMap`, `combinedMap`, `imageWithoutNodules`, `saveTable`, `saveCombinedLabels`, and the CSV writing of `saveCSV`.
- `fillNoduleHoles`, `removeRoots`, `calculateAspectRatio` and `stDev` are not modelled. They rely on area intersection or floating-point diagnostics whose results the plugin does not use.
- NoduleSegmentation.java (plugin entry and folder iteration) is not part of this model.
- `NoduleData` keeps only the state its modelled steps use. Its three `ColorData` objects, the Weka instances and `sigAddition` (computed and never read) are left out.
- Regions are compared by identity. `ShapeRoi.equals`, which `getIndex`, the consideredRois filter and unionMixedNodules use, is modelled as identity, and a null entry in a region array is not modelled.
- A null dereference or out-of-bounds index that the source never guards against becomes a precondition, except the two under Findings, which are modelled as written and corrected. The named exceptions (`IllegalStateException`, and the index exception of `removeClump` and `removeArrayOfRois`) are outcomes.
- Channels.ColorData.GetData: the measurement must yield one table row per region, with regions distinct; the clump list and single list must not exist yet (the first call).
- Channels.ColorData.ConvertToBinary: requires a positive image width; Java would divide by zero.
- Mixed.MixedData.FindMixedNodules: requires the count to equal the number of regions, which is what `getData` leaves for the mixed data. A colour dataset needs a clump list only once it has a region: `getData` leaves a dataset with no region without one, and the scans over its empty list never read it.
- Mixed.MixedData.UpdateData: assumes one linkage row per region and at most as many rows as regions for the loop over `numNodules`.
- UserEdits.DeleteRegion: requires the colour dataset to be a different object from the mixed dataset.
- UserEdits.ExportCounts: requires the red and green datasets to share no clump objects.
- PixelLists.Sort: stated for lists without repeats, which is all `distinct()` leaves behind.
- Where the code may look unintended, the model follows it:
  - `updateAreas` records a clump's per-nodule `area` (cut to an integer) as the row's pixel area, not the clump's total area.
  - The merge loop of `findMixedNodules` stops when its counter reaches the shrinking count, so it can end before every close pair is merged.
  - `removeRoi` replaces `circularity` with a fresh all-zero array rather than dropping one entry.
  - `parabola` computes its abscissa as `ii / 2` in integer arithmetic, so the points come in equal pairs.

## Findings

| source | as written | input that shows it | evidently intended | confidence | as-written member | corrected member |
|---|---|---|---|---|---|---|
| src/main/java/noduledata/imagej/NoduleData.java:594-599 | The red-model chooser is created and titled but never opened, and the name of `getSelectedFile()` is read at once. | Any image whose average red lightness is below 82: the selection is null and line 599 dereferences it. | Open the dialog, then load the selection when it is a ".model" file and log the invalid choice otherwise. | high, not executed | Segmentation.SegmentedNodulesAsWritten | Segmentation.PickRedModel |
| src/main/java/noduledata/imagej/NoduleData.java:460-475 | `getRois` returns null for a map without nodules, and `averageLightness` iterates over that null before the null check on the scaled boxes, which can never fire. | A binary map with no nodule pixel. | Return early ("no ROi's found") and leave the map alone. | high, not executed | Segmentation.RegionsAsWritten | Segmentation.NoduleData.ImproveSegmentation |
