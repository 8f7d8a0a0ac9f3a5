/** Lists of pixel positions as `NoduleData` builds them: the positions a binary map marks
    as nodule, their split by colour class, the sorted union with a second segmentation and
    the binary map rebuilt from a list. A position is a row-major index into the image. */
module PixelLists {
  import opened Common
  import opened Regions
  import opened Palette

  /** The nodule pixels of a binary map: every position holding 0, in ascending order. */
  function ZeroPositions(assignments: seq<int>): (r: seq<int>)
    ensures StrictlyAscending(r)
    ensures forall p :: p in r <==> 0 <= p < |assignments| && assignments[p] == 0
  {
    if |assignments| == 0 then []
    else
      var n := |assignments| - 1;
      var rest := ZeroPositions(assignments[..n]);
      if assignments[n] == 0 then
        AppendAscending(rest, n);
        rest + [n]
      else rest
  }

  /** The scan of `generateSegmentedMap` that lists the nodule pixels of a binary map. */
  method NodulePixelIndices(assignments: seq<int>) returns (indices: seq<int>)
    ensures indices == ZeroPositions(assignments)
  {
    indices := [];
    var ii := 0;
    while ii < |assignments|
      invariant 0 <= ii <= |assignments|
      invariant indices == ZeroPositions(assignments[..ii])
    {
      assert assignments[..ii + 1][..ii] == assignments[..ii];
      if assignments[ii] == 0 {
        indices := indices + [ii];
      }
      ii := ii + 1;
    }
    assert assignments[..ii] == assignments;
  }

  /** The colour class of the pixel at position `loc`, decoded as `loc % width`, `loc / width`. */
  function ClassAt(img: Image, loc: int): PixelClass
    requires img.WellFormed() && img.width > 0
  {
    ClassOf(PixelAt(img, JavaRem(loc, img.width), JavaDiv(loc, img.width)))
  }

  /** The entries of `locs` whose pixel is in class `k`, in their input order. */
  function OfClass(img: Image, locs: seq<int>, k: PixelClass): (r: seq<int>)
    requires img.WellFormed() && img.width > 0
    ensures |r| <= |locs|
    ensures forall x :: x in r <==> x in locs && ClassAt(img, x) == k
  {
    if |locs| == 0 then []
    else
      var n := |locs| - 1;
      assert locs == locs[..n] + [locs[n]];
      var rest := OfClass(img, locs[..n], k);
      if ClassAt(img, locs[n]) == k then rest + [locs[n]] else rest
  }

  /** The classification loop of `generateSegmentedMap`: each nodule pixel goes to the green,
      red or mixed list by the tests of `ClassOf`, in that order. */
  method Classify(img: Image, locs: seq<int>) returns (green: seq<int>, red: seq<int>, mixed: seq<int>)
    requires img.WellFormed() && img.width > 0
    ensures green == OfClass(img, locs, GreenPixel)
    ensures red == OfClass(img, locs, RedPixel)
    ensures mixed == OfClass(img, locs, MixedPixel)
  {
    green, red, mixed := [], [], [];
    var ii := 0;
    while ii < |locs|
      invariant 0 <= ii <= |locs|
      invariant green == OfClass(img, locs[..ii], GreenPixel)
      invariant red == OfClass(img, locs[..ii], RedPixel)
      invariant mixed == OfClass(img, locs[..ii], MixedPixel)
    {
      assert locs[..ii + 1][..ii] == locs[..ii];
      var loc := locs[ii];
      var c := PixelAt(img, JavaRem(loc, img.width), JavaDiv(loc, img.width));
      if c.g as real > c.r as real * TOP_SLOPE + TOP_B || c.g as real > G_LINE {
        green := green + [loc];
      } else if c.g as real < (c.r * c.r) as real * BOTTOM_A + BOTTOM_B || c.r as real > R_LINE {
        red := red + [loc];
      } else {
        mixed := mixed + [loc];
      }
      ii := ii + 1;
    }
    assert locs[..ii] == locs;
  }

  /** The three colour lists partition the nodule pixels: together they hold each input entry
      exactly as often as the input does, so their lengths add up to the input's. */
  lemma {:induction false} ClassesPartition(img: Image, locs: seq<int>)
    requires img.WellFormed() && img.width > 0
    ensures multiset(OfClass(img, locs, GreenPixel)) + multiset(OfClass(img, locs, RedPixel)) +
            multiset(OfClass(img, locs, MixedPixel)) == multiset(locs)
    ensures |OfClass(img, locs, GreenPixel)| + |OfClass(img, locs, RedPixel)| +
            |OfClass(img, locs, MixedPixel)| == |locs|
  {
    if |locs| > 0 {
      var n := |locs| - 1;
      var last := locs[n];
      ClassesPartition(img, locs[..n]);
      assert locs == locs[..n] + [last];
      assert multiset(locs) == multiset(locs[..n]) + multiset{last};
      var g, r, m := OfClass(img, locs[..n], GreenPixel), OfClass(img, locs[..n], RedPixel),
                     OfClass(img, locs[..n], MixedPixel);
      match ClassAt(img, last) {
        case GreenPixel =>
          assert OfClass(img, locs, GreenPixel) == g + [last];
          assert OfClass(img, locs, RedPixel) == r && OfClass(img, locs, MixedPixel) == m;
        case RedPixel =>
          assert OfClass(img, locs, RedPixel) == r + [last];
          assert OfClass(img, locs, GreenPixel) == g && OfClass(img, locs, MixedPixel) == m;
        case MixedPixel =>
          assert OfClass(img, locs, MixedPixel) == m + [last];
          assert OfClass(img, locs, GreenPixel) == g && OfClass(img, locs, RedPixel) == r;
      }
    }
  }

  /** Putting a smaller element in front keeps a list strictly ascending. */
  lemma ConsAscending(h: int, u: seq<int>)
    requires StrictlyAscending(u)
    requires forall y :: y in u ==> h < y
    ensures StrictlyAscending([h] + u)
  {
    var r := [h] + u;
    forall a, b | 0 <= a < b < |r|
      ensures r[a] < r[b]
    {
      assert r[b] == u[b - 1] && u[b - 1] in u;
      if a > 0 {
        assert r[a] == u[a - 1];
      }
    }
  }

  /** Inserts `x` at its place in a strictly ascending list that lacks it. */
  function Insert(x: int, s: seq<int>): (r: seq<int>)
    requires StrictlyAscending(s) && x !in s
    ensures StrictlyAscending(r) && |r| == |s| + 1
    ensures forall y :: y in r <==> y in s || y == x
  {
    if |s| == 0 then [x]
    else if x < s[0] then
      assert forall y :: y in s ==> x < y by {
        forall y | y in s
          ensures x < y
        {
          var k :| 0 <= k < |s| && s[k] == y;
          assert s[0] <= s[k];
        }
      }
      ConsAscending(x, s);
      [x] + s
    else
      var t := s[1..];
      assert forall y :: y in s <==> y == s[0] || y in t by {
        assert s == [s[0]] + t;
      }
      assert forall y :: y in t ==> s[0] < y by {
        forall y | y in t
          ensures s[0] < y
        {
          var k :| 0 <= k < |t| && t[k] == y;
          assert s[k + 1] == y;
        }
      }
      var u := Insert(x, t);
      ConsAscending(s[0], u);
      [s[0]] + u
  }

  /** `Arrays.sort` on a list without repeats: the same elements, ascending. */
  function Sort(s: seq<int>): (r: seq<int>)
    requires NoDuplicates(s)
    ensures StrictlyAscending(r) && |r| == |s|
    ensures forall y :: y in r <==> y in s
  {
    if |s| == 0 then []
    else
      var n := |s| - 1;
      assert s == s[..n] + [s[n]];
      Insert(s[n], Sort(s[..n]))
  }

  /** The merge of `improveRedNoduleSegmentation`: both lists appended, repeats dropped with
      `distinct()`, then sorted. */
  function Merge(a: seq<int>, b: seq<int>): seq<int>
  {
    DistinctSpec(a + b);
    Sort(Distinct(a + b))
  }

  /** The merged list is strictly ascending and holds exactly the elements of both inputs. */
  lemma MergeSpec(a: seq<int>, b: seq<int>)
    ensures StrictlyAscending(Merge(a, b))
    ensures forall x :: x in Merge(a, b) <==> x in a || x in b
  {
    DistinctSpec(a + b);
  }

  /** Merging two lists of positions below `n` gives positions below `n`. */
  lemma MergeWithin(a: seq<int>, b: seq<int>, n: int)
    requires forall x :: x in a ==> 0 <= x < n
    requires forall x :: x in b ==> 0 <= x < n
    ensures forall x :: x in Merge(a, b) ==> 0 <= x < n
  {
    MergeSpec(a, b);
  }

  /** A strictly ascending list is determined by its elements. */
  lemma {:induction false} AscendingUnique(a: seq<int>, b: seq<int>)
    requires StrictlyAscending(a) && StrictlyAscending(b)
    requires forall x :: x in a <==> x in b
    ensures a == b
  {
    if |a| > 0 && |b| > 0 {
      assert a[0] == b[0] by {
        assert a[0] in a && b[0] in b;
        var i :| 0 <= i < |b| && b[i] == a[0];
        var j :| 0 <= j < |a| && a[j] == b[0];
        assert b[0] <= b[i] && a[0] <= a[j];
      }
      var a', b' := a[1..], b[1..];
      assert a == [a[0]] + a' && b == [b[0]] + b';
      forall x
        ensures x in a' <==> x in b'
      {
        assert x in a' <==> x in a && x != a[0];
        assert x in b' <==> x in b && x != b[0];
      }
      AscendingUnique(a', b');
    } else {
      HeadIsElement(a);
      HeadIsElement(b);
    }
  }

  lemma HeadIsElement(s: seq<int>)
    ensures |s| > 0 ==> s[0] in s
  {
  }

  /** The binary map `updateBinaryMap` builds over `n` pixels: 0 at each listed position,
      255 everywhere else. */
  function BinaryMap(n: nat, nodules: seq<int>): (m: seq<int>)
    ensures |m| == n
  {
    seq(n, p => if p in nodules then 0 else 255)
  }

  /** Reading the nodule pixels back from a rebuilt binary map gives the list it was built
      from, when that list is ascending and inside the image. */
  lemma BinaryMapRoundTrip(n: nat, nodules: seq<int>)
    requires StrictlyAscending(nodules)
    requires forall p :: p in nodules ==> 0 <= p < n
    ensures ZeroPositions(BinaryMap(n, nodules)) == nodules
  {
    var m := BinaryMap(n, nodules);
    forall p
      ensures p in ZeroPositions(m) <==> p in nodules
    {
      if 0 <= p < n {
        assert m[p] == 0 <==> p in nodules;
      }
    }
    AscendingUnique(ZeroPositions(m), nodules);
  }
}
