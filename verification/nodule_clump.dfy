/** A region believed to hold several nodules (`NoduleClump`): its estimated count and
    per-nodule area, and the correction of that count by the person reviewing the result. */
module Clumps {
  import opened Common
  import opened Regions

  /** The fields of a clump as a value, for stating what operations do to them. */
  datatype ClumpVal = ClumpVal(index: int, roi: Region?, area: real, numNodules: int, hasMixed: bool)
  {
    /** The clump's total area: its count times the area of one nodule. */
    function TotalArea(): real
    {
      numNodules as real * area
    }
  }

  class NoduleClump {
    /** Position of the backing region in its dataset's region list. */
    var index: int
    var roi: Region?
    /** Area of one nodule of the clump, in pixels. */
    var area: real
    var numNodules: int
    /** Set once a mixed region has absorbed this clump. */
    var hasMixed: bool

    function Val(): ClumpVal
      reads this
    {
      ClumpVal(index, roi, area, numNodules, hasMixed)
    }

    /** The placeholder clump: every number is -1 and there is no region. */
    constructor Empty()
      ensures Val() == ClumpVal(-1, null, -1.0, -1, false)
    {
      index := -1;
      roi := null;
      area := -1.0;
      numNodules := -1;
      hasMixed := false;
    }

    /** A clump with the given fields, not yet claimed by a mixed region. */
    constructor (index: int, roi: Region?, area: real, numNodules: int)
      ensures Val() == ClumpVal(index, roi, area, numNodules, false)
    {
      this.index := index;
      this.roi := roi;
      this.area := area;
      this.numNodules := numNodules;
      this.hasMixed := false;
    }

    /** Applies the count `newNumNodules` entered by the user. 0 empties the clump,
        -1 means "no change", a positive count redistributes the clump's total area
        over that many nodules, and anything else is rejected. */
    method CorrectClump(newNumNodules: int) returns (r: Result<int>)
      modifies this
      ensures index == old(index) && roi == old(roi) && hasMixed == old(hasMixed)
      ensures newNumNodules == 0 ==> r == Ok(-1) && numNodules == 0 && area == 0.0
      ensures newNumNodules == -1 ==> r == Ok(-1) && Val() == old(Val())
      ensures newNumNodules > 0 ==>
        && r == Ok(newNumNodules)
        && numNodules == newNumNodules
        && numNodules as real * area == old(numNodules as real * area)
      ensures newNumNodules < -1 ==> r == IllegalState && Val() == old(Val())
    {
      if newNumNodules == 0 {
        numNodules := 0;
        area := 0.0;
        return Ok(-1);
      }
      if newNumNodules == -2 {
        return IllegalState;
      } else if newNumNodules == -1 {
        return Ok(-1);
      } else if newNumNodules > 0 {
        var totalArea := numNodules as real * area;
        numNodules := newNumNodules;
        area := totalArea / numNodules as real;
      } else {
        return IllegalState;
      }
      return Ok(newNumNodules);
    }
  }

  /** The user's retry loop: each entry is one answer to the dialog, and the first
      positive answer is the count. `Null` means the answers ran out, where the dialog
      would keep asking. */
  method UserInput(answers: seq<int>) returns (n: Opt<int>)
    ensures n.Some? ==> n.value > 0 && n.value in answers
    ensures n.Some? ==> exists k :: 0 <= k < |answers| && answers[k] == n.value &&
                                   forall j :: 0 <= j < k ==> answers[j] <= 0
    ensures n.Null? <==> forall j :: 0 <= j < |answers| ==> answers[j] <= 0
  {
    var k := 0;
    while k < |answers|
      invariant 0 <= k <= |answers|
      invariant forall j :: 0 <= j < k ==> answers[j] <= 0
    {
      if answers[k] > 0 {
        return Some(answers[k]);
      }
      k := k + 1;
    }
    return Null;
  }
}
