/** The detection pipeline: locate the red marker, check it is large enough, search its interior
    for non-red regions and report the largest one. */
module Detection {
  import opened Geometry
  import opened Pixels
  import opened FloodFill
  import opened RedRegion
  import opened InnerRegions

  /** The three ways detection can fail, in the order the pipeline checks them. */
  datatype DetectError =
    | NoRedRegion        // no red pixel at all
    | RedRegionTooSmall  // the red box is less than three pixels wide or high
    | NoInnerRegion      // no non-red pixel strictly inside the red box

  datatype Result<T> = Success(value: T) | Failure(error: DetectError)

  datatype Check = Pass | Fail(error: DetectError)

  datatype NestedRectangles = NestedRectangles(redBounds: Bounds, innerBounds: Bounds)

  /** The red box must be valid, and at least three pixels wide and high so that it has an interior. */
  function AssertValidRedBounds(b: Bounds): (r: Check)
    ensures r == Fail(NoRedRegion) <==> !IsRectangleBoundsValid(b)
    ensures r == Fail(RedRegionTooSmall) <==>
              IsRectangleBoundsValid(b) && (RectangleWidth(b) < 3 || RectangleHeight(b) < 3)
    ensures r.Pass? <==> RectangleWidth(b) >= 3 && RectangleHeight(b) >= 3
    ensures r.Pass? || r == Fail(NoRedRegion) || r == Fail(RedRegionTooSmall)
  {
    if !IsRectangleBoundsValid(b) then Fail(NoRedRegion)
    else if b.maxX - b.minX < 2 || b.maxY - b.minY < 2 then Fail(RedRegionTooSmall)
    else Pass
  }

  /** The interior of the red box: the box shrunk by one pixel on every side. */
  function CreateInnerSearchArea(b: Bounds): (a: SearchArea)
    requires b.Box?
    ensures forall p :: InArea(a, p) <==> b.minX < p.x < b.maxX && b.minY < p.y < b.maxY
  {
    SearchArea(b.minX + 1, b.maxX - 1, b.minY + 1, b.maxY - 1)
  }

  /** The interior of the located red box lies inside the image, and it is non-empty once the box
      has passed the size check. */
  lemma InnerAreaInImage(data: seq<byte>, width: nat, height: nat)
    requires RedBounds(data, width, height).Box?
    ensures var b := RedBounds(data, width, height);
            var a := CreateInnerSearchArea(b);
            AreaInImage(a, width, height) &&
            (AssertValidRedBounds(b).Pass? ==> a.minX <= a.maxX && a.minY <= a.maxY)
  {
    RedBoundsInImage(data, width, height);
  }

  /** The position of the first candidate with the largest pixel count. */
  function FirstLargestIndex(cs: seq<Bounds>): (i: nat)
    requires cs != []
    ensures i < |cs|
    ensures forall j :: 0 <= j < |cs| ==> PixelCount(cs[j]) <= PixelCount(cs[i])
    ensures forall j :: 0 <= j < i ==> PixelCount(cs[j]) < PixelCount(cs[i])
    decreases |cs|
  {
    if |cs| == 1 then 0
    else
      var best := FirstLargestIndex(cs[..|cs| - 1]);
      if PixelCount(cs[|cs| - 1]) > PixelCount(cs[best]) then |cs| - 1 else best
  }

  /** The candidate with the most pixels; on ties the one found first, as the stable sort of the
      source by decreasing pixel count leaves it first. */
  function SelectLargestCandidate(cs: seq<Bounds>): (r: Result<Bounds>)
    ensures r.Failure? <==> cs == []
    ensures r.Failure? ==> r.error == NoInnerRegion
    ensures r.Success? ==> r.value == cs[FirstLargestIndex(cs)]
  {
    if cs == [] then Failure(NoInnerRegion) else Success(cs[FirstLargestIndex(cs)])
  }

  /** `x` inserted into `s` after every element with at least its pixel count: one step of a
      stable sort by decreasing pixel count. */
  function InsertByCount(s: seq<Bounds>, x: Bounds): (r: seq<Bounds>)
    ensures multiset(r) == multiset(s) + multiset{x}
  {
    if s == [] then [x]
    else if PixelCount(s[0]) < PixelCount(x) then [x] + s
    else
      var r := [s[0]] + InsertByCount(s[1..], x);
      assert s == [s[0]] + s[1..];
      r
  }

  /** Stable sort by decreasing pixel count, the order the source's comparator requests. */
  function SortByCount(cs: seq<Bounds>): (r: seq<Bounds>)
    ensures multiset(r) == multiset(cs)
    decreases |cs|
  {
    if cs == [] then []
    else
      var r := InsertByCount(SortByCount(cs[..|cs| - 1]), cs[|cs| - 1]);
      assert cs == cs[..|cs| - 1] + [cs[|cs| - 1]];
      r
  }

  predicate DescendingByCount(s: seq<Bounds>)
  {
    forall i, j :: 0 <= i < j < |s| ==> PixelCount(s[i]) >= PixelCount(s[j])
  }

  lemma {:induction false} InsertByCountSorted(s: seq<Bounds>, x: Bounds)
    requires DescendingByCount(s)
    ensures DescendingByCount(InsertByCount(s, x))
  {
    if s != [] && PixelCount(s[0]) >= PixelCount(x) {
      InsertByCountSorted(s[1..], x);
      var t := InsertByCount(s[1..], x);
      assert multiset(t) == multiset(s[1..]) + multiset{x};
      forall k | 0 <= k < |t|
        ensures PixelCount(s[0]) >= PixelCount(t[k])
      {
        assert t[k] in multiset(t);
        if t[k] != x {
          assert t[k] in multiset(s[1..]);
          var m :| 0 <= m < |s[1..]| && s[1..][m] == t[k];
          assert s[1 + m] == t[k];
        }
      }
    }
  }

  lemma {:induction false} SortByCountSorted(cs: seq<Bounds>)
    ensures DescendingByCount(SortByCount(cs))
    decreases |cs|
  {
    if cs != [] {
      SortByCountSorted(cs[..|cs| - 1]);
      InsertByCountSorted(SortByCount(cs[..|cs| - 1]), cs[|cs| - 1]);
    }
  }

  /** The head after inserting `x`: `x` itself exactly when it beats the previous head. */
  lemma InsertByCountHead(s: seq<Bounds>, x: Bounds)
    ensures InsertByCount(s, x)[0] == if s == [] || PixelCount(s[0]) < PixelCount(x) then x else s[0]
  {
  }

  /** The first element after the stable sort is the first candidate with the largest count. */
  lemma {:induction false} SortByCountHead(cs: seq<Bounds>)
    requires cs != []
    ensures SortByCount(cs)[0] == cs[FirstLargestIndex(cs)]
    decreases |cs|
  {
    var init := cs[..|cs| - 1];
    InsertByCountHead(SortByCount(init), cs[|cs| - 1]);
    if |cs| > 1 {
      SortByCountHead(init);
    }
  }

  /** The search area holds no pixel a fill could start from. */
  ghost predicate NoFillablePixel(data: seq<byte>, width: nat, a: SearchArea)
  {
    forall x, y :: !Fillable(data, width, a, Point(x, y))
  }

  /** No candidate is collected exactly when the search area holds no fillable pixel. */
  lemma CandidatesEmpty(data: seq<byte>, width: nat, height: nat, a: SearchArea, candidates: seq<Bounds>,
                        regions: seq<seq<nat>>)
    requires AreaInImage(a, width, height)
    requires CandidatesOf(width, a, candidates, regions)
    requires ComponentPartition(data, width, a, regions, width * height)
    ensures candidates == [] <==> NoFillablePixel(data, width, a)
  {
    if candidates == [] {
      forall x, y
        ensures !Fillable(data, width, a, Point(x, y))
      {
        if Fillable(data, width, a, Point(x, y)) {
          IdxInImage(width, height, x, y);
        }
      }
    } else {
      assert RegionShape(data, width, a, regions[0], width * height);
      var p := PointOf(width, regions[0][0]);
      assert Fillable(data, width, a, Point(p.x, p.y));
    }
  }

  /** Region `k` has the most pixels of all the regions. */
  ghost predicate LargestRegionSize(regions: seq<seq<nat>>, k: nat)
  {
    k < |regions| && forall j :: 0 <= j < |regions| ==> |regions[j]| <= |regions[k]|
  }

  /** Among the regions, candidate `k` has the most pixels, and every earlier one has fewer. */
  ghost predicate LargestRegion(regions: seq<seq<nat>>, k: nat)
  {
    LargestRegionSize(regions, k) && forall j :: 0 <= j < k ==> |regions[j]| < |regions[k]|
  }

  /** Region `k` holds the earliest pixel, in row-major (flat index) order, of all the regions
      with as many pixels as it has. */
  ghost predicate FirstInScanAmongLargest(regions: seq<seq<nat>>, k: nat)
    requires k < |regions| && regions[k] != []
  {
    forall j, m :: 0 <= j < |regions| && |regions[j]| == |regions[k]| && 0 <= m < |regions[j]| ==>
      regions[k][0] <= regions[j][m]
  }

  /** With the regions in scan order, the first largest one is the largest region the scan meets
      first: its starting pixel precedes every pixel of every other region of the same size. */
  lemma FirstLargestFirstInScan(regions: seq<seq<nat>>, k: nat)
    requires ScanOrdered(regions) && LargestRegion(regions, k)
    ensures FirstInScanAmongLargest(regions, k)
  {
  }

  /** A largest region holding the earliest pixel among the largest ones is unique: two disjoint
      regions cannot both start before each other. */
  lemma LargestFirstInScanUnique(regions: seq<seq<nat>>, k1: nat, k2: nat)
    requires Disjoint(regions)
    requires LargestRegionSize(regions, k1) && LargestRegionSize(regions, k2)
    requires regions[k1] != [] && regions[k2] != []
    requires FirstInScanAmongLargest(regions, k1) && FirstInScanAmongLargest(regions, k2)
    ensures k1 == k2
  {
    assert regions[k1][0] <= regions[k2][0] && regions[k2][0] <= regions[k1][0];
    assert regions[k1][0] == regions[k2][0];
  }

  /** The selected candidate is the bounding box of a largest region, the first such one. */
  lemma SelectedIsLargest(width: nat, a: SearchArea, candidates: seq<Bounds>, regions: seq<seq<nat>>)
    requires CandidatesOf(width, a, candidates, regions) && candidates != []
    ensures LargestRegion(regions, FirstLargestIndex(candidates))
  {
  }

  /** What the pipeline reports for a decoded image, given the regions its scan found: every
      error exactly when its condition holds; on success the red box of the whole image and the
      bounding box of a largest 4-connected non-red region of its interior (on ties the one the
      row-major scan meets first), strictly inside it. */
  ghost predicate DetectOutcome(data: seq<byte>, width: nat, height: nat, r: Result<NestedRectangles>,
                                regions: seq<seq<nat>>)
  {
    var red := RedBounds(data, width, height);
    (r == Failure(NoRedRegion) <==> NoRedPixel(data, width, height)) &&
    (r == Failure(RedRegionTooSmall) <==> red.Box? && (RectangleWidth(red) < 3 || RectangleHeight(red) < 3)) &&
    (r == Failure(NoInnerRegion) <==>
       AssertValidRedBounds(red).Pass? && NoFillablePixel(data, width, CreateInnerSearchArea(red))) &&
    (r.Success? ==> r.value.redBounds == red && Found(data, width, height, red, regions, r.value.innerBounds))
  }

  /** `inner`, the reported inner box, is the bounding box of a largest region of a component
      partition of the interior of `red`, listed in scan order; among regions of equal size it is
      the one whose first pixel the row-major scan meets first. The box is strictly inside `red`. */
  ghost predicate Found(data: seq<byte>, width: nat, height: nat, red: Bounds, regions: seq<seq<nat>>, inner: Bounds)
  {
    AssertValidRedBounds(red).Pass? &&
    ComponentPartition(data, width, CreateInnerSearchArea(red), regions, width * height) &&
    ScanOrdered(regions) &&
    (exists k: nat :: LargestRegionSize(regions, k) && regions[k] != [] && FirstInScanAmongLargest(regions, k) &&
       inner == BoundsOf(Points(width, regions[k]))) &&
    StrictlyInside(inner, red) && IsRectangleBoundsValid(inner) &&
    0 < RectangleWidth(inner) <= RectangleWidth(red) - 2 &&
    0 < RectangleHeight(inner) <= RectangleHeight(red) - 2
  }

  /** A red box that fails its check is reported with the error of the check. */
  lemma RedCheckFails(data: seq<byte>, width: nat, height: nat)
    requires AssertValidRedBounds(RedBounds(data, width, height)).Fail?
    ensures DetectOutcome(data, width, height, Failure(AssertValidRedBounds(RedBounds(data, width, height)).error), [])
  {
    RedBoundsEmpty(data, width, height);
  }

  /** A red box whose interior is entirely red is reported as having no inner region. */
  lemma InteriorEmpty(data: seq<byte>, width: nat, height: nat, regions: seq<seq<nat>>)
    requires AssertValidRedBounds(RedBounds(data, width, height)).Pass?
    requires NoFillablePixel(data, width, CreateInnerSearchArea(RedBounds(data, width, height)))
    ensures DetectOutcome(data, width, height, Failure(NoInnerRegion), regions)
  {
    RedBoundsEmpty(data, width, height);
  }

  /** The selected candidate is the bounding box of a largest region of the interior of `red`,
      strictly inside `red` and at least two pixels narrower and lower. */
  lemma SelectedInside(width: nat, red: Bounds, candidates: seq<Bounds>, regions: seq<seq<nat>>)
    requires red.Box? && IsRectangleBoundsValid(red)
    requires CandidatesOf(width, CreateInnerSearchArea(red), candidates, regions) && candidates != []
    ensures var k := FirstLargestIndex(candidates);
            var inner := candidates[k];
            LargestRegion(regions, k) && inner == BoundsOf(Points(width, regions[k])) &&
            StrictlyInside(inner, red) && IsRectangleBoundsValid(inner) &&
            0 < RectangleWidth(inner) <= RectangleWidth(red) - 2 &&
            0 < RectangleHeight(inner) <= RectangleHeight(red) - 2
  {
  }

  /** A largest region of the interior is reported as found. */
  lemma InteriorFound(data: seq<byte>, width: nat, height: nat, regions: seq<seq<nat>>, k: nat, inner: Bounds)
    requires AssertValidRedBounds(RedBounds(data, width, height)).Pass?
    requires var a := CreateInnerSearchArea(RedBounds(data, width, height));
             !NoFillablePixel(data, width, a) && ComponentPartition(data, width, a, regions, width * height)
    requires ScanOrdered(regions) && LargestRegion(regions, k) && inner == BoundsOf(Points(width, regions[k]))
    requires StrictlyInside(inner, RedBounds(data, width, height)) && IsRectangleBoundsValid(inner)
    requires 0 < RectangleWidth(inner) <= RectangleWidth(RedBounds(data, width, height)) - 2
    requires 0 < RectangleHeight(inner) <= RectangleHeight(RedBounds(data, width, height)) - 2
    ensures DetectOutcome(data, width, height, Success(NestedRectangles(RedBounds(data, width, height), inner)), regions)
  {
    RedBoundsEmpty(data, width, height);
    FirstLargestFirstInScan(regions, k);
  }

  /** The whole pipeline on a decoded image: the red box of the whole image, its size check, the
      components of its interior, and the largest of them. */
  method DetectNestedRectangles(width: nat, height: nat, data: seq<byte>)
    returns (r: Result<NestedRectangles>, ghost regions: seq<seq<nat>>)
    ensures DetectOutcome(data, width, height, r, regions)
  {
    regions := [];
    var redBounds := FindRedRectangleBounds(data, width, height);
    var check := AssertValidRedBounds(redBounds);
    if check.Fail? {
      RedCheckFails(data, width, height);
      return Failure(check.error), regions;
    }
    var searchArea := CreateInnerSearchArea(redBounds);
    InnerAreaInImage(data, width, height);
    var candidates;
    candidates, regions := CollectInnerCandidates(data, width, height, searchArea);
    CandidatesEmpty(data, width, height, searchArea, candidates, regions);
    var selected := SelectLargestCandidate(candidates);
    if selected.Failure? {
      InteriorEmpty(data, width, height, regions);
      return Failure(selected.error), regions;
    }
    SelectedInside(width, redBounds, candidates, regions);
    InteriorFound(data, width, height, regions, FirstLargestIndex(candidates), selected.value);
    r := Success(NestedRectangles(redBounds, selected.value));
  }
}
