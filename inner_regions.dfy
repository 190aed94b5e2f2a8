/** The candidate collector: a row-major scan of the search area that starts one flood fill at
    every fillable pixel no earlier fill has reached, sharing one visited array among all fills. */
module InnerRegions {
  import opened Geometry
  import opened Pixels
  import opened FloodFill

  /** Region `r` as one traversal lists it: non-empty, distinct fillable pixels of a `size`-pixel
      image, each after the first adjacent to an earlier one (so all of them are 4-connected to
      the first). */
  ghost predicate RegionShape(data: seq<byte>, width: nat, a: SearchArea, r: seq<nat>, size: nat)
  {
    |r| >= 1 &&
    (forall j :: 0 <= j < |r| ==> r[j] < size && Fillable(data, width, a, PointOf(width, r[j]))) &&
    Distinct(r) &&
    (forall j :: 1 <= j < |r| ==>
       exists i :: 0 <= i < j && Adjacent(PointOf(width, r[i]), PointOf(width, r[j])))
  }

  /** Pixel `n`, when fillable, belongs to region `r`. */
  predicate NeighborIn(data: seq<byte>, width: nat, a: SearchArea, r: seq<nat>, n: Point)
  {
    Fillable(data, width, a, n) ==> Idx(width, n.x, n.y) in r
  }

  /** Every fillable 4-neighbour of pixel index `c` belongs to region `r`. */
  predicate NeighborsIn(data: seq<byte>, width: nat, a: SearchArea, r: seq<nat>, c: nat)
  {
    var ns := Neighbors(PointOf(width, c));
    NeighborIn(data, width, a, r, ns[0]) && NeighborIn(data, width, a, r, ns[1]) &&
    NeighborIn(data, width, a, r, ns[2]) && NeighborIn(data, width, a, r, ns[3])
  }

  /** The regions are the 4-connected components of the fillable pixels of the search area:
      each is a connected region closed under fillable neighbours, no pixel lies in two of them,
      and every fillable pixel lies in one of them. */
  ghost predicate ComponentPartition(data: seq<byte>, width: nat, a: SearchArea, regions: seq<seq<nat>>, size: nat)
  {
    (forall k :: 0 <= k < |regions| ==> RegionShape(data, width, a, regions[k], size)) &&
    (forall k, j :: 0 <= k < |regions| && 0 <= j < |regions[k]| ==>
       NeighborsIn(data, width, a, regions[k], regions[k][j])) &&
    Disjoint(regions) &&
    (forall i :: 0 <= i < size && Fillable(data, width, a, PointOf(width, i)) ==>
       exists k :: 0 <= k < |regions| && i in regions[k])
  }

  /** Candidate `k` is the bounding box of region `k`: valid, inside the search area, and counting
      the pixels of the region. */
  ghost predicate CandidatesOf(width: nat, a: SearchArea, candidates: seq<Bounds>, regions: seq<seq<nat>>)
  {
    |candidates| == |regions| &&
    forall k :: 0 <= k < |regions| ==>
      candidates[k] == BoundsOf(Points(width, regions[k])) &&
      IsRectangleBoundsValid(candidates[k]) && PixelCount(candidates[k]) == |regions[k]| &&
      Encloses(AreaBox(a), candidates[k])
  }

  /** Pixel `n`, when fillable, has an owner equal to `o`. */
  predicate NeighborOwned(data: seq<byte>, width: nat, a: SearchArea, owner: seq<int>, n: Point, o: int)
  {
    Fillable(data, width, a, n) ==> 0 <= Idx(width, n.x, n.y) < |owner| && owner[Idx(width, n.x, n.y)] == o
  }

  /** Every fillable 4-neighbour of pixel index `c` has the owner of `c`. */
  predicate NeighborsOwned(data: seq<byte>, width: nat, a: SearchArea, owner: seq<int>, c: nat)
    requires c < |owner|
  {
    var ns := Neighbors(PointOf(width, c));
    NeighborOwned(data, width, a, owner, ns[0], owner[c]) && NeighborOwned(data, width, a, owner, ns[1], owner[c]) &&
    NeighborOwned(data, width, a, owner, ns[2], owner[c]) && NeighborOwned(data, width, a, owner, ns[3], owner[c])
  }

  /** The scan state: `owner[i]` is the number of the region holding pixel `i`, or negative while
      `i` is unmarked; each marked pixel lies in its owner's region and shares its owner with its
      fillable neighbours. */
  ghost predicate Partition(data: seq<byte>, width: nat, a: SearchArea, v: seq<bool>, regions: seq<seq<nat>>,
                            owner: seq<int>)
  {
    |owner| == |v| &&
    (forall i :: 0 <= i < |v| ==>
       owner[i] < |regions| && (v[i] <==> 0 <= owner[i]) &&
       (v[i] ==> i in regions[owner[i]] && NeighborsOwned(data, width, a, owner, i))) &&
    (forall k, j :: 0 <= k < |regions| && 0 <= j < |regions[k]| ==>
       regions[k][j] < |v| && owner[regions[k][j]] == k) &&
    (forall k :: 0 <= k < |regions| ==> RegionShape(data, width, a, regions[k], |v|))
  }

  /** Every fillable pixel of the search area before (x, y) in row-major order is marked. */
  ghost predicate ScannedMarked(data: seq<byte>, width: nat, a: SearchArea, v: seq<bool>, y: int, x: int)
  {
    forall px, py :: a.minX <= px <= a.maxX && a.minY <= py && (py < y || (py == y && px < x)) ==>
      MarkedIfFillable(data, width, a, v, Point(px, py))
  }

  /** `v'` marks at least what `v` marks. */
  ghost predicate Grows(v: seq<bool>, v': seq<bool>)
  {
    |v| == |v'| && forall i :: 0 <= i < |v| && v[i] ==> v'[i]
  }

  lemma ScannedGrows(data: seq<byte>, width: nat, a: SearchArea, v: seq<bool>, v': seq<bool>, y: int, x: int)
    requires ScannedMarked(data, width, a, v, y, x) && Grows(v, v')
    requires MarkedIfFillable(data, width, a, v', Point(x, y))
    ensures ScannedMarked(data, width, a, v', y, x + 1)
  {
  }

  lemma ScannedNextRow(data: seq<byte>, width: nat, a: SearchArea, v: seq<bool>, y: int, x: int)
    requires ScannedMarked(data, width, a, v, y, x) && x > a.maxX
    ensures ScannedMarked(data, width, a, v, y + 1, a.minX)
  {
  }

  /** The neighbour on the opposite side: stepping to neighbour `j` of `p` and back. */
  function Opposite(j: nat): nat
    requires j < 4
  {
    [1, 0, 3, 2][j]
  }

  lemma NeighborBack(p: Point, j: nat)
    requires j < 4
    ensures Neighbors(Neighbors(p)[j])[Opposite(j)] == p
  {
  }

  /** The scan starts from nothing. */
  lemma PartitionInit(data: seq<byte>, width: nat, a: SearchArea, v: seq<bool>, owner: seq<int>)
    requires |owner| == |v|
    requires forall i :: 0 <= i < |v| ==> !v[i] && owner[i] == -1
    ensures Partition(data, width, a, v, [], owner)
  {
  }

  /** The owners after region number |regions| has been filled: its pixels get that number. */
  function AddOwner(owner: seq<int>, region: seq<nat>, k: int): (o: seq<int>)
    ensures |o| == |owner|
    ensures forall i :: 0 <= i < |owner| ==> o[i] == if i in region then k else owner[i]
  {
    seq(|owner|, i requires 0 <= i < |owner| => if i in region then k else owner[i])
  }

  /** The pixels of a fill started at an unmarked pixel were all unmarked before it. */
  lemma FillWasFresh(data: seq<byte>, width: nat, a: SearchArea, start: nat, vPre: seq<bool>, vA: seq<bool>,
                     region: seq<nat>, bounds: Bounds)
    requires start < |vPre| && !vPre[start]
    requires FillOutcome(data, width, a, start, vPre[start := true], vA, region, bounds)
    ensures forall i :: 0 <= i < |vPre| && i in region ==> !vPre[i]
    ensures forall i :: 0 <= i < |vPre| ==> vA[i] == (vPre[i] || i in region)
  {
  }

  /** A new region: its pixels were unowned and get the new number, the others keep theirs. */
  lemma AddRegionOwners(data: seq<byte>, width: nat, a: SearchArea, vPre: seq<bool>, vA: seq<bool>,
                        regions: seq<seq<nat>>, owner: seq<int>, region: seq<nat>)
    requires Partition(data, width, a, vPre, regions, owner)
    requires forall i :: 0 <= i < |vPre| && i in region ==> !vPre[i]
    requires |vA| == |vPre| && forall i :: 0 <= i < |vPre| ==> vA[i] == (vPre[i] || i in region)
    requires RegionShape(data, width, a, region, |vPre|)
    ensures var regions', owner' := regions + [region], AddOwner(owner, region, |regions|);
            |owner'| == |vA| &&
            (forall i :: 0 <= i < |vA| ==>
               owner'[i] < |regions'| && (vA[i] <==> 0 <= owner'[i]) && (vA[i] ==> i in regions'[owner'[i]])) &&
            (forall k, j :: 0 <= k < |regions'| && 0 <= j < |regions'[k]| ==>
               regions'[k][j] < |vA| && owner'[regions'[k][j]] == k) &&
            (forall k :: 0 <= k < |regions'| ==> RegionShape(data, width, a, regions'[k], |vA|))
  {
  }

  /** A marked pixel of an earlier region keeps its neighbours' owners: none of them is in the new region. */
  lemma OldNeighborsOwned(data: seq<byte>, width: nat, a: SearchArea, vPre: seq<bool>, regions: seq<seq<nat>>,
                          owner: seq<int>, region: seq<nat>, i: nat)
    requires Partition(data, width, a, vPre, regions, owner)
    requires forall i :: 0 <= i < |vPre| && i in region ==> !vPre[i]
    requires i < |vPre| && vPre[i]
    ensures NeighborsOwned(data, width, a, AddOwner(owner, region, |regions|), i)
  {
    var owner' := AddOwner(owner, region, |regions|);
    var ns := Neighbors(PointOf(width, i));
    assert NeighborsOwned(data, width, a, owner, i);
    assert i !in region;
    forall j | 0 <= j < 4
      ensures NeighborOwned(data, width, a, owner', ns[j], owner'[i])
    {
      assert NeighborOwned(data, width, a, owner, ns[j], owner[i]);
    }
  }

  /** A fillable neighbour of a pixel of the new region is in the new region: had an earlier region
      held it, that region's closure would have claimed the pixel as well. */
  lemma NewNeighborOwned(data: seq<byte>, width: nat, height: nat, a: SearchArea, vPre: seq<bool>, vA: seq<bool>,
                         regions: seq<seq<nat>>, owner: seq<int>, region: seq<nat>, i: nat, j: nat)
    requires |vPre| == width * height && AreaInImage(a, width, height)
    requires Partition(data, width, a, vPre, regions, owner)
    requires forall i :: 0 <= i < |vPre| && i in region ==> !vPre[i]
    requires |vA| == |vPre| && forall i :: 0 <= i < |vPre| ==> vA[i] == (vPre[i] || i in region)
    requires i < |vPre| && i in region && Fillable(data, width, a, PointOf(width, i))
    requires NeighborsMarked(data, width, a, vA, i) && j < 4
    ensures NeighborOwned(data, width, a, AddOwner(owner, region, |regions|), Neighbors(PointOf(width, i))[j],
                          |regions|)
  {
    var owner' := AddOwner(owner, region, |regions|);
    var p := PointOf(width, i);
    var n := Neighbors(p)[j];
    if Fillable(data, width, a, n) {
      IdxInImage(width, height, n.x, n.y);
      PointOfInImage(width, height, i);
      NeighborBack(p, j);
      assert MarkedIfFillable(data, width, a, vA, n);
    }
  }

  lemma NewNeighborsOwned(data: seq<byte>, width: nat, height: nat, a: SearchArea, vPre: seq<bool>, vA: seq<bool>,
                          regions: seq<seq<nat>>, owner: seq<int>, region: seq<nat>, i: nat)
    requires |vPre| == width * height && AreaInImage(a, width, height)
    requires Partition(data, width, a, vPre, regions, owner)
    requires forall i :: 0 <= i < |vPre| && i in region ==> !vPre[i]
    requires |vA| == |vPre| && forall i :: 0 <= i < |vPre| ==> vA[i] == (vPre[i] || i in region)
    requires i < |vPre| && i in region && Fillable(data, width, a, PointOf(width, i))
    requires NeighborsMarked(data, width, a, vA, i)
    ensures NeighborsOwned(data, width, a, AddOwner(owner, region, |regions|), i)
  {
    NewNeighborOwned(data, width, height, a, vPre, vA, regions, owner, region, i, 0);
    NewNeighborOwned(data, width, height, a, vPre, vA, regions, owner, region, i, 1);
    NewNeighborOwned(data, width, height, a, vPre, vA, regions, owner, region, i, 2);
    NewNeighborOwned(data, width, height, a, vPre, vA, regions, owner, region, i, 3);
  }

  /** Adding the region of a fill started at an unmarked fillable pixel keeps the scan state. */
  lemma AddRegion(data: seq<byte>, width: nat, height: nat, a: SearchArea, start: nat, vPre: seq<bool>,
                  vA: seq<bool>, regions: seq<seq<nat>>, owner: seq<int>, region: seq<nat>, bounds: Bounds)
    requires |vPre| == width * height && AreaInImage(a, width, height)
    requires Partition(data, width, a, vPre, regions, owner)
    requires start < |vPre| && !vPre[start]
    requires FillOutcome(data, width, a, start, vPre[start := true], vA, region, bounds)
    ensures Partition(data, width, a, vA, regions + [region], AddOwner(owner, region, |regions|))
    ensures Grows(vPre, vA)
  {
    FillWasFresh(data, width, a, start, vPre, vA, region, bounds);
    AddRegionOwners(data, width, a, vPre, vA, regions, owner, region);
    var owner' := AddOwner(owner, region, |regions|);
    forall i | 0 <= i < |vA| && vA[i]
      ensures NeighborsOwned(data, width, a, owner', i)
    {
      if vPre[i] {
        OldNeighborsOwned(data, width, a, vPre, regions, owner, region, i);
      } else {
        var k :| 0 <= k < |region| && region[k] == i;
        NewNeighborsOwned(data, width, height, a, vPre, vA, regions, owner, region, i);
      }
    }
  }

  lemma PartitionClosed(data: seq<byte>, width: nat, a: SearchArea, v: seq<bool>, regions: seq<seq<nat>>,
                        owner: seq<int>, k: nat, j: nat)
    requires Partition(data, width, a, v, regions, owner)
    requires k < |regions| && j < |regions[k]|
    ensures NeighborsIn(data, width, a, regions[k], regions[k][j])
  {
  }

  lemma PartitionCovers(data: seq<byte>, width: nat, height: nat, a: SearchArea, v: seq<bool>,
                        regions: seq<seq<nat>>, owner: seq<int>, y: int)
    requires Partition(data, width, a, v, regions, owner)
    requires ScannedMarked(data, width, a, v, y, a.minX) && y > a.maxY
    requires |v| == width * height
    ensures forall i :: 0 <= i < |v| && Fillable(data, width, a, PointOf(width, i)) ==>
              exists k :: 0 <= k < |regions| && i in regions[k]
  {
    forall i | 0 <= i < |v| && Fillable(data, width, a, PointOf(width, i))
      ensures exists k :: 0 <= k < |regions| && i in regions[k]
    {
      var p := PointOf(width, i);
      PointOfInImage(width, height, i);
      assert MarkedIfFillable(data, width, a, v, p);
      assert i in regions[owner[i]];
    }
  }

  /** Once the whole search area is scanned, the regions are its 4-connected components. */
  lemma PartitionComplete(data: seq<byte>, width: nat, height: nat, a: SearchArea, v: seq<bool>,
                          regions: seq<seq<nat>>, owner: seq<int>, y: int)
    requires Partition(data, width, a, v, regions, owner)
    requires ScannedMarked(data, width, a, v, y, a.minX) && y > a.maxY
    requires |v| == width * height
    ensures ComponentPartition(data, width, a, regions, |v|)
  {
    forall k, j | 0 <= k < |regions| && 0 <= j < |regions[k]|
      ensures NeighborsIn(data, width, a, regions[k], regions[k][j])
    {
      PartitionClosed(data, width, a, v, regions, owner, k, j);
    }
    PartitionCovers(data, width, height, a, v, regions, owner, y);
  }

  lemma CandidatesAdd(width: nat, a: SearchArea, candidates: seq<Bounds>, regions: seq<seq<nat>>, bounds: Bounds,
                      region: seq<nat>)
    requires CandidatesOf(width, a, candidates, regions)
    requires bounds == BoundsOf(Points(width, region))
    requires IsRectangleBoundsValid(bounds) && PixelCount(bounds) == |region| && Encloses(AreaBox(a), bounds)
    ensures CandidatesOf(width, a, candidates + [bounds], regions + [region])
  {
  }

  /** Each region starts at its least flat index, and the regions come in increasing order of their
      starts. Flat index order is row-major order (`IdxRowMajor`), so this is the order in which a
      row-major scan first meets the regions, and each region starts at that first-met pixel. */
  ghost predicate ScanOrdered(regions: seq<seq<nat>>)
  {
    (forall k :: 0 <= k < |regions| ==> regions[k] != []) &&
    (forall k, j :: 0 <= k < |regions| && 0 <= j < |regions[k]| ==> regions[k][0] <= regions[k][j]) &&
    (forall k1, k2 :: 0 <= k1 < k2 < |regions| ==> regions[k1][0] < regions[k2][0])
  }

  /** Every region starts before flat index `i`. */
  ghost predicate StartsBefore(regions: seq<seq<nat>>, i: int)
  {
    forall k :: 0 <= k < |regions| ==> regions[k] != [] && regions[k][0] < i
  }

  /** Pixel `p` comes before (x, y) in row-major order. */
  predicate Before(p: Point, x: int, y: int)
  {
    p.y < y || (p.y == y && p.x < x)
  }

  /** Every region starts before the scan position (x, y) of a `width`-wide image. */
  ghost predicate ScanBefore(width: nat, regions: seq<seq<nat>>, x: int, y: int)
  {
    forall k :: 0 <= k < |regions| ==> regions[k] != [] && Before(PointOf(width, regions[k][0]), x, y)
  }

  /** Moving the scan position one pixel to the right keeps every start before it. */
  lemma ScanBeforeNext(width: nat, regions: seq<seq<nat>>, x: int, y: int)
    requires ScanBefore(width, regions, x, y)
    ensures ScanBefore(width, regions, x + 1, y)
  {
  }

  /** A region that starts at the scan position comes before the next position. */
  lemma ScanBeforeAdd(width: nat, regions: seq<seq<nat>>, region: seq<nat>, x: int, y: int)
    requires ScanBefore(width, regions, x + 1, y)
    requires region != [] && PointOf(width, region[0]) == Point(x, y)
    ensures ScanBefore(width, regions + [region], x + 1, y)
  {
  }

  /** Before the scan position in row-major order is below its flat index. */
  lemma ScanBeforeIdx(data: seq<byte>, width: nat, height: nat, a: SearchArea, v: seq<bool>,
                      regions: seq<seq<nat>>, owner: seq<int>, x: int, y: int)
    requires |v| == width * height && 0 <= x < width
    requires Partition(data, width, a, v, regions, owner)
    requires ScanBefore(width, regions, x, y)
    ensures StartsBefore(regions, Idx(width, x, y))
  {
    forall k | 0 <= k < |regions|
      ensures regions[k][0] < Idx(width, x, y)
    {
      var s := regions[k][0];
      PointOfInImage(width, height, s);
      IdxRowMajor(width, PointOf(width, s), Point(x, y));
    }
  }

  /** A fill started at the scan position (x, y) reaches no pixel before that position: those are
      all marked already. */
  lemma FreshRegionAfterScan(data: seq<byte>, width: nat, height: nat, a: SearchArea, v: seq<bool>,
                             region: seq<nat>, x: int, y: int)
    requires |v| == width * height && AreaInImage(a, width, height) && InArea(a, Point(x, y))
    requires ScannedMarked(data, width, a, v, y, x)
    requires forall j :: 0 <= j < |region| ==> region[j] < |v| && Fillable(data, width, a, PointOf(width, region[j]))
    requires forall i :: 0 <= i < |v| && i in region ==> !v[i]
    ensures forall j :: 0 <= j < |region| ==> Idx(width, x, y) <= region[j]
  {
    forall j | 0 <= j < |region|
      ensures Idx(width, x, y) <= region[j]
    {
      var q := PointOf(width, region[j]);
      PointOfInImage(width, height, region[j]);
      IdxRowMajor(width, q, Point(x, y));
    }
  }

  /** Appending a region that starts at `i`, at its least pixel, after regions that all start
      before `i`, keeps the scan order. */
  lemma ScanOrderedAdd(regions: seq<seq<nat>>, region: seq<nat>, i: int)
    requires ScanOrdered(regions) && StartsBefore(regions, i)
    requires region != [] && region[0] == i && forall j :: 0 <= j < |region| ==> i <= region[j]
    ensures ScanOrdered(regions + [region])
  {
  }

  /** One pixel of the scan: a pixel that is marked or red is skipped; otherwise it is marked, a fill
      starts there, and its bounds become the next candidate. */
  method ScanPixel(x: int, y: int, data: seq<byte>, width: nat, area: SearchArea, visited: array<bool>,
                   candidates: seq<Bounds>, ghost height: nat, ghost regions: seq<seq<nat>>, ghost owner: seq<int>)
    returns (candidates': seq<Bounds>, ghost regions': seq<seq<nat>>, ghost owner': seq<int>)
    requires visited.Length == width * height && AreaInImage(area, width, height)
    requires InArea(area, Point(x, y)) && 0 <= Idx(width, x, y) < visited.Length
    requires Partition(data, width, area, visited[..], regions, owner)
    requires CandidatesOf(width, area, candidates, regions)
    requires ScannedMarked(data, width, area, visited[..], y, x)
    requires ScanOrdered(regions) && ScanBefore(width, regions, x, y)
    modifies visited
    ensures old(visited[Idx(width, x, y)]) || IsRedOffset(data, Idx(width, x, y) * 4) ==>
              candidates' == candidates && regions' == regions && visited[..] == old(visited[..])
    ensures !old(visited[Idx(width, x, y)]) && !IsRedOffset(data, Idx(width, x, y) * 4) ==>
              |regions'| == |regions| + 1 && regions'[..|regions|] == regions &&
              regions'[|regions|] != [] && regions'[|regions|][0] == Idx(width, x, y) &&
              |candidates'| == |candidates| + 1 && candidates'[..|candidates|] == candidates
    ensures Partition(data, width, area, visited[..], regions', owner')
    ensures CandidatesOf(width, area, candidates', regions')
    ensures ScannedMarked(data, width, area, visited[..], y, x + 1)
    ensures ScanOrdered(regions') && ScanBefore(width, regions', x + 1, y)
  {
    candidates', regions', owner' := candidates, regions, owner;
    ghost var vPre := visited[..];
    IdxInImage(width, height, x, y);
    var pointIndex := Idx(width, x, y);
    ScanBeforeNext(width, regions, x, y);
    if visited[pointIndex] {
      assert vPre[pointIndex];
      ScannedGrows(data, width, area, vPre, vPre, y, x);
      return;
    }
    var offset := pointIndex * 4;
    if IsRedOffset(data, offset) {
      ScannedGrows(data, width, area, vPre, vPre, y, x);
      return;
    }
    visited[pointIndex] := true;
    assert visited[..] == vPre[pointIndex := true];
    var bounds, region := FloodFillNonRedRegion(pointIndex, data, width, area, visited, height);
    AddRegion(data, width, height, area, pointIndex, vPre, visited[..], regions, owner, region, bounds);
    ScannedGrows(data, width, area, vPre, visited[..], y, x);
    FillWasFresh(data, width, area, pointIndex, vPre, visited[..], region, bounds);
    FreshRegionAfterScan(data, width, height, area, vPre, region, x, y);
    if IsRectangleBoundsValid(bounds) {
      ScanBeforeIdx(data, width, height, area, vPre, regions, owner, x, y);
      ScanOrderedAdd(regions, region, pointIndex);
      ScanBeforeAdd(width, regions, region, x, y);
      CandidatesAdd(width, area, candidates, regions, bounds, region);
      candidates' := candidates + [bounds];
      regions' := regions + [region];
      owner' := AddOwner(owner, region, |regions|);
    }
  }

  /** One row of the scan, left to right: afterwards every fillable pixel of the row is marked and
      the scan state holds at the start of the next row. */
  method ScanRow(y: int, data: seq<byte>, width: nat, area: SearchArea, visited: array<bool>,
                 candidates: seq<Bounds>, ghost height: nat, ghost regions: seq<seq<nat>>, ghost owner: seq<int>)
    returns (candidates': seq<Bounds>, ghost regions': seq<seq<nat>>, ghost owner': seq<int>)
    requires visited.Length == width * height && AreaInImage(area, width, height)
    requires area.minY <= y <= area.maxY
    requires Partition(data, width, area, visited[..], regions, owner)
    requires CandidatesOf(width, area, candidates, regions)
    requires ScannedMarked(data, width, area, visited[..], y, area.minX)
    requires ScanOrdered(regions) && ScanBefore(width, regions, area.minX, y)
    modifies visited
    ensures Partition(data, width, area, visited[..], regions', owner')
    ensures CandidatesOf(width, area, candidates', regions')
    ensures ScannedMarked(data, width, area, visited[..], y + 1, area.minX)
    ensures ScanOrdered(regions') && ScanBefore(width, regions', area.minX, y + 1)
  {
    candidates', regions', owner' := candidates, regions, owner;
    var x := area.minX;
    while x <= area.maxX
      invariant Partition(data, width, area, visited[..], regions', owner')
      invariant CandidatesOf(width, area, candidates', regions')
      invariant ScannedMarked(data, width, area, visited[..], y, x)
      invariant area.minX <= x <= area.maxX + 1 || x == area.minX
      invariant ScanOrdered(regions') && ScanBefore(width, regions', x, y)
      decreases area.maxX + 1 - x
    {
      IdxInImage(width, height, x, y);
      candidates', regions', owner' := ScanPixel(x, y, data, width, area, visited, candidates', height, regions', owner');
      x := x + 1;
    }
    ScannedNextRow(data, width, area, visited[..], y, x);
  }

  /** Scans the search area row by row, each row left to right, and collects the bounds of every
      region a fill discovers: the candidates are the bounding boxes of the 4-connected components
      of the non-red pixels of the area, in the order the scan first meets them. */
  method CollectInnerCandidates(data: seq<byte>, width: nat, height: nat, area: SearchArea)
    returns (candidates: seq<Bounds>, ghost regions: seq<seq<nat>>)
    requires AreaInImage(area, width, height)
    ensures CandidatesOf(width, area, candidates, regions)
    ensures ComponentPartition(data, width, area, regions, width * height)
    ensures ScanOrdered(regions)
  {
    var visited := new bool[width * height](_ => false);
    candidates := [];
    regions := [];
    ghost var owner: seq<int> := seq(width * height, _ => -1);
    PartitionInit(data, width, area, visited[..], owner);
    var y := area.minY;
    while y <= area.maxY
      invariant visited.Length == width * height
      invariant Partition(data, width, area, visited[..], regions, owner)
      invariant CandidatesOf(width, area, candidates, regions)
      invariant ScannedMarked(data, width, area, visited[..], y, area.minX)
      invariant area.minY <= y
      invariant ScanOrdered(regions) && ScanBefore(width, regions, area.minX, y)
      decreases area.maxY + 1 - y
    {
      candidates, regions, owner := ScanRow(y, data, width, area, visited, candidates, height, regions, owner);
      y := y + 1;
    }
    PartitionComplete(data, width, height, area, visited[..], regions, owner, y);
  }

  /** The fillable pixels of the search area, as flat indices of a `size`-pixel image. */
  ghost function FillableSet(data: seq<byte>, width: nat, a: SearchArea, size: nat): set<nat>
  {
    set i: nat | i < size && Fillable(data, width, a, PointOf(width, i))
  }

  /** The sum of the pixel counts of a list of bounds. */
  function TotalPixelCount(cs: seq<Bounds>): nat
    decreases |cs|
  {
    if cs == [] then 0 else TotalPixelCount(cs[..|cs| - 1]) + PixelCount(cs[|cs| - 1])
  }

  ghost function Elements(r: seq<nat>): set<nat>
  {
    set x | x in r
  }

  /** The pixels of all regions together. */
  ghost function UnionOf(regions: seq<seq<nat>>): set<nat>
    decreases |regions|
  {
    if regions == [] then {} else UnionOf(regions[..|regions| - 1]) + Elements(regions[|regions| - 1])
  }

  predicate Distinct(r: seq<nat>)
  {
    forall i, j :: 0 <= i < j < |r| ==> r[i] != r[j]
  }

  /** A pixel lies in the union exactly when it lies in one of the regions. */
  lemma {:induction false} UnionMember(regions: seq<seq<nat>>, x: nat)
    ensures x in UnionOf(regions) <==> exists k :: 0 <= k < |regions| && x in regions[k]
    decreases |regions|
  {
    if regions != [] {
      var n := |regions| - 1;
      var init := regions[..n];
      UnionMember(init, x);
      if x in UnionOf(init) {
        var k :| 0 <= k < |init| && x in init[k];
        assert x in regions[k];
      }
      if exists k :: 0 <= k < |regions| && x in regions[k] {
        var k :| 0 <= k < |regions| && x in regions[k];
        if k < n {
          assert x in init[k];
        }
      }
    }
  }

  /** A list of distinct pixels has as many elements as entries. */
  lemma {:induction false} ElementsCount(r: seq<nat>)
    requires Distinct(r)
    ensures |Elements(r)| == |r|
  {
    if r != [] {
      var n := |r| - 1;
      var init := r[..n];
      assert Distinct(init);
      ElementsCount(init);
      assert Elements(r) == Elements(init) + {r[n]};
      assert r[n] !in Elements(init);
    }
  }

  /** No pixel lies in two of the regions. */
  predicate Disjoint(regions: seq<seq<nat>>)
  {
    forall k1, j1, k2, j2 ::
      (0 <= k1 < |regions| && 0 <= j1 < |regions[k1]| && 0 <= k2 < |regions| && 0 <= j2 < |regions[k2]| &&
       regions[k1][j1] == regions[k2][j2]) ==> k1 == k2
  }

  /** The last of disjoint regions shares no pixel with the earlier ones, which stay disjoint. */
  lemma LastDisjoint(regions: seq<seq<nat>>)
    requires Disjoint(regions) && regions != []
    ensures Disjoint(regions[..|regions| - 1])
    ensures UnionOf(regions[..|regions| - 1]) * Elements(regions[|regions| - 1]) == {}
  {
    var n := |regions| - 1;
    var init := regions[..n];
    forall x | x in UnionOf(init) && x in Elements(regions[n])
      ensures false
    {
      UnionMember(init, x);
    }
  }

  /** For distinct, pairwise disjoint regions, the pixel counts of their bounds add up to the size
      of their union. */
  lemma {:induction false} UnionCount(candidates: seq<Bounds>, regions: seq<seq<nat>>)
    requires |candidates| == |regions|
    requires forall k :: 0 <= k < |regions| ==> PixelCount(candidates[k]) == |regions[k]| && Distinct(regions[k])
    requires Disjoint(regions)
    ensures TotalPixelCount(candidates) == |UnionOf(regions)|
    decreases |regions|
  {
    if regions != [] {
      var n := |regions| - 1;
      LastDisjoint(regions);
      UnionCount(candidates[..n], regions[..n]);
      ElementsCount(regions[n]);
    }
  }

  /** The regions of a partition list distinct pixels, and together they are the fillable pixels. */
  lemma RegionsCoverFillable(data: seq<byte>, width: nat, a: SearchArea, regions: seq<seq<nat>>, size: nat)
    requires forall k :: 0 <= k < |regions| ==> RegionShape(data, width, a, regions[k], size)
    requires forall i :: 0 <= i < size && Fillable(data, width, a, PointOf(width, i)) ==>
               exists k :: 0 <= k < |regions| && i in regions[k]
    ensures forall k :: 0 <= k < |regions| ==> Distinct(regions[k])
    ensures UnionOf(regions) == FillableSet(data, width, a, size)
  {
    forall k | 0 <= k < |regions|
      ensures Distinct(regions[k])
    {
      assert RegionShape(data, width, a, regions[k], size);
    }
    forall x: nat
      ensures x in UnionOf(regions) <==> x in FillableSet(data, width, a, size)
    {
      UnionMember(regions, x);
      if x in UnionOf(regions) {
        var k :| 0 <= k < |regions| && x in regions[k];
        assert RegionShape(data, width, a, regions[k], size);
      }
    }
  }

  /** The candidates' pixel counts add up to the number of fillable pixels of the search area:
      every non-red pixel of the area is counted, and counted once. */
  lemma CandidatesCoverArea(data: seq<byte>, width: nat, a: SearchArea, candidates: seq<Bounds>,
                            regions: seq<seq<nat>>, size: nat)
    requires CandidatesOf(width, a, candidates, regions)
    requires ComponentPartition(data, width, a, regions, size)
    ensures TotalPixelCount(candidates) == |FillableSet(data, width, a, size)|
  {
    RegionsCoverFillable(data, width, a, regions, size);
    UnionCount(candidates, regions);
  }
}
