/** The connected-component flood filler: breadth-first traversal of 4-connected non-red pixels
    inside the search area, with a flat visited array shared by all traversals of one scan. */
module FloodFill {
  import opened Geometry
  import opened Pixels

  /** The search area lies inside a width x height image. */
  predicate AreaInImage(a: SearchArea, width: nat, height: nat)
  {
    0 <= a.minX && a.maxX < width && 0 <= a.minY && a.maxY < height
  }

  /** Pixel `p` may belong to a region: it lies in the search area and is not red. */
  predicate Fillable(data: seq<byte>, width: nat, a: SearchArea, p: Point)
  {
    InArea(a, p) && !IsRedAt(data, width, p.x, p.y)
  }

  /** The four neighbours in the order the source visits them: left, right, up, down. */
  function Neighbors(p: Point): (ns: seq<Point>)
    ensures |ns| == 4
    ensures forall q :: q in ns <==> Adjacent(p, q)
  {
    [Point(p.x - 1, p.y), Point(p.x + 1, p.y), Point(p.x, p.y - 1), Point(p.x, p.y + 1)]
  }

  /** 4-adjacency: `q` differs from `p` by one step along exactly one axis. */
  predicate Adjacent(p: Point, q: Point)
  {
    (p.y == q.y && (p.x == q.x + 1 || q.x == p.x + 1)) ||
    (p.x == q.x && (p.y == q.y + 1 || q.y == p.y + 1))
  }

  /** Number of marked entries of a visited array. */
  function CountTrue(v: seq<bool>): (c: nat)
    ensures c <= |v|
  {
    if v == [] then 0 else (if v[0] then 1 else 0) + CountTrue(v[1..])
  }

  lemma {:induction false} CountTrueMark(v: seq<bool>, i: nat)
    requires i < |v| && !v[i]
    ensures CountTrue(v[i := true]) == CountTrue(v) + 1
  {
    if i == 0 {
      assert v[i := true][1..] == v[1..];
    } else {
      assert v[i := true][1..] == v[1..][i - 1 := true];
      CountTrueMark(v[1..], i - 1);
    }
  }

  /** Pixel `n`, when fillable, is marked in `v`. */
  predicate MarkedIfFillable(data: seq<byte>, width: nat, a: SearchArea, v: seq<bool>, n: Point)
  {
    Fillable(data, width, a, n) ==> 0 <= Idx(width, n.x, n.y) < |v| && v[Idx(width, n.x, n.y)]
  }

  /** Every fillable 4-neighbour of pixel index `c` is marked in `v`. */
  predicate NeighborsMarked(data: seq<byte>, width: nat, a: SearchArea, v: seq<bool>, c: nat)
  {
    var ns := Neighbors(PointOf(width, c));
    MarkedIfFillable(data, width, a, v, ns[0]) && MarkedIfFillable(data, width, a, v, ns[1]) &&
    MarkedIfFillable(data, width, a, v, ns[2]) && MarkedIfFillable(data, width, a, v, ns[3])
  }

  /** The coordinates of a sequence of pixel indices. */
  function Points(width: nat, s: seq<nat>): (ps: seq<Point>)
    ensures |ps| == |s|
    ensures forall k :: 0 <= k < |s| ==> ps[k] == PointOf(width, s[k])
  {
    seq(|s|, k requires 0 <= k < |s| => PointOf(width, s[k]))
  }

  /** What the queue of one traversal satisfies at every step, given the visited array `v0` at
      its start and `v` now: the queued pixels are distinct fillable pixels, each unmarked in `v0`
      except the start, each adjacent to an earlier one, and exactly they were marked since. */
  ghost predicate QueueInv(data: seq<byte>, width: nat, a: SearchArea, v0: seq<bool>, v: seq<bool>,
                           queue: seq<nat>, parent: seq<nat>)
  {
    |v0| == |v| && |queue| >= 1 && |parent| == |queue| &&
    (forall k :: 0 <= k < |queue| ==>
       queue[k] < |v| && v[queue[k]] && Fillable(data, width, a, PointOf(width, queue[k]))) &&
    (forall j, k :: 0 <= j < k < |queue| ==> queue[j] != queue[k]) &&
    v0[queue[0]] &&
    (forall k :: 1 <= k < |queue| ==> !v0[queue[k]]) &&
    (forall i :: 0 <= i < |v| ==> v[i] == (v0[i] || i in queue)) &&
    (forall k :: 1 <= k < |queue| ==>
       parent[k] < k && Adjacent(PointOf(width, queue[parent[k]]), PointOf(width, queue[k]))) &&
    CountTrue(v) == CountTrue(v0) + |queue| - 1
  }

  /** Marking and enqueueing an unmarked fillable neighbour of queue[j] keeps the queue invariant. */
  lemma QueueInvPush(data: seq<byte>, width: nat, a: SearchArea, v0: seq<bool>, v: seq<bool>,
                     queue: seq<nat>, parent: seq<nat>, j: nat, ni: nat)
    requires QueueInv(data, width, a, v0, v, queue, parent)
    requires ni < |v| && !v[ni] && Fillable(data, width, a, PointOf(width, ni))
    requires j < |queue| && Adjacent(PointOf(width, queue[j]), PointOf(width, ni))
    ensures QueueInv(data, width, a, v0, v[ni := true], queue + [ni], parent + [j])
  {
    var v', queue', parent' := v[ni := true], queue + [ni], parent + [j];
    CountTrueMark(v, ni);
    assert ni !in queue;
    forall i | 0 <= i < |v'|
      ensures v'[i] == (v0[i] || i in queue')
    {
      assert i in queue' <==> i in queue || i == ni;
    }
    assert forall k :: 1 <= k < |queue'| ==> !v0[queue'[k]];
  }

  lemma QueueInvLength(data: seq<byte>, width: nat, a: SearchArea, v0: seq<bool>, v: seq<bool>,
                       queue: seq<nat>, parent: seq<nat>)
    requires QueueInv(data, width, a, v0, v, queue, parent)
    ensures |queue| <= |v| + 1
  {
  }

  lemma NeighborsAdjacent(p: Point, j: nat)
    requires j < 4
    ensures Adjacent(p, Neighbors(p)[j])
  {
  }

  /** The first `n` queued pixels have all their fillable neighbours marked. */
  ghost predicate ClosedPrefix(data: seq<byte>, width: nat, a: SearchArea, v: seq<bool>, queue: seq<nat>, n: nat)
  {
    n <= |queue| && forall k :: 0 <= k < n ==> NeighborsMarked(data, width, a, v, queue[k])
  }

  /** Marking one more pixel, or enqueueing one more, keeps the closed prefix closed. */
  lemma ClosedPrefixGrow(data: seq<byte>, width: nat, a: SearchArea, v: seq<bool>, queue: seq<nat>, n: nat,
                         i: nat, x: nat)
    requires ClosedPrefix(data, width, a, v, queue, n) && i < |v|
    ensures ClosedPrefix(data, width, a, v[i := true], queue + [x], n)
  {
  }

  /** The first `j` of the neighbours `ns` are marked when fillable. */
  ghost predicate MarkedUpTo(data: seq<byte>, width: nat, a: SearchArea, v: seq<bool>, ns: seq<Point>, j: nat)
  {
    j <= |ns| && forall k :: 0 <= k < j ==> MarkedIfFillable(data, width, a, v, ns[k])
  }

  /** Marking pixel `i` keeps the marked neighbours marked and, when `i` is the index of `ns[j]`,
      adds `ns[j]` to them. */
  lemma MarkedUpToGrow(data: seq<byte>, width: nat, a: SearchArea, v: seq<bool>, ns: seq<Point>, j: nat, i: nat)
    requires MarkedUpTo(data, width, a, v, ns, j) && j < |ns| && i < |v|
    requires i == Idx(width, ns[j].x, ns[j].y)
    ensures MarkedUpTo(data, width, a, v[i := true], ns, j + 1)
  {
  }

  /** Once all four neighbours of the current pixel are marked, the closed prefix covers it too. */
  lemma ClosedPrefixExtend(data: seq<byte>, width: nat, a: SearchArea, v: seq<bool>, queue: seq<nat>, n: nat)
    requires ClosedPrefix(data, width, a, v, queue, n) && n < |queue|
    requires MarkedUpTo(data, width, a, v, Neighbors(PointOf(width, queue[n])), 4)
    ensures ClosedPrefix(data, width, a, v, queue, n + 1)
  {
  }

  /** One neighbour step of the traversal: a neighbour inside the search area that is neither
      marked nor red is marked and appended to the queue; otherwise nothing changes. */
  method VisitNeighbor(n: Point, data: seq<byte>, width: nat, area: SearchArea, visited: array<bool>,
                       queue: seq<nat>, ghost height: nat, ghost v0: seq<bool>, ghost parent: seq<nat>,
                       ghost qi: nat, ghost ns: seq<Point>, ghost j: nat)
    returns (queue': seq<nat>, ghost parent': seq<nat>)
    requires visited.Length == width * height && AreaInImage(area, width, height)
    requires QueueInv(data, width, area, v0, visited[..], queue, parent)
    requires qi < |queue| && ClosedPrefix(data, width, area, visited[..], queue, qi)
    requires ns == Neighbors(PointOf(width, queue[qi])) && j < 4 && n == ns[j]
    requires MarkedUpTo(data, width, area, visited[..], ns, j)
    modifies visited
    ensures QueueInv(data, width, area, v0, visited[..], queue', parent')
    ensures |queue| <= |queue'| && queue'[..|queue|] == queue
    ensures ClosedPrefix(data, width, area, visited[..], queue', qi)
    ensures MarkedUpTo(data, width, area, visited[..], ns, j + 1)
  {
    queue', parent' := queue, parent;
    var nx, ny := n.x, n.y;
    if nx < area.minX || nx > area.maxX || ny < area.minY || ny > area.maxY {
      assert !Fillable(data, width, area, n);
      return;
    }
    IdxInImage(width, height, nx, ny);
    var neighborIndex := Idx(width, nx, ny);
    if visited[neighborIndex] {
      assert MarkedIfFillable(data, width, area, visited[..], n);
      return;
    }
    if IsRedAt(data, width, nx, ny) {
      assert !Fillable(data, width, area, n);
      return;
    }
    PointOfInImage(width, height, queue[qi]);
    NeighborsAdjacent(PointOf(width, queue[qi]), j);
    ghost var v := visited[..];
    QueueInvPush(data, width, area, v0, v, queue, parent, qi, neighborIndex);
    ClosedPrefixGrow(data, width, area, v, queue, qi, neighborIndex, neighborIndex);
    MarkedUpToGrow(data, width, area, v, ns, j, neighborIndex);
    visited[neighborIndex] := true;
    assert visited[..] == v[neighborIndex := true];
    queue' := queue + [neighborIndex];
    parent' := parent + [qi];
  }

  /** The four neighbour steps for the pixel dequeued at position `qi`, left, right, up, down. */
  method EnqueueNeighbors(data: seq<byte>, width: nat, area: SearchArea, visited: array<bool>,
                          queue: seq<nat>, ghost height: nat, ghost v0: seq<bool>, ghost parent: seq<nat>,
                          qi: nat)
    returns (queue': seq<nat>, ghost parent': seq<nat>)
    requires visited.Length == width * height && AreaInImage(area, width, height)
    requires QueueInv(data, width, area, v0, visited[..], queue, parent)
    requires qi < |queue| && ClosedPrefix(data, width, area, visited[..], queue, qi)
    modifies visited
    ensures QueueInv(data, width, area, v0, visited[..], queue', parent')
    ensures |queue| <= |queue'| && queue'[..|queue|] == queue
    ensures ClosedPrefix(data, width, area, visited[..], queue', qi + 1)
  {
    var c := PointOf(width, queue[qi]);
    var neighbors := Neighbors(Point(c.x, c.y));
    queue', parent' := queue, parent;
    for j := 0 to 4
      invariant QueueInv(data, width, area, v0, visited[..], queue', parent')
      invariant |queue| <= |queue'| && queue'[..|queue|] == queue
      invariant ClosedPrefix(data, width, area, visited[..], queue', qi)
      invariant MarkedUpTo(data, width, area, visited[..], neighbors, j)
    {
      assert queue'[qi] == queue[qi];
      queue', parent' := VisitNeighbor(neighbors[j], data, width, area, visited, queue', height, v0, parent',
                                       qi, neighbors, j);
    }
    assert queue'[qi] == queue[qi];
    ClosedPrefixExtend(data, width, area, visited[..], queue', qi);
  }

  lemma PointsSnoc(width: nat, s: seq<nat>, n: nat)
    requires n < |s|
    ensures Points(width, s[..n + 1]) == Points(width, s[..n]) + [PointOf(width, s[n])]
  {
  }

  /** The state of one traversal between two dequeues: the queue invariant, the dequeued prefix
      `queue[..qi]` as points with `bounds` their accumulated box, and that prefix closed. */
  ghost predicate TraversalInv(data: seq<byte>, width: nat, a: SearchArea, start: nat, v0: seq<bool>,
                               v: seq<bool>, queue: seq<nat>, parent: seq<nat>, qi: nat, bounds: Bounds)
  {
    QueueInv(data, width, a, v0, v, queue, parent) && queue[0] == start && qi <= |queue| &&
    bounds == BoundsOf(Points(width, queue[..qi])) &&
    ClosedPrefix(data, width, a, v, queue, qi)
  }

  /** One iteration of the traversal loop: dequeue the pixel at `qi`, add it to the bounds, and
      enqueue its unmarked fillable neighbours. */
  method DequeueStep(data: seq<byte>, width: nat, area: SearchArea, visited: array<bool>, queue: seq<nat>,
                     qi: nat, bounds: Bounds, ghost height: nat, ghost start: nat, ghost v0: seq<bool>,
                     ghost parent: seq<nat>)
    returns (queue': seq<nat>, bounds': Bounds, ghost parent': seq<nat>)
    requires visited.Length == width * height && AreaInImage(area, width, height)
    requires TraversalInv(data, width, area, start, v0, visited[..], queue, parent, qi, bounds) && qi < |queue|
    modifies visited
    ensures bounds' == ExpandRectangleBounds(bounds, PointOf(width, queue[qi]))
    ensures |queue| <= |queue'| && queue'[..|queue|] == queue
    ensures TraversalInv(data, width, area, start, v0, visited[..], queue', parent', qi + 1, bounds')
    ensures qi + 1 <= visited.Length + 1
  {
    QueueInvLength(data, width, area, v0, visited[..], queue, parent);
    var c := PointOf(width, queue[qi]);
    PointsSnoc(width, queue, qi);
    BoundsOfAppend(Points(width, queue[..qi]), c);
    bounds' := ExpandRectangleBounds(bounds, c);
    queue', parent' := EnqueueNeighbors(data, width, area, visited, queue, height, v0, parent, qi);
    assert queue'[..qi + 1] == queue[..qi + 1];
    assert queue'[0] == queue[0];
  }

  /** What one traversal from `start` achieves, given the visited array `v0` before and `v` after:
      `region` lists distinct fillable pixels, starting with `start` and otherwise unmarked in `v0`,
      each adjacent to an earlier one; exactly they were marked; every fillable neighbour of the
      region is marked (so the region is a whole 4-connected component when `v0` marked nothing
      else fillable), and `bounds` is the bounding box of the region, inside the search area,
      counting its pixels. */
  ghost predicate FillOutcome(data: seq<byte>, width: nat, a: SearchArea, start: nat, v0: seq<bool>,
                              v: seq<bool>, region: seq<nat>, bounds: Bounds)
  {
    FillRegion(data, width, a, start, v0, v, region) && FillMarks(data, width, a, v0, v, region) &&
    FillBounds(width, a, region, bounds)
  }

  /** The region lists distinct fillable pixels from `start` on, each new to `v0` and adjacent to an
      earlier one. */
  ghost predicate FillRegion(data: seq<byte>, width: nat, a: SearchArea, start: nat, v0: seq<bool>,
                             v: seq<bool>, region: seq<nat>)
  {
    |v| == |v0| && |region| >= 1 && region[0] == start &&
    (forall k :: 0 <= k < |region| ==> region[k] < |v| && Fillable(data, width, a, PointOf(width, region[k]))) &&
    (forall j, k :: 0 <= j < k < |region| ==> region[j] != region[k]) &&
    (forall k :: 1 <= k < |region| ==> !v0[region[k]]) &&
    (forall k :: 1 <= k < |region| ==>
       exists j :: 0 <= j < k && Adjacent(PointOf(width, region[j]), PointOf(width, region[k])))
  }

  /** Exactly the region was marked since `v0`, and every fillable neighbour of the region is marked. */
  ghost predicate FillMarks(data: seq<byte>, width: nat, a: SearchArea, v0: seq<bool>, v: seq<bool>,
                            region: seq<nat>)
  {
    |v| == |v0| &&
    (forall i :: 0 <= i < |v| ==> v[i] == (v0[i] || i in region)) &&
    (forall k :: 0 <= k < |region| ==> NeighborsMarked(data, width, a, v, region[k])) &&
    CountTrue(v) == CountTrue(v0) + |region| - 1
  }

  /** `bounds` is the bounding box of the region, inside the search area, counting its pixels. */
  ghost predicate FillBounds(width: nat, a: SearchArea, region: seq<nat>, bounds: Bounds)
  {
    bounds == BoundsOf(Points(width, region)) &&
    IsRectangleBoundsValid(bounds) && PixelCount(bounds) == |region| &&
    Encloses(AreaBox(a), bounds)
  }

  lemma TraversalDone(data: seq<byte>, width: nat, a: SearchArea, start: nat, v0: seq<bool>, v: seq<bool>,
                      queue: seq<nat>, parent: seq<nat>, bounds: Bounds)
    requires TraversalInv(data, width, a, start, v0, v, queue, parent, |queue|, bounds)
    ensures FillOutcome(data, width, a, start, v0, v, queue, bounds)
  {
    var ps := Points(width, queue);
    assert queue[..|queue|] == queue;
    forall k | 0 <= k < |ps|
      ensures Contains(AreaBox(a), ps[k])
    {
    }
    BoundsOfLeast(ps, AreaBox(a));
    forall k | 1 <= k < |queue|
      ensures exists j :: 0 <= j < k && Adjacent(PointOf(width, queue[j]), PointOf(width, queue[k]))
    {
      var j := parent[k];
      assert 0 <= j < k && Adjacent(PointOf(width, queue[j]), PointOf(width, queue[k]));
    }
  }

  /** Breadth-first traversal from `start`, which the caller has already marked. The queue grows
      at its end and is read through the cursor `queueIndex`; a neighbour is marked as it is
      enqueued. `region` is the final content of the queue, in dequeue order. */
  method FloodFillNonRedRegion(start: nat, data: seq<byte>, width: nat, area: SearchArea,
                               visited: array<bool>, ghost height: nat)
    returns (bounds: Bounds, ghost region: seq<nat>)
    requires visited.Length == width * height && AreaInImage(area, width, height)
    requires start < visited.Length && visited[start]
    requires Fillable(data, width, area, PointOf(width, start))
    modifies visited
    ensures FillOutcome(data, width, area, start, old(visited[..]), visited[..], region, bounds)
  {
    ghost var v0 := visited[..];
    var queue: seq<nat> := [start];
    ghost var parent: seq<nat> := [0];
    assert forall i :: 0 <= i < visited.Length ==> (i in queue <==> i == start);
    assert queue[..0] == [];
    bounds := Empty;
    var queueIndex := 0;
    while queueIndex < |queue|
      invariant TraversalInv(data, width, area, start, v0, visited[..], queue, parent, queueIndex, bounds)
      invariant queueIndex <= visited.Length + 1
      decreases visited.Length + 1 - queueIndex
    {
      queue, bounds, parent := DequeueStep(data, width, area, visited, queue, queueIndex, bounds, height,
                                           start, v0, parent);
      queueIndex := queueIndex + 1;
    }
    region := queue;
    TraversalDone(data, width, area, start, v0, visited[..], queue, parent, bounds);
  }
}
