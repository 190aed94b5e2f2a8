/** Pixel coordinates, bounding boxes and the search area of the nested-rectangle detector. */
module Geometry {

  datatype Point = Point(x: int, y: int)

  /** The bounding box of a set of matched pixels and how many pixels matched.
      `Empty` stands for the sentinel whose minimum coordinates are +Infinity and whose
      maximum coordinates are -Infinity (no pixel has contributed yet). */
  datatype Bounds = Empty | Box(minX: int, minY: int, maxX: int, maxY: int, pixelCount: nat)

  /** The clipping rectangle of the flood fill, inclusive on all four sides. */
  datatype SearchArea = SearchArea(minX: int, maxX: int, minY: int, maxY: int)

  function Min(a: int, b: int): int { if a <= b then a else b }

  function Max(a: int, b: int): int { if a >= b then a else b }

  function PixelCount(b: Bounds): nat
  {
    match b
    case Empty => 0
    case Box(_, _, _, _, n) => n
  }

  predicate Contains(b: Bounds, p: Point)
  {
    b.Box? && b.minX <= p.x <= b.maxX && b.minY <= p.y <= b.maxY
  }

  /** The box of `inner` lies within the box of `outer` (an empty `inner` lies within anything). */
  predicate Encloses(outer: Bounds, inner: Bounds)
  {
    inner.Box? ==>
      outer.Box? &&
      outer.minX <= inner.minX && inner.maxX <= outer.maxX &&
      outer.minY <= inner.minY && inner.maxY <= outer.maxY
  }

  /** Every value built from the sentinel by expansion has this shape. */
  predicate WellFormed(b: Bounds)
  {
    b.Box? ==> b.minX <= b.maxX && b.minY <= b.maxY && b.pixelCount > 0
  }

  /** Adds pixel `p` to the accumulated bounds. The result is the least box that holds both the
      previous box and `p`, and it has counted one pixel more. */
  function ExpandRectangleBounds(b: Bounds, p: Point): (r: Bounds)
    ensures r.Box? && PixelCount(r) == PixelCount(b) + 1
    ensures Contains(r, p) && Encloses(r, b)
    ensures forall c: Bounds :: Encloses(c, b) && Contains(c, p) ==> Encloses(c, r)
    ensures WellFormed(b) ==> WellFormed(r)
  {
    match b
    case Empty => Box(p.x, p.y, p.x, p.y, 1)
    case Box(x0, y0, x1, y1, n) => Box(Min(x0, p.x), Min(y0, p.y), Max(x1, p.x), Max(y1, p.y), n + 1)
  }

  /** A bounds value is valid when its coordinates are finite and at least one pixel contributed. */
  predicate IsRectangleBoundsValid(b: Bounds): (valid: bool)
    ensures valid ==> b.Box?
    ensures WellFormed(b) ==> (valid <==> PixelCount(b) > 0)
  {
    b.Box? && b.pixelCount > 0
  }

  /** Number of columns spanned by a valid bounds value; 0 for an invalid one. */
  function RectangleWidth(b: Bounds): (w: int)
    ensures !IsRectangleBoundsValid(b) ==> w == 0
    ensures IsRectangleBoundsValid(b) ==> b.minX + w - 1 == b.maxX
    ensures WellFormed(b) ==> (w >= 1 <==> IsRectangleBoundsValid(b))
  {
    if IsRectangleBoundsValid(b) then b.maxX - b.minX + 1 else 0
  }

  /** Number of rows spanned by a valid bounds value; 0 for an invalid one. */
  function RectangleHeight(b: Bounds): (h: int)
    ensures !IsRectangleBoundsValid(b) ==> h == 0
    ensures IsRectangleBoundsValid(b) ==> b.minY + h - 1 == b.maxY
    ensures WellFormed(b) ==> (h >= 1 <==> IsRectangleBoundsValid(b))
  {
    if IsRectangleBoundsValid(b) then b.maxY - b.minY + 1 else 0
  }

  /** The bounds obtained by expanding the sentinel with the points of `ps`, first to last. */
  function BoundsOf(ps: seq<Point>): (r: Bounds)
    ensures PixelCount(r) == |ps|
    ensures r.Empty? <==> ps == []
    ensures IsRectangleBoundsValid(r) <==> ps != []
    ensures WellFormed(r)
    decreases |ps|
  {
    if ps == [] then Empty else ExpandRectangleBounds(BoundsOf(ps[..|ps| - 1]), ps[|ps| - 1])
  }

  lemma BoundsOfAppend(ps: seq<Point>, p: Point)
    ensures BoundsOf(ps + [p]) == ExpandRectangleBounds(BoundsOf(ps), p)
  {
  }

  /** Every expanded point lies in the accumulated box. */
  lemma {:induction false} BoundsOfContains(ps: seq<Point>)
    ensures forall i :: 0 <= i < |ps| ==> Contains(BoundsOf(ps), ps[i])
  {
    if ps != [] {
      var init := ps[..|ps| - 1];
      BoundsOfContains(init);
      forall i | 0 <= i < |ps|
        ensures Contains(BoundsOf(ps), ps[i])
      {
        if i < |ps| - 1 {
          assert ps[i] == init[i];
          assert Contains(BoundsOf(init), ps[i]);
        }
      }
    }
  }

  /** The accumulated box is the least box holding all expanded points. */
  lemma {:induction false} BoundsOfLeast(ps: seq<Point>, c: Bounds)
    requires forall i :: 0 <= i < |ps| ==> Contains(c, ps[i])
    ensures Encloses(c, BoundsOf(ps))
  {
    if ps != [] {
      var init := ps[..|ps| - 1];
      assert forall i :: 0 <= i < |init| ==> init[i] == ps[i];
      BoundsOfLeast(init, c);
    }
  }

  /** Each of the four coordinates of the accumulated box is the coordinate of some expanded point. */
  ghost predicate ExtremesAttained(b: Bounds, ps: seq<Point>)
  {
    b.Box? ==>
      (exists i :: 0 <= i < |ps| && ps[i].x == b.minX) &&
      (exists i :: 0 <= i < |ps| && ps[i].y == b.minY) &&
      (exists i :: 0 <= i < |ps| && ps[i].x == b.maxX) &&
      (exists i :: 0 <= i < |ps| && ps[i].y == b.maxY)
  }

  lemma {:induction false} BoundsOfExtremes(ps: seq<Point>)
    ensures ExtremesAttained(BoundsOf(ps), ps)
  {
    if ps != [] {
      var n := |ps| - 1;
      var init := ps[..n];
      var b0 := BoundsOf(init);
      var b := BoundsOf(ps);
      BoundsOfExtremes(init);
      if b0.Empty? {
        assert b == Box(ps[n].x, ps[n].y, ps[n].x, ps[n].y, 1);
      } else {
        var i0 :| 0 <= i0 < |init| && init[i0].x == b0.minX;
        var i1 :| 0 <= i1 < |init| && init[i1].y == b0.minY;
        var i2 :| 0 <= i2 < |init| && init[i2].x == b0.maxX;
        var i3 :| 0 <= i3 < |init| && init[i3].y == b0.maxY;
        var j0 := if ps[n].x < b0.minX then n else i0;
        var j1 := if ps[n].y < b0.minY then n else i1;
        var j2 := if ps[n].x > b0.maxX then n else i2;
        var j3 := if ps[n].y > b0.maxY then n else i3;
        assert ps[j0].x == b.minX && ps[j1].y == b.minY && ps[j2].x == b.maxX && ps[j3].y == b.maxY;
      }
    }
  }

  /** The search area as a bounds value, so that containment can be stated with `Encloses`. */
  function AreaBox(a: SearchArea): Bounds
  {
    Box(a.minX, a.minY, a.maxX, a.maxY, 1)
  }

  predicate InArea(a: SearchArea, p: Point)
  {
    a.minX <= p.x <= a.maxX && a.minY <= p.y <= a.maxY
  }

  /** `inner` lies strictly inside `outer` on all four sides. */
  predicate StrictlyInside(inner: Bounds, outer: Bounds)
  {
    inner.Box? && outer.Box? &&
    outer.minX < inner.minX && inner.maxX < outer.maxX &&
    outer.minY < inner.minY && inner.maxY < outer.maxY
  }
}
