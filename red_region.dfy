/** The outer region locator: the bounding box of every marker-coloured pixel of the image. */
module RedRegion {
  import opened Geometry
  import opened Pixels

  /** The red pixels (x, y) of row `y` with 0 <= x < n, left to right. */
  function RowRed(data: seq<byte>, width: nat, y: int, n: nat): seq<Point>
  {
    if n == 0 then []
    else RowRed(data, width, y, n - 1) + (if IsRedAt(data, width, n - 1, y) then [Point(n - 1, y)] else [])
  }

  /** The red pixels of rows 0 .. m-1, in row-major order. */
  function GridRed(data: seq<byte>, width: nat, m: nat): seq<Point>
  {
    if m == 0 then [] else GridRed(data, width, m - 1) + RowRed(data, width, m - 1, width)
  }

  /** What the row-major scan of a width x height image accumulates. */
  function RedBounds(data: seq<byte>, width: nat, height: nat): Bounds
  {
    BoundsOf(GridRed(data, width, height))
  }

  /** Every listed pixel of row `y` is a red pixel of that row left of `n`. */
  lemma {:induction false} RowRedSound(data: seq<byte>, width: nat, y: int, n: nat)
    ensures forall i :: 0 <= i < |RowRed(data, width, y, n)| ==>
              var p := RowRed(data, width, y, n)[i];
              p.y == y && 0 <= p.x < n && IsRedAt(data, width, p.x, p.y)
  {
    if n > 0 {
      RowRedSound(data, width, y, n - 1);
    }
  }

  /** Every red pixel of row `y` left of `n` is listed. */
  lemma {:induction false} RowRedComplete(data: seq<byte>, width: nat, y: int, n: nat, x: int)
    requires 0 <= x < n && IsRedAt(data, width, x, y)
    ensures Point(x, y) in RowRed(data, width, y, n)
  {
    if x < n - 1 {
      RowRedComplete(data, width, y, n - 1, x);
    }
  }

  lemma {:induction false} GridRedSound(data: seq<byte>, width: nat, m: nat)
    ensures forall i :: 0 <= i < |GridRed(data, width, m)| ==>
              var p := GridRed(data, width, m)[i];
              0 <= p.x < width && 0 <= p.y < m && IsRedAt(data, width, p.x, p.y)
  {
    if m > 0 {
      var prev, row := GridRed(data, width, m - 1), RowRed(data, width, m - 1, width);
      GridRedSound(data, width, m - 1);
      RowRedSound(data, width, m - 1, width);
      forall i | 0 <= i < |prev + row|
        ensures var p: Point := (prev + row)[i];
                0 <= p.x < width && 0 <= p.y < m && IsRedAt(data, width, p.x, p.y)
      {
        if i >= |prev| {
          assert (prev + row)[i] == row[i - |prev|];
        }
      }
    }
  }

  lemma {:induction false} GridRedComplete(data: seq<byte>, width: nat, m: nat, x: int, y: int)
    requires 0 <= x < width && 0 <= y < m && IsRedAt(data, width, x, y)
    ensures Point(x, y) in GridRed(data, width, m)
  {
    var prev, row := GridRed(data, width, m - 1), RowRed(data, width, m - 1, width);
    if y < m - 1 {
      GridRedComplete(data, width, m - 1, x, y);
      assert Point(x, y) in prev;
    } else {
      RowRedComplete(data, width, y, width, x);
      assert Point(x, y) in row;
    }
  }

  lemma {:induction false} RowRedCount(data: seq<byte>, width: nat, y: nat, n: nat, rowStart: nat)
    requires n <= width && rowStart == y * width
    ensures CountRed(data, rowStart) + |RowRed(data, width, y, n)| == CountRed(data, rowStart + n)
  {
    if n > 0 {
      RowRedCount(data, width, y, n - 1, rowStart);
      assert 4 * (rowStart + n - 1) == Idx(width, n - 1, y) * 4;
    }
  }

  /** Appending row `m - 1` adds its red pixels to the count of the rows above it. */
  lemma GridRedStep(data: seq<byte>, width: nat, m: nat, rowStart: nat, total: nat)
    requires m > 0 && rowStart + width == total
    requires |GridRed(data, width, m - 1)| == CountRed(data, rowStart)
    requires CountRed(data, rowStart) + |RowRed(data, width, m - 1, width)| == CountRed(data, total)
    ensures |GridRed(data, width, m)| == CountRed(data, total)
  {
  }

  lemma {:induction false} GridRedCount(data: seq<byte>, width: nat, m: nat, total: nat)
    requires total == m * width
    ensures |GridRed(data, width, m)| == CountRed(data, total)
  {
    RowsDistribute(m, width);
    if m > 0 {
      var rowStart: nat := (m - 1) * width;
      GridRedCount(data, width, m - 1, rowStart);
      RowRedCount(data, width, m - 1, width, rowStart);
      GridRedStep(data, width, m, rowStart, total);
    }
  }

  lemma RowsDistribute(m: int, width: int)
    ensures (m - 1) * width + width == m * width
    ensures m >= 1 && width >= 0 ==> (m - 1) * width >= 0
    ensures m == 0 ==> m * width == 0
  {
  }

  /** The red pixels scanned before pixel (x, y) in row-major order. */
  function ScannedRed(data: seq<byte>, width: nat, y: nat, x: nat): seq<Point>
  {
    GridRed(data, width, y) + RowRed(data, width, y, x)
  }

  /** One step of the scan: pixel (x, y) is appended to the scanned red pixels exactly when it is red,
      and finishing a row starts the next one. */
  lemma ScanStep(data: seq<byte>, width: nat, y: nat, x: nat)
    requires x < width
    ensures ScannedRed(data, width, y, x + 1) ==
              ScannedRed(data, width, y, x) + (if IsRedAt(data, width, x, y) then [Point(x, y)] else [])
  {
  }

  lemma ScanRows(data: seq<byte>, width: nat, y: nat)
    ensures ScannedRed(data, width, y, 0) == GridRed(data, width, y)
    ensures ScannedRed(data, width, y, width) == GridRed(data, width, y + 1)
  {
  }

  /** The scan of the source: rows top to bottom, each row left to right, expanding the
      accumulator at every red pixel. */
  method FindRedRectangleBounds(data: seq<byte>, width: nat, height: nat) returns (redBounds: Bounds)
    ensures redBounds == RedBounds(data, width, height)
  {
    redBounds := Empty;
    ghost var scanned: seq<Point> := [];
    var y := 0;
    while y < height
      invariant 0 <= y <= height
      invariant scanned == GridRed(data, width, y)
      invariant redBounds == BoundsOf(scanned)
    {
      var x := 0;
      ScanRows(data, width, y);
      while x < width
        invariant 0 <= x <= width
        invariant scanned == ScannedRed(data, width, y, x)
        invariant redBounds == BoundsOf(scanned)
      {
        ScanStep(data, width, y, x);
        if IsRedAt(data, width, x, y) {
          BoundsOfAppend(scanned, Point(x, y));
          redBounds := ExpandRectangleBounds(redBounds, Point(x, y));
          scanned := scanned + [Point(x, y)];
        } else {
          assert scanned + [] == scanned;
        }
        x := x + 1;
      }
      y := y + 1;
    }
  }

  /** The count of the located bounds is the number of red pixels of the image, the same number
      the statistics loop reports for a buffer of exactly width x height pixels. */
  lemma RedBoundsCount(data: seq<byte>, width: nat, height: nat)
    ensures PixelCount(RedBounds(data, width, height)) == CountRed(data, width * height)
    ensures |data| == width * height * 4 ==>
              CountRed(data, (|data| + 3) / 4) == PixelCount(RedBounds(data, width, height))
  {
    BufferPixels(width, height, |data|);
    GridRedCount(data, width, height, height * width);
    BufferPixels(width, height, |data|);
  }

  lemma BufferPixels(width: nat, height: nat, len: nat)
    ensures height * width == width * height
    ensures len == width * height * 4 ==> (len + 3) / 4 == width * height
  {
  }

  /** The image has no red pixel. */
  ghost predicate NoRedPixel(data: seq<byte>, width: nat, height: nat)
  {
    forall x, y :: 0 <= x < width && 0 <= y < height ==> !IsRedAt(data, width, x, y)
  }

  /** With no red pixel the located bounds are the empty sentinel, and with one they are not. */
  lemma RedBoundsEmpty(data: seq<byte>, width: nat, height: nat)
    ensures RedBounds(data, width, height).Empty? <==> NoRedPixel(data, width, height)
    ensures RedBounds(data, width, height).Empty? ==> !IsRectangleBoundsValid(RedBounds(data, width, height))
  {
    var grid := GridRed(data, width, height);
    if grid != [] {
      GridRedSound(data, width, height);
      assert IsRedAt(data, width, grid[0].x, grid[0].y);
    } else {
      forall x, y | 0 <= x < width && 0 <= y < height
        ensures !IsRedAt(data, width, x, y)
      {
        if IsRedAt(data, width, x, y) {
          GridRedComplete(data, width, height, x, y);
        }
      }
    }
  }

  /** Every red pixel of the image lies in the located box, and each side of the box touches a red
      pixel: the minimum and maximum coordinates are exactly the extreme red coordinates. */
  lemma RedBoundsExact(data: seq<byte>, width: nat, height: nat)
    ensures forall x, y :: 0 <= x < width && 0 <= y < height && IsRedAt(data, width, x, y) ==>
              Contains(RedBounds(data, width, height), Point(x, y))
    ensures var b := RedBounds(data, width, height);
            b.Box? ==>
              (exists x, y :: 0 <= y < height && IsRedAt(data, width, x, y) && x == b.minX) &&
              (exists x, y :: 0 <= x < width && IsRedAt(data, width, x, y) && y == b.minY) &&
              (exists x, y :: 0 <= y < height && IsRedAt(data, width, x, y) && x == b.maxX) &&
              (exists x, y :: 0 <= x < width && IsRedAt(data, width, x, y) && y == b.maxY)
  {
    var grid := GridRed(data, width, height);
    var b := BoundsOf(grid);
    BoundsOfContains(grid);
    forall x, y | 0 <= x < width && 0 <= y < height && IsRedAt(data, width, x, y)
      ensures Contains(b, Point(x, y))
    {
      GridRedComplete(data, width, height, x, y);
      var i :| 0 <= i < |grid| && grid[i] == Point(x, y);
    }
    BoundsOfExtremes(grid);
    if b.Box? {
      var i0 :| 0 <= i0 < |grid| && grid[i0].x == b.minX;
      var i1 :| 0 <= i1 < |grid| && grid[i1].y == b.minY;
      var i2 :| 0 <= i2 < |grid| && grid[i2].x == b.maxX;
      var i3 :| 0 <= i3 < |grid| && grid[i3].y == b.maxY;
      GridRedSound(data, width, height);
      assert IsRedAt(data, width, grid[i0].x, grid[i0].y);
      assert IsRedAt(data, width, grid[i1].x, grid[i1].y);
      assert IsRedAt(data, width, grid[i2].x, grid[i2].y);
      assert IsRedAt(data, width, grid[i3].x, grid[i3].y);
    }
  }

  /** The located box lies inside the image. */
  lemma RedBoundsInImage(data: seq<byte>, width: nat, height: nat)
    ensures var b := RedBounds(data, width, height);
            b.Box? ==> 0 <= b.minX <= b.maxX < width && 0 <= b.minY <= b.maxY < height
  {
    var grid := GridRed(data, width, height);
    GridRedSound(data, width, height);
    BoundsOfLeast(grid, Box(0, 0, width - 1, height - 1, 1));
  }

  /** For a marker rectangle with corners (x0, y0) and (x1, y1), filled or hollow, with no other red
      pixel outside it, the located bounds are exactly that rectangle. */
  lemma RedBoundsOfRectangle(data: seq<byte>, width: nat, height: nat, x0: int, y0: int, x1: int, y1: int)
    requires 0 <= x0 <= x1 < width && 0 <= y0 <= y1 < height
    requires IsRedAt(data, width, x0, y0) && IsRedAt(data, width, x1, y1)
    requires forall x, y :: 0 <= x < width && 0 <= y < height && IsRedAt(data, width, x, y) ==>
               x0 <= x <= x1 && y0 <= y <= y1
    ensures var b := RedBounds(data, width, height);
            b.Box? && b.minX == x0 && b.minY == y0 && b.maxX == x1 && b.maxY == y1
  {
    var grid := GridRed(data, width, height);
    RedBoundsExact(data, width, height);
    GridRedSound(data, width, height);
    BoundsOfLeast(grid, Box(x0, y0, x1, y1, 1));
  }
}
