/** The decoded RGBA buffer: bytes, the marker colour, pixel indexing, and the per-file statistics loop. */
module Pixels {
  import opened Geometry

  newtype byte = x: int | 0 <= x < 256

  /** The marker colour: full-intensity red, fully opaque, with no tolerance. */
  predicate IsRedPixel(r: byte, g: byte, b: byte, a: byte): (red: bool)
    ensures red <==> [r, g, b, a] == [255, 0, 0, 255]
  {
    r == 255 && g == 0 && b == 0 && a == 255
  }

  /** The four bytes at `offset` form a red pixel. A byte read past either end of the buffer is
      `undefined` in the source, which equals neither 0 nor 255, so such a pixel is never red. */
  predicate IsRedOffset(data: seq<byte>, offset: int): (red: bool)
    ensures red <==> 0 <= offset && offset + 4 <= |data| && data[offset..offset + 4] == [255, 0, 0, 255]
  {
    0 <= offset && offset + 3 < |data| &&
    IsRedPixel(data[offset], data[offset + 1], data[offset + 2], data[offset + 3])
  }

  /** Flat index of pixel (x, y) in a row-major image `width` pixels wide. */
  function Idx(width: nat, x: int, y: int): int
  {
    y * width + x
  }

  /** Pixel (x, y) of a `width`-wide image is red. */
  predicate IsRedAt(data: seq<byte>, width: nat, x: int, y: int)
  {
    0 <= x < width && IsRedOffset(data, Idx(width, x, y) * 4)
  }

  /** The coordinates of flat index `i`: column `i % width`, row `i / width`. */
  function PointOf(width: nat, i: int): Point
  {
    if width == 0 then Point(0, 0) else Point(i % width, i / width)
  }

  lemma MulStrictMono(a: int, b: int, w: int)
    requires a < b && w > 0
    ensures a * w + w <= b * w
  {
    var d := b - a;
    assert d >= 1;
    assert d * w >= w by {
      assert d * w == (d - 1) * w + w;
      assert (d - 1) * w >= 0;
    }
    assert b * w == a * w + d * w;
  }

  /** Pixel (x, y) of a width x height image has a flat index inside the image, and that index
      maps back to (x, y). */
  lemma IdxInImage(width: nat, height: nat, x: int, y: int)
    requires 0 <= x < width && 0 <= y < height
    ensures 0 <= Idx(width, x, y) < width * height
    ensures PointOf(width, Idx(width, x, y)) == Point(x, y)
  {
    var i := Idx(width, x, y);
    assert 0 <= y * width;
    MulStrictMono(y, height, width);
    assert y * width + width <= height * width;
    var q, r := i / width, i % width;
    assert i == q * width + r && 0 <= r < width;
    if q < y {
      MulStrictMono(q, y, width);
      assert false;
    } else if q > y {
      MulStrictMono(y, q, width);
      assert false;
    }
  }

  /** For pixels of a `width`-wide image, flat index order is row-major order: rows top to bottom,
      each row left to right. */
  lemma IdxRowMajor(width: nat, p: Point, q: Point)
    requires 0 <= p.x < width && 0 <= q.x < width
    ensures Idx(width, p.x, p.y) < Idx(width, q.x, q.y) <==> p.y < q.y || (p.y == q.y && p.x < q.x)
  {
    if p.y < q.y {
      MulStrictMono(p.y, q.y, width);
    } else if q.y < p.y {
      MulStrictMono(q.y, p.y, width);
    }
  }

  /** A flat index inside a width x height image has coordinates inside the image that map back to it. */
  lemma PointOfInImage(width: nat, height: nat, i: int)
    requires 0 <= i < width * height
    ensures width > 0
    ensures 0 <= PointOf(width, i).x < width && 0 <= PointOf(width, i).y < height
    ensures Idx(width, PointOf(width, i).x, PointOf(width, i).y) == i
  {
  }

  /** Number of red pixels among the first `n` four-byte groups of `data`. */
  function CountRed(data: seq<byte>, n: nat): (c: nat)
    ensures c <= n
  {
    if n == 0 then 0 else CountRed(data, n - 1) + (if IsRedOffset(data, 4 * (n - 1)) then 1 else 0)
  }

  datatype ScreenshotStats = ScreenshotStats(width: nat, height: nat, pixelCount: nat, redPixelCount: nat)

  /** The counting loop of the screenshot statistics: one step per four-byte group of the decoded
      buffer (a trailing partial group counts as a pixel that is not red). */
  method CalculateScreenshotStats(width: nat, height: nat, data: seq<byte>) returns (stats: ScreenshotStats)
    ensures stats.width == width && stats.height == height
    ensures stats.pixelCount == (|data| + 3) / 4
    ensures stats.redPixelCount == CountRed(data, stats.pixelCount)
    ensures stats.redPixelCount <= stats.pixelCount
  {
    var pixelCount: nat := 0;
    var redPixelCount: nat := 0;
    var i := 0;
    while i < |data|
      invariant i == 4 * pixelCount
      invariant i <= |data| + 3
      invariant redPixelCount == CountRed(data, pixelCount)
    {
      pixelCount := pixelCount + 1;
      if IsRedOffset(data, i) {
        redPixelCount := redPixelCount + 1;
      }
      i := i + 4;
    }
    stats := ScreenshotStats(width, height, pixelCount, redPixelCount);
  }
}
