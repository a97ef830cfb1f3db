/**
 * Index arithmetic of ImgLib2 array images: pixels are stored with the
 * first coordinate varying fastest, so the pixel (x, y) of a plane of width
 * w sits at x + y*w and the voxel (x, y, z) of a volume of width w and
 * height h sits at x + y*w + z*w*h. A cursor visits the pixels in that
 * order, and `localize` recovers the coordinates by division and remainder.
 */
module Grid {

  /** Flat index of pixel (x, y) in a plane of width w. */
  function Flat2(x: int, y: int, w: int): int
  {
    x + y * w
  }

  /** Flat index of voxel (x, y, z) in a volume of width w and height h. */
  function Flat3(x: int, y: int, z: int, w: int, h: int): int
  {
    Flat2(Flat2(x, y, w), z, w * h)
  }

  /** The coordinates a cursor reports at flat position i of a plane of width w. */
  function ColumnOf(i: int, w: int): int
    requires w > 0
  {
    i % w
  }

  function RowOf(i: int, w: int): int
    requires w > 0
  {
    i / w
  }

  lemma MulLeq(a: int, b: int, c: int)
    requires a <= b && 0 <= c
    ensures a * c <= b * c
  {
    var k := b - a;
    assert b * c == a * c + k * c;
    assert k * c >= 0 by { NonNegProduct(k, c); }
  }

  lemma {:induction false} NonNegProduct(a: int, b: int)
    requires 0 <= a && 0 <= b
    ensures a * b >= 0
  {
    if a > 0 {
      NonNegProduct(a - 1, b);
      assert a * b == (a - 1) * b + b;
    }
  }

  /** A pixel inside a w-by-h plane has a flat index inside [0, w*h). */
  lemma Flat2InRange(x: int, y: int, w: int, h: int)
    requires 0 <= x < w && 0 <= y < h
    ensures 0 <= Flat2(x, y, w) < w * h
  {
    NonNegProduct(y, w);
    MulLeq(y, h - 1, w);
    assert (h - 1) * w == h * w - w;
  }

  /** Division and remainder by the width give the coordinates back. */
  lemma Flat2Coordinates(x: int, y: int, w: int)
    requires 0 <= x < w && 0 <= y
    ensures ColumnOf(Flat2(x, y, w), w) == x
    ensures RowOf(Flat2(x, y, w), w) == y
  {
    var i := Flat2(x, y, w);
    var q, r := i / w, i % w;
    assert i == q * w + r && 0 <= r < w;
    assert (y + 1) * w == y * w + w && (y - 1) * w == y * w - w;
    if q > y {
      MulLeq(y + 1, q, w);
    } else if q < y {
      MulLeq(q, y - 1, w);
    }
    assert q == y;
    assert r == x;
  }

  /** A flat position inside a w-by-h plane has coordinates inside it. */
  lemma CoordinatesInRange(i: int, w: int, h: int)
    requires w > 0 && 0 <= i < w * h
    ensures 0 <= ColumnOf(i, w) < w && 0 <= RowOf(i, w) < h
    ensures Flat2(ColumnOf(i, w), RowOf(i, w), w) == i
  {
    var q, r := i / w, i % w;
    assert i == q * w + r && 0 <= r < w;
    if q >= h {
      MulLeq(h, q, w);
    }
    if q < 0 {
      MulLeq(q, -1, w);
    }
  }

  /** A voxel inside a w-by-h-by-d volume has a flat index inside [0, w*h*d). */
  lemma Flat3InRange(x: int, y: int, z: int, w: int, h: int, d: int)
    requires 0 <= x < w && 0 <= y < h && 0 <= z < d
    ensures 0 <= Flat3(x, y, z, w, h) < w * h * d
  {
    Flat2InRange(x, y, w, h);
    Flat2InRange(Flat2(x, y, w), z, w * h, d);
  }

  /** The coordinates a cursor reports at flat position q of a volume of width w and height h. */
  function VoxelX(q: int, w: int, h: int): int
    requires w > 0 && h > 0
  {
    ColumnOf(q % (w * h), w)
  }

  function VoxelY(q: int, w: int, h: int): int
    requires w > 0 && h > 0
  {
    RowOf(q % (w * h), w)
  }

  function VoxelZ(q: int, w: int, h: int): int
    requires w > 0 && h > 0
  {
    q / (w * h)
  }

  /** A flat position inside a w-by-h-by-d volume has coordinates inside it. */
  lemma VoxelInRange(q: int, w: int, h: int, d: int)
    requires w > 0 && h > 0 && 0 <= q < w * h * d
    ensures 0 <= VoxelX(q, w, h) < w && 0 <= VoxelY(q, w, h) < h && 0 <= VoxelZ(q, w, h) < d
    ensures Flat3(VoxelX(q, w, h), VoxelY(q, w, h), VoxelZ(q, w, h), w, h) == q
  {
    NonNegProduct(w, h);
    assert w * h > 0 by { MulLeq(1, h, w); }
    CoordinatesInRange(q, w * h, d);
    CoordinatesInRange(q % (w * h), w, h);
  }

  /** Division and remainder give the coordinates of a voxel back. */
  lemma Flat3Coordinates(x: int, y: int, z: int, w: int, h: int)
    requires 0 <= x < w && 0 <= y < h && 0 <= z
    ensures VoxelX(Flat3(x, y, z, w, h), w, h) == x
    ensures VoxelY(Flat3(x, y, z, w, h), w, h) == y
    ensures VoxelZ(Flat3(x, y, z, w, h), w, h) == z
  {
    Flat2InRange(x, y, w, h);
    Flat2Coordinates(Flat2(x, y, w), z, w * h);
    Flat2Coordinates(x, y, w);
  }
}
