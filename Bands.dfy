/**
 * The row bands of the multi-threaded ops: how the height of a volume is
 * cut among the threads, how a band is copied out of the volume, and how
 * a band's height map is written back into the global map at its offset.
 */
module Bands {
  import opened Grid
  import opened Images
  import opened ImgUtils

  /** The dimensions of a volume, as `dimensions(long[])` reports them. */
  function Dims(source: Volume): seq<int>
  {
    [source.w, source.h, source.d]
  }

  /** The downsampling collaborator yields well-formed volumes. */
  ghost predicate DownsampleValid(downsample: Image -> Volume)
  {
    forall i :: downsample(i).Valid()
  }

  // ---------------------------------------------------------------------
  // Band arithmetic
  // ---------------------------------------------------------------------

  /** Java's long division: truncation toward zero. */
  function JavaDiv(a: int, b: int): int
    requires b != 0
  {
    if (a >= 0) == (b > 0) then
      (if a >= 0 then a / b else (-a) / (-b))
    else
      -((if a >= 0 then a else -a) / (if b > 0 then b else -b))
  }

  lemma JavaDivOfNonNegatives(a: int, b: int)
    requires a >= 0 && b > 0
    ensures JavaDiv(a, b) == a / b
  {
  }

  /** The height of a regular band: H / T rows. */
  function BandHeight(height: int, numThreads: int): int
    requires numThreads > 0
  {
    height / numThreads
  }

  /** The first row of band d: (H / T)·d, the height entry of offset row d. */
  function BandStart(height: int, numThreads: int, d: int): int
    requires numThreads > 0
  {
    BandHeight(height, numThreads) * d
  }

  /** The band start is the height entry of the offset table. */
  lemma BandStartIsOffset(dims: seq<int>, numThreads: int, d: int)
    requires |dims| >= 2 && numThreads > 0
    ensures OffsetRow(dims, numThreads, d)[1] == BandStart(dims[1], numThreads, d)
    ensures OffsetRow(dims, numThreads, d)[0] == 0
  {
  }

  /** The height of the last band when it absorbs the remainder rows. */
  function LastBandHeight(height: int, numThreads: int): int
    requires numThreads > 0
  {
    height - BandHeight(height, numThreads) * (numThreads - 1)
  }

  /** The height of band d when the last band absorbs the remainder. */
  function ChunkHeight(height: int, numThreads: int, d: int): int
    requires numThreads > 0
  {
    if d == numThreads - 1 then LastBandHeight(height, numThreads) else BandHeight(height, numThreads)
  }

  /** The Euclidean facts about H / T the band lemmas rest on. */
  lemma BandHeightBounds(height: int, numThreads: int)
    requires height >= 0 && numThreads > 0
    ensures 0 <= BandHeight(height, numThreads)
    ensures BandHeight(height, numThreads) * numThreads <= height
    ensures height < BandHeight(height, numThreads) * numThreads + numThreads
  {
    var b := height / numThreads;
    assert height == numThreads * b + height % numThreads;
    assert b * numThreads == numThreads * b;
  }

  /** The last band is at least as tall as every other band. */
  lemma LastBandTallest(height: int, numThreads: int)
    requires height >= 0 && numThreads > 0
    ensures LastBandHeight(height, numThreads) >= BandHeight(height, numThreads) >= 0
    ensures forall d :: 0 <= d < numThreads ==> ChunkHeight(height, numThreads, d) <= LastBandHeight(height, numThreads)
  {
    var b := BandHeight(height, numThreads);
    BandHeightBounds(height, numThreads);
    assert b * (numThreads - 1) == b * numThreads - b;
  }

  /** Each band ends where the next begins, and the last ends at H. */
  lemma ChunksContiguous(height: int, numThreads: int, d: int)
    requires height >= 0 && numThreads > 0 && 0 <= d < numThreads
    ensures 0 <= BandStart(height, numThreads, d)
    ensures d < numThreads - 1 ==>
      BandStart(height, numThreads, d) + ChunkHeight(height, numThreads, d) == BandStart(height, numThreads, d + 1)
    ensures d == numThreads - 1 ==>
      BandStart(height, numThreads, d) + ChunkHeight(height, numThreads, d) == height
    ensures BandStart(height, numThreads, d) + ChunkHeight(height, numThreads, d) <= height
  {
    var b := BandHeight(height, numThreads);
    BandHeightBounds(height, numThreads);
    NonNegProduct(b, d);
    assert b * (d + 1) == b * d + b;
    if d < numThreads - 1 {
      MulLeq(d + 1, numThreads, b);
      assert (d + 1) * b == b * (d + 1) && numThreads * b == b * numThreads;
    }
  }

  /** The total height of the first n bands. */
  function ChunkHeightTotal(height: int, numThreads: int, n: nat): int
    requires numThreads > 0
  {
    if n == 0 then 0 else ChunkHeightTotal(height, numThreads, n - 1) + ChunkHeight(height, numThreads, n - 1)
  }

  /** The first n bands end at the start of band n, and all bands together
      are exactly H rows tall. */
  lemma {:induction false} ChunkHeightsSum(height: int, numThreads: int, n: nat)
    requires height >= 0 && numThreads > 0 && n <= numThreads
    ensures n < numThreads ==> ChunkHeightTotal(height, numThreads, n) == BandStart(height, numThreads, n)
    ensures n == numThreads ==> ChunkHeightTotal(height, numThreads, n) == height
  {
    if n > 0 {
      ChunkHeightsSum(height, numThreads, n - 1);
      ChunksContiguous(height, numThreads, n - 1);
    }
  }

  lemma LessByFactor(a: int, c: int, b: int)
    requires b > 0 && a * b < c * b
    ensures a < c
  {
    if a >= c {
      MulLeq(c, a, b);
    }
  }

  /** Division recovers the band of a row that lies inside it. */
  lemma DivBetween(y: int, b: int, d: int)
    requires b > 0 && d >= 0 && b * d <= y < b * d + b
    ensures y / b == d
  {
    assert b * d == d * b;
    Flat2Coordinates(y - b * d, d, b);
  }

  /** The band a row belongs to when the last band absorbs the remainder. */
  function ChunkOf(height: int, numThreads: int, y: int): (d: int)
    requires numThreads > 0 && y >= 0
    ensures 0 <= d < numThreads
  {
    var b := BandHeight(height, numThreads);
    if b <= 0 || y / b >= numThreads - 1 then numThreads - 1 else y / b
  }

  /** Row y lies in band ChunkOf(y). */
  lemma InOwnChunk(height: int, numThreads: int, y: int)
    requires height >= 0 && numThreads > 0 && 0 <= y < height
    ensures BandStart(height, numThreads, ChunkOf(height, numThreads, y)) <= y
    ensures y < BandStart(height, numThreads, ChunkOf(height, numThreads, y))
              + ChunkHeight(height, numThreads, ChunkOf(height, numThreads, y))
  {
    var b := BandHeight(height, numThreads);
    var c := ChunkOf(height, numThreads, y);
    ChunksContiguous(height, numThreads, c);
    if b > 0 {
      var q := y / b;
      assert b * q <= y < b * q + b;
      if q >= numThreads - 1 {
        MulLeq(numThreads - 1, q, b);
        assert (numThreads - 1) * b == b * (numThreads - 1) && q * b == b * q;
      }
    } else {
      assert b == 0 && c == numThreads - 1;
      assert BandStart(height, numThreads, c) == 0;
    }
  }

  /** A row lies in no band but ChunkOf(y). */
  lemma OnlyOwnChunk(height: int, numThreads: int, y: int, d: int)
    requires height >= 0 && numThreads > 0 && 0 <= y < height && 0 <= d < numThreads
    requires BandStart(height, numThreads, d) <= y < BandStart(height, numThreads, d) + ChunkHeight(height, numThreads, d)
    ensures d == ChunkOf(height, numThreads, y)
  {
    var b := BandHeight(height, numThreads);
    assert BandStart(height, numThreads, d) == b * d;
    if d < numThreads - 1 {
      assert b * d <= y < b * d + b;
      DivBetween(y, b, d);
    } else if b > 0 {
      var q := y / b;
      assert b * q <= y < b * q + b;
      assert (numThreads - 1) * b <= y < (q + 1) * b;
      LessByFactor(numThreads - 1, q + 1, b);
    }
  }

  /** Remainder-absorbing bands are pairwise disjoint and cover [0, H):
      row y lies in band d exactly when d is ChunkOf(y). */
  lemma ChunkCover(height: int, numThreads: int, y: int, d: int)
    requires height >= 0 && numThreads > 0 && 0 <= y < height && 0 <= d < numThreads
    ensures BandStart(height, numThreads, d) <= y < BandStart(height, numThreads, d) + ChunkHeight(height, numThreads, d)
        <==> d == ChunkOf(height, numThreads, y)
  {
    InOwnChunk(height, numThreads, y);
    if BandStart(height, numThreads, d) <= y < BandStart(height, numThreads, d) + ChunkHeight(height, numThreads, d) {
      OnlyOwnChunk(height, numThreads, y, d);
    }
  }

  /** Equal bands cover only [0, T·(H / T)): row y lies in band d exactly
      when it is below T·(H / T) and d is y / (H / T). */
  lemma BandCover(height: int, numThreads: int, y: int, d: int)
    requires height >= 0 && numThreads > 0 && 0 <= y < height && 0 <= d < numThreads
    ensures BandStart(height, numThreads, d) <= y < BandStart(height, numThreads, d) + BandHeight(height, numThreads)
        <==> (BandHeight(height, numThreads) > 0 && y < numThreads * BandHeight(height, numThreads)
              && d == y / BandHeight(height, numThreads))
  {
    var b := BandHeight(height, numThreads);
    BandHeightBounds(height, numThreads);
    if b > 0 {
      if b * d <= y < b * d + b {
        DivBetween(y, b, d);
        MulLeq(d + 1, numThreads, b);
        assert (d + 1) * b == b * d + b && numThreads * b == b * numThreads;
      }
      if y / b == d {
        assert b * (y / b) <= y < b * (y / b) + b;
      }
    }
  }

  // ---------------------------------------------------------------------
  // Copying a band out of the volume
  // ---------------------------------------------------------------------

  /** An offset view fits the source: the offset is non-negative and the
      w-by-h-by-d box it starts lies inside the source. */
  predicate OffsetFits(source: Volume, offset: seq<int>, w: nat, h: nat, d: nat)
  {
    |offset| == 3 && 0 <= offset[0] && 0 <= offset[1] && 0 <= offset[2]
    && offset[0] + w <= source.w && offset[1] + h <= source.h && offset[2] + d <= source.d
  }

  /** Sample q of the copied box: the source voxel at the box position plus the offset. */
  function OffsetSample(source: Volume, offset: seq<int>, w: nat, h: nat, d: nat, q: int): real
    requires source.Valid() && OffsetFits(source, offset, w, h, d) && 0 <= q < w * h * d
  {
    assert w > 0 && h > 0;
    VoxelInRange(q, w, h, d);
    source.At(VoxelX(q, w, h) + offset[0], VoxelY(q, w, h) + offset[1], VoxelZ(q, w, h) + offset[2])
  }

  /** The w-by-h-by-d box of the source that starts at the offset. */
  function OffsetVolume(source: Volume, offset: seq<int>, w: nat, h: nat, d: nat): (v: Volume)
    requires source.Valid() && OffsetFits(source, offset, w, h, d)
    ensures v.Valid() && v.w == w && v.h == h && v.d == d
  {
    Volume(w, h, d, seq(w * h * d, q requires 0 <= q < w * h * d => OffsetSample(source, offset, w, h, d, q)))
  }

  /** Every voxel of the box is the source voxel shifted by the offset. */
  lemma OffsetVolumeAt(source: Volume, offset: seq<int>, w: nat, h: nat, d: nat, x: int, y: int, z: int)
    requires source.Valid() && OffsetFits(source, offset, w, h, d)
    requires 0 <= x < w && 0 <= y < h && 0 <= z < d
    ensures OffsetVolume(source, offset, w, h, d).At(x, y, z) == source.At(x + offset[0], y + offset[1], z + offset[2])
  {
    Flat3InRange(x, y, z, w, h, d);
    Flat3Coordinates(x, y, z, w, h);
  }

  /**
   * The copy of one band: a fresh w-by-h-by-d image filled by a cursor,
   * each sample read from the source through a view shifted by the offset.
   */
  method CopyBand(source: Volume, offset: seq<int>, w: nat, h: nat, d: nat) returns (chunk: Volume)
    requires source.Valid() && OffsetFits(source, offset, w, h, d)
    ensures chunk == OffsetVolume(source, offset, w, h, d)
    ensures forall x, y, z :: 0 <= x < w && 0 <= y < h && 0 <= z < d ==>
      chunk.At(x, y, z) == source.At(x + offset[0], y + offset[1], z + offset[2])
  {
    var n := w * h * d;
    var data := new real[n](_ => 0.0);
    for q := 0 to n
      invariant forall r :: 0 <= r < q ==> data[r] == OffsetSample(source, offset, w, h, d, r)
    {
      assert w > 0 && h > 0;
      VoxelInRange(q, w, h, d);
      var x, y, z := VoxelX(q, w, h), VoxelY(q, w, h), VoxelZ(q, w, h);  // the cursor's position
      data[q] := source.At(x + offset[0], y + offset[1], z + offset[2]);
    }
    chunk := Volume(w, h, d, data[..]);
    assert chunk.data == OffsetVolume(source, offset, w, h, d).data;
    forall x, y, z | 0 <= x < w && 0 <= y < h && 0 <= z < d
      ensures chunk.At(x, y, z) == source.At(x + offset[0], y + offset[1], z + offset[2])
    {
      OffsetVolumeAt(source, offset, w, h, d, x, y, z);
    }
  }

  // ---------------------------------------------------------------------
  // Writing a band's map back at its offset
  // ---------------------------------------------------------------------

  /** A height map of a tile's shape: one sample per column of the tile. */
  predicate TileMap(m: Plane, tile: Volume)
  {
    m.Valid() && m.w == tile.w && m.h == tile.h
  }

  /** The flat index of the global map that the cursor's position p of a
      map of width mapWidth is written to: the same pixel, rowOffset rows lower. */
  function Target(p: int, mapWidth: int, rowOffset: int, width: int): int
    requires mapWidth > 0
  {
    Flat2(ColumnOf(p, mapWidth), RowOf(p, mapWidth) + rowOffset, width)
  }

  /** The global map g after the cursor has written the first p samples of
      m, each at its target; a target outside g is skipped. The global map
      has the input's pixel type, so each sample is stored as `narrow` of
      it: the conversion that type's `setReal` applies (exact for a float
      type; rounding, and wrap-around outside the range, for an integer one). */
  function WrittenPrefix(narrow: real -> real, g: seq<real>, m: Plane,
                         rowOffset: int, width: int, p: nat): (r: seq<real>)
    requires m.Valid() && p <= |m.data|
    ensures |r| == |g|
  {
    if p == 0 || m.w == 0 then g
    else
      var r0 := WrittenPrefix(narrow, g, m, rowOffset, width, p - 1);
      var i := Target(p - 1, m.w, rowOffset, width);
      if 0 <= i < |r0| then r0[i := narrow(m.data[p - 1])] else r0
  }

  /** A map as wide as the global map is written at consecutive indices. */
  lemma TileTarget(p: int, width: int, rowOffset: int)
    requires width > 0 && p >= 0
    ensures Target(p, width, rowOffset, width) == p + rowOffset * width
  {
    var x, y := p % width, p / width;
    assert p == y * width + x by {
      assert p == width * y + x;
    }
    assert (y + rowOffset) * width == y * width + rowOffset * width;
  }

  /** For such a map, the first p writes fill the p indices from rowOffset·width on. */
  lemma {:induction false} WrittenPrefixOfTile(narrow: real -> real, g: seq<real>, m: Plane,
                                               rowOffset: int, width: int, p: nat, i: int)
    requires m.Valid() && m.w == width && 0 <= rowOffset && p <= |m.data|
    requires rowOffset * width + |m.data| <= |g| && 0 <= i < |g|
    ensures WrittenPrefix(narrow, g, m, rowOffset, width, p)[i]
         == if rowOffset * width <= i < rowOffset * width + p then narrow(m.data[i - rowOffset * width]) else g[i]
  {
    if p > 0 && m.w > 0 {
      WrittenPrefixOfTile(narrow, g, m, rowOffset, width, p - 1, i);
      TileTarget(p - 1, width, rowOffset);
    }
  }

  /** The same in pixel terms: the whole map lands on rows [rowOffset, rowOffset + m.h). */
  lemma WrittenTilePixel(narrow: real -> real, g: seq<real>, m: Plane,
                         rowOffset: int, width: nat, height: nat, x: int, y: int)
    requires m.Valid() && m.w == width && 0 <= rowOffset && rowOffset + m.h <= height
    requires |g| == width * height && 0 <= x < width && 0 <= y < height
    ensures 0 <= Flat2(x, y, width) < |g|
    ensures WrittenPrefix(narrow, g, m, rowOffset, width, |m.data|)[Flat2(x, y, width)]
         == if rowOffset <= y < rowOffset + m.h then narrow(m.At(x, y - rowOffset)) else g[Flat2(x, y, width)]
  {
    Flat2InRange(x, y, width, height);
    MulLeq(rowOffset + m.h, height, width);
    assert rowOffset * width + |m.data| == (rowOffset + m.h) * width;
    var i := Flat2(x, y, width);
    WrittenPrefixOfTile(narrow, g, m, rowOffset, width, |m.data|, i);
    assert i - rowOffset * width == Flat2(x, y - rowOffset, width);
    if rowOffset <= y < rowOffset + m.h {
      Flat2InRange(x, y - rowOffset, width, m.h);
    } else if y < rowOffset {
      MulLeq(y + 1, rowOffset, width);
      assert (y + 1) * width == y * width + width;
    } else {
      MulLeq(rowOffset + m.h, y, width);
    }
  }

  /** Two maps written to disjoint rows give the same global map in either
      order, so the order in which the bands finish does not matter. */
  lemma WritesCommute(narrow: real -> real, g: seq<real>, m1: Plane,
                      o1: int, m2: Plane, o2: int, width: nat, height: nat)
    requires m1.Valid() && m1.w == width && 0 <= o1 && o1 + m1.h <= height
    requires m2.Valid() && m2.w == width && 0 <= o2 && o2 + m2.h <= height
    requires |g| == width * height
    requires o1 + m1.h <= o2 || o2 + m2.h <= o1
    ensures WrittenPrefix(narrow, WrittenPrefix(narrow, g, m1, o1, width, |m1.data|), m2, o2, width, |m2.data|)
         == WrittenPrefix(narrow, WrittenPrefix(narrow, g, m2, o2, width, |m2.data|), m1, o1, width, |m1.data|)
  {
    var g1 := WrittenPrefix(narrow, g, m1, o1, width, |m1.data|);
    var g2 := WrittenPrefix(narrow, g, m2, o2, width, |m2.data|);
    var a := WrittenPrefix(narrow, g1, m2, o2, width, |m2.data|);
    var b := WrittenPrefix(narrow, g2, m1, o1, width, |m1.data|);
    assert |a| == |b| == width * height;
    forall i | 0 <= i < width * height
      ensures a[i] == b[i]
    {
      var x, y := ColumnOf(i, width), RowOf(i, width);
      CoordinatesInRange(i, width, height);
      WrittenTilePixel(narrow, g, m1, o1, width, height, x, y);
      WrittenTilePixel(narrow, g, m2, o2, width, height, x, y);
      WrittenTilePixel(narrow, g1, m2, o2, width, height, x, y);
      WrittenTilePixel(narrow, g2, m1, o1, width, height, x, y);
    }
  }

  /**
   * The write-back of one band's two maps, advancing both cursors in
   * lockstep. Both maps have the band's shape, so every target lies inside
   * the global maps.
   */
  method WriteMapPair(global1: array<real>, global2: array<real>, m1: Plane, m2: Plane,
                      rowOffset: int, width: nat, height: nat, narrow: real -> real)
    requires global1 != global2 && global1.Length == width * height && global2.Length == width * height
    requires m1.Valid() && m2.Valid() && m1.w == m2.w == width && m1.h == m2.h
    requires 0 <= rowOffset && rowOffset + m1.h <= height
    modifies global1, global2
    ensures global1[..] == WrittenPrefix(narrow, old(global1[..]), m1, rowOffset, width, |m1.data|)
    ensures global2[..] == WrittenPrefix(narrow, old(global2[..]), m2, rowOffset, width, |m2.data|)
  {
    ghost var g1, g2 := global1[..], global2[..];
    MulLeq(rowOffset + m1.h, height, width);
    assert rowOffset * width + |m1.data| == (rowOffset + m1.h) * width;
    for p := 0 to |m1.data|
      invariant global1[..] == WrittenPrefix(narrow, g1, m1, rowOffset, width, p)
      invariant global2[..] == WrittenPrefix(narrow, g2, m2, rowOffset, width, p)
    {
      assert width > 0;
      TileTarget(p, width, rowOffset);
      var i1 := Target(p, m1.w, rowOffset, width);
      global1[i1] := narrow(m1.data[p]);
      var i2 := Target(p, m2.w, rowOffset, width);
      global2[i2] := narrow(m2.data[p]);
    }
  }

  /**
   * The write-back of one band's map: every sample of the cursor is
   * written at its target, and a write that falls outside the global map
   * raises an out-of-bounds exception that is caught, so that sample is
   * skipped and the cursor moves on.
   */
  method WriteMapSkipping(global: array<real>, m: Plane, rowOffset: int, width: int, narrow: real -> real)
    requires m.Valid()
    modifies global
    ensures global[..] == WrittenPrefix(narrow, old(global[..]), m, rowOffset, width, |m.data|)
  {
    ghost var g := global[..];
    for p := 0 to |m.data|
      invariant global[..] == WrittenPrefix(narrow, g, m, rowOffset, width, p)
    {
      assert m.w > 0;
      var i := Target(p, m.w, rowOffset, width);
      if 0 <= i < global.Length {
        global[i] := narrow(m.data[p]);
      }
    }
  }
}
