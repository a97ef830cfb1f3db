/**
 * The two-surface multi-threaded op: the downsampled volume is cut into
 * row bands whose last band absorbs the remainder rows, each band is
 * copied out and solved for two surfaces by a detector left abstract here,
 * and the two altitude maps of every band are written back at the band's
 * offset into two global maps.
 */
module MinCost2ZSurfaceMT {
  import opened Grid
  import opened Images
  import opened ImgUtils
  import opened Bands

  /** The detector returns, for every chunk, two maps of the chunk's shape
      (or None, when the chunk's thread fails before writing anything). */
  ghost predicate TileShaped(detect: Volume -> Option<(Plane, Plane)>)
  {
    forall v :: detect(v).Some? ==> TileMap(detect(v).value.0, v) && TileMap(detect(v).value.1, v)
  }

  function Pick(maps: (Plane, Plane), second: bool): Plane
  {
    if second then maps.1 else maps.0
  }

  /** The thread count after the guard: the height, when there are fewer
      rows than threads or the count is negative. */
  function ClampedThreads(height: int, numThreads: int): (t: int)
    requires height >= 0
    ensures t == 0 <==> numThreads == 0 || height == 0
    ensures t != 0 ==> 0 < t <= height
    ensures 0 < numThreads <= height ==> t == numThreads
  {
    if height < numThreads || numThreads < 0 then height else numThreads
  }

  /** Chunk d: the band of rows [(H / T)·d, (H / T)·d + ChunkHeight(d)) of the source. */
  function Chunk(source: Volume, numThreads: int, d: int): (v: Volume)
    requires source.Valid() && numThreads > 0 && 0 <= d < numThreads
    ensures v.Valid() && v.w == source.w && v.h == ChunkHeight(source.h, numThreads, d) && v.d == source.d
  {
    ChunksContiguous(source.h, numThreads, d);
    LastBandTallest(source.h, numThreads);
    OffsetVolume(source, OffsetRow(Dims(source), numThreads, d), source.w, ChunkHeight(source.h, numThreads, d), source.d)
  }

  /** Global map 1 (or 2, when `second`) after the first n chunks have been written back. */
  function Stitched(source: Volume, numThreads: int, detect: Volume -> Option<(Plane, Plane)>,
                    narrow: real -> real, second: bool, n: int): (r: seq<real>)
    requires source.Valid() && numThreads > 0 && 0 <= n <= numThreads && TileShaped(detect)
    ensures |r| == source.w * source.h
    decreases n
  {
    if n == 0 then ZeroPlane(source.w, source.h).data
    else
      var g := Stitched(source, numThreads, detect, narrow, second, n - 1);
      match detect(Chunk(source, numThreads, n - 1))
      case None => g
      case Some(maps) =>
        WrittenPrefix(narrow, g, Pick(maps, second), BandStart(source.h, numThreads, n - 1), source.w, |Pick(maps, second).data|)
  }

  /** What global map 1 (or 2) holds at (x, y): the map of the chunk that
      owns row y, read at the row's place inside the chunk and narrowed to
      the global map's pixel type, or zero when that chunk produced no maps. */
  function StitchedPixel(source: Volume, numThreads: int, detect: Volume -> Option<(Plane, Plane)>,
                         narrow: real -> real, second: bool, x: int, y: int): real
    requires source.Valid() && numThreads > 0 && TileShaped(detect)
    requires 0 <= x < source.w && 0 <= y < source.h
  {
    var d := ChunkOf(source.h, numThreads, y);
    match detect(Chunk(source, numThreads, d))
    case None => 0.0
    case Some(maps) =>
      ChunkCover(source.h, numThreads, y, d);
      narrow(Pick(maps, second).At(x, y - BandStart(source.h, numThreads, d)))
  }

  /** The rows the first n chunks cover. */
  function Reach(height: int, numThreads: int, n: int): int
    requires numThreads > 0
  {
    if n < numThreads then BandStart(height, numThreads, n) else height
  }

  /** After n chunks, the rows they cover hold their maps and the rest
      still holds the zeros the factory created. */
  lemma {:induction false} StitchedPrefixPixel(source: Volume, numThreads: int, detect: Volume -> Option<(Plane, Plane)>,
                                               narrow: real -> real, second: bool, n: int, x: int, y: int)
    requires source.Valid() && numThreads > 0 && 0 <= n <= numThreads && TileShaped(detect)
    requires 0 <= x < source.w && 0 <= y < source.h
    ensures 0 <= Flat2(x, y, source.w) < source.w * source.h
    ensures Stitched(source, numThreads, detect, narrow, second, n)[Flat2(x, y, source.w)]
         == if y < Reach(source.h, numThreads, n) then StitchedPixel(source, numThreads, detect, narrow, second, x, y) else 0.0
    decreases n
  {
    Flat2InRange(x, y, source.w, source.h);
    if n > 0 {
      var d := n - 1;
      StitchedPrefixPixel(source, numThreads, detect, narrow, second, d, x, y);
      ChunksContiguous(source.h, numThreads, d);
      ChunkCover(source.h, numThreads, y, d);
      match detect(Chunk(source, numThreads, d)) {
        case None =>
        case Some(maps) =>
          WrittenTilePixel(narrow, Stitched(source, numThreads, detect, narrow, second, d), Pick(maps, second),
                           BandStart(source.h, numThreads, d), source.w, source.h, x, y);
      }
    }
  }

  /**
   * The bands, one after the other: copy chunk i out of the source, run the
   * detector on it, and write its two maps back at the chunk's offset. The
   * chunks write disjoint rows, so running them one after the other gives
   * what the threads give in any order.
   */
  method ProcessMT(source: Volume, chunkHeight: int, lastChunkHeight: int, numThreads: int,
                   detect: Volume -> Option<(Plane, Plane)>, narrow: real -> real) returns (first: Plane, second: Plane)
    requires source.Valid() && numThreads >= 0 && TileShaped(detect)
    requires numThreads > 0 ==>
      chunkHeight == BandHeight(source.h, numThreads) && lastChunkHeight == LastBandHeight(source.h, numThreads)
    ensures numThreads == 0 ==> first == second == ZeroPlane(source.w, source.h)
    ensures first.Valid() && first.w == source.w && first.h == source.h
    ensures second.Valid() && second.w == source.w && second.h == source.h
    ensures numThreads > 0 ==> first.data == Stitched(source, numThreads, detect, narrow, false, numThreads)
    ensures numThreads > 0 ==> second.data == Stitched(source, numThreads, detect, narrow, true, numThreads)
    ensures numThreads > 0 ==> forall x, y :: 0 <= x < source.w && 0 <= y < source.h ==>
      first.At(x, y) == StitchedPixel(source, numThreads, detect, narrow, false, x, y)
      && second.At(x, y) == StitchedPixel(source, numThreads, detect, narrow, true, x, y)
  {
    var offsets := CreateOffset(Dims(source), numThreads);
    var offset := offsets.value;
    var width, height := source.w, source.h;
    var global1 := new real[width * height](_ => 0.0);
    var global2 := new real[width * height](_ => 0.0);
    assert global1[..] == ZeroPlane(width, height).data;
    assert global2[..] == ZeroPlane(width, height).data;
    if numThreads == 0 {
      // no thread is started: both maps stay as the factory created them
      return Plane(width, height, global1[..]), Plane(width, height, global2[..]);
    }
    for i := 0 to numThreads
      invariant global1[..] == Stitched(source, numThreads, detect, narrow, false, i)
      invariant global2[..] == Stitched(source, numThreads, detect, narrow, true, i)
    {
      var h := if i == numThreads - 1 then lastChunkHeight else chunkHeight;
      RunChunk(global1, global2, source, numThreads, detect, narrow, offset[i], h, i);
    }
    first := Plane(width, height, global1[..]);
    second := Plane(width, height, global2[..]);
    StitchedMaps(source, numThreads, detect, narrow, first, second);
  }

  /** The body of thread i: copy chunk i out of the source, run the detector
      on it and write its two maps back at the chunk's offset. */
  method RunChunk(global1: array<real>, global2: array<real>, source: Volume, numThreads: int,
                  detect: Volume -> Option<(Plane, Plane)>, narrow: real -> real, offset: seq<int>, h: int, i: int)
    requires source.Valid() && numThreads > 0 && 0 <= i < numThreads && TileShaped(detect)
    requires offset == OffsetRow(Dims(source), numThreads, i) && h == ChunkHeight(source.h, numThreads, i)
    requires global1 != global2
    requires global1[..] == Stitched(source, numThreads, detect, narrow, false, i)
    requires global2[..] == Stitched(source, numThreads, detect, narrow, true, i)
    modifies global1, global2
    ensures global1[..] == Stitched(source, numThreads, detect, narrow, false, i + 1)
    ensures global2[..] == Stitched(source, numThreads, detect, narrow, true, i + 1)
  {
    ChunksContiguous(source.h, numThreads, i);
    LastBandTallest(source.h, numThreads);
    var chunk := CopyBand(source, offset, source.w, h, source.d);
    assert chunk == Chunk(source, numThreads, i);
    match detect(chunk) {
      case None =>
      case Some(maps) =>
        WriteMapPair(global1, global2, maps.0, maps.1, offset[1], source.w, source.h, narrow);
    }
  }

  /** The finished global maps hold, at every pixel, the map of the chunk
      that owns its row. */
  lemma StitchedMaps(source: Volume, numThreads: int, detect: Volume -> Option<(Plane, Plane)>,
                     narrow: real -> real, first: Plane, second: Plane)
    requires source.Valid() && numThreads > 0 && TileShaped(detect)
    requires first == Plane(source.w, source.h, Stitched(source, numThreads, detect, narrow, false, numThreads))
    requires second == Plane(source.w, source.h, Stitched(source, numThreads, detect, narrow, true, numThreads))
    ensures first.Valid() && second.Valid()
    ensures forall x, y :: 0 <= x < source.w && 0 <= y < source.h ==>
      first.At(x, y) == StitchedPixel(source, numThreads, detect, narrow, false, x, y)
      && second.At(x, y) == StitchedPixel(source, numThreads, detect, narrow, true, x, y)
  {
    forall x, y | 0 <= x < source.w && 0 <= y < source.h
      ensures first.At(x, y) == StitchedPixel(source, numThreads, detect, narrow, false, x, y)
      ensures second.At(x, y) == StitchedPixel(source, numThreads, detect, narrow, true, x, y)
    {
      StitchedPrefixPixel(source, numThreads, detect, narrow, false, numThreads, x, y);
      StitchedPrefixPixel(source, numThreads, detect, narrow, true, numThreads, x, y);
    }
  }

  /** How a run ends: the input is not 3-D, an exception ends it, or it
      finishes with the two global maps (before upsampling). */
  datatype Outcome = NotThreeD | Threw(exception: Exception) | Finished(first: Plane, second: Plane)

  class MinCost2ZSurfaceMTOps {
    var numThreads: int
    var upsampledDepthMap1: Option<Result<UpsampleResult>>
    var upsampledDepthMap2: Option<Result<UpsampleResult>>

    constructor(numThreads: int)
      ensures this.numThreads == numThreads
      ensures upsampledDepthMap1 == None && upsampledDepthMap2 == None
    {
      this.numThreads := numThreads;
      upsampledDepthMap1 := None;
      upsampledDepthMap2 := None;
    }

    /**
     * The op on `input`: downsample it, cut the downsampled volume into
     * bands, stitch the two surfaces of every band into two global maps
     * and upsample them back to the input's width and height. The global maps are
     * created in the input's pixel type, and `narrow` is that type's
     * conversion of a stored height.
     */
    method Process2(input: Image, downsample: Image -> Volume, detect: Volume -> Option<(Plane, Plane)>,
                    narrow: real -> real)
      returns (outcome: Outcome)
      requires DownsampleValid(downsample) && TileShaped(detect)
      modifies this
      ensures |input.dims| != 3 ==>
        outcome == NotThreeD && numThreads == old(numThreads)
        && upsampledDepthMap1 == old(upsampledDepthMap1) && upsampledDepthMap2 == old(upsampledDepthMap2)
      ensures |input.dims| == 3 ==> numThreads == ClampedThreads(downsample(input).h, old(numThreads))
      ensures |input.dims| == 3 && numThreads == 0 ==>
        outcome == Threw(DivisionByZero)
        && upsampledDepthMap1 == old(upsampledDepthMap1) && upsampledDepthMap2 == old(upsampledDepthMap2)
      ensures |input.dims| == 3 && numThreads != 0 ==>
        var ds := downsample(input);
        outcome.Finished?
        && outcome.first.w == ds.w && outcome.first.h == ds.h && outcome.second.w == ds.w && outcome.second.h == ds.h
        && outcome.first.data == Stitched(ds, numThreads, detect, narrow, false, numThreads)
        && outcome.second.data == Stitched(ds, numThreads, detect, narrow, true, numThreads)
        && upsampledDepthMap1 == Some(Upsample(Image([ds.w, ds.h], outcome.first.data), [input.dims[0], input.dims[1]]))
        && upsampledDepthMap2 == Some(Upsample(Image([ds.w, ds.h], outcome.second.data), [input.dims[0], input.dims[1]]))
        && upsampledDepthMap1 == Some(Success(Resampled([input.dims[0], input.dims[1]])))
        && upsampledDepthMap2 == Some(Success(Resampled([input.dims[0], input.dims[1]])))
    {
      if |input.dims| != 3 {
        return NotThreeD;
      }
      var dimsOrig := input.dims;
      var ds := downsample(input);
      if ds.h < numThreads || numThreads < 0 {
        numThreads := ds.h;
      }
      if numThreads == 0 {
        return Threw(DivisionByZero);
      }
      var chunkHeight := ds.h / numThreads;
      var lastChunkHeight := ds.h - chunkHeight * (numThreads - 1);
      var first, second := ProcessMT(ds, chunkHeight, lastChunkHeight, numThreads, detect, narrow);
      upsampledDepthMap1 := Some(Upsample(Image([first.w, first.h], first.data), [dimsOrig[0], dimsOrig[1]]));
      upsampledDepthMap2 := Some(Upsample(Image([second.w, second.h], second.data), [dimsOrig[0], dimsOrig[1]]));
      return Finished(first, second);
    }
  }
}
