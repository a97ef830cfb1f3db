/**
 * The one-surface multi-threaded op: the downsampled volume is cut into
 * row bands of H / T rows each, each band is copied out and solved by a
 * detector left abstract here, and the altitude map of every band is
 * written back at the band's offset into one global map, skipping any
 * write that falls outside it. The remainder rows are never written.
 */
module MinCostZSurfaceMT {
  import opened Grid
  import opened Images
  import opened ImgUtils
  import opened Bands

  /** The detector returns well-formed maps (or None, when the part's
      thread fails before writing anything). */
  ghost predicate MapsValid(detect: Volume -> Option<Plane>)
  {
    forall v :: detect(v).Some? ==> detect(v).value.Valid()
  }

  /** The detector returns maps of the part's shape. */
  ghost predicate TileShaped(detect: Volume -> Option<Plane>)
  {
    forall v :: detect(v).Some? ==> TileMap(detect(v).value, v)
  }

  /** The thread count after the guard: the height, only when there are
      fewer rows than threads; a negative count is kept. */
  function ClampedThreads(height: int, numThreads: int): (t: int)
    requires height >= 0
    ensures numThreads < 0 ==> t == numThreads
    ensures numThreads >= 0 ==> 0 <= t <= height && t <= numThreads
    ensures t == 0 <==> numThreads == 0 || (height == 0 && numThreads > 0)
  {
    if height < numThreads then height else numThreads
  }

  /** Part d: the band of rows [(H / T)·d, (H / T)·(d + 1)) of the source. */
  function Part(source: Volume, numThreads: int, d: int): (v: Volume)
    requires source.Valid() && numThreads > 0 && 0 <= d < numThreads
    ensures v.Valid() && v.w == source.w && v.h == BandHeight(source.h, numThreads) && v.d == source.d
  {
    OffsetsStayInImage(Dims(source), numThreads);
    OffsetVolume(source, OffsetRow(Dims(source), numThreads, d), source.w, BandHeight(source.h, numThreads), source.d)
  }

  /** The global map after the first n parts have been written back. */
  function Stitched(source: Volume, numThreads: int, detect: Volume -> Option<Plane>,
                    narrow: real -> real, n: int): (r: seq<real>)
    requires source.Valid() && numThreads > 0 && 0 <= n <= numThreads && MapsValid(detect)
    ensures |r| == source.w * source.h
    decreases n
  {
    if n == 0 then ZeroPlane(source.w, source.h).data
    else
      var g := Stitched(source, numThreads, detect, narrow, n - 1);
      match detect(Part(source, numThreads, n - 1))
      case None => g
      case Some(m) => WrittenPrefix(narrow, g, m, BandStart(source.h, numThreads, n - 1), source.w, |m.data|)
  }

  /** A row below T·(H / T) lies in part y / (H / T). */
  lemma RowPart(height: int, numThreads: int, y: int)
    requires height >= 0 && numThreads > 0 && BandHeight(height, numThreads) > 0
    requires 0 <= y < height && y < numThreads * BandHeight(height, numThreads)
    ensures 0 <= y / BandHeight(height, numThreads) < numThreads
    ensures BandStart(height, numThreads, y / BandHeight(height, numThreads)) <= y
            < BandStart(height, numThreads, y / BandHeight(height, numThreads)) + BandHeight(height, numThreads)
  {
    var b := BandHeight(height, numThreads);
    var d := y / b;
    assert b * d <= y < b * d + b;
    assert d * b <= y < numThreads * b;
    LessByFactor(d, numThreads, b);
  }

  /** What the global map holds at (x, y): below T·(H / T), the map of the
      part that owns row y read at the row's place inside the part and
      narrowed to the global map's pixel type, or zero when that part
      produced no map; from T·(H / T) on, zero. */
  function StitchedPixel(source: Volume, numThreads: int, detect: Volume -> Option<Plane>,
                         narrow: real -> real, x: int, y: int): real
    requires source.Valid() && numThreads > 0 && TileShaped(detect)
    requires 0 <= x < source.w && 0 <= y < source.h
  {
    var b := BandHeight(source.h, numThreads);
    if b > 0 && y < numThreads * b then
      RowPart(source.h, numThreads, y);
      var d := y / b;
      match detect(Part(source, numThreads, d))
      case None => 0.0
      case Some(m) => narrow(m.At(x, y - BandStart(source.h, numThreads, d)))
    else
      0.0
  }

  /** A map of the part's shape: every one of its writes lands inside the
      global map, so the out-of-bounds handler is never reached. */
  lemma NoWriteSkipped(m: Plane, rowOffset: int, width: nat, height: nat, p: int)
    requires m.Valid() && m.w == width && 0 <= rowOffset && rowOffset + m.h <= height && 0 <= p < |m.data|
    ensures 0 <= Target(p, m.w, rowOffset, width) < width * height
  {
    assert width > 0;
    TileTarget(p, width, rowOffset);
    MulLeq(rowOffset + m.h, height, width);
    assert rowOffset * width + |m.data| == (rowOffset + m.h) * width;
  }

  /** Writing part d back sets the rows of part d to their map... */
  lemma PartWrittenInside(source: Volume, numThreads: int, detect: Volume -> Option<Plane>,
                          narrow: real -> real, d: int, x: int, y: int)
    requires source.Valid() && numThreads > 0 && 0 <= d < numThreads && TileShaped(detect)
    requires 0 <= x < source.w && 0 <= y < source.h
    requires BandStart(source.h, numThreads, d) <= y < BandStart(source.h, numThreads, d) + BandHeight(source.h, numThreads)
    ensures MapsValid(detect)
    ensures 0 <= Flat2(x, y, source.w) < source.w * source.h
    ensures Stitched(source, numThreads, detect, narrow, d + 1)[Flat2(x, y, source.w)]
         == if detect(Part(source, numThreads, d)).Some? then StitchedPixel(source, numThreads, detect, narrow, x, y)
            else Stitched(source, numThreads, detect, narrow, d)[Flat2(x, y, source.w)]
    ensures detect(Part(source, numThreads, d)).None? ==> StitchedPixel(source, numThreads, detect, narrow, x, y) == 0.0
  {
    Flat2InRange(x, y, source.w, source.h);
    OffsetsStayInImage(Dims(source), numThreads);
    BandCover(source.h, numThreads, y, d);
    var start, b := BandStart(source.h, numThreads, d), BandHeight(source.h, numThreads);
    var g := Stitched(source, numThreads, detect, narrow, d);
    var part := Part(source, numThreads, d);
    assert b > 0 && y < numThreads * b && y / b == d;
    match detect(part) {
      case None =>
        assert Stitched(source, numThreads, detect, narrow, d + 1) == g;
      case Some(m) =>
        assert TileMap(m, part);
        assert Stitched(source, numThreads, detect, narrow, d + 1) == WrittenPrefix(narrow, g, m, start, source.w, |m.data|);
        WrittenTilePixel(narrow, g, m, start, source.w, source.h, x, y);
        assert Stitched(source, numThreads, detect, narrow, d + 1)[Flat2(x, y, source.w)] == narrow(m.At(x, y - start));
        assert StitchedPixel(source, numThreads, detect, narrow, x, y) == narrow(m.At(x, y - start));
    }
  }

  /** ...and leaves every other row as it was. */
  lemma PartWrittenOutside(source: Volume, numThreads: int, detect: Volume -> Option<Plane>,
                           narrow: real -> real, d: int, x: int, y: int)
    requires source.Valid() && numThreads > 0 && 0 <= d < numThreads && TileShaped(detect)
    requires 0 <= x < source.w && 0 <= y < source.h
    requires !(BandStart(source.h, numThreads, d) <= y < BandStart(source.h, numThreads, d) + BandHeight(source.h, numThreads))
    ensures MapsValid(detect)
    ensures 0 <= Flat2(x, y, source.w) < source.w * source.h
    ensures Stitched(source, numThreads, detect, narrow, d + 1)[Flat2(x, y, source.w)]
         == Stitched(source, numThreads, detect, narrow, d)[Flat2(x, y, source.w)]
  {
    Flat2InRange(x, y, source.w, source.h);
    OffsetsStayInImage(Dims(source), numThreads);
    var start := BandStart(source.h, numThreads, d);
    var g := Stitched(source, numThreads, detect, narrow, d);
    match detect(Part(source, numThreads, d)) {
      case None =>
      case Some(m) =>
        WrittenTilePixel(narrow, g, m, start, source.w, source.h, x, y);
    }
  }

  /** After n parts, the rows they cover hold their maps and the rest still
      holds the zeros the factory created. */
  lemma {:induction false} StitchedPrefixPixel(source: Volume, numThreads: int, detect: Volume -> Option<Plane>,
                                               narrow: real -> real, n: int, x: int, y: int)
    requires source.Valid() && numThreads > 0 && 0 <= n <= numThreads && TileShaped(detect)
    requires 0 <= x < source.w && 0 <= y < source.h
    ensures MapsValid(detect)
    ensures 0 <= Flat2(x, y, source.w) < source.w * source.h
    ensures Stitched(source, numThreads, detect, narrow, n)[Flat2(x, y, source.w)]
         == if y < BandStart(source.h, numThreads, n) then StitchedPixel(source, numThreads, detect, narrow, x, y) else 0.0
    decreases n
  {
    Flat2InRange(x, y, source.w, source.h);
    if n > 0 {
      var d := n - 1;
      var b := BandHeight(source.h, numThreads);
      StitchedPrefixPixel(source, numThreads, detect, narrow, d, x, y);
      if BandStart(source.h, numThreads, d) <= y < BandStart(source.h, numThreads, d) + b {
        PartWrittenInside(source, numThreads, detect, narrow, d, x, y);
      } else {
        PartWrittenOutside(source, numThreads, detect, narrow, d, x, y);
      }
      assert BandStart(source.h, numThreads, n) == BandStart(source.h, numThreads, d) + b;
      assert 0 <= BandStart(source.h, numThreads, d) by {
        BandHeightBounds(source.h, numThreads);
        NonNegProduct(b, d);
      }
    }
  }

  /**
   * The parts, one after the other: copy part i out of the source, run the
   * detector on it, and write its map back at the part's offset. A negative
   * thread count fails when the offset table is allocated.
   */
  method ProcessMT(source: Volume, partHeight: int, numThreads: int, detect: Volume -> Option<Plane>,
                   narrow: real -> real)
    returns (r: Result<Plane>)
    requires source.Valid() && MapsValid(detect)
    requires numThreads > 0 ==> partHeight == BandHeight(source.h, numThreads)
    ensures numThreads < 0 ==> r == Failure(NegativeArraySize)
    ensures numThreads == 0 ==> r == Success(ZeroPlane(source.w, source.h))
    ensures numThreads > 0 ==>
      r.Success? && r.value.Valid() && r.value.w == source.w && r.value.h == source.h
      && r.value.data == Stitched(source, numThreads, detect, narrow, numThreads)
    ensures numThreads > 0 && TileShaped(detect) ==>
      forall x, y :: 0 <= x < source.w && 0 <= y < source.h ==>
        r.value.At(x, y) == StitchedPixel(source, numThreads, detect, narrow, x, y)
        && (y >= numThreads * BandHeight(source.h, numThreads) ==> r.value.At(x, y) == 0.0)
  {
    var offsets := CreateOffset(Dims(source), numThreads);
    if offsets.Failure? {
      return Failure(offsets.exception);
    }
    var offset := offsets.value;
    var width, height := source.w, source.h;
    var global := new real[width * height](_ => 0.0);
    assert global[..] == ZeroPlane(width, height).data;
    if numThreads == 0 {
      // no thread is started: the map stays as the factory created it
      return Success(Plane(width, height, global[..]));
    }
    OffsetsStayInImage(Dims(source), numThreads);
    for i := 0 to numThreads
      invariant global[..] == Stitched(source, numThreads, detect, narrow, i)
    {
      var part := CopyBand(source, offset[i], width, partHeight, source.d);
      assert part == Part(source, numThreads, i);
      match detect(part) {
        case None =>
        case Some(m) =>
          WriteMapSkipping(global, m, offset[i][1], width, narrow);
      }
    }
    var depthMap := Plane(width, height, global[..]);
    if TileShaped(detect) {
      StitchedMap(source, numThreads, detect, narrow, depthMap);
    }
    return Success(depthMap);
  }

  /** The global map after all parts, pixel by pixel: each row of a part
      holds that part's map, and the remainder rows hold zero. */
  lemma StitchedMap(source: Volume, numThreads: int, detect: Volume -> Option<Plane>,
                    narrow: real -> real, depthMap: Plane)
    requires source.Valid() && numThreads > 0 && TileShaped(detect)
    requires MapsValid(detect) && depthMap == Plane(source.w, source.h, Stitched(source, numThreads, detect, narrow, numThreads))
    ensures depthMap.Valid()
    ensures forall x, y :: 0 <= x < source.w && 0 <= y < source.h ==>
      depthMap.At(x, y) == StitchedPixel(source, numThreads, detect, narrow, x, y)
      && (y >= numThreads * BandHeight(source.h, numThreads) ==> depthMap.At(x, y) == 0.0)
  {
    forall x, y | 0 <= x < source.w && 0 <= y < source.h
      ensures depthMap.At(x, y) == StitchedPixel(source, numThreads, detect, narrow, x, y)
      ensures y >= numThreads * BandHeight(source.h, numThreads) ==> depthMap.At(x, y) == 0.0
    {
      StitchedPrefixPixel(source, numThreads, detect, narrow, numThreads, x, y);
    }
  }

  /** How a run ends: the input is not 3-D, an exception ends it, or it
      finishes with the global map (before upsampling). */
  datatype Outcome = NotThreeD | Threw(exception: Exception) | Finished(depthMap: Plane)

  class MinCostZSurfaceMTOps {
    var numThreads: int
    var upsampledDepthMap: Option<Result<UpsampleResult>>

    constructor(numThreads: int)
      ensures this.numThreads == numThreads && upsampledDepthMap == None
    {
      this.numThreads := numThreads;
      upsampledDepthMap := None;
    }

    /**
     * The op on `input`: downsample it, cut the downsampled volume into
     * equal bands, stitch the surface of every band into one global map and
     * upsample it back to the input's width and height. The global map is
     * created in the input's pixel type, and `narrow` is that type's
     * conversion of a stored height.
     */
    method Process(input: Image, downsample: Image -> Volume, detect: Volume -> Option<Plane>,
                   narrow: real -> real)
      returns (outcome: Outcome)
      requires DownsampleValid(downsample) && MapsValid(detect)
      modifies this
      ensures |input.dims| != 3 ==>
        outcome == NotThreeD && numThreads == old(numThreads) && upsampledDepthMap == old(upsampledDepthMap)
      ensures |input.dims| == 3 ==> numThreads == ClampedThreads(downsample(input).h, old(numThreads))
      ensures |input.dims| == 3 && numThreads == 0 ==>
        outcome == Threw(DivisionByZero) && upsampledDepthMap == old(upsampledDepthMap)
      ensures |input.dims| == 3 && numThreads < 0 ==>
        outcome == Threw(NegativeArraySize) && upsampledDepthMap == old(upsampledDepthMap)
      ensures |input.dims| == 3 && numThreads > 0 ==>
        var ds := downsample(input);
        outcome.Finished? && outcome.depthMap.w == ds.w && outcome.depthMap.h == ds.h
        && outcome.depthMap.data == Stitched(ds, numThreads, detect, narrow, numThreads)
        && upsampledDepthMap == Some(Upsample(Image([ds.w, ds.h], outcome.depthMap.data), [input.dims[0], input.dims[1]]))
        && upsampledDepthMap == Some(Success(Resampled([input.dims[0], input.dims[1]])))
    {
      if |input.dims| != 3 {
        return NotThreeD;
      }
      var dimsOrig := input.dims;
      var ds := downsample(input);
      if ds.h < numThreads {
        numThreads := ds.h;
      }
      if numThreads == 0 {
        return Threw(DivisionByZero);
      }
      var partHeight := JavaDiv(ds.h, numThreads);
      if numThreads > 0 {
        JavaDivOfNonNegatives(ds.h, numThreads);
      }
      var r := ProcessMT(ds, partHeight, numThreads, detect, narrow);
      if r.Failure? {
        return Threw(r.exception);
      }
      upsampledDepthMap := Some(Upsample(Image([r.value.w, r.value.h], r.value.data), [dimsOrig[0], dimsOrig[1]]));
      return Finished(r.value);
    }
  }
}
