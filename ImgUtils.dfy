/**
 * Image helpers used by the detectors: the per-thread band offsets, the
 * excerpt of a volume around a surface, and the size guard of upsampling.
 */
module ImgUtils {
  import opened Grid
  import opened Images

  // ---------------------------------------------------------------------
  // Band offsets
  // ---------------------------------------------------------------------

  /** Row d of the offset table over an image of dimensions dims split
      among numThreads threads: zero except the height entry, (H / T)·d. */
  function OffsetRow(dims: seq<int>, numThreads: int, d: int): (r: seq<int>)
    requires |dims| >= 2 && numThreads > 0
    ensures |r| == |dims|
  {
    seq(|dims|, i requires 0 <= i < |dims| => if i == 1 then dims[1] / numThreads * d else 0)
  }

  /**
   * The offset table: one row per thread, one entry per dimension.  A
   * negative thread count fails at the allocation, zero threads give an
   * empty table, and an image with fewer than two dimensions has no height
   * entry to write.
   */
  method CreateOffset(dims: seq<int>, numThreads: int) returns (r: Result<seq<seq<int>>>)
    requires forall i :: 0 <= i < |dims| ==> dims[i] >= 0
    ensures numThreads < 0 ==> r == Failure(NegativeArraySize)
    ensures numThreads == 0 ==> r == Success([])
    ensures numThreads > 0 && |dims| < 2 ==> r == Failure(IndexOutOfBounds)
    ensures numThreads > 0 && |dims| >= 2 ==>
      r.Success? && |r.value| == numThreads
      && forall d :: 0 <= d < numThreads ==> r.value[d] == OffsetRow(dims, numThreads, d)
  {
    if numThreads < 0 {
      return Failure(NegativeArraySize);
    }
    var nDim := |dims|;
    var offset := new seq<int>[numThreads](_ => []);
    for d := 0 to numThreads
      invariant d > 0 ==> nDim >= 2
      invariant forall e :: 0 <= e < d ==> nDim >= 2 && offset[e] == OffsetRow(dims, numThreads, e)
    {
      var row := new int[nDim];
      for i := 0 to nDim
        invariant forall j :: 0 <= j < i ==> row[j] == 0
        modifies row
      {
        row[i] := 0;
      }
      if nDim < 2 {
        return Failure(IndexOutOfBounds);
      }
      row[1] := dims[1] / numThreads * d;
      assert row[..] == OffsetRow(dims, numThreads, d);
      offset[d] := row[..];
    }
    assert |offset[..]| == numThreads;
    return Success(offset[..]);
  }

  /** Consecutive offsets are one band height, H / T, apart, and every
      other entry is zero. */
  lemma OffsetsStepByBandHeight(dims: seq<int>, numThreads: int, d: int)
    requires |dims| >= 2 && numThreads > 0
    ensures OffsetRow(dims, numThreads, d + 1)[1] - OffsetRow(dims, numThreads, d)[1] == dims[1] / numThreads
    ensures forall i :: 0 <= i < |dims| && i != 1 ==> OffsetRow(dims, numThreads, d)[i] == 0
  {
    var b := dims[1] / numThreads;
    assert b * (d + 1) == b * d + b;
  }

  /** Every band of height H / T that starts at one of the offsets ends
      inside the image; in particular (T - 1)·(H / T) + H / T <= H. */
  lemma OffsetsStayInImage(dims: seq<int>, numThreads: int)
    requires |dims| >= 2 && numThreads > 0 && dims[1] >= 0
    ensures (numThreads - 1) * (dims[1] / numThreads) + dims[1] / numThreads <= dims[1]
    ensures forall d :: 0 <= d < numThreads ==>
      0 <= OffsetRow(dims, numThreads, d)[1]
      && OffsetRow(dims, numThreads, d)[1] + dims[1] / numThreads <= dims[1]
  {
    var h, t := dims[1], numThreads;
    var b := h / t;
    assert h == t * b + h % t && h % t >= 0;
    assert (t - 1) * b + b == t * b;
    forall d | 0 <= d < t
      ensures 0 <= OffsetRow(dims, t, d)[1] && OffsetRow(dims, t, d)[1] + b <= h
    {
      NonNegProduct(b, d);
      MulLeq(d, t - 1, b);
      assert b * d == d * b;
    }
  }

  // ---------------------------------------------------------------------
  // Excerpt around a surface
  // ---------------------------------------------------------------------

  /** Java's (int) cast of a float: truncation toward zero. */
  function TruncateToInt(r: real): int
  {
    if r >= 0.0 then r.Floor else -((-r).Floor)
  }

  /** An integral altitude survives the cast, and the cast never moves a value away from zero. */
  lemma TruncateToIntProperties(k: int, r: real)
    ensures TruncateToInt(k as real) == k
    ensures r >= 0.0 ==> 0.0 <= TruncateToInt(r) as real <= r
    ensures r < 0.0 ==> r <= TruncateToInt(r) as real <= 0.0
  {
  }

  function Clamp(v: int, lo: int, hi: int): int
    requires lo <= hi
  {
    if v < lo then lo else if v > hi then hi else v
  }

  /** A plane read through a border-extending view. */
  function PlaneBorderAt(p: Plane, x: int, y: int): real
    requires p.Valid() && p.w > 0 && p.h > 0
  {
    p.At(Clamp(x, 0, p.w - 1), Clamp(y, 0, p.h - 1))
  }

  /** A volume read through a border-extending view. */
  function VolumeBorderAt(v: Volume, x: int, y: int, z: int): real
    requires v.Valid() && v.w > 0 && v.h > 0 && v.d > 0
  {
    v.At(Clamp(x, 0, v.w - 1), Clamp(y, 0, v.h - 1), Clamp(z, 0, v.d - 1))
  }

  /** What the excerpt may read: a depth map and an input volume that are
      not empty wherever the excerpt itself is not. */
  predicate ResliceReadable(input: Volume, depth: Plane, sliceOnTop: int, sliceBelow: int)
  {
    input.Valid() && depth.Valid() && sliceOnTop + sliceBelow + 1 >= 0
    && (input.w > 0 && input.h > 0 && sliceOnTop + sliceBelow + 1 > 0 ==> depth.w > 0 && depth.h > 0 && input.d > 0)
  }

  /** Voxel (x, y, z) of the excerpt: the input column (x, y) read at the
      altitude of the depth map, shifted by z - sliceOnTop. */
  function ReslicedValue(input: Volume, depth: Plane, sliceOnTop: int, x: int, y: int, z: int): real
    requires input.Valid() && depth.Valid() && depth.w > 0 && depth.h > 0
    requires input.w > 0 && input.h > 0 && input.d > 0
  {
    var zMap := TruncateToInt(PlaneBorderAt(depth, x, y));
    VolumeBorderAt(input, x, y, z - sliceOnTop + zMap)
  }

  /**
   * The excerpt of `input` of sliceOnTop + sliceBelow + 1 slices centred on
   * the surface of `depth`, written voxel by voxel in cursor order.
   */
  method ZSurfaceReslice(input: Volume, depth: Plane, sliceOnTop: int, sliceBelow: int) returns (excerpt: Volume)
    requires ResliceReadable(input, depth, sliceOnTop, sliceBelow)
    ensures excerpt.Valid()
    ensures excerpt.w == input.w && excerpt.h == input.h && excerpt.d == sliceOnTop + sliceBelow + 1
    ensures forall x, y, z :: 0 <= x < excerpt.w && 0 <= y < excerpt.h && 0 <= z < excerpt.d ==>
      excerpt.At(x, y, z) == ReslicedValue(input, depth, sliceOnTop, x, y, z)
  {
    var w, h, d := input.w, input.h, sliceOnTop + sliceBelow + 1;
    var n := w * h * d;
    var data := new real[n](_ => 0.0);
    if n > 0 {
      assert w > 0 && h > 0 && d > 0;
      for p := 0 to n
        invariant forall q :: 0 <= q < p ==>
          data[q] == ReslicedValue(input, depth, sliceOnTop, VoxelX(q, w, h), VoxelY(q, w, h), VoxelZ(q, w, h))
      {
        VoxelInRange(p, w, h, d);
        var x, y, z := VoxelX(p, w, h), VoxelY(p, w, h), VoxelZ(p, w, h);  // the cursor's position
        var zMap := TruncateToInt(PlaneBorderAt(depth, x, y));
        data[p] := VolumeBorderAt(input, x, y, z - sliceOnTop + zMap);
      }
    }
    excerpt := Volume(w, h, d, data[..]);
    forall x, y, z | 0 <= x < w && 0 <= y < h && 0 <= z < d
      ensures excerpt.At(x, y, z) == ReslicedValue(input, depth, sliceOnTop, x, y, z)
    {
      Flat3InRange(x, y, z, w, h, d);
      Flat3Coordinates(x, y, z, w, h);
    }
  }

  /** Away from the top and bottom of the input, the excerpt is the input
      shifted so that the surface lands on slice sliceOnTop. */
  lemma ReslicedValueShifts(input: Volume, depth: Plane, sliceOnTop: int, x: int, y: int, z: int)
    requires input.Valid() && depth.Valid() && depth.w == input.w > 0 && depth.h == input.h > 0 && input.d > 0
    requires 0 <= x < input.w && 0 <= y < input.h
    requires 0 <= z - sliceOnTop + TruncateToInt(depth.At(x, y)) < input.d
    ensures ReslicedValue(input, depth, sliceOnTop, x, y, z)
         == input.At(x, y, z - sliceOnTop + TruncateToInt(depth.At(x, y)))
  {
  }

  /** The surface itself sits on the middle slice: with an integral altitude
      k inside the input, slice sliceOnTop of the excerpt is input slice k. */
  lemma SurfaceOnMiddleSlice(input: Volume, depth: Plane, sliceOnTop: int, x: int, y: int, k: int)
    requires input.Valid() && depth.Valid() && depth.w == input.w > 0 && depth.h == input.h > 0 && input.d > 0
    requires 0 <= x < input.w && 0 <= y < input.h
    requires depth.At(x, y) == k as real && 0 <= k < input.d
    ensures ReslicedValue(input, depth, sliceOnTop, x, y, sliceOnTop) == input.At(x, y, k)
  {
    TruncateToIntProperties(k, k as real);
    ReslicedValueShifts(input, depth, sliceOnTop, x, y, sliceOnTop);
  }

  // ---------------------------------------------------------------------
  // Upsampling
  // ---------------------------------------------------------------------

  /** The result of upsampling: the input itself when the requested size
      does not fit it, or an interpolated image of the requested size. */
  datatype UpsampleResult = Unchanged(image: Image) | Resampled(size: seq<int>)

  /** Length of the position buffer the output loop of `upsample` fills. */
  const PositionSlots := 2

  /** The output image of size `size` has at least one pixel. */
  predicate HasPixels(size: seq<int>)
  {
    forall d :: 0 <= d < |size| ==> size[d] > 0
  }

  /** Upsampling to an explicit size; the interpolated samples are not
      modelled. For every output pixel the loop stores the position along
      each of the image's dimensions into a buffer of `PositionSlots`
      entries, so the first pixel of an image with more dimensions than
      that indexes past the buffer. */
  function Upsample(input: Image, outSize: seq<int>): Result<UpsampleResult>
  {
    if |input.dims| != |outSize| then Success(Unchanged(input))
    else if |outSize| > PositionSlots && HasPixels(outSize) then Failure(IndexOutOfBounds)
    else Success(Resampled(outSize))
  }

  /** The size guard and the position buffer: the input comes back
      unchanged exactly when the size has a different number of dimensions;
      a same-rank size gives an image of that size for 1-D and 2-D images,
      and for deeper ones exactly when the output has no pixel, the other
      case throwing index-out-of-bounds. */
  lemma UpsampleGuard(input: Image, outSize: seq<int>)
    ensures Upsample(input, outSize) == Success(Unchanged(input)) <==> |outSize| != |input.dims|
    ensures |outSize| == |input.dims| <= 2 ==> Upsample(input, outSize) == Success(Resampled(outSize))
    ensures |outSize| == |input.dims| > 2 ==>
      (Upsample(input, outSize).Failure? <==> forall d :: 0 <= d < |outSize| ==> outSize[d] > 0)
    ensures |outSize| == |input.dims| ==>
      Upsample(input, outSize) == Success(Resampled(outSize)) || Upsample(input, outSize) == Failure(IndexOutOfBounds)
  {
  }

  /** A 3-D image with a positive size fails on its first output pixel. */
  lemma DeepUpsampleThrows()
    ensures Upsample(Image([2, 2, 2], seq(8, _ => 0.0)), [4, 4, 4]) == Failure(IndexOutOfBounds)
  {
    assert HasPixels([4, 4, 4]);
  }

  /** Extent of dimension d, as the image's `dimension(d)` reads it. */
  function DimensionOf(input: Image, d: int): (r: Result<int>)
    ensures r.Success? <==> 0 <= d < |input.dims|
    ensures r.Success? ==> r.value == input.dims[d]
  {
    if 0 <= d < |input.dims| then Success(input.dims[d]) else Failure(IndexOutOfBounds)
  }

  /** `dimensions(target)`: the image writes one extent per dimension into
      an array of length `len`. */
  function DimensionsInto(input: Image, len: int): (r: Result<seq<int>>)
    requires len >= 0
    ensures r.Success? <==> |input.dims| <= len
    ensures r.Success? ==> |r.value| == len && r.value[..|input.dims|] == input.dims
  {
    if |input.dims| <= len then Success(input.dims + seq(len - |input.dims|, _ => 0))
    else Failure(IndexOutOfBounds)
  }

  /** Upsampling by per-dimension factors. The dimension count it reads is
      the constant 0: it asks for the extent of dimension 0, then for all
      extents written into an array of length 0, before it builds the size. */
  function UpsampleByFactor(input: Image, factors: seq<real>): Result<UpsampleResult>
  {
    var dimension := 0;
    match DimensionOf(input, dimension)
    case Failure(e) => Failure(e)
    case Success(_) =>
      match DimensionsInto(input, dimension)
      case Failure(e) => Failure(e)
      case Success(_) => Upsample(input, [])  // out_size has `dimension` = 0 entries
  }

  /** Hence the overload never reaches the size guard: a 0-D image fails on
      dimension 0, and any other image fails writing its extents. */
  lemma UpsampleByFactorThrows(input: Image, factors: seq<real>)
    ensures UpsampleByFactor(input, factors) == Failure(IndexOutOfBounds)
  {
  }
}
