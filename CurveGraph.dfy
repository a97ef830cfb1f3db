/**
 * The graph that MinCostYCurve.Create_Surface_Graph writes for one curve
 * over a W-by-H cost image (x is the base axis, y the altitude axis), as
 * pure reference definitions, together with the properties of that graph:
 * node-range confinement, the arcs of each pixel, the arc count and the
 * sign rules of the terminal weights.
 */
module CurveGraph {
  import opened Grid

  /** The capacity the source uses for "infinite" arcs, and for zero. */
  const InfiniteWeight: real := 1000000.0
  const ZeroWeight: real := 0.0

  /** A cost image as the builder receives it: its dimensions and, when it
      is 2-D, its pixels in array order. */
  datatype CostImage = CostImage(dims: seq<int>, pixels: seq<real>) {
    predicate Valid()
    {
      (forall i :: 0 <= i < |dims| ==> dims[i] >= 0)
      && (|dims| == 2 ==> |pixels| == dims[0] * dims[1])
    }

    predicate IsPlane()
    {
      Valid() && |dims| == 2
    }

    function Cost(x: int, y: int): real
      requires IsPlane() && InImage(dims[0], dims[1], x, y)
    {
      Flat2InRange(x, y, dims[0], dims[1]);
      pixels[Flat2(x, y, dims[0])]
    }

    /** The value read through a view that is zero outside the image. */
    function CostOrZero(x: int, y: int): real
      requires IsPlane()
    {
      if InImage(dims[0], dims[1], x, y) then Cost(x, y) else 0.0
    }
  }

  /** A directed arc with its forward and backward capacities. */
  datatype Arc = Arc(from: int, to: int, capacity: real, reverseCapacity: real)

  /** Node of pixel (x, y) of surface s: surfaces occupy consecutive blocks of W*H ids. */
  function Node(s: int, w: int, h: int, x: int, y: int): int
  {
    s * (w * h) + Flat2(x, y, w)
  }

  predicate InImage(w: int, h: int, x: int, y: int)
  {
    0 <= x < w && 0 <= y < h
  }

  /** Neighbour positions relative to the current pixel, in visiting order:
      left and right at maxDy rows below, then the pixel just below. */
  function NeighbourPositions(maxDy: int): (n: seq<(int, int)>)
    ensures |n| == 3
  {
    [(-1, -maxDy), (1, -maxDy), (0, -1)]
  }

  /** Flat-index offset of a relative position in a plane of width w. */
  function NeighbourOffset(p: (int, int), w: int): int
  {
    p.0 + p.1 * w
  }

  /** The arcs written for the first k neighbours of a pixel above maxDy:
      one infinite arc to each neighbour that lies inside the image. */
  function NeighbourArcs(s: int, w: int, h: int, maxDy: int, x: int, y: int, k: nat): seq<Arc>
    requires k <= 3
  {
    if k == 0 then []
    else
      var n := NeighbourPositions(maxDy)[k - 1];
      var here := Node(s, w, h, x, y);
      NeighbourArcs(s, w, h, maxDy, x, y, k - 1)
      + (if InImage(w, h, x + n.0, y + n.1)
         then [Arc(here, here + NeighbourOffset(n, w), InfiniteWeight, ZeroWeight)]
         else [])
  }

  /** Later neighbours only add arcs. */
  lemma {:induction false} NeighbourArcsMonotone(s: int, w: int, h: int, maxDy: int, x: int, y: int, k: nat, k': nat)
    requires k <= k' <= 3
    ensures |NeighbourArcs(s, w, h, maxDy, x, y, k)| <= |NeighbourArcs(s, w, h, maxDy, x, y, k')|
    decreases k' - k
  {
    if k < k' {
      NeighbourArcsMonotone(s, w, h, maxDy, x, y, k, k' - 1);
    }
  }

  /** The arcs written for pixel (x, y), by row. */
  function PixelArcs(s: int, w: int, h: int, maxDy: int, x: int, y: int): seq<Arc>
  {
    if y > maxDy then NeighbourArcs(s, w, h, maxDy, x, y, 3)
    else if y > 0 then
      var here := Node(s, w, h, x, y);
      [Arc(here, here - w, InfiniteWeight, ZeroWeight)]
    else []
  }

  /** The arcs written for the first p pixels in cursor order. */
  function ArcsUpTo(s: int, w: nat, h: nat, maxDy: int, p: nat): seq<Arc>
    requires p <= w * h
  {
    if p == 0 then []
    else
      ArcsUpTo(s, w, h, maxDy, p - 1)
      + PixelArcs(s, w, h, maxDy, ColumnOf(p - 1, w), RowOf(p - 1, w))
  }

  /** All arcs of surface s over a w-by-h image. */
  function SurfaceArcs(s: int, w: nat, h: nat, maxDy: int): seq<Arc>
  {
    ArcsUpTo(s, w, h, maxDy, w * h)
  }

  /** The arc-array size the builder allocates: W*(height-1) + 2*(W-1)*(height-maxDy),
      where the source takes height from the first dimension, like the width. */
  function AllocatedEdges(dims: seq<int>, maxDy: int): int
    requires |dims| >= 1
  {
    var width := dims[0];
    var height := dims[0];
    width * (height - 1) + 2 * (width - 1) * (height - maxDy)
  }

  /** Terminal weight of pixel (x, y): the scaled cost difference to the
      pixel below, or minus the infinite weight in row 0. */
  function TerminalWeight(img: CostImage, factor: real, x: int, y: int): real
    requires img.IsPlane() && InImage(img.dims[0], img.dims[1], x, y)
  {
    if y > 0 then factor * img.Cost(x, y) - factor * img.Cost(x, y - 1) else -InfiniteWeight
  }

  /** The (to-source, to-sink) pair the builder stores for weight w. */
  function TerminalPair(w: real): (real, real)
  {
    if w < 0.0 then (-w, ZeroWeight) else if w > 0.0 then (ZeroWeight, w) else (0.0, 0.0)
  }

  // ---------------------------------------------------------------------
  // Properties

  /** Both terminal capacities are non-negative, at least one is zero, and
      their difference gives back the weight. */
  lemma TerminalPairSigns(w: real)
    ensures TerminalPair(w).0 >= 0.0 && TerminalPair(w).1 >= 0.0
    ensures TerminalPair(w).0 == 0.0 || TerminalPair(w).1 == 0.0
    ensures TerminalPair(w).1 - TerminalPair(w).0 == w
    ensures w < 0.0 ==> TerminalPair(w) == (-w, 0.0)
    ensures w > 0.0 ==> TerminalPair(w) == (0.0, w)
    ensures w == 0.0 ==> TerminalPair(w) == (0.0, 0.0)
  {
  }

  /** Row 0 is forced to the source side; every other row holds the
      difference between the pixel and the pixel just below it. */
  lemma TerminalWeightByRow(img: CostImage, factor: real, x: int, y: int)
    requires img.IsPlane() && InImage(img.dims[0], img.dims[1], x, y)
    ensures y == 0 ==> TerminalWeight(img, factor, x, y) == -InfiniteWeight
    ensures y > 0 ==> TerminalWeight(img, factor, x, y) == factor * (img.Cost(x, y) - img.Cost(x, y - 1))
  {
  }

  /** The terminal weights of rows 1..k of column x, summed. */
  function ColumnWeightSum(img: CostImage, factor: real, x: int, k: nat): real
    requires img.IsPlane() && 0 <= x < img.dims[0] && k < img.dims[1]
  {
    if k == 0 then 0.0 else ColumnWeightSum(img, factor, x, k - 1) + TerminalWeight(img, factor, x, k)
  }

  /** The weights telescope: down to row 1 they add up to the scaled cost
      difference between row k and row 0, so every intermediate cost cancels. */
  lemma {:induction false} ColumnWeightTelescopes(img: CostImage, factor: real, x: int, k: nat)
    requires img.IsPlane() && 0 <= x < img.dims[0] && k < img.dims[1]
    ensures ColumnWeightSum(img, factor, x, k) == factor * (img.Cost(x, k) - img.Cost(x, 0))
  {
    if k > 0 {
      ColumnWeightTelescopes(img, factor, x, k - 1);
      assert factor * (img.Cost(x, k) - img.Cost(x, 0))
          == factor * (img.Cost(x, k - 1) - img.Cost(x, 0)) + (factor * img.Cost(x, k) - factor * img.Cost(x, k - 1));
    }
  }

  // ---------------------------------------------------------------------
  // The image as the cursor loop reads it

  /** The builder asks the image for its first element and sets it to zero
      to serve as the out-of-bounds value; the element it gets is pixel
      (0, 0) of the caller's image itself, so that pixel becomes 0. */
  function ZeroFirstPixel(img: CostImage): (r: CostImage)
    requires img.IsPlane() && |img.pixels| > 0
    ensures r.IsPlane() && r.dims == img.dims && |r.pixels| == |img.pixels|
    ensures r.pixels[0] == 0.0
    ensures forall q :: 0 < q < |img.pixels| ==> r.pixels[q] == img.pixels[q]
  {
    CostImage(img.dims, img.pixels[0 := 0.0])
  }

  /** Read through coordinates, only pixel (0, 0) differs. */
  lemma ZeroFirstPixelCost(img: CostImage, x: int, y: int)
    requires img.IsPlane() && |img.pixels| > 0 && InImage(img.dims[0], img.dims[1], x, y)
    ensures ZeroFirstPixel(img).Cost(x, y) == if x == 0 && y == 0 then 0.0 else img.Cost(x, y)
  {
    var w := img.dims[0];
    Flat2InRange(x, y, w, img.dims[1]);
    if y > 0 {
      MulLeq(1, y, w);
    }
  }

  /** The weights the builder computes on that image: as before except in
      column 0, row 1, which loses the subtraction of the original cost of
      pixel (0, 0). */
  lemma AsWrittenWeightByRow(img: CostImage, factor: real, x: int, y: int)
    requires img.IsPlane() && |img.pixels| > 0 && InImage(img.dims[0], img.dims[1], x, y)
    ensures y == 0 ==> TerminalWeight(ZeroFirstPixel(img), factor, x, y) == -InfiniteWeight
    ensures x == 0 && y == 1 ==> TerminalWeight(ZeroFirstPixel(img), factor, x, y) == factor * img.Cost(0, 1)
    ensures (x > 0 && y > 0) || y > 1 ==>
      TerminalWeight(ZeroFirstPixel(img), factor, x, y) == factor * (img.Cost(x, y) - img.Cost(x, y - 1))
  {
    if y > 0 {
      ZeroFirstPixelCost(img, x, y);
      ZeroFirstPixelCost(img, x, y - 1);
    }
  }

  /** Hence on the image the builder reads, column 0 no longer telescopes
      to a cost difference: its weights add up to the scaled cost of row k
      alone. */
  lemma AsWrittenColumnWeights(img: CostImage, factor: real, x: int, k: nat)
    requires img.IsPlane() && |img.pixels| > 0 && 0 <= x < img.dims[0] && k < img.dims[1]
    ensures x > 0 ==> ColumnWeightSum(ZeroFirstPixel(img), factor, x, k) == factor * (img.Cost(x, k) - img.Cost(x, 0))
    ensures x == 0 && k > 0 ==> ColumnWeightSum(ZeroFirstPixel(img), factor, x, k) == factor * img.Cost(0, k)
  {
    ColumnWeightTelescopes(ZeroFirstPixel(img), factor, x, k);
    ZeroFirstPixelCost(img, x, k);
    ZeroFirstPixelCost(img, x, 0);
  }

  /** Each pixel's node lies in the block of surface s. */
  lemma NodeInBlock(s: int, w: int, h: int, x: int, y: int)
    requires InImage(w, h, x, y)
    ensures s * (w * h) <= Node(s, w, h, x, y) < (s + 1) * (w * h)
  {
    Flat2InRange(x, y, w, h);
    assert (s + 1) * (w * h) == s * (w * h) + w * h;
  }

  /** The written target of a neighbour arc is the neighbour's own node. */
  lemma NeighbourTarget(s: int, w: int, h: int, x: int, y: int, n: (int, int))
    ensures Node(s, w, h, x, y) + NeighbourOffset(n, w) == Node(s, w, h, x + n.0, y + n.1)
  {
    assert (y + n.1) * w == y * w + n.1 * w;
  }

  /** The arcs of a pixel, spelled out by row: above maxDy the left and right
      neighbours maxDy rows down (when they exist) and the pixel below;
      between 1 and maxDy only the pixel below; none in row 0. */
  lemma PixelArcsByRow(s: int, w: int, h: int, maxDy: int, x: int, y: int)
    requires InImage(w, h, x, y) && maxDy >= 0
    ensures y > maxDy ==> (PixelArcs(s, w, h, maxDy, x, y) ==
      (if x > 0 then [Arc(Node(s, w, h, x, y), Node(s, w, h, x - 1, y - maxDy), InfiniteWeight, ZeroWeight)] else [])
      + (if x < w - 1 then [Arc(Node(s, w, h, x, y), Node(s, w, h, x + 1, y - maxDy), InfiniteWeight, ZeroWeight)] else [])
      + [Arc(Node(s, w, h, x, y), Node(s, w, h, x, y - 1), InfiniteWeight, ZeroWeight)])
    ensures 0 < y <= maxDy ==> (PixelArcs(s, w, h, maxDy, x, y) ==
      [Arc(Node(s, w, h, x, y), Node(s, w, h, x, y - 1), InfiniteWeight, ZeroWeight)])
    ensures y == 0 ==> PixelArcs(s, w, h, maxDy, x, y) == []
  {
    var n := NeighbourPositions(maxDy);
    var here := Node(s, w, h, x, y);
    NeighbourTarget(s, w, h, x, y, n[0]);
    NeighbourTarget(s, w, h, x, y, n[1]);
    NeighbourTarget(s, w, h, x, y, n[2]);
    if y > maxDy {
      var left := if x > 0 then [Arc(here, Node(s, w, h, x - 1, y - maxDy), InfiniteWeight, ZeroWeight)] else [];
      var right := if x < w - 1 then [Arc(here, Node(s, w, h, x + 1, y - maxDy), InfiniteWeight, ZeroWeight)] else [];
      var below := [Arc(here, Node(s, w, h, x, y - 1), InfiniteWeight, ZeroWeight)];
      assert InImage(w, h, x + n[0].0, y + n[0].1) <==> x > 0;
      assert InImage(w, h, x + n[1].0, y + n[1].1) <==> x < w - 1;
      assert InImage(w, h, x + n[2].0, y + n[2].1);
      assert NeighbourArcs(s, w, h, maxDy, x, y, 1) == left;
      assert NeighbourArcs(s, w, h, maxDy, x, y, 2) == left + right;
      assert NeighbourArcs(s, w, h, maxDy, x, y, 3) == left + right + below;
    } else if y > 0 {
      NeighbourTarget(s, w, h, x, y, (0, -1));
    }
  }

  /** Predicate: every arc is infinite forward, zero backward, and both ends
      lie in surface s's block of node ids. */
  predicate ArcsConfined(arcs: seq<Arc>, s: int, w: int, h: int)
  {
    forall j :: 0 <= j < |arcs| ==> ArcInBlock(arcs[j], s, w, h)
  }

  predicate ArcInBlock(a: Arc, s: int, w: int, h: int)
  {
    a.capacity == InfiniteWeight && a.reverseCapacity == ZeroWeight
    && s * (w * h) <= a.from < (s + 1) * (w * h)
    && s * (w * h) <= a.to < (s + 1) * (w * h)
  }

  /** An infinite arc between two pixels of surface s stays in its block. */
  lemma InfiniteArcInBlock(s: int, w: int, h: int, x: int, y: int, x': int, y': int)
    requires InImage(w, h, x, y) && InImage(w, h, x', y')
    ensures ArcInBlock(Arc(Node(s, w, h, x, y), Node(s, w, h, x', y'), InfiniteWeight, ZeroWeight), s, w, h)
  {
    NodeInBlock(s, w, h, x, y);
    NodeInBlock(s, w, h, x', y');
  }

  lemma PixelArcsConfined(s: int, w: int, h: int, maxDy: int, x: int, y: int)
    requires InImage(w, h, x, y) && maxDy >= 0
    ensures ArcsConfined(PixelArcs(s, w, h, maxDy, x, y), s, w, h)
  {
    PixelArcsByRow(s, w, h, maxDy, x, y);
    if y > 0 {
      InfiniteArcInBlock(s, w, h, x, y, x, y - 1);
    }
    if y > maxDy {
      if x > 0 { InfiniteArcInBlock(s, w, h, x, y, x - 1, y - maxDy); }
      if x < w - 1 { InfiniteArcInBlock(s, w, h, x, y, x + 1, y - maxDy); }
    }
  }

  /** Every arc of a surface is confined to that surface's node range. */
  lemma {:induction false} ArcsUpToConfined(s: int, w: nat, h: nat, maxDy: int, p: nat)
    requires p <= w * h && maxDy >= 0
    ensures ArcsConfined(ArcsUpTo(s, w, h, maxDy, p), s, w, h)
  {
    if p > 0 {
      ArcsUpToConfined(s, w, h, maxDy, p - 1);
      CoordinatesInRange(p - 1, w, h);
      PixelArcsConfined(s, w, h, maxDy, ColumnOf(p - 1, w), RowOf(p - 1, w));
      var a := ArcsUpTo(s, w, h, maxDy, p - 1);
      var b := PixelArcs(s, w, h, maxDy, ColumnOf(p - 1, w), RowOf(p - 1, w));
      assert ArcsUpTo(s, w, h, maxDy, p) == a + b;
      forall j | 0 <= j < |a + b|
        ensures (a + b)[j] == if j < |a| then a[j] else b[j - |a|]
      {
      }
    }
  }

  lemma SurfaceArcsConfined(s: int, w: nat, h: nat, maxDy: int)
    requires maxDy >= 0
    ensures ArcsConfined(SurfaceArcs(s, w, h, maxDy), s, w, h)
  {
    ArcsUpToConfined(s, w, h, maxDy, w * h);
  }

  // ---------------------------------------------------------------------
  // Counting arcs

  /** Number of arcs of one full row y of a plane of width w >= 1. */
  function RowArcCount(w: int, maxDy: int, y: int): int
  {
    if y > maxDy then 3 * w - 2 else if y > 0 then w else 0
  }

  /** Number of arcs of the first x pixels of row y. */
  function PartialRowArcCount(w: int, maxDy: int, y: int, x: int): int
  {
    if y > maxDy then x + (if x > 0 then x - 1 else 0) + (if x < w - 1 then x else w - 1)
    else if y > 0 then x
    else 0
  }

  /** Number of arcs of rows 0 .. y-1. */
  function RowsArcCount(w: int, maxDy: int, y: nat): int
  {
    if y == 0 then 0 else RowsArcCount(w, maxDy, y - 1) + RowArcCount(w, maxDy, y - 1)
  }

  lemma PixelArcCount(s: int, w: int, h: int, maxDy: int, x: int, y: int)
    requires InImage(w, h, x, y) && maxDy >= 0
    ensures |PixelArcs(s, w, h, maxDy, x, y)| ==
      PartialRowArcCount(w, maxDy, y, x + 1) - PartialRowArcCount(w, maxDy, y, x)
  {
    PixelArcsByRow(s, w, h, maxDy, x, y);
  }

  lemma {:induction false} ArcsUpToCount(s: int, w: nat, h: nat, maxDy: int, y: nat, x: nat)
    requires w >= 1 && maxDy >= 0 && x <= w && y < h && Flat2(x, y, w) <= w * h
    ensures |ArcsUpTo(s, w, h, maxDy, Flat2(x, y, w))| == RowsArcCount(w, maxDy, y) + PartialRowArcCount(w, maxDy, y, x)
    decreases y, x
  {
    var p := Flat2(x, y, w);
    if x > 0 {
      ArcsUpToCount(s, w, h, maxDy, y, x - 1);
      ArcsUpToStep(s, w, h, maxDy, y, x);
    } else if y > 0 {
      var q := Flat2(w, y - 1, w);
      assert q == p;
      ArcsUpToCount(s, w, h, maxDy, y - 1, w);
      assert PartialRowArcCount(w, maxDy, y - 1, w) == RowArcCount(w, maxDy, y - 1);
      assert RowsArcCount(w, maxDy, y) == RowsArcCount(w, maxDy, y - 1) + RowArcCount(w, maxDy, y - 1);
    } else {
      assert p == 0;
    }
  }

  /** Advancing the cursor by one pixel inside a row adds that pixel's arcs. */
  lemma ArcsUpToStep(s: int, w: nat, h: nat, maxDy: int, y: nat, x: nat)
    requires maxDy >= 0 && 0 < x <= w && y < h && Flat2(x, y, w) <= w * h
    ensures |ArcsUpTo(s, w, h, maxDy, Flat2(x, y, w))| == |ArcsUpTo(s, w, h, maxDy, Flat2(x - 1, y, w))|
      + PartialRowArcCount(w, maxDy, y, x) - PartialRowArcCount(w, maxDy, y, x - 1)
  {
    var p, q := Flat2(x, y, w), Flat2(x - 1, y, w);
    assert p == q + 1;
    Flat2Coordinates(x - 1, y, w);
    PixelArcCount(s, w, h, maxDy, x - 1, y);
    assert ArcsUpTo(s, w, h, maxDy, p) == ArcsUpTo(s, w, h, maxDy, q) + PixelArcs(s, w, h, maxDy, x - 1, y);
  }

  lemma FlatPrefixInRange(x: int, y: int, w: int, h: int)
    requires 0 <= x <= w && 0 <= y < h
    ensures 0 <= Flat2(x, y, w) <= w * h
  {
    NonNegProduct(y, w);
    MulLeq(y, h - 1, w);
    assert (h - 1) * w == h * w - w;
  }

  /** Closed form of the arc count of the first y rows. */
  lemma {:induction false} RowsArcCountClosedForm(w: int, maxDy: int, y: nat)
    requires w >= 1 && maxDy >= 0 && y >= 1
    ensures RowsArcCount(w, maxDy, y) == w * (y - 1) + 2 * (w - 1) * (if y - 1 - maxDy > 0 then y - 1 - maxDy else 0)
  {
    if y > 1 {
      RowsArcCountClosedForm(w, maxDy, y - 1);
      if y - 1 > maxDy {
        assert 2 * (w - 1) * (y - 1 - maxDy) == 2 * (w - 1) * (y - 2 - maxDy) + 2 * (w - 1);
      }
    }
  }

  /** The builder writes W*(H-1) + 2*(W-1)*max(0, H-1-maxDy) arcs for a
      non-empty W-by-H image. */
  lemma SurfaceArcCount(s: int, w: nat, h: nat, maxDy: int)
    requires w >= 1 && h >= 1 && maxDy >= 0
    ensures |SurfaceArcs(s, w, h, maxDy)| == w * (h - 1) + 2 * (w - 1) * (if h - 1 - maxDy > 0 then h - 1 - maxDy else 0)
  {
    assert Flat2(w, h - 1, w) == w + (h - 1) * w == w * h;
    ArcsUpToCount(s, w, h, maxDy, h - 1, w);
    RowsArcCountClosedForm(w, maxDy, h);
    assert RowsArcCount(w, maxDy, h) == RowsArcCount(w, maxDy, h - 1) + RowArcCount(w, maxDy, h - 1);
  }

  /** The arc count never decreases as the cursor advances. */
  lemma {:induction false} ArcsUpToMonotone(s: int, w: nat, h: nat, maxDy: int, p: nat, q: nat)
    requires p <= q <= w * h
    ensures |ArcsUpTo(s, w, h, maxDy, p)| <= |ArcsUpTo(s, w, h, maxDy, q)|
    decreases q - p
  {
    if p < q {
      ArcsUpToMonotone(s, w, h, maxDy, p, q - 1);
    }
  }

  /** For a square image and maxDy <= W the allocated arrays hold every arc. */
  lemma SquareAllocationSuffices(s: int, w: nat, maxDy: int)
    requires w >= 1 && 0 <= maxDy <= w
    ensures 0 <= |SurfaceArcs(s, w, w, maxDy)| <= AllocatedEdges([w, w], maxDy)
  {
    SurfaceArcCount(s, w, w, maxDy);
    var lateral := if w - 1 - maxDy > 0 then w - 1 - maxDy else 0;
    MulLeq(lateral, w - maxDy, 2 * (w - 1));
    assert 2 * (w - 1) * lateral == lateral * (2 * (w - 1));
    assert 2 * (w - 1) * (w - maxDy) == (w - maxDy) * (2 * (w - 1));
  }

  /** A 2-by-3 image with maxDy = 0 needs 8 arcs, but the builder allocates
      only 6, because the allocation takes the height from the first dimension. */
  lemma TallImageOverflows()
    ensures AllocatedEdges([2, 3], 0) == 6
    ensures |SurfaceArcs(0, 2, 3, 0)| == 8
  {
    var arcs := SurfaceArcs(0, 2, 3, 0);
    SurfaceArcCount(0, 2, 3, 0);
    assert |arcs| == 2 * (3 - 1) + 2 * (2 - 1) * 2;
  }
}
