/**
 * The minimum-cost y-curve detector.  Each call of the builder turns one
 * 2-D cost image into the arc and terminal arrays of a surface graph and
 * appends them to the detector's lists; Process hands every graph to a
 * max-flow solver; the decoders read the solver's labels back as an
 * altitude per column or as a 0/255 mask.
 */
module MinCostYCurve {
  import opened Grid
  import opened Images
  import opened CurveGraph

  /** The side of the minimum cut a node falls on. */
  datatype Terminal = Foreground | Background

  /** How a call of the builder ends: graph appended, input refused (false), or an exception. */
  datatype BuildOutcome = Built | Rejected | Thrown(exception: Exception)

  /** The two int arrays of one surface graph: arc tails and arc heads. */
  datatype EdgeArrays = EdgeArrays(from: seq<int>, to: seq<int>)

  /** Two parallel float arrays: forward and backward arc capacities, or the
      to-source and to-sink capacities of the nodes of one surface. */
  datatype WeightArrays = WeightArrays(first: seq<real>, second: seq<real>)

  /** One terminal assignment handed to the solver. */
  datatype TerminalSetting = TerminalSetting(node: int, toSource: real, toSink: real)

  /** Everything Process hands to the solver before asking for the flow. */
  datatype FlowProblem = FlowProblem(nodeCount: int, edgeCount: int, arcs: seq<Arc>, terminals: seq<TerminalSetting>)

  /** What the solver gives back: the flow value and the side of every node. */
  datatype Solution = Solution(flow: real, side: int -> Terminal)

  /** A solver instance after computeMaximumFlow: the problem it was fed and its answer. */
  datatype SolverRun = SolverRun(problem: FlowProblem, solution: Solution)

  /** The content of an unused slot of the zero-initialised arc arrays. */
  const NullArc: Arc := Arc(0, 0, 0.0, 0.0)

  // ---------------------------------------------------------------------
  // What the builder stores for one surface
  // ---------------------------------------------------------------------

  /** The arcs of a surface followed by unused slots up to the allocated size n. */
  function PaddedArcs(arcs: seq<Arc>, n: int): (r: seq<Arc>)
    requires |arcs| <= n
    ensures |r| == n && r[..|arcs|] == arcs
    ensures forall j :: |arcs| <= j < n ==> r[j] == NullArc
  {
    arcs + seq(n - |arcs|, _ => NullArc)
  }

  function EdgeArraysOf(arcs: seq<Arc>): EdgeArrays
  {
    EdgeArrays(seq(|arcs|, j requires 0 <= j < |arcs| => arcs[j].from),
               seq(|arcs|, j requires 0 <= j < |arcs| => arcs[j].to))
  }

  function WeightArraysOf(arcs: seq<Arc>): WeightArrays
  {
    WeightArrays(seq(|arcs|, j requires 0 <= j < |arcs| => arcs[j].capacity),
                 seq(|arcs|, j requires 0 <= j < |arcs| => arcs[j].reverseCapacity))
  }

  predicate ParallelArrays(e: EdgeArrays, ws: WeightArrays)
  {
    |e.to| == |e.from| && |ws.first| == |e.from| && |ws.second| == |e.from|
  }

  /** The arcs that parallel edge and weight arrays describe, slot by slot. */
  function ArcList(e: EdgeArrays, ws: WeightArrays): (r: seq<Arc>)
    requires ParallelArrays(e, ws)
    ensures |r| == |e.from|
  {
    seq(|e.from|, j requires 0 <= j < |e.from| => Arc(e.from[j], e.to[j], ws.first[j], ws.second[j]))
  }

  /** Splitting arcs into edge and weight arrays and reading them back is the identity. */
  lemma ArcArraysRoundTrip(arcs: seq<Arc>)
    ensures ParallelArrays(EdgeArraysOf(arcs), WeightArraysOf(arcs))
    ensures ArcList(EdgeArraysOf(arcs), WeightArraysOf(arcs)) == arcs
  {
    var r := ArcList(EdgeArraysOf(arcs), WeightArraysOf(arcs));
    forall j | 0 <= j < |arcs|
      ensures r[j] == arcs[j]
    {
    }
  }

  /** The (to-source, to-sink) pair the builder stores for flat position q. */
  function TerminalAt(img: CostImage, factor: real, q: int): (real, real)
    requires img.IsPlane() && 0 <= q < img.dims[0] * img.dims[1]
  {
    var w := img.dims[0];
    assert w > 0;
    CoordinatesInRange(q, w, img.dims[1]);
    TerminalPair(TerminalWeight(img, factor, ColumnOf(q, w), RowOf(q, w)))
  }

  function TerminalArraysOf(img: CostImage, factor: real): WeightArrays
    requires img.IsPlane()
  {
    var n := img.dims[0] * img.dims[1];
    WeightArrays(seq(n, q requires 0 <= q < n => TerminalAt(img, factor, q).0),
                 seq(n, q requires 0 <= q < n => TerminalAt(img, factor, q).1))
  }

  /** Every stored arc is an unused slot or an infinite arc inside block s. */
  predicate NullOrInBlock(arcs: seq<Arc>, s: int, w: int, h: int)
  {
    forall j :: 0 <= j < |arcs| ==> arcs[j] == NullArc || ArcInBlock(arcs[j], s, w, h)
  }

  /** A terminal pair with no negative side and at most one non-zero side. */
  predicate SignNormalised(toSource: real, toSink: real)
  {
    toSource >= 0.0 && toSink >= 0.0 && (toSource == 0.0 || toSink == 0.0)
  }

  /** The invariant every stored surface graph keeps. */
  predicate SurfaceWellFormed(e: EdgeArrays, ws: WeightArrays, t: WeightArrays, s: int, w: int, h: int)
  {
    ParallelArrays(e, ws)
    && |t.first| == w * h && |t.second| == w * h
    && NullOrInBlock(ArcList(e, ws), s, w, h)
    && (forall q :: 0 <= q < w * h ==> SignNormalised(t.first[q], t.second[q]))
  }

  /** Every stored surface graph keeps the invariant, with surface i in block i. */
  predicate SurfacesWellFormed(es: seq<EdgeArrays>, ws: seq<WeightArrays>, ts: seq<WeightArrays>, dims: seq<int>)
    requires |dims| == 2
  {
    |es| == |ws| == |ts|
    && forall i :: 0 <= i < |es| ==> SurfaceWellFormed(es[i], ws[i], ts[i], i, dims[0], dims[1])
  }

  /** The arrays the builder derives for surface s keep the surface invariant. */
  lemma BuiltSurfaceWellFormed(img: CostImage, maxDy: int, factor: real, s: int, n: int)
    requires img.IsPlane() && maxDy >= 0
    requires |SurfaceArcs(s, img.dims[0], img.dims[1], maxDy)| <= n
    ensures SurfaceWellFormed(EdgeArraysOf(PaddedArcs(SurfaceArcs(s, img.dims[0], img.dims[1], maxDy), n)),
                              WeightArraysOf(PaddedArcs(SurfaceArcs(s, img.dims[0], img.dims[1], maxDy), n)),
                              TerminalArraysOf(img, factor), s, img.dims[0], img.dims[1])
  {
    var w, h := img.dims[0], img.dims[1];
    var arcs := SurfaceArcs(s, w, h, maxDy);
    var padded := PaddedArcs(arcs, n);
    ArcArraysRoundTrip(padded);
    SurfaceArcsConfined(s, w, h, maxDy);
    forall j | 0 <= j < |padded|
      ensures padded[j] == NullArc || ArcInBlock(padded[j], s, w, h)
    {
      if j < |arcs| {
        assert padded[j] == padded[..|arcs|][j] == arcs[j];
      }
    }
    var t := TerminalArraysOf(img, factor);
    forall q | 0 <= q < w * h
      ensures SignNormalised(t.first[q], t.second[q])
    {
      assert w > 0;
      CoordinatesInRange(q, w, h);
      TerminalPairSigns(TerminalWeight(img, factor, ColumnOf(q, w), RowOf(q, w)));
    }
  }

  // ---------------------------------------------------------------------
  // The outcome of one builder call
  // ---------------------------------------------------------------------

  /** The dimensions recorded after a builder call: the first 2-D image
      seen fixes them, and they never change afterwards. */
  function RecordedAfter(recorded: Option<seq<int>>, dims: seq<int>): Option<seq<int>>
  {
    if recorded.None? && |dims| == 2 then Some(dims) else recorded
  }

  /** A call that passes the input checks and allocates its arrays goes on
      to `firstElement().setZero()`, which zeroes pixel (0, 0) of the
      caller's image (and throws on an image with no pixel). */
  predicate ZeroesFirstPixel(recorded: Option<seq<int>>, img: CostImage, maxDy: int)
    requires img.Valid()
  {
    |img.dims| == 2 && (recorded.None? || recorded.value == img.dims) && maxDy >= 0
    && AllocatedEdges(img.dims, maxDy) >= 0 && |img.pixels| > 0
  }

  /** The caller's image after a builder call. */
  function ImageAfterBuild(recorded: Option<seq<int>>, img: CostImage, maxDy: int): CostImage
    requires img.Valid()
  {
    if ZeroesFirstPixel(recorded, img, maxDy) then ZeroFirstPixel(img) else img
  }

  /** Which way a builder call for surface s ends, given the dimensions
      recorded before it. */
  function BuildOutcomeOf(recorded: Option<seq<int>>, img: CostImage, maxDy: int, s: int): BuildOutcome
    requires img.Valid()
  {
    var dims := img.dims;
    if recorded.None? && |dims| != 2 && |dims| > 0 then Thrown(NullPointer)
    else if recorded.Some? && |dims| > 2 && |recorded.value| == 2 then Thrown(IndexOutOfBounds)
    else if |dims| != 2 || (recorded.Some? && recorded.value != dims) || maxDy < 0 then Rejected
    else if AllocatedEdges(dims, maxDy) < 0 then Thrown(NegativeArraySize)
    else if |img.pixels| == 0 then Thrown(IndexOutOfBounds)
    else if |SurfaceArcs(s, dims[0], dims[1], maxDy)| > AllocatedEdges(dims, maxDy) then Thrown(IndexOutOfBounds)
    else Built
  }

  /** Only a 2-D image with the recorded dimensions and a non-negative
      maxDy can be built. */
  lemma BuiltNeedsConsistentInput(recorded: Option<seq<int>>, img: CostImage, maxDy: int, s: int)
    requires img.Valid() && BuildOutcomeOf(recorded, img, maxDy, s) == Built
    ensures |img.dims| == 2 && maxDy >= 0
    ensures recorded.None? || recorded.value == img.dims
  {
  }

  /** A square image with 0 <= maxDy <= its side is always built. */
  lemma SquareImagesBuild(recorded: Option<seq<int>>, img: CostImage, maxDy: int, s: int)
    requires img.IsPlane() && img.dims[0] == img.dims[1] >= 1 && 0 <= maxDy <= img.dims[0]
    requires recorded.None? || recorded.value == img.dims
    ensures BuildOutcomeOf(recorded, img, maxDy, s) == Built
  {
    SquareAllocationSuffices(s, img.dims[0], maxDy);
    MulLeq(1, img.dims[0], img.dims[1]);
    assert AllocatedEdges(img.dims, maxDy) == AllocatedEdges([img.dims[0], img.dims[0]], maxDy);
  }

  /** A 2-wide, 3-high image with maxDy 0 overflows the arc arrays sized
      from the width alone. */
  lemma TallImageThrows(pixels: seq<real>)
    requires |pixels| == 6
    ensures BuildOutcomeOf(None, CostImage([2, 3], pixels), 0, 0) == Thrown(IndexOutOfBounds)
  {
    TallImageOverflows();
  }

  /** A 2-by-2 image with costs 5, 1 / 3, 2 is built with maxDy 1, and the
      zeroing flips the terminal link of pixel (0, 1): on the image as given
      its weight is 3 - 5 < 0, a source link (2, 0); the loop reads 3 - 0 > 0
      instead and stores the sink link (0, 3). */
  lemma ZeroingFlipsTerminal()
    ensures var img := CostImage([2, 2], [5.0, 1.0, 3.0, 2.0]);
      img.IsPlane() && BuildOutcomeOf(None, img, 1, 0) == Built
      && TerminalAt(img, 1.0, 2) == (2.0, 0.0)
      && TerminalAt(ZeroFirstPixel(img), 1.0, 2) == (0.0, 3.0)
  {
    var img := CostImage([2, 2], [5.0, 1.0, 3.0, 2.0]);
    assert ColumnOf(2, 2) == 0 && RowOf(2, 2) == 1;
    assert TerminalWeight(img, 1.0, 0, 1) == -2.0;
    assert ZeroFirstPixel(img).pixels == [0.0, 1.0, 3.0, 2.0];
    assert TerminalWeight(ZeroFirstPixel(img), 1.0, 0, 1) == 3.0;
    SurfaceArcCount(0, 2, 2, 1);
  }

  // ---------------------------------------------------------------------
  // Filling the arrays of one surface
  // ---------------------------------------------------------------------

  /** The four arc arrays hold `arcs` in their first slots and zeros after. */
  ghost predicate ArcArraysHold(from: array<int>, to: array<int>, fwd: array<real>, bwd: array<real>, arcs: seq<Arc>, n: int)
    reads from, to, fwd, bwd
  {
    from.Length == n && to.Length == n && fwd.Length == n && bwd.Length == n && |arcs| <= n
    && (forall j :: 0 <= j < |arcs| ==>
          from[j] == arcs[j].from && to[j] == arcs[j].to && fwd[j] == arcs[j].capacity && bwd[j] == arcs[j].reverseCapacity)
    && (forall j :: |arcs| <= j < n ==> from[j] == 0 && to[j] == 0 && fwd[j] == 0.0 && bwd[j] == 0.0)
  }

  /** Writes arc `a` into the next free slot, as the builder's four
      assignments followed by the counter increment do. */
  method PutArc(from: array<int>, to: array<int>, fwd: array<real>, bwd: array<real>, ghost arcs: seq<Arc>, n: int, count: int, a: Arc)
    requires from != to && fwd != bwd
    requires ArcArraysHold(from, to, fwd, bwd, arcs, n) && count == |arcs| < n
    modifies from, to, fwd, bwd
    ensures ArcArraysHold(from, to, fwd, bwd, arcs + [a], n)
  {
    from[count] := a.from;
    to[count] := a.to;
    fwd[count] := a.capacity;
    bwd[count] := a.reverseCapacity;
  }

  lemma ArcArraysSnapshot(from: array<int>, to: array<int>, fwd: array<real>, bwd: array<real>, arcs: seq<Arc>, n: int)
    requires ArcArraysHold(from, to, fwd, bwd, arcs, n)
    ensures EdgeArrays(from[..], to[..]) == EdgeArraysOf(PaddedArcs(arcs, n))
    ensures WeightArrays(fwd[..], bwd[..]) == WeightArraysOf(PaddedArcs(arcs, n))
  {
    var padded := PaddedArcs(arcs, n);
    forall j | 0 <= j < n
      ensures from[j] == padded[j].from && to[j] == padded[j].to
      ensures fwd[j] == padded[j].capacity && bwd[j] == padded[j].reverseCapacity
    {
      if j < |arcs| {
        assert padded[j] == padded[..|arcs|][j] == arcs[j];
      }
    }
  }

  /**
   * The neighbour loop for pixel (x, y) above row maxDy of a w-by-h image:
   * the random access steps from neighbour to neighbour, skips those outside
   * the image and writes one infinite arc to each other one.  It fails when
   * an arc finds no free slot, and otherwise ends on the pixel (x, y - 1).
   */
  method WriteNeighbourArcs(from: array<int>, to: array<int>, fwd: array<real>, bwd: array<real>,
                            s: int, w: int, h: int, maxDy: int, x: int, y: int,
                            ghost before: seq<Arc>, nEdges: int, count: int)
    returns (ok: bool, count': int, cx: int, cy: int)
    requires from != to && fwd != bwd
    requires ArcArraysHold(from, to, fwd, bwd, before, nEdges) && count == |before|
    modifies from, to, fwd, bwd
    ensures ok <==> |before| + |NeighbourArcs(s, w, h, maxDy, x, y, 3)| <= nEdges
    ensures ok ==> ArcArraysHold(from, to, fwd, bwd, before + NeighbourArcs(s, w, h, maxDy, x, y, 3), nEdges)
    ensures ok ==> count' == |before| + |NeighbourArcs(s, w, h, maxDy, x, y, 3)|
    ensures ok ==> cx == x && cy == y - 1
  {
    var neighbours := NeighbourPositions(maxDy);
    var current := Node(s, w, h, x, y);
    // flat offsets of the neighbours, and the steps from one to the next
    var offsets := seq(3, i requires 0 <= i < 3 => NeighbourOffset(neighbours[i], w));
    var moves := [neighbours[0]]
      + seq(2, i requires 0 <= i < 2 => (neighbours[i + 1].0 - neighbours[i].0, neighbours[i + 1].1 - neighbours[i].1));
    count' := count;
    cx, cy := x, y;
    for k := 0 to 3
      invariant k == 0 ==> cx == x && cy == y
      invariant k > 0 ==> cx == x + neighbours[k - 1].0 && cy == y + neighbours[k - 1].1
      invariant ArcArraysHold(from, to, fwd, bwd, before + NeighbourArcs(s, w, h, maxDy, x, y, k), nEdges)
      invariant count' == |before| + |NeighbourArcs(s, w, h, maxDy, x, y, k)|
    {
      cx, cy := cx + moves[k].0, cy + moves[k].1;
      if !InImage(w, h, cx, cy) {
        continue;
      }
      var a := Arc(current, current + offsets[k], InfiniteWeight, ZeroWeight);
      ghost var done := NeighbourArcs(s, w, h, maxDy, x, y, k);
      assert NeighbourArcs(s, w, h, maxDy, x, y, k + 1) == done + [a];
      if count' >= nEdges {
        NeighbourArcsMonotone(s, w, h, maxDy, x, y, k + 1, 3);
        ok := false;
        return;
      }
      assert before + NeighbourArcs(s, w, h, maxDy, x, y, k + 1) == (before + done) + [a];
      PutArc(from, to, fwd, bwd, before + done, nEdges, count', a);
      count' := count' + 1;
    }
    ok := true;
  }

  /**
   * The arc part of one cursor step, for pixel (x, y) of surface s: the
   * neighbour arcs above row maxDy, the single arc downwards in rows
   * 1..maxDy, none in row 0.  On success it also returns the pixel's
   * terminal weight.
   */
  method WritePixel(from: array<int>, to: array<int>, fwd: array<real>, bwd: array<real>,
                    img: CostImage, maxDy: int, factor: real, s: int, x: int, y: int,
                    ghost before: seq<Arc>, nEdges: int, count: int)
    returns (ok: bool, count': int, weight: real)
    requires from != to && fwd != bwd
    requires img.IsPlane() && InImage(img.dims[0], img.dims[1], x, y) && maxDy >= 0
    requires ArcArraysHold(from, to, fwd, bwd, before, nEdges) && count == |before|
    modifies from, to, fwd, bwd
    ensures ok <==> |before| + |PixelArcs(s, img.dims[0], img.dims[1], maxDy, x, y)| <= nEdges
    ensures ok ==> ArcArraysHold(from, to, fwd, bwd, before + PixelArcs(s, img.dims[0], img.dims[1], maxDy, x, y), nEdges)
    ensures ok ==> count' == |before| + |PixelArcs(s, img.dims[0], img.dims[1], maxDy, x, y)|
    ensures ok ==> weight == TerminalWeight(img, factor, x, y)
  {
    var width, height := img.dims[0], img.dims[1];
    var current := s * (width * height) + (x + y * width);
    ghost var arcs := PixelArcs(s, width, height, maxDy, x, y);
    weight := factor * img.Cost(x, y);
    count' := count;
    if y > maxDy {
      assert arcs == NeighbourArcs(s, width, height, maxDy, x, y, 3);
      var cx, cy;
      ok, count', cx, cy := WriteNeighbourArcs(from, to, fwd, bwd, s, width, height, maxDy, x, y, before, nEdges, count);
      if !ok {
        return;
      }
      assert img.CostOrZero(cx, cy) == img.Cost(x, y - 1);
      weight := weight - factor * img.CostOrZero(cx, cy);
    } else if y > 0 {
      var a := Arc(current, current - width, InfiniteWeight, ZeroWeight);
      assert arcs == [a];
      if count >= nEdges {
        ok := false;
        return;
      }
      PutArc(from, to, fwd, bwd, before, nEdges, count, a);
      count' := count + 1;
      assert img.CostOrZero(x + 0, y - 1) == img.Cost(x, y - 1);
      weight := weight - factor * img.CostOrZero(x + 0, y - 1);
      ok := true;
    } else {
      assert arcs == [];
      weight := -InfiniteWeight;
      ok := true;
    }
  }

  /** The terminal arrays hold the pairs of the first p pixels, zeros after. */
  ghost predicate TerminalArraysHold(toSource: array<real>, toSink: array<real>, img: CostImage, factor: real, p: int)
    requires img.IsPlane()
    reads toSource, toSink
  {
    var n := img.dims[0] * img.dims[1];
    toSource.Length == n && toSink.Length == n && 0 <= p <= n
    && (forall q :: 0 <= q < p ==> (toSource[q], toSink[q]) == TerminalAt(img, factor, q))
    && (forall q :: p <= q < n ==> toSource[q] == 0.0 && toSink[q] == 0.0)
  }

  /** Stores the terminal pair of pixel p, whose terminal weight is w; a zero
      weight leaves both slots as they were. */
  method WriteTerminal(toSource: array<real>, toSink: array<real>, img: CostImage, factor: real, p: int, w: real)
    requires img.IsPlane() && toSource != toSink
    requires TerminalArraysHold(toSource, toSink, img, factor, p) && p < img.dims[0] * img.dims[1]
    requires TerminalAt(img, factor, p) == TerminalPair(w)
    modifies toSource, toSink
    ensures TerminalArraysHold(toSource, toSink, img, factor, p + 1)
  {
    if w < 0.0 {
      toSource[p] := -w;
      toSink[p] := ZeroWeight;
    } else if w > 0.0 {
      toSource[p] := ZeroWeight;
      toSink[p] := w;
    }
  }

  /**
   * The cursor loop of the builder for surface s: it walks the pixels in
   * array order, writes the arcs of each pixel and its terminal pair, and
   * fails (the array store throws) as soon as an arc finds no free slot.
   */
  method CursorLoop(from: array<int>, to: array<int>, fwd: array<real>, bwd: array<real>,
                    toSource: array<real>, toSink: array<real>,
                    img: CostImage, maxDy: int, factor: real, s: int, nEdges: int)
    returns (ok: bool)
    requires img.IsPlane() && maxDy >= 0
    requires from != to && fwd != bwd && toSource != toSink && {toSource, toSink} !! {fwd, bwd}
    requires ArcArraysHold(from, to, fwd, bwd, [], nEdges)
    requires TerminalArraysHold(toSource, toSink, img, factor, 0)
    modifies from, to, fwd, bwd, toSource, toSink
    ensures ok <==> |SurfaceArcs(s, img.dims[0], img.dims[1], maxDy)| <= nEdges
    ensures ok ==> ArcArraysHold(from, to, fwd, bwd, SurfaceArcs(s, img.dims[0], img.dims[1], maxDy), nEdges)
    ensures ok ==> TerminalArraysHold(toSource, toSink, img, factor, img.dims[0] * img.dims[1])
  {
    var width: nat, height: nat := img.dims[0], img.dims[1];
    var nNodesPerSurf := width * height;
    var edgeCount := 0;
    var p := 0;
    while p < nNodesPerSurf
      invariant 0 <= p <= nNodesPerSurf
      invariant ArcArraysHold(from, to, fwd, bwd, ArcsUpTo(s, width, height, maxDy, p), nEdges)
      invariant edgeCount == |ArcsUpTo(s, width, height, maxDy, p)|
      invariant TerminalArraysHold(toSource, toSink, img, factor, p)
    {
      assert width > 0;
      CoordinatesInRange(p, width, height);
      var x, y := p % width, p / width;
      var posIdx := x + y * width;
      ghost var before := ArcsUpTo(s, width, height, maxDy, p);
      assert ArcsUpTo(s, width, height, maxDy, p + 1) == before + PixelArcs(s, width, height, maxDy, x, y);
      var pixelOk, w;
      pixelOk, edgeCount, w := WritePixel(from, to, fwd, bwd, img, maxDy, factor, s, x, y, before, nEdges, edgeCount);
      if !pixelOk {
        ArcsUpToMonotone(s, width, height, maxDy, p + 1, width * height);
        return false;
      }
      assert TerminalAt(img, factor, p) == TerminalPair(w);
      assert posIdx == p;
      WriteTerminal(toSource, toSink, img, factor, posIdx, w);
      p := p + 1;
    }
    return true;
  }

  /**
   * One surface's arrays: nEdges zeroed arc slots and W*H zeroed terminal
   * slots, filled by the cursor loop.
   */
  method BuildSurfaceArrays(img: CostImage, maxDy: int, factor: real, s: int, nEdges: int)
    returns (ok: bool, edges: EdgeArrays, weights: WeightArrays, terminals: WeightArrays)
    requires img.IsPlane() && maxDy >= 0 && nEdges >= 0
    ensures ok <==> |SurfaceArcs(s, img.dims[0], img.dims[1], maxDy)| <= nEdges
    ensures ok ==> edges == EdgeArraysOf(PaddedArcs(SurfaceArcs(s, img.dims[0], img.dims[1], maxDy), nEdges))
    ensures ok ==> weights == WeightArraysOf(PaddedArcs(SurfaceArcs(s, img.dims[0], img.dims[1], maxDy), nEdges))
    ensures ok ==> terminals == TerminalArraysOf(img, factor)
  {
    edges, weights, terminals := EdgeArrays([], []), WeightArrays([], []), WeightArrays([], []);
    var nNodesPerSurf := img.dims[0] * img.dims[1];
    var from := new int[nEdges](_ => 0);
    var to := new int[nEdges](_ => 0);
    var fwd := new real[nEdges](_ => 0.0);
    var bwd := new real[nEdges](_ => 0.0);
    var toSource := new real[nNodesPerSurf](_ => 0.0);
    var toSink := new real[nNodesPerSurf](_ => 0.0);
    ok := CursorLoop(from, to, fwd, bwd, toSource, toSink, img, maxDy, factor, s, nEdges);
    if ok {
      ArcArraysSnapshot(from, to, fwd, bwd, SurfaceArcs(s, img.dims[0], img.dims[1], maxDy), nEdges);
      edges, weights := EdgeArrays(from[..], to[..]), WeightArrays(fwd[..], bwd[..]);
      terminals := WeightArrays(toSource[..], toSink[..]);
      assert terminals.first == TerminalArraysOf(img, factor).first;
    }
  }

  // ---------------------------------------------------------------------
  // What Process feeds the solver
  // ---------------------------------------------------------------------

  /** The total number of arc slots of the first m surfaces. */
  function EdgeTotal(es: seq<EdgeArrays>, m: nat): int
    requires m <= |es|
  {
    if m == 0 then 0 else EdgeTotal(es, m - 1) + |es[m - 1].from|
  }

  /** The arcs of the first m surfaces, in the order Process sets them. */
  function FedArcs(es: seq<EdgeArrays>, ws: seq<WeightArrays>, m: nat): seq<Arc>
    requires m <= |es| == |ws|
    requires forall i :: 0 <= i < |es| ==> ParallelArrays(es[i], ws[i])
  {
    if m == 0 then [] else FedArcs(es, ws, m - 1) + ArcList(es[m - 1], ws[m - 1])
  }

  /** The terminal settings of one surface whose node ids start at base. */
  function TerminalList(t: WeightArrays, base: int): (r: seq<TerminalSetting>)
    requires |t.second| == |t.first|
    ensures |r| == |t.first|
  {
    seq(|t.first|, j requires 0 <= j < |t.first| => TerminalSetting(j + base, t.first[j], t.second[j]))
  }

  /** The terminal settings of the first m of n surfaces over nNodes nodes:
      surface i starts at i*nNodes/n. */
  function FedTerminals(ts: seq<WeightArrays>, nNodes: int, n: int, m: nat): seq<TerminalSetting>
    requires m <= |ts| && n > 0
    requires forall i :: 0 <= i < |ts| ==> |ts[i].second| == |ts[i].first|
  {
    if m == 0 then [] else FedTerminals(ts, nNodes, n, m - 1) + TerminalList(ts[m - 1], (m - 1) * nNodes / n)
  }

  lemma {:induction false} FedArcsCount(es: seq<EdgeArrays>, ws: seq<WeightArrays>, m: nat)
    requires m <= |es| == |ws|
    requires forall i :: 0 <= i < |es| ==> ParallelArrays(es[i], ws[i])
    ensures |FedArcs(es, ws, m)| == EdgeTotal(es, m)
  {
    if m > 0 {
      FedArcsCount(es, ws, m - 1);
    }
  }

  /** Every fed arc is an unused slot or an infinite arc between two of the
      n*w*h nodes, when every surface keeps to its own block. */
  lemma {:induction false} FedArcsOnNodes(es: seq<EdgeArrays>, ws: seq<WeightArrays>, w: nat, h: nat, m: nat)
    requires m <= |es| == |ws|
    requires forall i :: 0 <= i < |es| ==> ParallelArrays(es[i], ws[i])
    requires forall i :: 0 <= i < |es| ==> NullOrInBlock(ArcList(es[i], ws[i]), i, w, h)
    ensures forall j :: 0 <= j < |FedArcs(es, ws, m)| ==>
      FedArcs(es, ws, m)[j] == NullArc || ArcInBlock(FedArcs(es, ws, m)[j], 0, |es| * w, h)
  {
    if m > 0 {
      FedArcsOnNodes(es, ws, w, h, m - 1);
      var a, b := FedArcs(es, ws, m - 1), ArcList(es[m - 1], ws[m - 1]);
      assert FedArcs(es, ws, m) == a + b;
      assert (m - 1) * (w * h) >= 0 by { NonNegProduct(m - 1, w * h); }
      assert m * (w * h) <= |es| * (w * h) by { MulLeq(m, |es|, w * h); }
      assert |es| * w * h == |es| * (w * h);
      forall j | 0 <= j < |a + b|
        ensures (a + b)[j] == NullArc || ArcInBlock((a + b)[j], 0, |es| * w, h)
      {
        if j >= |a| {
          assert (a + b)[j] == b[j - |a|];
        }
      }
    }
  }

  lemma DivCancel(a: nat, n: int)
    requires n > 0
    ensures a * n / n == a
  {
    Flat2Coordinates(0, a, n);
  }

  /** Process numbers the terminals of n surfaces of p nodes each
      0, 1, ..., n*p - 1, so every node gets exactly one setting. */
  lemma {:induction false} FedTerminalsNumbering(ts: seq<WeightArrays>, n: nat, p: nat, m: nat)
    requires m <= |ts| == n && n > 0
    requires forall i :: 0 <= i < |ts| ==> |ts[i].first| == p && |ts[i].second| == p
    ensures |FedTerminals(ts, n * p, n, m)| == m * p
    ensures forall k :: 0 <= k < m * p ==> FedTerminals(ts, n * p, n, m)[k].node == k
  {
    if m > 0 {
      FedTerminalsNumbering(ts, n, p, m - 1);
      var base := (m - 1) * p;
      SurfaceBase(m - 1, n, p);
      assert FedTerminals(ts, n * p, n, m) == FedTerminals(ts, n * p, n, m - 1) + TerminalList(ts[m - 1], base);
      assert m * p == base + p;
      NumberedAppend(FedTerminals(ts, n * p, n, m - 1), ts[m - 1], base);
    }
  }

  /** Appending the settings of a surface that starts right after a
      consecutively numbered list keeps the numbering consecutive. */
  lemma NumberedAppend(a: seq<TerminalSetting>, t: WeightArrays, base: int)
    requires |a| == base && |t.second| == |t.first|
    requires forall k :: 0 <= k < |a| ==> a[k].node == k
    ensures |a + TerminalList(t, base)| == base + |t.first|
    ensures forall k :: 0 <= k < base + |t.first| ==> (a + TerminalList(t, base))[k].node == k
  {
    forall k | 0 <= k < base + |t.first|
      ensures (a + TerminalList(t, base))[k].node == k
    {
      if k >= base {
        assert (a + TerminalList(t, base))[k] == TerminalList(t, base)[k - base];
      }
    }
  }

  /** Slot j of surface i is handed to the solver for node j + i*p with that
      slot's capacities. */
  lemma {:induction false} FedTerminalSlot(ts: seq<WeightArrays>, n: nat, p: nat, m: nat, i: nat, j: nat)
    requires m <= |ts| == n && n > 0
    requires forall i :: 0 <= i < |ts| ==> |ts[i].first| == p && |ts[i].second| == p
    requires i < m && j < p
    ensures 0 <= Flat2(j, i, p) < |FedTerminals(ts, n * p, n, m)|
    ensures FedTerminals(ts, n * p, n, m)[Flat2(j, i, p)] == TerminalSetting(Flat2(j, i, p), ts[i].first[j], ts[i].second[j])
  {
    FedTerminalsNumbering(ts, n, p, m - 1);
    FedTerminalsNumbering(ts, n, p, m);
    Flat2InRange(j, i, p, m);
    var a: seq<TerminalSetting> := FedTerminals(ts, n * p, n, m - 1);
    SurfaceBase(m - 1, n, p);
    AppendTerminalBlock(a, ts[m - 1], (m - 1) * p);
    assert FedTerminals(ts, n * p, n, m) == a + TerminalList(ts[m - 1], (m - 1) * p);
    if i < m - 1 {
      FedTerminalSlot(ts, n, p, m - 1, i, j);
    }
  }

  /** Surface i of n, over n*p nodes, starts at node i*p. */
  lemma SurfaceBase(i: nat, n: int, p: nat)
    requires n > 0
    ensures i * (n * p) / n == i * p
  {
    assert i * (n * p) == (i * p) * n;
    DivCancel(i * p, n);
  }

  /** Appending the settings of a surface that starts right after `a`. */
  lemma AppendTerminalBlock(a: seq<TerminalSetting>, t: WeightArrays, base: int)
    requires |a| == base && |t.second| == |t.first|
    ensures forall k :: 0 <= k < |a| ==> (a + TerminalList(t, base))[k] == a[k]
    ensures forall j :: 0 <= j < |t.first| ==>
      (a + TerminalList(t, base))[base + j] == TerminalSetting(base + j, t.first[j], t.second[j])
  {
  }

  /** The inner edge loop of Process: sets the arcs of one surface, slot by slot. */
  method FeedArcs(arcs: seq<Arc>, edges: EdgeArrays, ws: WeightArrays) returns (arcs': seq<Arc>)
    requires ParallelArrays(edges, ws)
    ensures arcs' == arcs + ArcList(edges, ws)
  {
    arcs' := arcs;
    for j := 0 to |edges.from|
      invariant arcs' == arcs + ArcList(edges, ws)[..j]
    {
      arcs' := arcs' + [Arc(edges.from[j], edges.to[j], ws.first[j], ws.second[j])];
    }
    assert ArcList(edges, ws)[..|edges.from|] == ArcList(edges, ws);
  }

  /** The inner terminal loop of Process: sets the terminals of one surface
      whose node ids start at base. */
  method FeedTerminals(terminals: seq<TerminalSetting>, tw: WeightArrays, base: int) returns (terminals': seq<TerminalSetting>)
    requires |tw.second| == |tw.first|
    ensures terminals' == terminals + TerminalList(tw, base)
  {
    terminals' := terminals;
    for j := 0 to |tw.first|
      invariant terminals' == terminals + TerminalList(tw, base)[..j]
    {
      terminals' := terminals' + [TerminalSetting(j + base, tw.first[j], tw.second[j])];
    }
    assert TerminalList(tw, base)[..|tw.first|] == TerminalList(tw, base);
  }

  // ---------------------------------------------------------------------
  // Reading a solution back
  // ---------------------------------------------------------------------

  /** The number of foreground pixels in column x, rows 0..h-1, of the
      surface whose node ids start at base. */
  function ColumnHeight(side: int -> Terminal, base: int, w: int, x: int, h: nat): (n: nat)
    ensures n <= h
  {
    if h == 0 then 0
    else ColumnHeight(side, base, w, x, h - 1) + (if side(base + Flat2(x, h - 1, w)) == Foreground then 1 else 0)
  }

  /** When the solver labels a column as a prefix, its first k rows on the
      foreground side and the rest not (a property of the minimum cut that
      this model assumes, never proves), the decoded altitude is k. */
  lemma {:induction false} PrefixColumnHeight(side: int -> Terminal, base: int, w: int, x: int, h: nat, k: nat)
    requires k <= h
    requires forall y :: 0 <= y < h ==> (side(base + Flat2(x, y, w)) == Foreground <==> y < k)
    ensures ColumnHeight(side, base, w, x, h) == k
  {
    if h > k {
      PrefixColumnHeight(side, base, w, x, h - 1, k);
    } else if h > 0 {
      PrefixColumnHeight(side, base, w, x, h - 1, k - 1);
    }
  }

  /** The altitude loop's running count for column x after the first p flat positions. */
  function ColumnCountUpTo(side: int -> Terminal, base: int, w: int, x: int, p: nat): nat
    requires w > 0
  {
    if p == 0 then 0
    else ColumnCountUpTo(side, base, w, x, p - 1)
         + (if (p - 1) % w == x && side(base + (p - 1)) == Foreground then 1 else 0)
  }

  /** Counting along a row up to column k adds pixel (x, y) once x < k. */
  lemma {:induction false} RowContribution(side: int -> Terminal, base: int, w: int, x: int, y: nat, k: nat)
    requires 0 <= x < w && k <= w
    ensures ColumnCountUpTo(side, base, w, x, y * w + k)
         == ColumnCountUpTo(side, base, w, x, y * w)
            + (if x < k && side(base + Flat2(x, y, w)) == Foreground then 1 else 0)
  {
    if k > 0 {
      RowContribution(side, base, w, x, y, k - 1);
      Flat2Coordinates(k - 1, y, w);
    }
  }

  /** The flat-order count over a whole w-by-h plane is the column height. */
  lemma {:induction false} ColumnCountIsHeight(side: int -> Terminal, base: int, w: int, x: int, h: nat)
    requires 0 <= x < w
    ensures ColumnCountUpTo(side, base, w, x, w * h) == ColumnHeight(side, base, w, x, h)
  {
    if h > 0 {
      ColumnCountIsHeight(side, base, w, x, h - 1);
      assert w * h == (h - 1) * w + w;
      assert w * (h - 1) == (h - 1) * w;
      RowContribution(side, base, w, x, h - 1, w);
    }
  }

  /** The mask byte of a node: 255 for the foreground side, 0 otherwise. */
  function MaskValue(t: Terminal): bv8
  {
    if t == Foreground then 0xFF else 0
  }

  /** The number of 255 bytes in column x, rows 0..h-1, of a mask of width w. */
  function MaskColumnCount(mask: seq<bv8>, w: int, x: int, h: nat): nat
    requires 0 <= x < w && w * h <= |mask|
  {
    if h == 0 then 0
    else
      Flat2InRange(x, h - 1, w, h);
      MulLeq(h - 1, h, w);
      MaskColumnCount(mask, w, x, h - 1) + (if mask[Flat2(x, h - 1, w)] == 0xFF then 1 else 0)
  }

  /** A mask written from the same labels has the altitude as its per-column count of 255s. */
  lemma {:induction false} MaskMatchesAltitude(side: int -> Terminal, base: int, w: int, h: nat, mask: seq<bv8>, x: int)
    requires 0 <= x < w && w * h <= |mask|
    requires forall p :: 0 <= p < |mask| ==> mask[p] == MaskValue(side(base + p))
    ensures MaskColumnCount(mask, w, x, h) == ColumnHeight(side, base, w, x, h)
  {
    if h > 0 {
      MulLeq(h - 1, h, w);
      Flat2InRange(x, h - 1, w, h);
      MaskMatchesAltitude(side, base, w, h - 1, mask, x);
    }
  }

  // ---------------------------------------------------------------------
  // The detector object
  // ---------------------------------------------------------------------

  /**
   * The builder's comparison of an image's dimensions with the recorded
   * ones, index by index over the image's dimensions: it dereferences the
   * recorded array even when none is recorded, and indexes it past its end
   * for an image with more dimensions.  Built here means the two agree.
   */
  method CompareDimensions(recorded: Option<seq<int>>, dims: seq<int>) returns (r: BuildOutcome)
    ensures recorded.None? ==> r == if |dims| > 0 then Thrown(NullPointer) else Built
    ensures recorded.Some? && |dims| > |recorded.value| ==> r == Thrown(IndexOutOfBounds)
    ensures recorded.Some? && |dims| <= |recorded.value| ==>
      (r == Built <==> dims == recorded.value[..|dims|]) && (r == Built || r == Rejected)
  {
    var isOk := true;
    var i := 0;
    while i < |dims|
      invariant 0 <= i <= |dims|
      invariant i > 0 ==> recorded.Some? && i <= |recorded.value|
      invariant isOk <==> i == 0 || dims[..i] == recorded.value[..i]
    {
      if recorded.None? {
        return Thrown(NullPointer);
      }
      if i >= |recorded.value| {
        return Thrown(IndexOutOfBounds);
      }
      assert dims[..i + 1] == dims[..i] + [dims[i]];
      assert recorded.value[..i + 1] == recorded.value[..i] + [recorded.value[i]];
      if recorded.value[i] != dims[i] {
        isOk := false;
      }
      i := i + 1;
    }
    assert dims[..|dims|] == dims;
    r := if isOk then Built else Rejected;
  }

  class MinCostYCurve {
    var nSurface: int
    var dimensions: Option<seq<int>>
    var graphsEdges: seq<EdgeArrays>
    var graphsEdgesWeights: seq<WeightArrays>
    var graphsTerminalWeights: seq<WeightArrays>
    var isProcessed: bool
    var maxFlow: real
    var graphCut: Option<SolverRun>

    /** The lists grow together, one entry per surface; once recorded the
        dimensions are 2-D; every stored graph keeps the surface invariant;
        a processed detector has a solver run. */
    ghost predicate Valid()
      reads this
    {
      nSurface == |graphsEdges| == |graphsEdgesWeights| == |graphsTerminalWeights|
      && (dimensions.Some? ==> |dimensions.value| == 2 && dimensions.value[0] >= 0 && dimensions.value[1] >= 0)
      && (nSurface > 0 ==> dimensions.Some?)
      && (dimensions.Some? ==> SurfacesWellFormed(graphsEdges, graphsEdgesWeights, graphsTerminalWeights, dimensions.value))
      && (isProcessed ==> nSurface > 0 && graphCut.Some?)
    }

    constructor ()
      ensures Valid()
      ensures nSurface == 0 && dimensions == None && !isProcessed && maxFlow == 0.0 && graphCut == None
      ensures graphsEdges == [] && graphsEdgesWeights == [] && graphsTerminalWeights == []
    {
      nSurface := 0;
      dimensions := None;
      graphsEdges := [];
      graphsEdgesWeights := [];
      graphsTerminalWeights := [];
      isProcessed := false;
      maxFlow := 0.0;
      graphCut := None;
    }

    function Width(): nat
      reads this
      requires Valid() && dimensions.Some?
    {
      dimensions.value[0]
    }

    function Height(): nat
      reads this
      requires Valid() && dimensions.Some?
    {
      dimensions.value[1]
    }

    /**
     * Builds the graph of the next surface from a cost image.  The outcome
     * follows the input checks, the allocation and the cursor loop; only a
     * built graph changes the lists, while the dimensions may already be
     * recorded on a refused or failed call.
     */
    method CreateSurfaceGraph(img: CostImage, maxDy: int, factor: real) returns (outcome: BuildOutcome, imgAfter: CostImage)
      requires Valid() && img.Valid()
      modifies this
      ensures Valid()
      ensures outcome == BuildOutcomeOf(old(dimensions), img, maxDy, old(nSurface))
      ensures imgAfter == ImageAfterBuild(old(dimensions), img, maxDy)
      ensures dimensions == RecordedAfter(old(dimensions), img.dims)
      ensures outcome == Built ==>
        nSurface == old(nSurface) + 1
        && graphsEdges == old(graphsEdges) + [EdgeArraysOf(PaddedArcs(SurfaceArcs(old(nSurface), img.dims[0], img.dims[1], maxDy), AllocatedEdges(img.dims, maxDy)))]
        && graphsEdgesWeights == old(graphsEdgesWeights) + [WeightArraysOf(PaddedArcs(SurfaceArcs(old(nSurface), img.dims[0], img.dims[1], maxDy), AllocatedEdges(img.dims, maxDy)))]
        && graphsTerminalWeights == old(graphsTerminalWeights) + [TerminalArraysOf(ZeroFirstPixel(img), factor)]
      ensures outcome != Built ==>
        nSurface == old(nSurface) && graphsEdges == old(graphsEdges)
        && graphsEdgesWeights == old(graphsEdgesWeights) && graphsTerminalWeights == old(graphsTerminalWeights)
      ensures isProcessed == old(isProcessed) && maxFlow == old(maxFlow) && graphCut == old(graphCut)
    {
      imgAfter := img;
      var isOk := true;
      var nDim := |img.dims|;
      var dims := img.dims;
      if nDim != 2 {
        isOk := false;
      }
      if dimensions.None? && isOk {
        dimensions := Some(dims);
      } else {
        var check := CompareDimensions(dimensions, dims);
        if check.Thrown? {
          return check, imgAfter;
        }
        if check == Rejected {
          isOk := false;
        }
      }
      if maxDy < 0 {
        isOk := false;
      }
      if !isOk {
        return Rejected, imgAfter;
      }
      var width := dimensions.value[0];
      var height := dimensions.value[0];  // the source takes the height from the first dimension too
      var nEdges := width * (height - 1) + 2 * (width - 1) * (height - maxDy);
      assert nEdges == AllocatedEdges(img.dims, maxDy);
      if nEdges < 0 {
        return Thrown(NegativeArraySize), imgAfter;
      }
      if |img.pixels| == 0 {
        return Thrown(IndexOutOfBounds), imgAfter;
      }
      // the out-of-bounds value is the image's own first element, set to zero
      imgAfter := ZeroFirstPixel(img);
      var ok, edges, weights, terminals := BuildSurfaceArrays(imgAfter, maxDy, factor, nSurface, nEdges);
      if !ok {
        return Thrown(IndexOutOfBounds), imgAfter;
      }
      BuiltSurfaceWellFormed(imgAfter, maxDy, factor, nSurface, nEdges);
      graphsEdges := graphsEdges + [edges];
      graphsEdgesWeights := graphsEdgesWeights + [weights];
      graphsTerminalWeights := graphsTerminalWeights + [terminals];
      nSurface := nSurface + 1;
      return Built, imgAfter;
    }

    /** The builder with factor 1. */
    method CreateSurfaceGraphWithUnitFactor(img: CostImage, maxDy: int) returns (outcome: BuildOutcome, imgAfter: CostImage)
      requires Valid() && img.Valid()
      modifies this
      ensures Valid()
      ensures outcome == BuildOutcomeOf(old(dimensions), img, maxDy, old(nSurface))
      ensures imgAfter == ImageAfterBuild(old(dimensions), img, maxDy)
      ensures dimensions == RecordedAfter(old(dimensions), img.dims)
      ensures outcome == Built ==>
        nSurface == old(nSurface) + 1
        && graphsEdges == old(graphsEdges) + [EdgeArraysOf(PaddedArcs(SurfaceArcs(old(nSurface), img.dims[0], img.dims[1], maxDy), AllocatedEdges(img.dims, maxDy)))]
        && graphsEdgesWeights == old(graphsEdgesWeights) + [WeightArraysOf(PaddedArcs(SurfaceArcs(old(nSurface), img.dims[0], img.dims[1], maxDy), AllocatedEdges(img.dims, maxDy)))]
        && graphsTerminalWeights == old(graphsTerminalWeights) + [TerminalArraysOf(ZeroFirstPixel(img), 1.0)]
      ensures outcome != Built ==>
        nSurface == old(nSurface) && graphsEdges == old(graphsEdges)
        && graphsEdgesWeights == old(graphsEdgesWeights) && graphsTerminalWeights == old(graphsTerminalWeights)
      ensures isProcessed == old(isProcessed) && maxFlow == old(maxFlow) && graphCut == old(graphCut)
    {
      outcome, imgAfter := CreateSurfaceGraph(img, maxDy, 1.0);
    }

    /** The problem Process builds from the stored graphs. */
    function Problem(): FlowProblem
      reads this
      requires Valid() && nSurface > 0
    {
      var nNodes := nSurface * dimensions.value[0] * dimensions.value[1];
      FlowProblem(nNodes, EdgeTotal(graphsEdges, nSurface),
                  FedArcs(graphsEdges, graphsEdgesWeights, nSurface),
                  FedTerminals(graphsTerminalWeights, nNodes, nSurface, nSurface))
    }

    /** The problem handed to the solver is well formed: as many arcs as
        announced, each an unused slot or an infinite arc between announced
        nodes, and exactly one terminal setting per node, in node order. */
    lemma ProblemWellFormed()
      requires Valid() && nSurface > 0
      ensures |Problem().arcs| == Problem().edgeCount
      ensures forall j :: 0 <= j < |Problem().arcs| ==>
        Problem().arcs[j] == NullArc || ArcInBlock(Problem().arcs[j], 0, Problem().nodeCount, 1)
      ensures |Problem().terminals| == Problem().nodeCount
      ensures forall k :: 0 <= k < Problem().nodeCount ==> Problem().terminals[k].node == k
      ensures forall k :: 0 <= k < Problem().nodeCount ==>
        SignNormalised(Problem().terminals[k].toSource, Problem().terminals[k].toSink)
    {
      var w, h := dimensions.value[0], dimensions.value[1];
      var n := nSurface;
      assert n * w * h == n * (w * h);
      FedArcsCount(graphsEdges, graphsEdgesWeights, n);
      FedArcsOnNodes(graphsEdges, graphsEdgesWeights, w, h, n);
      assert (n * w) * h == (n * w * h) * 1;
      FedTerminalsNumbering(graphsTerminalWeights, n, w * h, n);
      forall k | 0 <= k < Problem().nodeCount
        ensures SignNormalised(Problem().terminals[k].toSource, Problem().terminals[k].toSink)
      {
        assert w * h > 0;
        CoordinatesInRange(k, w * h, n);
        var i, j := RowOf(k, w * h), ColumnOf(k, w * h);
        FedTerminalSlot(graphsTerminalWeights, n, w * h, n, i, j);
        assert SurfaceWellFormed(graphsEdges[i], graphsEdgesWeights[i], graphsTerminalWeights[i], i, w, h);
      }
    }

    /** The loops of Process that count the edges and feed every arc and
        terminal pair; they leave the detector as it is. */
    method AssembleProblem() returns (problem: FlowProblem)
      requires Valid() && nSurface > 0
      ensures problem == Problem()
    {
      var n := nSurface;
      var nNodes := n * dimensions.value[0] * dimensions.value[1];
      var edgeLists, weightLists, terminalLists := graphsEdges, graphsEdgesWeights, graphsTerminalWeights;
      var nEdges := 0;
      for i := 0 to |edgeLists|
        invariant nEdges == EdgeTotal(edgeLists, i)
      {
        nEdges := nEdges + |edgeLists[i].from|;
      }
      var arcs: seq<Arc> := [];
      for i := 0 to |edgeLists|
        invariant arcs == FedArcs(edgeLists, weightLists, i)
      {
        arcs := FeedArcs(arcs, edgeLists[i], weightLists[i]);
      }
      var terminals: seq<TerminalSetting> := [];
      for i := 0 to |terminalLists|
        invariant terminals == FedTerminals(terminalLists, nNodes, n, i)
      {
        terminals := FeedTerminals(terminals, terminalLists[i], i * nNodes / n);
      }
      problem := FlowProblem(nNodes, nEdges, arcs, terminals);
    }

    /**
     * Hands every stored graph to the solver and records its flow.  Refused
     * (false) while no surface has been built.
     */
    method Process(solve: FlowProblem -> Solution) returns (ok: bool)
      requires Valid()
      modifies this
      ensures Valid()
      ensures ok <==> old(nSurface) > 0
      ensures nSurface == old(nSurface) && dimensions == old(dimensions) && graphsEdges == old(graphsEdges)
      ensures graphsEdgesWeights == old(graphsEdgesWeights) && graphsTerminalWeights == old(graphsTerminalWeights)
      ensures ok ==> isProcessed && graphCut == Some(SolverRun(Problem(), solve(Problem())))
                     && maxFlow == solve(Problem()).flow
      ensures !ok ==> isProcessed == old(isProcessed) && graphCut == old(graphCut) && maxFlow == old(maxFlow)
    {
      if nSurface <= 0 {
        return false;
      }
      var problem := AssembleProblem();
      var solution := solve(problem);
      graphCut := Some(SolverRun(problem, solution));
      maxFlow := solution.flow;
      isProcessed := true;
      return true;
    }

    /** Surfaces are numbered from 1, and only a processed detector decodes. */
    predicate Decodable(surfId: int)
      reads this
    {
      isProcessed && 1 <= surfId <= nSurface
    }

    /** The first node id of surface surfId, as the decoders compute it. */
    function BlockStart(surfId: int): int
      reads this
      requires Valid() && dimensions.Some?
    {
      Width() * Height() * (surfId - 1)
    }

    function Sides(): int -> Terminal
      reads this
      requires graphCut.Some?
    {
      graphCut.value.solution.side
    }

    /**
     * The altitude map of surface surfId: for each column, the number of
     * its pixels on the foreground side of the cut.  None (null) for an
     * unknown surface or before Process.
     */
    method GetAltitudeMap(surfId: int) returns (r: Option<seq<int>>)
      requires Valid()
      ensures r.Some? <==> Decodable(surfId)
      ensures r.Some? ==> |r.value| == Width()
      ensures r.Some? ==> forall x :: 0 <= x < Width() ==>
        r.value[x] == ColumnHeight(Sides(), BlockStart(surfId), Width(), x, Height())
      ensures r.Some? ==> forall x :: 0 <= x < Width() ==> 0 <= r.value[x] <= Height()
    {
      if surfId > nSurface || surfId <= 0 || !isProcessed {
        return None;
      }
      var width, height := dimensions.value[0], dimensions.value[1];
      var nNodes := width * height;
      var side := graphCut.value.solution.side;
      var base := nNodes * (surfId - 1);
      var depth := new int[width](_ => 0);
      for idx := 0 to nNodes
        invariant forall x :: 0 <= x < width ==> depth[x] == ColumnCountUpTo(side, base, width, x, idx)
      {
        assert width > 0;
        var column := idx % width;
        if side(idx + base) == Foreground {
          depth[column] := depth[column] + 1;
        }
      }
      forall x | 0 <= x < width
        ensures depth[x] == ColumnHeight(side, base, width, x, height)
      {
        ColumnCountIsHeight(side, base, width, x, height);
      }
      return Some(depth[..]);
    }

    /**
     * The mask of surface surfId: 255 at every pixel on the foreground
     * side of the cut and 0 elsewhere, in array order.  None (null) for an
     * unknown surface or before Process.
     */
    method GetSurfaceMask(surfId: int) returns (r: Option<seq<bv8>>)
      requires Valid()
      ensures r.Some? <==> Decodable(surfId)
      ensures r.Some? ==> |r.value| == Width() * Height()
      ensures r.Some? ==> forall p :: 0 <= p < |r.value| ==> r.value[p] == MaskValue(Sides()(BlockStart(surfId) + p))
    {
      if surfId > nSurface || surfId <= 0 || !isProcessed {
        return None;
      }
      var width, height := dimensions.value[0], dimensions.value[1];
      var nNodes := width * height;
      var side := graphCut.value.solution.side;
      var segmentation := new bv8[nNodes](_ => 0);
      for p := 0 to nNodes
        invariant forall q :: 0 <= q < p ==> segmentation[q] == MaskValue(side(q + nNodes * (surfId - 1)))
      {
        assert width > 0;
        CoordinatesInRange(p, width, height);
        var x, y := p % width, p / width;  // the cursor's position
        var idx := x + y * width;
        if side(idx + nNodes * (surfId - 1)) == Foreground {
          segmentation[idx] := 0xFF;
        } else {
          segmentation[idx] := 0;
        }
      }
      return Some(segmentation[..]);
    }

    /** Decoding a surface both ways gives answers that agree: the altitude of
        each column is its count of 255s in the mask. */
    method DecodeSurface(surfId: int) returns (altitude: Option<seq<int>>, mask: Option<seq<bv8>>)
      requires Valid()
      ensures altitude.Some? <==> Decodable(surfId)
      ensures mask.Some? <==> Decodable(surfId)
      ensures altitude.Some? ==> |altitude.value| == Width() && |mask.value| == Width() * Height()
      ensures altitude.Some? ==> forall x :: 0 <= x < Width() ==>
        altitude.value[x] == MaskColumnCount(mask.value, Width(), x, Height())
    {
      altitude := GetAltitudeMap(surfId);
      mask := GetSurfaceMask(surfId);
      if altitude.Some? {
        forall x | 0 <= x < Width()
          ensures altitude.value[x] == MaskColumnCount(mask.value, Width(), x, Height())
        {
          MaskMatchesAltitude(Sides(), BlockStart(surfId), Width(), Height(), mask.value, x);
        }
      }
    }
  }
}
