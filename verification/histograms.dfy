/**
 * Per-sector histograms and their normalisation: 256 pattern-code counts, 16 orientation
 * buckets weighted by gradient magnitude, and the three mean channel intensities of a sector.
 */
module Histograms {
  import opened Grids
  import opened Sequences
  import opened Outcomes

  /** The number of pattern-code buckets. */
  const LbpBuckets: nat := 256
  /** The number of orientation buckets the angle range is split into. */
  const PiSplit: nat := 16

  // ---------------------------------------------------------------- pattern-code counts

  /** How many of `codes` equal `c`. */
  function Count(codes: seq<nat>, c: nat): nat
  {
    if codes == [] then 0
    else Count(codes[..|codes| - 1], c) + (if codes[|codes| - 1] == c then 1 else 0)
  }

  /** The `n`-bucket histogram of `codes`: bucket `c` counts the occurrences of `c`. */
  function Tally(codes: seq<nat>, n: nat): (t: seq<real>)
    ensures |t| == n
  {
    seq(n, c requires 0 <= c < n => Count(codes, c) as real)
  }

  /** Bucket `c` holds the multiplicity of `c` among the codes. */
  lemma {:induction false} CountIsMultiplicity(codes: seq<nat>, c: nat)
    ensures Count(codes, c) == multiset(codes)[c]
  {
    if codes != [] {
      var p := codes[..|codes| - 1];
      CountIsMultiplicity(p, c);
      assert codes == p + [codes[|codes| - 1]];
    }
  }

  lemma TallySnoc(codes: seq<nat>, x: nat, n: nat)
    requires x < n
    ensures Tally(codes + [x], n) == Tally(codes, n)[x := Tally(codes, n)[x] + 1.0]
  {
    assert (codes + [x])[..|codes|] == codes;
  }

  /** With every code below `n`, the buckets add up to the number of codes. */
  lemma {:induction false} TallyMass(codes: seq<nat>, n: nat)
    requires forall k :: 0 <= k < |codes| ==> codes[k] < n
    ensures Sum(Tally(codes, n)) == |codes| as real
  {
    if codes == [] {
      SumZeros(n);
      assert Tally(codes, n) == Zeros(n);
    } else {
      var p, x := codes[..|codes| - 1], codes[|codes| - 1];
      TallyMass(p, n);
      assert codes == p + [x];
      TallySnoc(p, x, n);
      SumUpdate(Tally(p, n), x, 1.0);
    }
  }

  /** A cell of an encoded image: its first channel holds a pattern code below 256. */
  type CodePixel = p: Pixel | p.r < LbpBuckets witness Black

  /**
   * The pattern-code histogram of one sector of an encoded image: one count per code, read
   * from the first channel of each cell.
   */
  method LbpFromSector(g: Grid<CodePixel>, r0: nat, c0: nat, h: nat, w: nat) returns (lbp: seq<real>)
    requires IsRect(g) && r0 + h <= |g| && c0 + w <= Cols(g)
    ensures lbp == Tally(Codes(SectorCells(g, r0, c0, h, w)), LbpBuckets)
  {
    lbp := Zeros(LbpBuckets);
    assert lbp == Tally([], LbpBuckets);
    var i := 0;
    while i < h
      invariant 0 <= i <= h
      invariant lbp == Tally(Codes(Visited(g, r0, c0, w, i, 0)), LbpBuckets)
    {
      var j := 0;
      while j < w
        invariant 0 <= j <= w
        invariant lbp == Tally(Codes(Visited(g, r0, c0, w, i, j)), LbpBuckets)
      {
        var code := g[r0 + i][c0 + j].r;
        CodesSnoc(Visited(g, r0, c0, w, i, j), g[r0 + i][c0 + j]);
        TallySnoc(Codes(Visited(g, r0, c0, w, i, j)), code, LbpBuckets);
        lbp := lbp[code := lbp[code] + 1.0];
        j := j + 1;
      }
      i := i + 1;
    }
  }

  /** A sector's pattern histogram counts each of its cells exactly once. */
  lemma LbpSectorMass(g: Grid<CodePixel>, r0: nat, c0: nat, h: nat, w: nat)
    requires IsRect(g) && r0 + h <= |g| && c0 + w <= Cols(g)
    ensures Sum(Tally(Codes(SectorCells(g, r0, c0, h, w)), LbpBuckets)) == (h * w) as real
  {
    TallyMass(Codes(SectorCells(g, r0, c0, h, w)), LbpBuckets);
    SectorCellsLength(g, r0, c0, h, w);
  }

  // ---------------------------------------------------------------- orientation buckets

  /** The total weight of the entries whose raw angle index falls in bucket `c` modulo `n`. */
  function BucketWeight(bins: seq<nat>, weights: seq<real>, c: nat, n: nat): real
    requires |bins| == |weights| && n > 0
  {
    if bins == [] then 0.0
    else
      var k := |bins| - 1;
      BucketWeight(bins[..k], weights[..k], c, n) + (if bins[k] % n == c then weights[k] else 0.0)
  }

  /**
   * The `n`-bucket weighted histogram, filled entry by entry: each weight is added to the bucket
   * of its angle index modulo `n`.
   */
  function WeightedTally(bins: seq<nat>, weights: seq<real>, n: nat): (t: seq<real>)
    requires |bins| == |weights| && n > 0
    ensures |t| == n
  {
    if bins == [] then Zeros(n)
    else
      var k := |bins| - 1;
      var t := WeightedTally(bins[..k], weights[..k], n);
      t[bins[k] % n := t[bins[k] % n] + weights[k]]
  }

  lemma WeightedTallySnoc(bins: seq<nat>, weights: seq<real>, b: nat, v: real, n: nat)
    requires |bins| == |weights| && n > 0
    ensures WeightedTally(bins + [b], weights + [v], n)
         == WeightedTally(bins, weights, n)[b % n := WeightedTally(bins, weights, n)[b % n] + v]
  {
    assert (bins + [b])[..|bins|] == bins;
    assert (weights + [v])[..|weights|] == weights;
  }

  /** Bucket `c` holds the total weight of the entries whose angle index is `c` modulo `n`. */
  lemma {:induction false} WeightedTallyBuckets(bins: seq<nat>, weights: seq<real>, n: nat, c: nat)
    requires |bins| == |weights| && c < n
    ensures WeightedTally(bins, weights, n)[c] == BucketWeight(bins, weights, c, n)
  {
    if bins != [] {
      var k := |bins| - 1;
      WeightedTallyBuckets(bins[..k], weights[..k], n, c);
    }
  }

  /** Every weight lands in exactly one bucket, so the buckets add up to the total weight. */
  lemma {:induction false} WeightedTallyMass(bins: seq<nat>, weights: seq<real>, n: nat)
    requires |bins| == |weights| && n > 0
    ensures Sum(WeightedTally(bins, weights, n)) == Sum(weights)
  {
    if bins == [] {
      SumZeros(n);
    } else {
      var k := |bins| - 1;
      WeightedTallyMass(bins[..k], weights[..k], n);
      SumUpdate(WeightedTally(bins[..k], weights[..k], n), bins[k] % n, weights[k]);
    }
  }

  /** Whether the magnitude and angle-index fields are rectangles of the same size. */
  predicate AlignedFields(lengths: Grid<real>, bins: Grid<nat>)
  {
    IsRect(lengths) && IsRect(bins) && |lengths| == |bins| && Cols(lengths) == Cols(bins)
  }

  /**
   * The orientation histogram of one sector: each cell adds its gradient magnitude to the
   * bucket of its raw angle index modulo 16. The angle index is the integer the source
   * computes from the gradient direction before reducing it.
   */
  method HogFromSector(lengths: Grid<real>, bins: Grid<nat>, r0: nat, c0: nat, h: nat, w: nat) returns (hog: seq<real>)
    requires AlignedFields(lengths, bins) && r0 + h <= |bins| && c0 + w <= Cols(bins)
    ensures hog == WeightedTally(SectorCells(bins, r0, c0, h, w), SectorCells(lengths, r0, c0, h, w), PiSplit)
  {
    hog := Zeros(PiSplit);
    assert hog == WeightedTally([], [], PiSplit);
    var i := 0;
    while i < h
      invariant 0 <= i <= h
      invariant hog == WeightedTally(Visited(bins, r0, c0, w, i, 0), Visited(lengths, r0, c0, w, i, 0), PiSplit)
    {
      var j := 0;
      while j < w
        invariant 0 <= j <= w
        invariant hog == WeightedTally(Visited(bins, r0, c0, w, i, j), Visited(lengths, r0, c0, w, i, j), PiSplit)
      {
        var b, v := bins[r0 + i][c0 + j], lengths[r0 + i][c0 + j];
        WeightedTallySnoc(Visited(bins, r0, c0, w, i, j), Visited(lengths, r0, c0, w, i, j), b, v, PiSplit);
        hog := hog[b % PiSplit := hog[b % PiSplit] + v];
        j := j + 1;
      }
      i := i + 1;
    }
  }

  // ---------------------------------------------------------------- mean colour

  /** The sum of channel `c` over `ps`. */
  function ChannelSum(ps: seq<Pixel>, c: nat): nat
    requires c < 3
  {
    if ps == [] then 0 else ChannelSum(ps[..|ps| - 1], c) + Channel(ps[|ps| - 1], c)
  }

  /**
   * The colour feature of a sector's cells: each channel's sum divided by the cell count
   * times 255, or nothing for an empty sector, where the source divides zero by zero.
   */
  function SectorColor(cells: seq<Pixel>): Option<seq<real>>
  {
    var size := |cells| * 255;
    if size == 0 then None
    else Some([ChannelSum(cells, 0) as real / size as real,
               ChannelSum(cells, 1) as real / size as real,
               ChannelSum(cells, 2) as real / size as real])
  }

  /** The colour feature of one sector: the three channel sums over the block, each divided by its cell count times 255. */
  method ColorFromSector(g: Grid<Pixel>, r0: nat, c0: nat, h: nat, w: nat) returns (color: Option<seq<real>>)
    requires IsRect(g) && r0 + h <= |g| && c0 + w <= Cols(g)
    ensures color == SectorColor(SectorCells(g, r0, c0, h, w))
  {
    var size := h * w * 255;
    var sr, sg, sb := 0, 0, 0;
    var i := 0;
    while i < h
      invariant 0 <= i <= h
      invariant sr == ChannelSum(Visited(g, r0, c0, w, i, 0), 0)
      invariant sg == ChannelSum(Visited(g, r0, c0, w, i, 0), 1)
      invariant sb == ChannelSum(Visited(g, r0, c0, w, i, 0), 2)
    {
      var j := 0;
      while j < w
        invariant 0 <= j <= w
        invariant sr == ChannelSum(Visited(g, r0, c0, w, i, j), 0)
        invariant sg == ChannelSum(Visited(g, r0, c0, w, i, j), 1)
        invariant sb == ChannelSum(Visited(g, r0, c0, w, i, j), 2)
      {
        var p := g[r0 + i][c0 + j];
        ChannelSumSnoc(Visited(g, r0, c0, w, i, j), p);
        sr, sg, sb := sr + p.r, sg + p.g, sb + p.b;
        j := j + 1;
      }
      i := i + 1;
    }
    SectorCellsLength(g, r0, c0, h, w);
    if size == 0 {
      color := None;
    } else {
      color := Some([sr as real / size as real, sg as real / size as real, sb as real / size as real]);
    }
  }

  lemma ChannelSumSnoc(ps: seq<Pixel>, p: Pixel)
    ensures ChannelSum(ps + [p], 0) == ChannelSum(ps, 0) + p.r
    ensures ChannelSum(ps + [p], 1) == ChannelSum(ps, 1) + p.g
    ensures ChannelSum(ps + [p], 2) == ChannelSum(ps, 2) + p.b
  {
    assert (ps + [p])[..|ps|] == ps;
  }

  lemma {:induction false} ChannelSumBound(ps: seq<Pixel>, c: nat)
    requires c < 3 && forall k :: 0 <= k < |ps| ==> Channel(ps[k], c) <= 255
    ensures ChannelSum(ps, c) <= 255 * |ps|
  {
    if ps != [] {
      ChannelSumBound(ps[..|ps| - 1], c);
    }
  }

  /**
   * A non-empty sector of 8-bit channels has a colour feature of three values, each in
   * [0, 1]; an empty sector has none.
   */
  lemma SectorColorRange(cells: seq<Pixel>)
    requires forall k :: 0 <= k < |cells| ==> cells[k].r <= 255 && cells[k].g <= 255 && cells[k].b <= 255
    ensures SectorColor(cells).None? <==> cells == []
    ensures SectorColor(cells).Some? ==>
      |SectorColor(cells).value| == 3 && forall k :: 0 <= k < 3 ==> 0.0 <= SectorColor(cells).value[k] <= 1.0
  {
    if cells != [] {
      var size := (|cells| * 255) as real;
      forall c | 0 <= c < 3
        ensures 0.0 <= ChannelSum(cells, c) as real / size <= 1.0
      {
        ChannelSumBound(cells, c);
        FractionInUnit(ChannelSum(cells, c) as real, size);
      }
    }
  }

  lemma FractionInUnit(s: real, size: real)
    requires 0.0 <= s <= size && size > 0.0
    ensures 0.0 <= s / size <= 1.0
  {
  }

  lemma {:induction false} ChannelSumUniform(ps: seq<Pixel>, q: Pixel, c: nat)
    requires c < 3 && forall k :: 0 <= k < |ps| ==> ps[k] == q
    ensures ChannelSum(ps, c) == |ps| * Channel(q, c)
  {
    if ps != [] {
      ChannelSumUniform(ps[..|ps| - 1], q, c);
    }
  }

  /** A non-empty sector of one colour has as feature that colour's channels divided by 255. */
  lemma SectorColorUniform(cells: seq<Pixel>, q: Pixel)
    requires cells != [] && forall k :: 0 <= k < |cells| ==> cells[k] == q
    ensures SectorColor(cells) == Some([q.r as real / 255.0, q.g as real / 255.0, q.b as real / 255.0])
  {
    forall c | 0 <= c < 3
      ensures ChannelSum(cells, c) as real / (|cells| * 255) as real == Channel(q, c) as real / 255.0
    {
      ChannelSumUniform(cells, q, c);
      CancelCount(|cells|, Channel(q, c));
    }
    assert Channel(q, 0) == q.r && Channel(q, 1) == q.g && Channel(q, 2) == q.b;
  }

  /** The mean of `n` copies of `v`, as a fraction of 255, is `v / 255`. */
  lemma CancelCount(n: nat, v: nat)
    requires n > 0
    ensures (n * v) as real / (n * 255) as real == v as real / 255.0
  {
    var x, y := n as real, v as real;
    assert (n * v) as real == x * y;
    assert (n * 255) as real == x * 255.0;
  }

  // ---------------------------------------------------------------- normalisation

  /**
   * A sector histogram divided by its L2 norm, or left as it is when that norm is not
   * positive. The square root is the parameter `root`.
   */
  function Normalized(h: seq<real>, root: real -> real): (out: seq<real>)
    ensures |out| == |h|
  {
    var norm := root(SumSquares(h));
    if norm > 0.0 then Divided(h, norm) else h
  }

  /**
   * Normalises one sector histogram: accumulates the sum of squares, takes its root, and
   * divides each bucket in place when that root is positive.
   */
  method NormalizeSector(h: seq<real>, root: real -> real) returns (out: seq<real>)
    ensures out == Normalized(h, root)
  {
    var sum := 0.0;
    var k := 0;
    while k < |h|
      invariant 0 <= k <= |h|
      invariant sum == SumSquares(h[..k])
    {
      assert h[..k + 1][..k] == h[..k];
      sum := sum + Square(h[k]);
      k := k + 1;
    }
    assert h[..k] == h;
    var norm := root(sum);
    out := h;
    if norm > 0.0 {
      k := 0;
      while k < |out|
        invariant 0 <= k <= |out| && |out| == |h|
        invariant forall m :: 0 <= m < k ==> out[m] == Divided(h, norm)[m]
        invariant forall m :: k <= m < |h| ==> out[m] == h[m]
      {
        out := out[k := out[k] / norm];
        k := k + 1;
      }
    }
  }

  /** `root` is a square root at `s`: non-negative, and squaring it gives `s`. */
  predicate IsRootAt(root: real -> real, s: real)
  {
    root(s) >= 0.0 && root(s) * root(s) == s
  }

  /**
   * With a true square root, a histogram is left unchanged exactly when all its buckets are
   * zero.
   */
  lemma NormalizedSkipsOnlyZero(h: seq<real>, root: real -> real)
    requires IsRootAt(root, SumSquares(h))
    ensures root(SumSquares(h)) > 0.0 <==> exists k :: 0 <= k < |h| && h[k] != 0.0
    ensures root(SumSquares(h)) <= 0.0 ==> Normalized(h, root) == h && forall k :: 0 <= k < |h| ==> h[k] == 0.0
  {
    SumSquaresZero(h);
    var n := root(SumSquares(h));
    if n > 0.0 {
      SquarePositive(n);
    }
  }

  /** With a true square root, a histogram that is divided comes out with unit L2 norm. */
  lemma NormalizedUnit(h: seq<real>, root: real -> real)
    requires IsRootAt(root, SumSquares(h)) && root(SumSquares(h)) > 0.0
    ensures SumSquares(Normalized(h, root)) == 1.0
  {
    var n := root(SumSquares(h));
    SumSquaresDivided(h, n);
    assert Normalized(h, root) == Divided(h, n);
    SquarePositive(n);
    CancelPositive(SumSquares(Divided(h, n)), Square(n), SumSquares(h));
  }

  lemma CancelPositive(t: real, y: real, s: real)
    requires y > 0.0 && Scale(t, y) == s && y == s
    ensures t == 1.0
  {
    assert (t - 1.0) * y == 0.0;
  }
}
