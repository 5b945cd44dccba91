/**
 * Per-window filters: the convolution with clamping, the two Sobel kernels, the local binary
 * pattern code of a 3 by 3 window, and the grayscale conversion of a whole image.
 */
module Filters {
  import opened Grids
  import opened Bounds

  /** The horizontal-gradient Sobel kernel. */
  function SobelX(): (k: Grid<int>)
    ensures |k| == 3 && IsRect(k) && Cols(k) == 3
  {
    [[-1, 0, 1],
     [-2, 0, 2],
     [-1, 0, 1]]
  }

  /** The vertical-gradient Sobel kernel. */
  function SobelY(): (k: Grid<int>)
    ensures |k| == 3 && IsRect(k) && Cols(k) == 3
  {
    [[1, 2, 1],
     [0, 0, 0],
     [-1, -2, -1]]
  }

  /**
   * A kernel of `n` rows, each with at least `n` coefficients, over a window with at least
   * `n` rows and columns: the convolution reads the top-left `n` by `n` cells of both.
   */
  predicate Fits(kernel: Grid<int>, zone: Grid<Pixel>)
  {
    |zone| >= |kernel| &&
    (forall i :: 0 <= i < |kernel| ==> |kernel[i]| >= |kernel|) &&
    (forall i :: 0 <= i < |kernel| ==> |zone[i]| >= |kernel|)
  }

  /** Channel `c` of row `i` of the window weighted by row `i` of the kernel, first `m` cells. */
  function RowDot(kernel: Grid<int>, zone: Grid<Pixel>, c: nat, i: nat, m: nat): int
    requires Fits(kernel, zone) && c < 3 && i < |kernel| && m <= |kernel|
  {
    if m == 0 then 0
    else RowDot(kernel, zone, c, i, m - 1) + Channel(zone[i][m - 1], c) * kernel[i][m - 1]
  }

  /** The weighted sum of channel `c` over the first `rows` rows of the `n` by `n` window. */
  function WindowSum(kernel: Grid<int>, zone: Grid<Pixel>, c: nat, rows: nat): int
    requires Fits(kernel, zone) && c < 3 && rows <= |kernel|
  {
    if rows == 0 then 0
    else WindowSum(kernel, zone, c, rows - 1) + RowDot(kernel, zone, c, rows - 1, |kernel|)
  }

  /** The sum of the first `m` coefficients of kernel row `i`. */
  function RowTotal(kernel: Grid<int>, i: nat, m: nat): int
    requires i < |kernel| && m <= |kernel[i]|
  {
    if m == 0 then 0 else RowTotal(kernel, i, m - 1) + kernel[i][m - 1]
  }

  /** The sum of the coefficients of the first `rows` rows, `|kernel|` columns each. */
  function KernelTotal(kernel: Grid<int>, rows: nat): int
    requires rows <= |kernel| && forall i :: 0 <= i < |kernel| ==> |kernel[i]| >= |kernel|
  {
    if rows == 0 then 0 else KernelTotal(kernel, rows - 1) + RowTotal(kernel, rows - 1, |kernel|)
  }

  /** The convolution's result for one window: each channel's weighted sum clamped to [0, 255]. */
  function Convolved(kernel: Grid<int>, zone: Grid<Pixel>): (p: Pixel)
    requires Fits(kernel, zone)
    ensures p.r <= 255 && p.g <= 255 && p.b <= 255
  {
    Pixel(Clamp(WindowSum(kernel, zone, 0, |kernel|), 0, 255),
          Clamp(WindowSum(kernel, zone, 1, |kernel|), 0, 255),
          Clamp(WindowSum(kernel, zone, 2, |kernel|), 0, 255))
  }

  /**
   * The convolution filter applied to one window: accumulates the three weighted channel sums
   * cell by cell, row-major, then clamps them into [0, 255].
   */
  method ConvolutionFilter(kernel: Grid<int>, zone: Grid<Pixel>) returns (p: Pixel)
    requires Fits(kernel, zone)
    ensures p == Convolved(kernel, zone)
  {
    var radius := |kernel|;
    var sr, sg, sb := 0, 0, 0;
    var i := 0;
    while i < radius
      invariant 0 <= i <= radius
      invariant sr == WindowSum(kernel, zone, 0, i)
      invariant sg == WindowSum(kernel, zone, 1, i)
      invariant sb == WindowSum(kernel, zone, 2, i)
    {
      var j := 0;
      while j < radius
        invariant 0 <= j <= radius
        invariant sr == WindowSum(kernel, zone, 0, i) + RowDot(kernel, zone, 0, i, j)
        invariant sg == WindowSum(kernel, zone, 1, i) + RowDot(kernel, zone, 1, i, j)
        invariant sb == WindowSum(kernel, zone, 2, i) + RowDot(kernel, zone, 2, i, j)
      {
        var cell := zone[i][j];
        sr := sr + cell.r * kernel[i][j];
        sg := sg + cell.g * kernel[i][j];
        sb := sb + cell.b * kernel[i][j];
        j := j + 1;
      }
      i := i + 1;
    }
    var r, g, b := ShoveInBounds(sr, sg, sb, 0, 255);
    p := Pixel(r, g, b);
  }

  /** Whether every cell of the `n` by `n` window read by the kernel is `q`. */
  predicate Uniform(kernel: Grid<int>, zone: Grid<Pixel>, q: Pixel)
    requires Fits(kernel, zone)
  {
    forall i, j :: 0 <= i < |kernel| && 0 <= j < |kernel| ==> zone[i][j] == q
  }

  lemma {:induction false} RowDotUniform(kernel: Grid<int>, zone: Grid<Pixel>, q: Pixel, c: nat, i: nat, m: nat)
    requires Fits(kernel, zone) && c < 3 && i < |kernel| && m <= |kernel| && Uniform(kernel, zone, q)
    ensures RowDot(kernel, zone, c, i, m) == Channel(q, c) * RowTotal(kernel, i, m)
  {
    if m > 0 {
      RowDotUniform(kernel, zone, q, c, i, m - 1);
    }
  }

  /** Over a uniform window, each channel's weighted sum is that channel times the kernel total. */
  lemma {:induction false} WindowSumUniform(kernel: Grid<int>, zone: Grid<Pixel>, q: Pixel, c: nat, rows: nat)
    requires Fits(kernel, zone) && c < 3 && rows <= |kernel| && Uniform(kernel, zone, q)
    ensures WindowSum(kernel, zone, c, rows) == Channel(q, c) * KernelTotal(kernel, rows)
  {
    if rows > 0 {
      WindowSumUniform(kernel, zone, q, c, rows - 1);
      RowDotUniform(kernel, zone, q, c, rows - 1, |kernel|);
    }
  }

  /** Both Sobel kernels have coefficients summing to zero. */
  lemma SobelTotals()
    ensures KernelTotal(SobelX(), 3) == 0
    ensures KernelTotal(SobelY(), 3) == 0
  {
    var kx, ky := SobelX(), SobelY();
    assert RowTotal(kx, 0, 3) == 0 && RowTotal(kx, 1, 3) == 0 && RowTotal(kx, 2, 3) == 0;
    assert RowTotal(ky, 0, 3) == 4 && RowTotal(ky, 1, 3) == 0 && RowTotal(ky, 2, 3) == -4;
  }

  /** A window of one colour has no gradient: both Sobel filters give black. */
  lemma SobelUniformIsBlack(zone: Grid<Pixel>, q: Pixel)
    requires Fits(SobelX(), zone) && Uniform(SobelX(), zone, q)
    ensures Fits(SobelY(), zone) && Uniform(SobelY(), zone, q)
    ensures Convolved(SobelX(), zone) == Black
    ensures Convolved(SobelY(), zone) == Black
  {
    SobelTotals();
    forall c | 0 <= c < 3
      ensures WindowSum(SobelX(), zone, c, 3) == 0 && WindowSum(SobelY(), zone, c, 3) == 0
    {
      WindowSumUniform(SobelX(), zone, q, c, 3);
      WindowSumUniform(SobelY(), zone, q, c, 3);
    }
    assert WindowSum(SobelX(), zone, 0, 3) == 0 && WindowSum(SobelX(), zone, 1, 3) == 0 && WindowSum(SobelX(), zone, 2, 3) == 0;
    assert WindowSum(SobelY(), zone, 0, 3) == 0 && WindowSum(SobelY(), zone, 1, 3) == 0 && WindowSum(SobelY(), zone, 2, 3) == 0;
  }

  /** The source's `>=` on pixel triples: lexicographic, red first, then green, then blue. */
  predicate PixelGe(p: Pixel, q: Pixel)
  {
    p.r > q.r || (p.r == q.r && (p.g > q.g || (p.g == q.g && p.b >= q.b)))
  }

  /** A window wide and high enough for the 3 by 3 local binary pattern. */
  predicate IsPatternWindow(zone: Grid<Pixel>)
  {
    |zone| >= 3 && forall i :: 0 <= i < 3 ==> |zone[i]| >= 3
  }

  /** The nine comparisons of the window's cells with its centre (1, 1), row-major. */
  function Comparisons(zone: Grid<Pixel>): seq<bool>
    requires IsPatternWindow(zone)
  {
    seq(9, k requires 0 <= k < 9 => PixelGe(zone[k / 3][k % 3], zone[1][1]))
  }

  function Pow2(k: nat): (p: nat)
    ensures p >= 1
  {
    if k == 0 then 1 else 2 * Pow2(k - 1)
  }

  /** The number whose bit `i` is `bits[i]`, least significant bit first. */
  function BitsValue(bits: seq<bool>): (v: nat)
    ensures v < Pow2(|bits|)
  {
    if bits == [] then 0 else (if bits[0] then 1 else 0) + 2 * BitsValue(bits[1..])
  }

  /** Bit `k` of `v`. */
  predicate Bit(v: nat, k: nat)
  {
    if k == 0 then v % 2 == 1 else Bit(v / 2, k - 1)
  }

  /** The pattern code: the comparisons with the one at index 3, cell (1, 0), erased. */
  function LbpCode(zone: Grid<Pixel>): nat
    requires IsPatternWindow(zone)
  {
    var cs := Comparisons(zone);
    BitsValue(cs[..3] + cs[4..])
  }

  /**
   * The local binary pattern filter applied to one window: collects the nine comparisons,
   * erases the one at index 3, and sums `2^i` over the set bits; the code fills all three
   * channels.
   */
  method LocalBinaryPattern(zone: Grid<Pixel>) returns (p: Pixel)
    requires IsPatternWindow(zone)
    ensures p == Pixel(LbpCode(zone), LbpCode(zone), LbpCode(zone))
    ensures p.r < 256
  {
    var radius := 3;
    var patterns: seq<bool> := [];
    var i := 0;
    while i < radius
      invariant 0 <= i <= radius
      invariant patterns == Comparisons(zone)[..3 * i]
    {
      var j := 0;
      while j < radius
        invariant 0 <= j <= radius
        invariant patterns == Comparisons(zone)[..3 * i + j]
      {
        assert Comparisons(zone)[3 * i + j] == PixelGe(zone[i][j], zone[1][1]) by {
          assert (3 * i + j) / 3 == i && (3 * i + j) % 3 == j;
        }
        assert Comparisons(zone)[..3 * i + j + 1] == Comparisons(zone)[..3 * i + j] + [Comparisons(zone)[3 * i + j]];
        patterns := patterns + [PixelGe(zone[i][j], zone[radius / 2][radius / 2])];
        j := j + 1;
      }
      i := i + 1;
    }
    assert patterns == Comparisons(zone);
    patterns := patterns[..radius] + patterns[radius + 1..];
    var x := 0;
    var k := 0;
    while k < |patterns|
      invariant 0 <= k <= |patterns|
      invariant x == BitsValue(patterns[..k])
    {
      assert patterns[..k + 1] == patterns[..k] + [patterns[k]];
      BitsValueSnoc(patterns[..k], patterns[k]);
      x := x + (if patterns[k] then Pow2(k) else 0);
      k := k + 1;
    }
    assert patterns[..k] == patterns;
    Pow2Eight();
    p := Pixel(x, x, x);
  }

  /** Appending bit `b` after the bits of `pre` adds `2^|pre|` when it is set. */
  lemma {:induction false} BitsValueSnoc(pre: seq<bool>, b: bool)
    ensures BitsValue(pre + [b]) == BitsValue(pre) + if b then Pow2(|pre|) else 0
  {
    if pre != [] {
      assert (pre + [b])[1..] == pre[1..] + [b];
      BitsValueSnoc(pre[1..], b);
    } else {
      assert ([b])[1..] == [];
    }
  }

  /** Bit `k` of the value of `bits` is `bits[k]`. */
  lemma {:induction false} BitsValueBit(bits: seq<bool>, k: nat)
    requires k < |bits|
    ensures Bit(BitsValue(bits), k) == bits[k]
  {
    if k > 0 {
      BitsValueBit(bits[1..], k - 1);
    }
  }

  /** The window cell whose comparison ends up in bit `k` of the code, once index 3 is erased. */
  function BitCell(k: nat): (cell: (nat, nat))
    requires k < 8
    ensures cell.0 < 3 && cell.1 < 3 && cell != (1, 0)
  {
    if k < 3 then (0, k) else ((k + 1) / 3, (k + 1) % 3)
  }

  /**
   * Bit `k` of the code is set exactly when the cell `BitCell(k)` compares `>=` the centre:
   * bits 0 to 2 come from the top row, bit 3 from the centre itself, bits 4 to 7 from the
   * cells after it, and cell (1, 0) never contributes.
   */
  lemma LbpCodeBit(zone: Grid<Pixel>, k: nat)
    requires IsPatternWindow(zone) && k < 8
    ensures LbpCode(zone) < 256
    ensures Bit(LbpCode(zone), k) <==> PixelGe(zone[BitCell(k).0][BitCell(k).1], zone[1][1])
  {
    var cs := Comparisons(zone);
    var bits := cs[..3] + cs[4..];
    assert |bits| == 8;
    BitsValueBit(bits, k);
    assert bits[k] == cs[if k < 3 then k else k + 1];
  }

  /** Bit 3 compares the centre with itself, so every code has it set. */
  lemma LbpCentreBitSet(zone: Grid<Pixel>)
    requires IsPatternWindow(zone)
    ensures Bit(LbpCode(zone), 3)
  {
    LbpCodeBit(zone, 3);
  }

  /** On a window of one colour every comparison holds, so the code is 255. */
  lemma LbpUniform(zone: Grid<Pixel>)
    requires IsPatternWindow(zone)
    requires forall i, j :: 0 <= i < 3 && 0 <= j < 3 ==> zone[i][j] == zone[1][1]
    ensures LbpCode(zone) == 255
  {
    var cs := Comparisons(zone);
    var bits := cs[..3] + cs[4..];
    forall k | 0 <= k < 8
      ensures bits[k]
    {
      var m := if k < 3 then k else k + 1;
      assert bits[k] == cs[m];
      assert zone[m / 3][m % 3] == zone[1][1];
    }
    AllOnes(bits);
    Pow2Eight();
  }

  lemma Pow2Eight()
    ensures Pow2(8) == 256
  {
    assert Pow2(2) == 4;
    assert Pow2(4) == 16;
    assert Pow2(6) == 64;
  }

  lemma {:induction false} AllOnes(bits: seq<bool>)
    requires forall k :: 0 <= k < |bits| ==> bits[k]
    ensures BitsValue(bits) == Pow2(|bits|) - 1
  {
    if bits != [] {
      AllOnes(bits[1..]);
    }
  }

  /** The luminance of a pixel. */
  function Luma(p: Pixel): real
  {
    0.299 * p.r as real + 0.587 * p.g as real + 0.114 * p.b as real
  }

  /**
   * The grey level of a pixel: the luminance clamped to [0, 255], then truncated to an
   * integer when stored in the pixel.
   */
  function GrayLevel(p: Pixel): (v: nat)
    ensures v <= 255
    ensures Luma(p) <= 255.0 ==> v as real <= Luma(p) < v as real + 1.0
    ensures Luma(p) > 255.0 ==> v == 255
  {
    var y := Luma(p);
    var c := if y > 255.0 then 255.0 else if y < 0.0 then 0.0 else y;
    c.Floor
  }

  function Grey(v: nat): Pixel
  {
    Pixel(v, v, v)
  }

  /** The weights sum to one, so a grey pixel keeps its level and converting twice is converting once. */
  lemma GrayLevelOfGrey(v: nat)
    requires v <= 255
    ensures GrayLevel(Grey(v)) == v
  {
    assert Luma(Grey(v)) == v as real;
  }

  lemma GrayLevelIdempotent(p: Pixel)
    ensures GrayLevel(Grey(GrayLevel(p))) == GrayLevel(p)
  {
    GrayLevelOfGrey(GrayLevel(p));
  }

  /** A new image of the same size whose every pixel is the grey level of `src`'s, in all channels. */
  method ToGrayscale(src: array2<Pixel>) returns (dst: array2<Pixel>)
    ensures fresh(dst)
    ensures dst.Length0 == src.Length0 && dst.Length1 == src.Length1
    ensures forall i, j :: 0 <= i < src.Length0 && 0 <= j < src.Length1 ==> dst[i, j] == Grey(GrayLevel(src[i, j]))
  {
    dst := new Pixel[src.Length0, src.Length1]((_, _) => Black);
    var i := 0;
    while i < dst.Length0
      invariant 0 <= i <= dst.Length0
      invariant forall x, y :: 0 <= x < i && 0 <= y < dst.Length1 ==> dst[x, y] == Grey(GrayLevel(src[x, y]))
    {
      var j := 0;
      while j < dst.Length1
        invariant 0 <= j <= dst.Length1
        invariant forall x, y :: 0 <= x < dst.Length0 && 0 <= y < dst.Length1 && (x < i || (x == i && y < j)) ==>
          dst[x, y] == Grey(GrayLevel(src[x, y]))
      {
        var y := GrayLevel(src[i, j]);
        dst[i, j] := Pixel(y, y, y);
        j := j + 1;
      }
      i := i + 1;
    }
  }
}
