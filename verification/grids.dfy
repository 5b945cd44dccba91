/**
 * The pixel grid of the image pipeline. An image is a dense row-major matrix whose cells are
 * triples of unsigned channels; a read-only grid (a filter window, a field the sector loops read)
 * is a sequence of rows.
 */
module Grids {

  /** One image cell: the red, green and blue channels, each an unsigned integer. */
  datatype Pixel = Pixel(r: nat, g: nat, b: nat)

  /** The value a freshly constructed image holds in every cell. */
  const Black := Pixel(0, 0, 0)

  /** Channel `c` of `p`: 0 is red, 1 green, 2 blue. */
  function Channel(p: Pixel, c: nat): nat
    requires c < 3
  {
    if c == 0 then p.r else if c == 1 then p.g else p.b
  }

  /** A read-only matrix, row by row. */
  type Grid<T> = seq<seq<T>>

  /** The column count of `g` (zero for a grid without rows). */
  function Cols<T>(g: Grid<T>): nat
  {
    if |g| == 0 then 0 else |g[0]|
  }

  /** Every row of `g` has the same length. */
  predicate IsRect<T>(g: Grid<T>)
  {
    forall i :: 0 <= i < |g| ==> |g[i]| == Cols(g)
  }

  /**
   * The cells a pair of nested loops over the `w`-wide block at (`r0`, `c0`) has visited once
   * `i` full rows and the first `j` cells of the next row are done, in visiting order.
   */
  function Visited<T>(g: Grid<T>, r0: nat, c0: nat, w: nat, i: nat, j: nat): (cells: seq<T>)
    requires IsRect(g) && c0 + w <= Cols(g) && j <= w && r0 + i + (if j > 0 then 1 else 0) <= |g|
    ensures |cells| == CellCount(i, w) + j
    decreases i, j
  {
    if j > 0 then Visited(g, r0, c0, w, i, j - 1) + [g[r0 + i][c0 + j - 1]]
    else if i > 0 then Visited(g, r0, c0, w, i - 1, w)
    else []
  }

  /** The cells of the `h` by `w` block whose top-left cell is (`r0`, `c0`), in row-major order. */
  function SectorCells<T>(g: Grid<T>, r0: nat, c0: nat, h: nat, w: nat): (cells: seq<T>)
    requires IsRect(g) && r0 + h <= |g| && c0 + w <= Cols(g)
  {
    Visited(g, r0, c0, w, h, 0)
  }

  /** The number of cells in `h` rows of `w` cells, counted row by row. */
  function CellCount(h: nat, w: nat): nat
  {
    if h == 0 then 0 else CellCount(h - 1, w) + w
  }

  /** Counted row by row, a block of `h` rows of `w` cells has `h * w` cells. */
  lemma {:induction false} CellCountProduct(h: nat, w: nat)
    ensures CellCount(h, w) == h * w
  {
    if h > 0 {
      CellCountProduct(h - 1, w);
      assert (h - 1) * w + w == h * w;
    }
  }

  /** A block of `h` rows of `w` cells lists `h * w` cells. */
  lemma SectorCellsLength<T>(g: Grid<T>, r0: nat, c0: nat, h: nat, w: nat)
    requires IsRect(g) && r0 + h <= |g| && c0 + w <= Cols(g)
    ensures |SectorCells(g, r0, c0, h, w)| == h * w
  {
    CellCountProduct(h, w);
  }

  /** Every visited cell comes from inside the block. */
  lemma {:induction false} VisitedInBlock<T>(g: Grid<T>, r0: nat, c0: nat, w: nat, i: nat, j: nat, x: T)
    requires IsRect(g) && c0 + w <= Cols(g) && j <= w && r0 + i + (if j > 0 then 1 else 0) <= |g|
    requires x in Visited(g, r0, c0, w, i, j)
    ensures exists a, b :: r0 <= a < r0 + i + (if j > 0 then 1 else 0) && c0 <= b < c0 + w && g[a][b] == x
    decreases i, j
  {
    if j > 0 {
      if x != g[r0 + i][c0 + j - 1] {
        VisitedInBlock(g, r0, c0, w, i, j - 1, x);
      }
    } else if i > 0 {
      VisitedInBlock(g, r0, c0, w, i - 1, w, x);
    }
  }

  /** Every cell listed for a block comes from inside that block. */
  lemma SectorCellsInBlock<T>(g: Grid<T>, r0: nat, c0: nat, h: nat, w: nat, x: T)
    requires IsRect(g) && r0 + h <= |g| && c0 + w <= Cols(g)
    requires x in SectorCells(g, r0, c0, h, w)
    ensures exists a, b :: r0 <= a < r0 + h && c0 <= b < c0 + w && g[a][b] == x
  {
    VisitedInBlock(g, r0, c0, w, h, 0, x);
  }

  /**
   * Entry `CellCount(a, w) + b` of the visited cells is cell (`r0 + a`, `c0 + b`): the loops list
   * the block row by row, each row left to right.
   */
  lemma {:induction false} VisitedAt<T>(g: Grid<T>, r0: nat, c0: nat, w: nat, i: nat, j: nat, a: nat, b: nat)
    requires IsRect(g) && c0 + w <= Cols(g) && j <= w && r0 + i + (if j > 0 then 1 else 0) <= |g|
    requires (a < i && b < w) || (a == i && b < j)
    ensures CellCount(a, w) + b < |Visited(g, r0, c0, w, i, j)|
    ensures Visited(g, r0, c0, w, i, j)[CellCount(a, w) + b] == g[r0 + a][c0 + b]
    decreases i, j
  {
    if j > 0 {
      if !(a == i && b == j - 1) {
        VisitedAt(g, r0, c0, w, i, j - 1, a, b);
      }
    } else {
      VisitedAt(g, r0, c0, w, i - 1, w, a, b);
    }
  }

  /**
   * Entry `k` of the cells listed for an `h` by `w` block is cell (`r0 + k / w`, `c0 + k % w`), so
   * the block is listed in row-major order.
   */
  lemma SectorCellsAt<T>(g: Grid<T>, r0: nat, c0: nat, h: nat, w: nat, k: nat)
    requires IsRect(g) && r0 + h <= |g| && c0 + w <= Cols(g)
    requires k < h * w
    ensures w > 0 && r0 + k / w < r0 + h && c0 + k % w < c0 + w
    ensures k < |SectorCells(g, r0, c0, h, w)| && SectorCells(g, r0, c0, h, w)[k] == g[r0 + k / w][c0 + k % w]
  {
    var a, b := k / w, k % w;
    assert k == a * w + b;
    CellCountProduct(a, w);
    VisitedAt(g, r0, c0, w, h, 0, a, b);
  }

  /** The first channel of every pixel, in order: the code an encoded grid stores per cell. */
  function Codes(ps: seq<Pixel>): (cs: seq<nat>)
    ensures |cs| == |ps| && forall k :: 0 <= k < |ps| ==> cs[k] == ps[k].r
  {
    seq(|ps|, k requires 0 <= k < |ps| => ps[k].r)
  }

  lemma CodesSnoc(ps: seq<Pixel>, p: Pixel)
    ensures Codes(ps + [p]) == Codes(ps) + [p.r]
  {
  }
}
