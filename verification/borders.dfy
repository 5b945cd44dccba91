/**
 * Border transforms of an image: pad by an r-wide frame, fill that frame by reflecting
 * interior cells, and crop the frame away again. Images are two-dimensional arrays; padding
 * and cropping allocate a new image, mirroring overwrites the frame of its image in place.
 */
module Borders {
  import opened Grids
  import opened Outcomes

  /** Whether (`x`, `y`) lies inside the `r`-wide frame of a `rows` by `cols` image. */
  predicate InInterior(rows: nat, cols: nat, r: nat, x: int, y: int)
  {
    r <= x < rows - r && r <= y < cols - r
  }

  /**
   * Returns a new image, larger by `2 * r` in each dimension, with `src` placed at offset
   * (`r`, `r`) and every frame cell left black.
   */
  method AddBorder(src: array2<Pixel>, r: nat) returns (res: array2<Pixel>)
    ensures fresh(res)
    ensures res.Length0 == src.Length0 + 2 * r && res.Length1 == src.Length1 + 2 * r
    ensures forall i, j :: 0 <= i < src.Length0 && 0 <= j < src.Length1 ==> res[i + r, j + r] == src[i, j]
    ensures forall x, y :: (0 <= x < res.Length0 && 0 <= y < res.Length1 &&
                            !InInterior(res.Length0, res.Length1, r, x, y)) ==> res[x, y] == Black
  {
    var rows, cols := src.Length0, src.Length1;
    res := new Pixel[rows + 2 * r, cols + 2 * r]((_, _) => Black);
    var i := 0;
    while i < rows
      invariant 0 <= i <= rows
      invariant forall x, y :: 0 <= x < rows + 2 * r && 0 <= y < cols + 2 * r ==>
        res[x, y] == if InInterior(rows + 2 * r, cols + 2 * r, r, x, y) && x - r < i then src[x - r, y - r] else Black
    {
      var j := 0;
      while j < cols
        invariant 0 <= j <= cols
        invariant forall x, y :: 0 <= x < rows + 2 * r && 0 <= y < cols + 2 * r ==>
          res[x, y] == if InInterior(rows + 2 * r, cols + 2 * r, r, x, y) && (x - r < i || (x - r == i && y - r < j))
                       then src[x - r, y - r] else Black
      {
        res[i + r, j + r] := src[i, j];
        j := j + 1;
      }
      i := i + 1;
    }
  }

  /**
   * The guard of the crop, as written: it compares `2 * r + 1` with the row count in both of
   * its disjuncts, so the column count never takes part.
   */
  predicate RadiusTooBig(rows: nat, cols: nat, r: nat)
  {
    2 * r + 1 > rows || 2 * r + 1 > rows
  }

  lemma RadiusTooBigIgnoresColumns(rows: nat, cols: nat, cols': nat, r: nat)
    ensures RadiusTooBig(rows, cols, r) == RadiusTooBig(rows, cols', r)
    ensures RadiusTooBig(rows, cols, r) <==> 2 * r + 1 > rows
  {
  }

  /**
   * Returns a new image without the `r`-wide frame of `src`, or the error the source throws
   * when the guard rejects the radius.
   */
  method CutBorder(src: array2<Pixel>, r: nat) returns (res: Result<array2<Pixel>>)
    requires 2 * r <= src.Length1
    ensures res.Failure? <==> 2 * r + 1 > src.Length0
    ensures res.Success? ==> fresh(res.value)
    ensures res.Success? ==> res.value.Length0 == src.Length0 - 2 * r && res.value.Length1 == src.Length1 - 2 * r
    ensures res.Success? ==> forall i, j :: 0 <= i < res.value.Length0 && 0 <= j < res.value.Length1 ==>
      res.value[i, j] == src[i + r, j + r]
  {
    if RadiusTooBig(src.Length0, src.Length1, r) {
      return Failure("radius is too big for this picture");
    }
    var img := new Pixel[src.Length0 - 2 * r, src.Length1 - 2 * r]((_, _) => Black);
    var i := 0;
    while i < img.Length0
      invariant 0 <= i <= img.Length0
      invariant forall x, y :: 0 <= x < i && 0 <= y < img.Length1 ==> img[x, y] == src[x + r, y + r]
    {
      var j := 0;
      while j < img.Length1
        invariant 0 <= j <= img.Length1
        invariant forall x, y :: 0 <= x < img.Length0 && 0 <= y < img.Length1 && (x < i || (x == i && y < j)) ==>
          img[x, y] == src[x + r, y + r]
      {
        img[i, j] := src[i + r, j + r];
        j := j + 1;
      }
      i := i + 1;
    }
    res := Success(img);
  }

  /** The loop index that addresses frame line `x`, counted from the nearer edge. */
  function EdgeIndex(n: nat, r: nat, x: nat): nat
  {
    if x < r then x else if x < n then n - 1 - x else 0
  }

  /**
   * The cell whose original value `mirror_border` leaves in (`x`, `y`) of a `rows` by `cols`
   * image with an `r`-wide frame. Corners follow the four corner assignments, which for the
   * upper-right corner read the bottom-right interior block; side strips reflect across the
   * nearest interior column, top and bottom strips across the nearest interior row.
   */
  function MirrorSource(rows: nat, cols: nat, r: nat, x: nat, y: nat): (s: (nat, nat))
    requires 3 * r <= rows && 3 * r <= cols && x < rows && y < cols
    ensures InInterior(rows, cols, r, s.0, s.1)
    ensures InInterior(rows, cols, r, x, y) <==> s == (x, y)
  {
    if x < r && y < r then (2 * r - 1 - y, 2 * r - 1 - x)
    else if x < r && y >= cols - r then (rows - 2 * r + (cols - 1 - y), cols - 2 * r + x)
    else if x >= rows - r && y < r then (rows - 2 * r + y, 2 * r - 1 - (rows - 1 - x))
    else if x >= rows - r && y >= cols - r then (rows - 2 * r + (cols - 1 - y), cols - 2 * r + (rows - 1 - x))
    else if x < r then (2 * r - 1 - x, y)
    else if x >= rows - r then (rows - 2 * r + (rows - 1 - x), y)
    else if y < r then (x, 2 * r - 1 - y)
    else if y >= cols - r then (x, cols - 2 * r + (cols - 1 - y))
    else (x, y)
  }

  /** A copy of the cells of `a`, row by row. */
  function Cells(a: array2<Pixel>): (g: Grid<Pixel>)
    reads a
    ensures |g| == a.Length0 && forall x :: 0 <= x < a.Length0 ==> |g[x]| == a.Length1
    ensures forall x, y :: 0 <= x < a.Length0 && 0 <= y < a.Length1 ==> g[x][y] == a[x, y]
  {
    seq(a.Length0, x requires 0 <= x < a.Length0 reads a => seq(a.Length1, y requires 0 <= y < a.Length1 reads a => a[x, y]))
  }

  /** The value mirroring leaves in (`x`, `y`) of the image whose cells are `g`. */
  function Mirrored(g: Grid<Pixel>, rows: nat, cols: nat, r: nat, x: nat, y: nat): Pixel
    requires |g| == rows && forall k :: 0 <= k < rows ==> |g[k]| == cols
    requires 3 * r <= rows && 3 * r <= cols && x < rows && y < cols
  {
    var s := MirrorSource(rows, cols, r, x, y);
    g[s.0][s.1]
  }

  predicate Before(a: nat, b: nat, i: nat, j: nat)
  {
    a < i || (a == i && b < j)
  }

  /** Frame cells written by the corner loop, the side loop and the top-and-bottom loop. */
  predicate InCorner(rows: nat, cols: nat, r: nat, x: nat, y: nat)
  {
    (x < r || x >= rows - r) && (y < r || y >= cols - r)
  }

  predicate InSide(rows: nat, cols: nat, r: nat, x: nat, y: nat)
  {
    r <= x < rows - r && (y < r || y >= cols - r)
  }

  predicate InTopBottom(rows: nat, cols: nat, r: nat, x: nat, y: nat)
  {
    (x < r || x >= rows - r) && r <= y < cols - r
  }

  /** One pass of the corner loop's body: the cell at index (`i`, `j`) of each corner block. */
  method MirrorCornerCells(a: array2<Pixel>, r: nat, i: nat, j: nat)
    requires 3 * r <= a.Length0 && 3 * r <= a.Length1 && i < r && j < r
    modifies a
    ensures forall x, y :: 0 <= x < a.Length0 && 0 <= y < a.Length1 ==>
      a[x, y] == if (x == i || x == a.Length0 - 1 - i) && (y == j || y == a.Length1 - 1 - j)
                 then old(a[MirrorSource(a.Length0, a.Length1, r, x, y).0, MirrorSource(a.Length0, a.Length1, r, x, y).1])
                 else old(a[x, y])
  {
    var rows, cols := a.Length0, a.Length1;
    assert MirrorSource(rows, cols, r, i, j) == (2 * r - 1 - j, 2 * r - 1 - i);
    assert MirrorSource(rows, cols, r, i, cols - 1 - j) == (rows - 2 * r + j, cols - 2 * r + i);
    assert MirrorSource(rows, cols, r, rows - 1 - i, j) == (rows - 2 * r + j, 2 * r - 1 - i);
    assert MirrorSource(rows, cols, r, rows - 1 - i, cols - 1 - j) == (rows - 2 * r + j, cols - 2 * r + i);
    a[i, j] := a[2 * r - 1 - j, 2 * r - 1 - i];
    a[i, cols - 1 - j] := a[rows - 2 * r + j, cols - 2 * r + i];
    a[rows - 1 - i, j] := a[rows - 2 * r + j, 2 * r - 1 - i];
    a[rows - 1 - i, cols - 1 - j] := a[rows - 2 * r + j, cols - 2 * r + i];
  }

  /** The corner loop: each of the four r by r corner blocks gets its mirrored cells. */
  method MirrorCorners(a: array2<Pixel>, r: nat)
    requires 3 * r <= a.Length0 && 3 * r <= a.Length1
    modifies a
    ensures forall x, y :: 0 <= x < a.Length0 && 0 <= y < a.Length1 ==>
      a[x, y] == if InCorner(a.Length0, a.Length1, r, x, y)
                 then old(a[MirrorSource(a.Length0, a.Length1, r, x, y).0, MirrorSource(a.Length0, a.Length1, r, x, y).1])
                 else old(a[x, y])
  {
    var rows, cols := a.Length0, a.Length1;
    ghost var g := Cells(a);
    var i := 0;
    while i < r
      invariant 0 <= i <= r
      invariant forall x, y :: 0 <= x < rows && 0 <= y < cols ==>
        a[x, y] == if InCorner(rows, cols, r, x, y) && EdgeIndex(rows, r, x) < i
                   then Mirrored(g, rows, cols, r, x, y) else g[x][y]
    {
      var j := 0;
      while j < r
        invariant 0 <= j <= r
        invariant forall x, y :: 0 <= x < rows && 0 <= y < cols ==>
          a[x, y] == if InCorner(rows, cols, r, x, y) && Before(EdgeIndex(rows, r, x), EdgeIndex(cols, r, y), i, j)
                     then Mirrored(g, rows, cols, r, x, y) else g[x][y]
      {
        MirrorCornerCells(a, r, i, j);
        j := j + 1;
      }
      i := i + 1;
    }
  }

  /** One pass of the side loop's body: cell `j` of row `i + r` in the left and right strips. */
  method MirrorSideCells(a: array2<Pixel>, r: nat, i: nat, j: nat)
    requires 3 * r <= a.Length0 && 3 * r <= a.Length1 && i < a.Length0 - 2 * r && j < r
    modifies a
    ensures forall x, y :: 0 <= x < a.Length0 && 0 <= y < a.Length1 ==>
      a[x, y] == if x == i + r && (y == j || y == a.Length1 - 1 - j)
                 then old(a[MirrorSource(a.Length0, a.Length1, r, x, y).0, MirrorSource(a.Length0, a.Length1, r, x, y).1])
                 else old(a[x, y])
  {
    var cols := a.Length1;
    a[i + r, j] := a[i + r, 2 * r - 1 - j];
    a[i + r, cols - 1 - j] := a[i + r, cols - 2 * r + j];
  }

  /** The side loop: the left and right strips between the corner blocks. */
  method MirrorSides(a: array2<Pixel>, r: nat)
    requires 3 * r <= a.Length0 && 3 * r <= a.Length1
    modifies a
    ensures forall x, y :: 0 <= x < a.Length0 && 0 <= y < a.Length1 ==>
      a[x, y] == if InSide(a.Length0, a.Length1, r, x, y)
                 then old(a[MirrorSource(a.Length0, a.Length1, r, x, y).0, MirrorSource(a.Length0, a.Length1, r, x, y).1])
                 else old(a[x, y])
  {
    var rows, cols := a.Length0, a.Length1;
    ghost var g := Cells(a);
    var i := 0;
    while i < rows - 2 * r
      invariant 0 <= i <= rows - 2 * r
      invariant forall x, y :: 0 <= x < rows && 0 <= y < cols ==>
        a[x, y] == if InSide(rows, cols, r, x, y) && x - r < i
                   then Mirrored(g, rows, cols, r, x, y) else g[x][y]
    {
      var j := 0;
      while j < r
        invariant 0 <= j <= r
        invariant forall x, y :: 0 <= x < rows && 0 <= y < cols ==>
          a[x, y] == if InSide(rows, cols, r, x, y) && Before(x - r, EdgeIndex(cols, r, y), i, j)
                     then Mirrored(g, rows, cols, r, x, y) else g[x][y]
      {
        MirrorSideCells(a, r, i, j);
        j := j + 1;
      }
      i := i + 1;
    }
  }

  /** One pass of the top-and-bottom loop's body: cell `j` of column `i + r` in both strips. */
  method MirrorTopBottomCells(a: array2<Pixel>, r: nat, i: nat, j: nat)
    requires 3 * r <= a.Length0 && 3 * r <= a.Length1 && i < a.Length1 - 2 * r && j < r
    modifies a
    ensures forall x, y :: 0 <= x < a.Length0 && 0 <= y < a.Length1 ==>
      a[x, y] == if (x == j || x == a.Length0 - 1 - j) && y == i + r
                 then old(a[MirrorSource(a.Length0, a.Length1, r, x, y).0, MirrorSource(a.Length0, a.Length1, r, x, y).1])
                 else old(a[x, y])
  {
    var rows := a.Length0;
    a[j, i + r] := a[2 * r - 1 - j, i + r];
    a[rows - 1 - j, i + r] := a[rows - 2 * r + j, i + r];
  }

  /** The top-and-bottom loop: the upper and lower strips between the corner blocks. */
  method MirrorTopBottom(a: array2<Pixel>, r: nat)
    requires 3 * r <= a.Length0 && 3 * r <= a.Length1
    modifies a
    ensures forall x, y :: 0 <= x < a.Length0 && 0 <= y < a.Length1 ==>
      a[x, y] == if InTopBottom(a.Length0, a.Length1, r, x, y)
                 then old(a[MirrorSource(a.Length0, a.Length1, r, x, y).0, MirrorSource(a.Length0, a.Length1, r, x, y).1])
                 else old(a[x, y])
  {
    var rows, cols := a.Length0, a.Length1;
    ghost var g := Cells(a);
    var i := 0;
    while i < cols - 2 * r
      invariant 0 <= i <= cols - 2 * r
      invariant forall x, y :: 0 <= x < rows && 0 <= y < cols ==>
        a[x, y] == if InTopBottom(rows, cols, r, x, y) && y - r < i
                   then Mirrored(g, rows, cols, r, x, y) else g[x][y]
    {
      var j := 0;
      while j < r
        invariant 0 <= j <= r
        invariant forall x, y :: 0 <= x < rows && 0 <= y < cols ==>
          a[x, y] == if InTopBottom(rows, cols, r, x, y) && Before(y - r, EdgeIndex(rows, r, x), i, j)
                     then Mirrored(g, rows, cols, r, x, y) else g[x][y]
      {
        MirrorTopBottomCells(a, r, i, j);
        j := j + 1;
      }
      i := i + 1;
    }
  }

  /**
   * Fills the `r`-wide frame of `a` by reflection, in place: corners first, then the side
   * strips, then the top and bottom strips. Requires that each dimension holds at least three
   * frame widths, which `add_border` guarantees for an image at least `r` wide and high; then
   * every cell read is interior, the interior is never written, and each frame cell ends up
   * holding the original value of its mirror source.
   */
  method MirrorBorder(a: array2<Pixel>, r: nat)
    requires 3 * r <= a.Length0 && 3 * r <= a.Length1
    modifies a
    ensures forall x, y :: 0 <= x < a.Length0 && 0 <= y < a.Length1 ==>
      a[x, y] == old(a[MirrorSource(a.Length0, a.Length1, r, x, y).0, MirrorSource(a.Length0, a.Length1, r, x, y).1])
    ensures forall x, y :: 0 <= x < a.Length0 && 0 <= y < a.Length1 && InInterior(a.Length0, a.Length1, r, x, y) ==>
      a[x, y] == old(a[x, y])
    ensures forall x, y :: 0 <= x < a.Length0 && 0 <= y < a.Length1 ==>
      a[x, y] == a[MirrorSource(a.Length0, a.Length1, r, x, y).0, MirrorSource(a.Length0, a.Length1, r, x, y).1]
  {
    MirrorCorners(a, r);
    MirrorSides(a, r);
    MirrorTopBottom(a, r);
  }

  /**
   * Every frame cell except those of the upper-right corner is filled from an interior cell
   * less than `2 * r` rows and columns away, lying across the nearest frame edge. The
   * upper-right corner instead reads the bottom-right interior block, far from the cell it
   * fills once the image is at least five frame widths tall.
   */
  lemma MirrorSourceLocality(rows: nat, cols: nat, r: nat, x: nat, y: nat)
    requires 3 * r <= rows && 3 * r <= cols && x < rows && y < cols
    ensures var s := MirrorSource(rows, cols, r, x, y);
      !InInterior(rows, cols, r, x, y) && !(x < r && y >= cols - r) ==> -2 * r < s.0 - x < 2 * r && -2 * r < s.1 - y < 2 * r
    ensures var s := MirrorSource(rows, cols, r, x, y);
      x < r && y >= cols - r ==> rows - 2 * r <= s.0 < rows - r && cols - 2 * r <= s.1 < cols - r
    ensures var s := MirrorSource(rows, cols, r, x, y);
      x < r && y >= cols - r && 5 * r <= rows ==> s.0 - x > 2 * r
  {
    if x < r && y < r {
    } else if x < r && y >= cols - r {
    } else if x >= rows - r && y < r {
    } else if x >= rows - r && y >= cols - r {
    } else if x < r {
    } else if x >= rows - r {
    } else if y < r {
    } else if y >= cols - r {
    }
  }

  /**
   * Padding by `r`, mirroring and cropping by `r` give back an image with the dimensions and
   * every cell of `src`. The crop's guard passes because the padded image has at least
   * `2 * r + 1` rows whenever `src` has a row.
   */
  method BorderRoundTrip(src: array2<Pixel>, r: nat) returns (res: Result<array2<Pixel>>)
    requires 1 <= src.Length0 && r <= src.Length0 && r <= src.Length1
    ensures res.Success?
    ensures res.value.Length0 == src.Length0 && res.value.Length1 == src.Length1
    ensures forall i, j :: 0 <= i < src.Length0 && 0 <= j < src.Length1 ==> res.value[i, j] == src[i, j]
  {
    var padded := AddBorder(src, r);
    ghost var before := Cells(padded);
    MirrorBorder(padded, r);
    assert forall i, j :: 0 <= i < src.Length0 && 0 <= j < src.Length1 ==> padded[i + r, j + r] == src[i, j] by {
      forall i, j | 0 <= i < src.Length0 && 0 <= j < src.Length1
        ensures padded[i + r, j + r] == src[i, j]
      {
        assert InInterior(padded.Length0, padded.Length1, r, i + r, j + r);
        assert before[i + r][j + r] == src[i, j];
      }
    }
    res := CutBorder(padded, r);
  }
}
