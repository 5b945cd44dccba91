/**
 * Descriptor assembly: each extractor splits its field into an S by S grid of sectors, takes
 * one histogram per sector in row-major order, normalises it, and concatenates the results.
 * `ExtractFeatures` then builds one labelled feature vector per image.
 *
 * Sectors are numbered by their row-major position `k`: in an S by S split, position `k` is
 * sector (`k / S`, `k % S`), and the loops over `i` and `j` visit position `S * i + j`.
 */
module Descriptors {
  import opened Grids
  import opened Sequences
  import opened Outcomes
  import opened Sectors
  import opened Histograms

  /**
   * Appending the feature of the sector at position `k` to the concatenation of the sectors
   * before it gives the concatenation up to and including it.
   */
  lemma SectorAt(hs: seq<seq<real>>, k: nat, done: seq<seq<real>>, sector: seq<real>)
    requires k == |done| < |hs| && hs[k] == sector && done == hs[..k]
    ensures done + [sector] == hs[..|done + [sector]|]
    ensures Flatten(done + [sector]) == Flatten(done) + sector
  {
    assert (done + [sector])[..|done|] == done;
  }

  // ---------------------------------------------------------------- orientation descriptor

  /** The normalised orientation histogram of the sector at row-major position `k` of a 5 by 5 split. */
  function HogSector(lengths: Grid<real>, bins: Grid<nat>, root: real -> real, k: nat): (h: seq<real>)
    requires AlignedFields(lengths, bins) && k < HogSplit * HogSplit
    ensures |h| == PiSplit
  {
    var i, j := k / HogSplit, k % HogSplit;
    var rows, cols := |bins|, Cols(bins);
    var r0, c0 := SectorOffset(rows, HogSplit, i), SectorOffset(cols, HogSplit, j);
    var h, w := SectorExtent(rows, HogSplit, i), SectorExtent(cols, HogSplit, j);
    Normalized(WeightedTally(SectorCells(bins, r0, c0, h, w), SectorCells(lengths, r0, c0, h, w), PiSplit), root)
  }

  /** Sector histogram by row-major position. */
  function HogSectorTable(lengths: Grid<real>, bins: Grid<nat>, root: real -> real): nat --> seq<real>
  {
    (k: nat) requires k < HogSplit * HogSplit && AlignedFields(lengths, bins) => HogSector(lengths, bins, root, k)
  }

  /** The 25 sector histograms, row-major. */
  function HogSectors(lengths: Grid<real>, bins: Grid<nat>, root: real -> real): (hs: seq<seq<real>>)
    requires AlignedFields(lengths, bins)
    ensures |hs| == HogSplit * HogSplit
  {
    Tabulate(HogSplit * HogSplit, HogSectorTable(lengths, bins, root), 0)
  }

  lemma HogSectorAt(lengths: Grid<real>, bins: Grid<nat>, root: real -> real, k: nat)
    requires AlignedFields(lengths, bins) && k < HogSplit * HogSplit
    ensures HogSectors(lengths, bins, root)[k] == HogSector(lengths, bins, root, k)
  {
    TabulateAt(HogSplit * HogSplit, HogSectorTable(lengths, bins, root), 0, k);
  }

  /** Every sector histogram has 16 buckets. */
  lemma HogSectorWidths(lengths: Grid<real>, bins: Grid<nat>, root: real -> real)
    requires AlignedFields(lengths, bins)
    ensures forall k :: 0 <= k < HogSplit * HogSplit ==> |HogSectors(lengths, bins, root)[k]| == PiSplit
  {
    forall k | 0 <= k < HogSplit * HogSplit
      ensures |HogSectors(lengths, bins, root)[k]| == PiSplit
    {
      HogSectorAt(lengths, bins, root, k);
    }
  }

  function HogDescriptor(lengths: Grid<real>, bins: Grid<nat>, root: real -> real): seq<real>
    requires AlignedFields(lengths, bins)
  {
    Flatten(HogSectors(lengths, bins, root))
  }

  /**
   * The body of the sector loop: the orientation histogram of the submatrices at
   * (`i * xs`, `j * ys`) of extent `h` by `w`, normalised; those submatrices are sector (`i`, `j`),
   * at row-major position `k`.
   */
  method HogSectorFeature(lengths: Grid<real>, bins: Grid<nat>, root: real -> real, k: nat, i: nat, j: nat,
                          xs: nat, ys: nat, h: nat, w: nat)
    returns (sector: seq<real>)
    requires AlignedFields(lengths, bins) && k < HogSplit * HogSplit && i == k / HogSplit && j == k % HogSplit
    requires xs == |bins| / HogSplit && ys == Cols(bins) / HogSplit
    requires h == SectorExtent(|bins|, HogSplit, i) && w == SectorExtent(Cols(bins), HogSplit, j)
    ensures sector == HogSectors(lengths, bins, root)[k]
  {
    sector := HogFromSector(lengths, bins, i * xs, j * ys, h, w);
    sector := NormalizeSector(sector, root);
    HogSectorAt(lengths, bins, root, k);
  }

  /**
   * The orientation descriptor of an image, from its gradient magnitudes and raw angle
   * indices: sector by sector, the histogram is taken, normalised and appended.
   */
  method ExtractHogDescriptor(lengths: Grid<real>, bins: Grid<nat>, root: real -> real) returns (descriptor: seq<real>)
    requires AlignedFields(lengths, bins)
    ensures descriptor == HogDescriptor(lengths, bins, root)
  {
    var rows, cols := |bins|, Cols(bins);
    var xSectorSize, ySectorSize := rows / HogSplit, cols / HogSplit;
    var xDelta, yDelta := rows % HogSplit, cols % HogSplit;
    ghost var hs := HogSectors(lengths, bins, root);
    ghost var done: seq<seq<real>> := [];
    descriptor := [];
    var i := 0;
    while i < HogSplit
      invariant 0 <= i <= HogSplit
      invariant |done| == HogSplit * i && done == hs[..|done|] && descriptor == Flatten(done)
    {
      var xSize := if i == HogSplit - 1 then xSectorSize + xDelta else xSectorSize;
      var j := 0;
      while j < HogSplit
        invariant 0 <= j <= HogSplit
        invariant |done| == HogSplit * i + j && done == hs[..|done|] && descriptor == Flatten(done)
      {
        var ySize := if j == HogSplit - 1 then ySectorSize + yDelta else ySectorSize;
        var sector := HogSectorFeature(lengths, bins, root, HogSplit * i + j, i, j, xSectorSize, ySectorSize, xSize, ySize);
        SectorAt(hs, HogSplit * i + j, done, sector);
        done := done + [sector];
        descriptor := descriptor + sector;
        j := j + 1;
      }
      i := i + 1;
    }
    assert hs[..HogSplit * HogSplit] == hs;
  }

  /**
   * The orientation descriptor has 16 * 5 * 5 = 400 entries whatever the image size, and
   * block `k` of 16 is the normalised histogram of the sector at row-major position `k`.
   */
  lemma HogDescriptorLayout(lengths: Grid<real>, bins: Grid<nat>, root: real -> real, k: nat)
    requires AlignedFields(lengths, bins) && k < HogSplit * HogSplit
    ensures |HogDescriptor(lengths, bins, root)| == 400
    ensures HogDescriptor(lengths, bins, root)[k * PiSplit .. (k + 1) * PiSplit] == HogSector(lengths, bins, root, k)
  {
    HogSectorWidths(lengths, bins, root);
    FlattenBlock(HogSectors(lengths, bins, root), PiSplit, k);
    HogSectorAt(lengths, bins, root, k);
  }

  // ---------------------------------------------------------------- pattern descriptor

  /** The normalised pattern histogram of the sector at row-major position `k` of a 7 by 7 split. */
  function LbpSector(codes: Grid<CodePixel>, root: real -> real, k: nat): (h: seq<real>)
    requires IsRect(codes) && k < LbpSplit * LbpSplit
    ensures |h| == LbpBuckets
  {
    var i, j := k / LbpSplit, k % LbpSplit;
    var rows, cols := |codes|, Cols(codes);
    var r0, c0 := SectorOffset(rows, LbpSplit, i), SectorOffset(cols, LbpSplit, j);
    var h, w := SectorExtent(rows, LbpSplit, i), SectorExtent(cols, LbpSplit, j);
    Normalized(Tally(Codes(SectorCells(codes, r0, c0, h, w)), LbpBuckets), root)
  }

  /** Sector histogram by row-major position. */
  function LbpSectorTable(codes: Grid<CodePixel>, root: real -> real): nat --> seq<real>
  {
    (k: nat) requires k < LbpSplit * LbpSplit && IsRect(codes) => LbpSector(codes, root, k)
  }

  /** The 49 sector histograms, row-major. */
  function LbpSectors(codes: Grid<CodePixel>, root: real -> real): (hs: seq<seq<real>>)
    requires IsRect(codes)
    ensures |hs| == LbpSplit * LbpSplit
  {
    Tabulate(LbpSplit * LbpSplit, LbpSectorTable(codes, root), 0)
  }

  lemma LbpSectorAt(codes: Grid<CodePixel>, root: real -> real, k: nat)
    requires IsRect(codes) && k < LbpSplit * LbpSplit
    ensures LbpSectors(codes, root)[k] == LbpSector(codes, root, k)
  {
    TabulateAt(LbpSplit * LbpSplit, LbpSectorTable(codes, root), 0, k);
  }

  /** Every sector histogram has 256 buckets. */
  lemma LbpSectorWidths(codes: Grid<CodePixel>, root: real -> real)
    requires IsRect(codes)
    ensures forall k :: 0 <= k < LbpSplit * LbpSplit ==> |LbpSectors(codes, root)[k]| == LbpBuckets
  {
    forall k | 0 <= k < LbpSplit * LbpSplit
      ensures |LbpSectors(codes, root)[k]| == LbpBuckets
    {
      LbpSectorAt(codes, root, k);
    }
  }

  function LbpDescriptor(codes: Grid<CodePixel>, root: real -> real): seq<real>
    requires IsRect(codes)
  {
    Flatten(LbpSectors(codes, root))
  }

  /**
   * The body of the sector loop: the code counts of the submatrix at (`i * xs`, `j * ys`) of
   * extent `h` by `w`, normalised; that submatrix is sector (`i`, `j`), at row-major position `k`.
   */
  method LbpSectorFeature(codes: Grid<CodePixel>, root: real -> real, k: nat, i: nat, j: nat,
                          xs: nat, ys: nat, h: nat, w: nat)
    returns (sector: seq<real>)
    requires IsRect(codes) && k < LbpSplit * LbpSplit && i == k / LbpSplit && j == k % LbpSplit
    requires xs == |codes| / LbpSplit && ys == Cols(codes) / LbpSplit
    requires h == SectorExtent(|codes|, LbpSplit, i) && w == SectorExtent(Cols(codes), LbpSplit, j)
    ensures sector == LbpSectors(codes, root)[k]
  {
    sector := LbpFromSector(codes, i * xs, j * ys, h, w);
    sector := NormalizeSector(sector, root);
    LbpSectorAt(codes, root, k);
  }

  /** The pattern descriptor of an encoded image: per sector, the code counts, normalised and appended. */
  method ExtractLbpDescriptor(codes: Grid<CodePixel>, root: real -> real) returns (descriptor: seq<real>)
    requires IsRect(codes)
    ensures descriptor == LbpDescriptor(codes, root)
  {
    var rows, cols := |codes|, Cols(codes);
    var xSectorSize, ySectorSize := rows / LbpSplit, cols / LbpSplit;
    var xDelta, yDelta := rows % LbpSplit, cols % LbpSplit;
    ghost var hs := LbpSectors(codes, root);
    ghost var done: seq<seq<real>> := [];
    descriptor := [];
    var i := 0;
    while i < LbpSplit
      invariant 0 <= i <= LbpSplit
      invariant |done| == LbpSplit * i && done == hs[..|done|] && descriptor == Flatten(done)
    {
      var xSize := if i == LbpSplit - 1 then xSectorSize + xDelta else xSectorSize;
      var j := 0;
      while j < LbpSplit
        invariant 0 <= j <= LbpSplit
        invariant |done| == LbpSplit * i + j && done == hs[..|done|] && descriptor == Flatten(done)
      {
        var ySize := if j == LbpSplit - 1 then ySectorSize + yDelta else ySectorSize;
        var sector := LbpSectorFeature(codes, root, LbpSplit * i + j, i, j, xSectorSize, ySectorSize, xSize, ySize);
        SectorAt(hs, LbpSplit * i + j, done, sector);
        done := done + [sector];
        descriptor := descriptor + sector;
        j := j + 1;
      }
      i := i + 1;
    }
    assert hs[..LbpSplit * LbpSplit] == hs;
  }

  /** The pattern descriptor has 256 * 7 * 7 = 12544 entries, block `k` being the sector at position `k`. */
  lemma LbpDescriptorLayout(codes: Grid<CodePixel>, root: real -> real, k: nat)
    requires IsRect(codes) && k < LbpSplit * LbpSplit
    ensures |LbpDescriptor(codes, root)| == 12544
    ensures LbpDescriptor(codes, root)[k * LbpBuckets .. (k + 1) * LbpBuckets] == LbpSector(codes, root, k)
  {
    LbpSectorWidths(codes, root);
    FlattenBlock(LbpSectors(codes, root), LbpBuckets, k);
    LbpSectorAt(codes, root, k);
  }

  // ---------------------------------------------------------------- colour descriptor

  /** The colour feature of the sector at row-major position `k` of an 8 by 8 split. */
  function ColorSector(image: Grid<Pixel>, k: nat): Option<seq<real>>
    requires IsRect(image) && k < ColorSplit * ColorSplit
  {
    var i, j := k / ColorSplit, k % ColorSplit;
    var rows, cols := |image|, Cols(image);
    var r0, c0 := SectorOffset(rows, ColorSplit, i), SectorOffset(cols, ColorSplit, j);
    var h, w := SectorExtent(rows, ColorSplit, i), SectorExtent(cols, ColorSplit, j);
    SectorColor(SectorCells(image, r0, c0, h, w))
  }

  /** Sector colour by row-major position. */
  function ColorSectorTable(image: Grid<Pixel>): nat --> Option<seq<real>>
  {
    (k: nat) requires k < ColorSplit * ColorSplit && IsRect(image) => ColorSector(image, k)
  }

  /** The 64 sector colours, row-major. */
  function ColorSectors(image: Grid<Pixel>): (cs: seq<Option<seq<real>>>)
    requires IsRect(image)
    ensures |cs| == ColorSplit * ColorSplit
  {
    Tabulate(ColorSplit * ColorSplit, ColorSectorTable(image), 0)
  }

  lemma ColorSectorAt(image: Grid<Pixel>, k: nat)
    requires IsRect(image) && k < ColorSplit * ColorSplit
    ensures ColorSectors(image)[k] == ColorSector(image, k)
  {
    TabulateAt(ColorSplit * ColorSplit, ColorSectorTable(image), 0, k);
  }

  /** The values of the first `m` sector features, when all of them are defined. */
  function Defined(cs: seq<Option<seq<real>>>, m: nat): Option<seq<seq<real>>>
    requires m <= |cs|
  {
    if m == 0 then Some([])
    else match Defined(cs, m - 1)
      case None => None
      case Some(vs) => if cs[m - 1].None? then None else Some(vs + [cs[m - 1].value])
  }

  /** One more sector feature extends the defined prefix, unless it is undefined. */
  lemma DefinedSnoc(cs: seq<Option<seq<real>>>, k: nat, vs: seq<seq<real>>)
    requires k < |cs| && Defined(cs, k) == Some(vs)
    ensures Defined(cs, k + 1) == if cs[k].None? then None else Some(vs + [cs[k].value])
    ensures cs[k].Some? ==> Flatten(vs + [cs[k].value]) == Flatten(vs) + cs[k].value
  {
    if cs[k].Some? {
      assert (vs + [cs[k].value])[..|vs|] == vs;
    }
  }

  /** Once a sector feature is undefined, so is every longer prefix. */
  lemma UndefinedStays(cs: seq<Option<seq<real>>>, k: nat)
    requires k < |cs| && Defined(cs, k).None?
    ensures Defined(cs, k + 1).None?
  {
  }

  /**
   * A prefix is defined exactly when each of its features is, and then it lists their values
   * in order.
   */
  lemma {:induction false} DefinedValues(cs: seq<Option<seq<real>>>, m: nat)
    requires m <= |cs|
    ensures Defined(cs, m).Some? <==> forall k :: 0 <= k < m ==> cs[k].Some?
    ensures Defined(cs, m).Some? ==>
      |Defined(cs, m).value| == m && forall k :: 0 <= k < m ==> Defined(cs, m).value[k] == cs[k].value
  {
    if m > 0 {
      DefinedValues(cs, m - 1);
    }
  }

  /** The colour descriptor, or nothing when some sector is empty and its division is undefined. */
  function ColorDescriptor(image: Grid<Pixel>): Option<seq<real>>
    requires IsRect(image)
  {
    var cs := ColorSectors(image);
    match Defined(cs, |cs|)
    case None => None
    case Some(vs) => Some(Flatten(vs))
  }

  /**
   * The body of the sector loop: the mean colour of the submatrix at (`i * xs`, `j * ys`) of
   * extent `h` by `w`, which is sector (`i`, `j`), at row-major position `k`.
   */
  method ColorSectorFeature(image: Grid<Pixel>, k: nat, i: nat, j: nat, xs: nat, ys: nat, h: nat, w: nat)
    returns (sector: Option<seq<real>>)
    requires IsRect(image) && k < ColorSplit * ColorSplit && i == k / ColorSplit && j == k % ColorSplit
    requires xs == |image| / ColorSplit && ys == Cols(image) / ColorSplit
    requires h == SectorExtent(|image|, ColorSplit, i) && w == SectorExtent(Cols(image), ColorSplit, j)
    ensures sector == ColorSectors(image)[k]
  {
    sector := ColorFromSector(image, i * xs, j * ys, h, w);
    ColorSectorAt(image, k);
  }

  /** The colour descriptor of an image: per sector, the three mean channels, appended in order. */
  method ExtractColorDescriptor(image: Grid<Pixel>) returns (color: Option<seq<real>>)
    requires IsRect(image)
    ensures color == ColorDescriptor(image)
  {
    var rows, cols := |image|, Cols(image);
    var xSectorSize, ySectorSize := rows / ColorSplit, cols / ColorSplit;
    var xDelta, yDelta := rows % ColorSplit, cols % ColorSplit;
    ghost var cs := ColorSectors(image);
    ghost var vs: seq<seq<real>> := [];
    var acc: seq<real> := [];
    var defined := true;
    var i := 0;
    while i < ColorSplit
      invariant 0 <= i <= ColorSplit
      invariant defined ==> Defined(cs, ColorSplit * i) == Some(vs) && acc == Flatten(vs)
      invariant !defined ==> Defined(cs, ColorSplit * i).None?
    {
      var xSize := if i == ColorSplit - 1 then xSectorSize + xDelta else xSectorSize;
      var j := 0;
      while j < ColorSplit
        invariant 0 <= j <= ColorSplit
        invariant defined ==> Defined(cs, ColorSplit * i + j) == Some(vs) && acc == Flatten(vs)
        invariant !defined ==> Defined(cs, ColorSplit * i + j).None?
      {
        var ySize := if j == ColorSplit - 1 then ySectorSize + yDelta else ySectorSize;
        var sector := ColorSectorFeature(image, ColorSplit * i + j, i, j, xSectorSize, ySectorSize, xSize, ySize);
        if !defined {
          UndefinedStays(cs, ColorSplit * i + j);
        } else {
          DefinedSnoc(cs, ColorSplit * i + j, vs);
          if sector.None? {
            defined := false;
          } else {
            vs := vs + [sector.value];
            acc := acc + sector.value;
          }
        }
        j := j + 1;
      }
      i := i + 1;
    }
    color := if defined then Some(acc) else None;
  }

  /** A sector has a colour feature exactly when both of its extents are positive, and then it has three values. */
  lemma ColorSectorDefined(image: Grid<Pixel>, k: nat)
    requires IsRect(image) && k < ColorSplit * ColorSplit
    ensures ColorSector(image, k).Some? <==>
      SectorExtent(|image|, ColorSplit, k / ColorSplit) > 0 && SectorExtent(Cols(image), ColorSplit, k % ColorSplit) > 0
    ensures ColorSector(image, k).Some? ==> |ColorSector(image, k).value| == 3
  {
    var i, j := k / ColorSplit, k % ColorSplit;
    var h, w := SectorExtent(|image|, ColorSplit, i), SectorExtent(Cols(image), ColorSplit, j);
    SectorCellsLength(image, SectorOffset(|image|, ColorSplit, i), SectorOffset(Cols(image), ColorSplit, j), h, w);
    if h > 0 && w > 0 {
      MulMonotone(1, h, w);
    }
  }

  /**
   * The colour descriptor is defined exactly when the image has at least 8 rows and 8 columns;
   * a smaller image has an empty sector, whose mean the source divides by zero.
   */
  lemma ColorDescriptorDefined(image: Grid<Pixel>)
    requires IsRect(image)
    ensures ColorDescriptor(image).Some? <==> |image| >= ColorSplit && Cols(image) >= ColorSplit
  {
    var cs := ColorSectors(image);
    DefinedValues(cs, |cs|);
    if |image| >= ColorSplit && Cols(image) >= ColorSplit {
      forall k | 0 <= k < |cs|
        ensures cs[k].Some?
      {
        ColorSectorAt(image, k);
        ColorSectorDefined(image, k);
        EmptySectors(|image|, ColorSplit, k / ColorSplit);
        EmptySectors(Cols(image), ColorSplit, k % ColorSplit);
      }
    } else {
      ColorSectorAt(image, 0);
      ColorSectorDefined(image, 0);
      EmptySectors(|image|, ColorSplit, 0);
      EmptySectors(Cols(image), ColorSplit, 0);
      assert !cs[0].Some?;
    }
  }

  /**
   * A defined colour descriptor has 3 * 8 * 8 = 192 entries, block `k` of three being the
   * colour of the sector at position `k`.
   */
  lemma ColorDescriptorLayout(image: Grid<Pixel>, k: nat)
    requires IsRect(image) && k < ColorSplit * ColorSplit && ColorDescriptor(image).Some?
    ensures |ColorDescriptor(image).value| == 192
    ensures ColorSector(image, k).Some? && ColorDescriptor(image).value[k * 3 .. (k + 1) * 3] == ColorSector(image, k).value
  {
    var cs := ColorSectors(image);
    DefinedValues(cs, |cs|);
    var vs := Defined(cs, |cs|).value;
    forall m | 0 <= m < |vs|
      ensures |vs[m]| == 3
    {
      ColorSectorAt(image, m);
      ColorSectorDefined(image, m);
    }
    FlattenBlock(vs, 3, k);
    ColorSectorAt(image, k);
  }

  // ---------------------------------------------------------------- feature vectors

  /**
   * One image of the data set, as the fields the extractors read: the gradient magnitudes and
   * raw angle indices of the orientation descriptor, the pattern-code image, the colour image,
   * and the image's label.
   */
  datatype Sample = Sample(lengths: Grid<real>, bins: Grid<nat>, codes: Grid<CodePixel>, image: Grid<Pixel>, classLabel: int)

  predicate WellFormed(s: Sample)
  {
    AlignedFields(s.lengths, s.bins) && IsRect(s.codes) && IsRect(s.image)
  }

  /** A feature vector with the label of the image it came from. */
  datatype Labelled = Labelled(features: seq<real>, classLabel: int)

  /**
   * The feature vector of a sample as assembled: the orientation descriptor, the pattern
   * descriptor, and in third place the pattern descriptor again, where the colour descriptor was
   * evidently meant.
   */
  function Features(s: Sample, root: real -> real): seq<real>
    requires WellFormed(s)
  {
    HogDescriptor(s.lengths, s.bins, root) + LbpDescriptor(s.codes, root) + LbpDescriptor(s.codes, root)
  }

  /**
   * Appends one labelled feature vector per sample to `features`, in the order of the data set.
   */
  method ExtractFeatures(dataSet: seq<Sample>, root: real -> real, features: seq<Labelled>) returns (out: seq<Labelled>)
    requires forall k :: 0 <= k < |dataSet| ==> WellFormed(dataSet[k])
    ensures |out| == |features| + |dataSet| && out[..|features|] == features
    ensures forall k :: 0 <= k < |dataSet| ==>
      out[|features| + k] == Labelled(Features(dataSet[k], root), dataSet[k].classLabel)
  {
    out := features;
    var n := 0;
    while n < |dataSet|
      invariant 0 <= n <= |dataSet|
      invariant |out| == |features| + n && out[..|features|] == features
      invariant forall k :: 0 <= k < n ==> out[|features| + k] == Labelled(Features(dataSet[k], root), dataSet[k].classLabel)
    {
      var sample := dataSet[n];
      var imageFeatures := ExtractHogDescriptor(sample.lengths, sample.bins, root);
      var lbp := ExtractLbpDescriptor(sample.codes, root);
      imageFeatures := imageFeatures + lbp;
      var colorFeatures := ExtractLbpDescriptor(sample.codes, root);
      imageFeatures := imageFeatures + colorFeatures;
      out := out + [Labelled(imageFeatures, sample.classLabel)];
      n := n + 1;
    }
  }

  /**
   * Every feature vector has 400 + 12544 + 12544 = 25488 entries, and its third block repeats its
   * second: the colour descriptor never enters it.
   */
  lemma FeaturesLayout(s: Sample, root: real -> real)
    requires WellFormed(s)
    ensures |Features(s, root)| == 25488
    ensures Features(s, root)[..400] == HogDescriptor(s.lengths, s.bins, root)
    ensures Features(s, root)[400 .. 12944] == Features(s, root)[12944 ..] == LbpDescriptor(s.codes, root)
  {
    HogDescriptorLayout(s.lengths, s.bins, root, 0);
    LbpDescriptorLayout(s.codes, root, 0);
  }

  /**
   * The feature vector with the colour descriptor in third place, as the variable receiving it
   * is named; it is defined exactly when the colour descriptor is.
   */
  function IntendedFeatures(s: Sample, root: real -> real): Option<seq<real>>
    requires WellFormed(s)
  {
    match ColorDescriptor(s.image)
    case None => None
    case Some(color) => Some(HogDescriptor(s.lengths, s.bins, root) + LbpDescriptor(s.codes, root) + color)
  }

  /**
   * With the colour descriptor in third place, an image of at least 8 by 8 pixels has a feature
   * vector of 400 + 12544 + 192 = 13136 entries ending in its colour descriptor.
   */
  lemma IntendedFeaturesLayout(s: Sample, root: real -> real)
    requires WellFormed(s)
    ensures IntendedFeatures(s, root).Some? <==> |s.image| >= ColorSplit && Cols(s.image) >= ColorSplit
    ensures IntendedFeatures(s, root).Some? ==>
      |IntendedFeatures(s, root).value| == 13136 &&
      IntendedFeatures(s, root).value[12944 ..] == ColorDescriptor(s.image).value
  {
    ColorDescriptorDefined(s.image);
    HogDescriptorLayout(s.lengths, s.bins, root, 0);
    LbpDescriptorLayout(s.codes, root, 0);
    if ColorDescriptor(s.image).Some? {
      ColorDescriptorLayout(s.image, 0);
    }
  }

  /**
   * The labelled feature vectors with the colour descriptor in third place, for a data set of
   * images of at least 8 by 8 pixels.
   */
  method ExtractIntendedFeatures(dataSet: seq<Sample>, root: real -> real, features: seq<Labelled>)
    returns (out: seq<Labelled>)
    requires forall k :: 0 <= k < |dataSet| ==> WellFormed(dataSet[k])
    requires forall k :: 0 <= k < |dataSet| ==> |dataSet[k].image| >= ColorSplit && Cols(dataSet[k].image) >= ColorSplit
    ensures |out| == |features| + |dataSet| && out[..|features|] == features
    ensures forall k :: 0 <= k < |dataSet| ==>
      IntendedFeatures(dataSet[k], root).Some? &&
      out[|features| + k] == Labelled(IntendedFeatures(dataSet[k], root).value, dataSet[k].classLabel)
  {
    out := features;
    var n := 0;
    while n < |dataSet|
      invariant 0 <= n <= |dataSet|
      invariant |out| == |features| + n && out[..|features|] == features
      invariant forall k :: 0 <= k < n ==>
        IntendedFeatures(dataSet[k], root).Some? &&
        out[|features| + k] == Labelled(IntendedFeatures(dataSet[k], root).value, dataSet[k].classLabel)
    {
      var sample := dataSet[n];
      var imageFeatures := ExtractHogDescriptor(sample.lengths, sample.bins, root);
      var lbp := ExtractLbpDescriptor(sample.codes, root);
      imageFeatures := imageFeatures + lbp;
      var colorFeatures := ExtractColorDescriptor(sample.image);
      ColorDescriptorDefined(sample.image);
      imageFeatures := imageFeatures + colorFeatures.value;
      out := out + [Labelled(imageFeatures, sample.classLabel)];
      n := n + 1;
    }
  }
}
