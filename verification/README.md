# Image feature extraction: integer and indexing core

This project models, in Dafny, the index arithmetic and accumulation loops of a small image
classification pipeline, and proves properties of that model. The pipeline reads a manifest of
labelled image files. It defines three descriptor extractors:

- an orientation histogram of the Sobel gradients, 16 buckets per sector over a 5 by 5 split;
- a local binary pattern histogram, 256 buckets per sector over a 7 by 7 split;
- a mean-colour descriptor, 3 values per sector over an 8 by 8 split.

As written, each image's feature vector is the orientation descriptor followed by the pattern
descriptor twice: the mean-colour extractor is defined but never called (see Findings). The
pipeline then hands the labelled vectors to a classifier and writes one `path label` line per image as
its predictions.

The modules follow the source files:

- `Bounds` (`shoveInBounds`), `Filters` (the Sobel kernels, the convolution and local binary
  pattern filters on one window, grayscale conversion) and `Borders` (padding, mirroring and
  cropping a frame) model `image_processing.h` and `image_processing.cpp`.
  - Whole images are `array2<Pixel>`.
  - Padding and cropping allocate a new array.
  - Mirroring overwrites the frame of its array in place, loop by loop, as the source does.
- `Grids`, `Sectors`, `Histograms` and `Descriptors` model `classifier_trainer.cpp`:
  - the split of an axis into sectors, with the remainder going to the last one;
  - the per-sector histogram loops;
  - the normalisation with its zero-norm guard;
  - the descriptor loops that append one sector after another;
  - `ExtractFeatures`.

  A read-only field (a filter window, the grid a sector loop reads a submatrix of) is a
  `seq<seq<T>>`. A submatrix is an offset and an extent into it.
- `IoParser` models `io_parser.cpp`:
  - the backward scan for the manifest's directory;
  - the manifest loop over an abstract input stream;
  - the image loading loop;
  - the prediction lines.
- `Sequences` and `Outcomes` hold the sums, concatenation and result types the others share.

Each loop is a method with a `while` loop, proved against a specification function. Further
lemmas state the properties those functions have:

- sector tiling;
- descriptor lengths and layouts;
- histogram mass;
- unit norm after normalisation;
- the pad, mirror and crop round trip;
- the bits of the pattern code;
- the directory split;
- label round trips through the prediction file.

The model follows the code as written, including where it departs from what its names suggest:

- A window of one colour gets pattern code 255: every comparison with the centre holds, and the
  erased comparison is the one at index 3, cell (1, 0), not the centre's.
- The upper-right corner of the mirrored frame is filled from the bottom-right interior block.
- The crop's guard compares the radius with the row count twice and never with the column count.
- The third block of a feature vector is the pattern descriptor again (see Findings).

Floating-point values are exact reals, and the maths around the core are parameters:

- The square root is a parameter `root`. Lemmas about normalisation assume that `root` behaves
  as a square root at the point they use.
- The orientation of a gradient reaches the histogram as the integer bucket index the source
  computes before reducing it modulo 16.
- Decoding an image file is a parameter `read`.

## Model

| member | source | states |
|---|---|---|
| Bounds.Clamp | project/include/image_processing.h:20-22 | the result lies in [lo, hi] when lo <= hi; a value inside is kept; above hi gives hi; below lo gives lo |
| Bounds.ClampIdempotent | project/include/image_processing.h:17-23 | clamping twice equals clamping once |
| Bounds.ShoveInBounds | project/include/image_processing.h:17-23 | each of the three values is clamped independently into [min, max]; values already inside are unchanged |
| Filters.SobelX | project/src/image_processing.cpp:24-29 | the horizontal kernel is a 3 by 3 matrix |
| Filters.SobelY | project/src/image_processing.cpp:31-36 | the vertical kernel is a 3 by 3 matrix |
| Filters.Convolved | project/src/image_processing.cpp:40-57 | each output channel of the convolution is at most 255 |
| Filters.ConvolutionFilter | project/src/image_processing.cpp:38-57 | the loops accumulate, per channel, the kernel-weighted sum over the top-left radius by radius window and clamp it into [0, 255] |
| Filters.WindowSumUniform | project/src/image_processing.cpp:45-52 | over a window of one colour, each channel's weighted sum is that channel times the sum of the kernel coefficients |
| Filters.SobelTotals | project/src/image_processing.cpp:24-36 | the coefficients of both Sobel kernels sum to zero |
| Filters.SobelUniformIsBlack | project/src/image_processing.cpp:24-57 | both Sobel filters turn a window of one colour into black |
| Filters.BitsValue | project/src/image_processing.cpp:74-76 | the value of a bit list, least significant bit first, is below 2 to the power of its length |
| Filters.LocalBinaryPattern | project/src/image_processing.cpp:59-79 | the filter collects the nine comparisons with the centre, erases index 3 and sums the set bits' powers of two; the code is below 256 and fills all three channels |
| Filters.LbpCodeBit | project/src/image_processing.cpp:66-76 | bit k of the code is set exactly when the k-th remaining cell (row-major, cell (1, 0) skipped) compares >= the centre |
| Filters.LbpCentreBitSet | project/src/image_processing.cpp:66-76 | bit 3 of every code is set, because it compares the centre with itself |
| Filters.LbpUniform | project/src/image_processing.cpp:59-79 | a window of one colour has code 255 |
| Filters.GrayLevel | project/src/image_processing.cpp:144-147 | the grey level is at most 255; it is the luminance truncated when that is at most 255, and 255 above |
| Filters.GrayLevelOfGrey | project/src/image_processing.cpp:144-147 | in exact arithmetic, a grey pixel keeps its level |
| Filters.GrayLevelIdempotent | project/src/image_processing.cpp:137-152 | in exact arithmetic, converting a converted pixel again changes nothing |
| Filters.ToGrayscale | project/src/image_processing.cpp:137-152 | the new image has the source's dimensions, and every cell holds the grey level of the source cell in all three channels |
| Borders.AddBorder | project/src/image_processing.cpp:81-89 | the new image is 2r larger in each dimension, holds the source cell (i, j) at (i + r, j + r), and is black in the frame |
| Borders.RadiusTooBigIgnoresColumns | project/src/image_processing.cpp:92-93 | the crop's guard depends only on the row count: it rejects exactly when 2r + 1 exceeds the rows |
| Borders.CutBorder | project/src/image_processing.cpp:91-101 | fails exactly when 2r + 1 exceeds the row count; otherwise returns a new image 2r smaller in each dimension with cell (i, j) taken from (i + r, j + r) |
| Borders.MirrorSource | project/src/image_processing.cpp:103-133 | the cell mirroring copies into (x, y) is interior, and it is (x, y) itself exactly when (x, y) is interior |
| Borders.MirrorCornerCells | project/src/image_processing.cpp:106-115 | one pass of the corner loop's body sets the four corner cells at index (i, j) from their mirror sources and changes nothing else |
| Borders.MirrorCorners | project/src/image_processing.cpp:105-116 | the corner loop sets every corner-block cell from its mirror source and changes nothing else |
| Borders.MirrorSideCells | project/src/image_processing.cpp:119-124 | one pass of the side loop's body sets the left and right cell j of row i + r and changes nothing else |
| Borders.MirrorSides | project/src/image_processing.cpp:118-125 | the side loop sets every left and right strip cell from its mirror source and changes nothing else |
| Borders.MirrorTopBottomCells | project/src/image_processing.cpp:127-132 | one pass of the top-and-bottom loop's body sets the upper and lower cell j of column i + r and changes nothing else |
| Borders.MirrorTopBottom | project/src/image_processing.cpp:126-133 | the top-and-bottom loop sets every upper and lower strip cell from its mirror source and changes nothing else |
| Borders.MirrorBorder | project/src/image_processing.cpp:103-135 | every cell ends up holding the original value of its mirror source; interior cells are unchanged; every frame cell equals the interior cell it mirrors |
| Borders.MirrorSourceLocality | project/src/image_processing.cpp:108-131 | every frame cell except the upper-right corner reads a cell less than 2r away; the upper-right corner reads the bottom-right interior block, more than 2r rows away once the image is five frame widths tall |
| Borders.BorderRoundTrip | project/src/image_processing.cpp:81-135 | padding, mirroring and cropping by r succeeds and gives back an image with the dimensions and every cell of the original |
| Grids.SectorCellsLength | project/src/classifier_trainer.cpp:79-83 | the nested loops over an h by w submatrix visit h * w cells |
| Grids.SectorCellsInBlock | project/src/classifier_trainer.cpp:79-83 | every cell the loops over a submatrix visit lies inside that submatrix |
| Grids.VisitedAt | project/src/classifier_trainer.cpp:79-83 | after the loops have done some rows and part of the next, the entry at position a * w + b of what they visited is cell (r0 + a, c0 + b) |
| Grids.SectorCellsAt | project/src/classifier_trainer.cpp:79-83 | entry k of the cells the loops visit in an h by w submatrix is cell (r0 + k / w, c0 + k % w): row-major order, each cell once |
| Sectors.SectorExtent | project/src/classifier_trainer.cpp:49-57 | every sector, including the last one with the remainder, ends within the axis |
| Sectors.SectorsContiguous | project/src/classifier_trainer.cpp:49-58 | each sector but the last ends where the next one begins |
| Sectors.SectorsCoverAxis | project/src/classifier_trainer.cpp:49-58 | the first sector starts at 0 and the last one ends at the axis length |
| Sectors.ExtentsSum | project/src/classifier_trainer.cpp:104-112 | the extents of the first m sectors sum to the next offset, and all of them to the axis length |
| Sectors.SectorOf | project/src/classifier_trainer.cpp:167-175 | the sector the split at these lines assigns line k to, a valid index |
| Sectors.SectorOfContains | project/src/classifier_trainer.cpp:167-175 | each line of the axis lies in the sector the split assigns it to |
| Sectors.SectorsTile | project/src/classifier_trainer.cpp:49-58 | a line lies in a sector exactly when that sector is the one the split assigns it to, so the sectors tile the axis without gap or overlap |
| Sectors.ElevenByFive | project/src/classifier_trainer.cpp:49-57 | an 11-line axis split five ways has extents 2, 2, 2, 2 and 3, and the last one starts at line 8 |
| Sectors.EmptySectors | project/src/classifier_trainer.cpp:49-57 | a sector is empty exactly when the axis is shorter than the split and the sector is not the last one, or the axis is empty |
| Histograms.Tally | project/src/classifier_trainer.cpp:76-86 | the pattern histogram has one bucket per code |
| Histograms.CountIsMultiplicity | project/src/classifier_trainer.cpp:79-83 | bucket c counts the occurrences of code c among the sector's codes |
| Histograms.TallyMass | project/src/classifier_trainer.cpp:79-83 | with every code in range, the buckets add up to the number of codes |
| Histograms.LbpFromSector | project/src/classifier_trainer.cpp:76-86 | the loops over the submatrix produce the 256-bucket count of its codes |
| Histograms.LbpSectorMass | project/src/classifier_trainer.cpp:76-86 | a sector's pattern histogram adds up to its number of cells |
| Histograms.WeightedTally | project/src/classifier_trainer.cpp:7-17 | the orientation histogram has 16 buckets |
| Histograms.WeightedTallyBuckets | project/src/classifier_trainer.cpp:10-14 | bucket c holds the total magnitude of the cells whose angle index is c modulo 16 |
| Histograms.WeightedTallyMass | project/src/classifier_trainer.cpp:10-14 | the orientation buckets add up to the total magnitude of the sector |
| Histograms.HogFromSector | project/src/classifier_trainer.cpp:7-17 | the loops over the submatrix add each cell's magnitude to the bucket of its angle index modulo 16 |
| Histograms.ColorFromSector | project/src/classifier_trainer.cpp:130-156 | the loops compute each channel's sum over the submatrix divided by rows times columns times 255, or nothing for an empty submatrix |
| Histograms.SectorColorRange | project/src/classifier_trainer.cpp:130-156 | the colour feature is missing exactly for an empty sector; otherwise it has three values, each in [0, 1] for 8-bit channels |
| Histograms.SectorColorUniform | project/src/classifier_trainer.cpp:130-156 | a non-empty sector of one colour has that colour's channels divided by 255 as its feature |
| Histograms.Normalized | project/src/classifier_trainer.cpp:60-68 | normalising keeps the histogram's length |
| Histograms.NormalizeSector | project/src/classifier_trainer.cpp:60-68 | the loops accumulate the sum of squares, take its root, and divide every bucket by it when it is positive |
| Histograms.NormalizedSkipsOnlyZero | project/src/classifier_trainer.cpp:60-68 | with a true square root, the division is skipped exactly when every bucket is zero, and the histogram is then unchanged |
| Histograms.NormalizedUnit | project/src/classifier_trainer.cpp:60-68 | with a true square root, a divided histogram has unit L2 norm |
| Sequences.SumSquaresDivided | project/src/classifier_trainer.cpp:61-67 | dividing every bucket by n divides the sum of squares by n squared |
| Sequences.FlattenBlock | project/src/classifier_trainer.cpp:69 | when every sector contributes len values, sector k occupies positions k * len to (k + 1) * len of the descriptor |
| Descriptors.HogSector | project/src/classifier_trainer.cpp:55-68 | the normalised orientation histogram of a sector has 16 buckets |
| Descriptors.HogSectors | project/src/classifier_trainer.cpp:54-71 | the loops produce 25 sector histograms |
| Descriptors.HogSectorAt | project/src/classifier_trainer.cpp:54-71 | entry k of the row-major list is the histogram of sector (k / 5, k % 5) |
| Descriptors.HogSectorFeature | project/src/classifier_trainer.cpp:55-68 | the loop body's histogram of the submatrix at (i * xs, j * ys), normalised, is the sector at row-major position k |
| Descriptors.ExtractHogDescriptor | project/src/classifier_trainer.cpp:49-73 | the descriptor is the concatenation, in row-major sector order, of the normalised sector histograms |
| Descriptors.HogDescriptorLayout | project/src/classifier_trainer.cpp:49-73 | the orientation descriptor has 400 entries whatever the image size, block k of 16 being sector k's normalised histogram |
| Descriptors.LbpSector | project/src/classifier_trainer.cpp:110-122 | the normalised pattern histogram of a sector has 256 buckets |
| Descriptors.LbpSectors | project/src/classifier_trainer.cpp:109-125 | the loops produce 49 sector histograms |
| Descriptors.LbpSectorAt | project/src/classifier_trainer.cpp:109-125 | entry k of the row-major list is the histogram of sector (k / 7, k % 7) |
| Descriptors.LbpSectorFeature | project/src/classifier_trainer.cpp:110-122 | the loop body's histogram of the submatrix at (i * xs, j * ys), normalised, is the sector at row-major position k |
| Descriptors.ExtractLbpDescriptor | project/src/classifier_trainer.cpp:104-127 | the descriptor is the concatenation, in row-major sector order, of the normalised sector histograms |
| Descriptors.LbpDescriptorLayout | project/src/classifier_trainer.cpp:104-127 | the pattern descriptor has 12544 entries whatever the image size, block k of 256 being sector k's normalised histogram |
| Descriptors.ColorSectors | project/src/classifier_trainer.cpp:172-179 | the loops produce 64 sector colours |
| Descriptors.ColorSectorAt | project/src/classifier_trainer.cpp:172-179 | entry k of the row-major list is the colour of sector (k / 8, k % 8) |
| Descriptors.DefinedValues | project/src/classifier_trainer.cpp:176-177 | the appended colours are all defined exactly when each sector's is, and they are then listed in sector order |
| Descriptors.ColorSectorFeature | project/src/classifier_trainer.cpp:173-176 | the loop body's colour of the submatrix at (i * xs, j * ys) is the sector at row-major position k |
| Descriptors.ExtractColorDescriptor | project/src/classifier_trainer.cpp:158-182 | the descriptor is the concatenation of the sector colours in row-major order, or nothing when a sector's division is undefined |
| Descriptors.ColorSectorDefined | project/src/classifier_trainer.cpp:130-156 | a sector has a colour exactly when both of its extents are positive, and then it has three values |
| Descriptors.ColorDescriptorDefined | project/src/classifier_trainer.cpp:158-182 | the colour descriptor is defined exactly when the image has at least 8 rows and 8 columns |
| Descriptors.ColorDescriptorLayout | project/src/classifier_trainer.cpp:158-182 | a defined colour descriptor has 192 entries, block k of three being sector k's colour |
| Descriptors.ExtractFeatures | project/src/classifier_trainer.cpp:194-207 | one labelled vector is appended per image, in order, with the image's label; it is the orientation, pattern and again pattern descriptor |
| Descriptors.FeaturesLayout | project/src/classifier_trainer.cpp:194-207 | every feature vector has 25488 entries, and its third block equals its second |
| Descriptors.IntendedFeaturesLayout | project/src/classifier_trainer.cpp:199-203 | with the colour descriptor third, the vector exists exactly for images of at least 8 by 8 pixels, and then has 13136 entries ending in the colour descriptor |
| Descriptors.ExtractIntendedFeatures | project/src/classifier_trainer.cpp:194-207 | with the colour descriptor third, one labelled vector is appended per image, in order, with its label |
| IoParser.DirPart | project/src/io_parser.cpp:19-23 | the directory part is no longer than the path |
| IoParser.DirPrefix | project/src/io_parser.cpp:19-23 | the backward scan yields the path up to and including its last separator, or nothing |
| IoParser.DirPartSplit | project/src/io_parser.cpp:19-23 | the directory part is a prefix of the path that is empty or ends in a separator, and the rest has no separator |
| IoParser.DirPartUnique | project/src/io_parser.cpp:19-23 | any split of the path into a separator-terminated head and a separator-free tail has the directory part as its head |
| IoParser.DirPartIdempotent | project/src/io_parser.cpp:19-23 | the directory part of a directory part is itself |
| IoParser.ParseLabel | project/src/io_parser.cpp:26 | a label is read only from a non-empty word |
| IoParser.Decimal | project/src/io_parser.cpp:57 | the written digits of a number are non-empty and start with a digit |
| IoParser.FormatInt | project/src/io_parser.cpp:57 | the written label is non-empty |
| IoParser.DecimalValue | project/src/io_parser.cpp:57 | the written digits of a number read back as that number |
| IoParser.FormatIntRoundTrip | project/src/io_parser.cpp:57 | a label written to the prediction file reads back as the same label |
| IoParser.ExtractWord | project/src/io_parser.cpp:26 | a word extraction advances by one and returns that word, or fails and leaves the string unchanged |
| IoParser.ExtractLabel | project/src/io_parser.cpp:26 | an integer extraction advances by one and returns the word's value; otherwise it fails without advancing, storing 0 when the word is not an integer and leaving the variable unchanged when the stream was already failed or at its end |
| IoParser.LoadFileList | project/src/io_parser.cpp:13-32 | the loop as written appends, to the existing list, the entries the stream loop lists from the opened manifest under the manifest's directory |
| IoParser.LoadFileListCorrected | project/src/io_parser.cpp:25-29 | with the stream tested after both extractions, the loop appends one entry per name and label pair up to the first failure |
| IoParser.PairsStep | project/src/io_parser.cpp:25-29 | on a well-formed manifest, one round of the checked loop reads one entry |
| IoParser.PairsLayout | project/src/io_parser.cpp:25-29 | on a well-formed manifest, the checked loop from entry i on lists the remaining entries in order |
| IoParser.LoadFileListCorrectedLayout | project/src/io_parser.cpp:25-29 | the checked loop lists every entry of a well-formed manifest once, in order, as directory plus name and label |
| IoParser.ListedStep | project/src/io_parser.cpp:25-29 | one round of the loop as written reads and appends one entry of a well-formed manifest |
| IoParser.ListedLast | project/src/io_parser.cpp:25-29 | from the last entry on, the loop as written lists it, and once more when whitespace follows it |
| IoParser.ListedFrom | project/src/io_parser.cpp:25-29 | from entry i on, the loop as written lists the remaining entries and then the repeat caused by trailing whitespace |
| IoParser.LoadFileListWithoutTrailing | project/src/io_parser.cpp:25-29 | when the manifest ends right after its last label, the loop as written lists every entry once, in order |
| IoParser.TrailingWhitespaceRepeatsLast | project/src/io_parser.cpp:25-29 | when whitespace follows the last label, the loop as written lists every entry and then the last one again |
| IoParser.TrailingNewlineExample | project/src/io_parser.cpp:25-29 | the manifest `a.bmp 1` followed by a newline, in directory `data/`, yields the entry `data/a.bmp`, 1 twice |
| IoParser.ListedPaths | project/src/io_parser.cpp:27-28 | every appended path is the manifest's directory followed by one of the manifest's words |
| IoParser.LoadImages | project/src/io_parser.cpp:35-44 | one image is appended per file-list entry, in order, decoded from its path and with its label |
| IoParser.FirstSpace | project/src/io_parser.cpp:57 | returns the position of the first space, or the length when there is none |
| IoParser.SavePredictions | project/src/io_parser.cpp:47-58 | requires as many labels as files; line k is path k, a space, label k and a line break |
| IoParser.PredictionLineReadsBack | project/src/io_parser.cpp:56-57 | a prediction line for a path without spaces splits at its first space into the path and a word that reads back as the label |

## Left out

- Decoding images (`BMPtoImage`, EasyBMP) and opening, reading and closing files are not modelled. Images reach the model as arrays or grids of unsigned triples. `LoadImages` decodes through the parameter `read`. The manifest is its list of words plus whether whitespace follows the last word. The prediction file is its list of lines.
- The classifier (`TClassifier`, `TModel`), `TrainClassifier`, `PredictData` and `ClearDataset` are not modelled. They are an external library, orchestration, and memory release.
- `Matrix::unary_map` and `Matrix::submatrix` are not part of this model. The filters are modelled on one given window. A submatrix is an offset and an extent into the grid. The descriptors take as input the fields their sector loops read: magnitudes and angle indices, the pattern-code image, and the colour image.
- Square root, `pow`, `atan2` and the float expression that turns a direction into a bucket index are not modelled. The square root is the parameter `root`. The bucket index enters as an integer before `% PI_SPLIT`.
- Floating point, the `float` accumulation of magnitudes and the `double` to `uint` truncation of the convolution sums are not modelled. Reals are exact and the Sobel sums are exact integers.
- Filters.GrayLevel: the luminance is exact real arithmetic, truncated by `Floor`. Rounding of the floating-point weights is not modelled.
- Filters.GrayLevelOfGrey, Filters.GrayLevelIdempotent: these hold in exact arithmetic only. The source sums the weighted channels in `double`, and for 65 of the 256 grey levels (1, 2, 4, 8, 11, ...) that sum falls just below the level, so truncation lowers it by one.
- Integer widths are not modelled: `uint` overflow of `rows * cols * 255` in the colour feature, `int` overflow of a label, and `size_t` indices. Integers are unbounded.
- Histograms.ColorFromSector: the source divides zero by zero for an empty sector and appends NaN. The model returns nothing there, and the colour descriptor is then missing.
- Borders.MirrorBorder: requires each dimension to hold at least three frame widths. With fewer, some reads fall in cells that an earlier assignment has already overwritten, and that order-dependent case is not modelled. Padding an image at least `r` wide and high always meets the requirement.
- Borders.CutBorder: requires at least `2 * r` columns. With fewer, the source's unsigned subtraction wraps around, and that case is not modelled. The row count is handled as written, including the error.
- IoParser.ParseLabel: a word that starts with a number but has other characters after it is treated as a failed label. The stream would read the number and leave the rest as the next word.
- IoParser.LoadFileList: the initial value of the uninitialised `label` variable is the parameter `unset`.

## Findings

| source | as written | input that shows it | evidently intended | confidence | as-written member | corrected member |
|---|---|---|---|---|---|---|
| project/src/classifier_trainer.cpp:202 | the third block of every feature vector calls the pattern extractor again, so the colour extractor is never used and vectors have 25488 entries | any image: entries 400 to 12944 equal entries 12944 to 25488 | `color_features` comes from `extract_color_features_from`, giving 400 + 12544 + 192 = 13136 entries ending in the colour descriptor | high (not executed) | Descriptors.FeaturesLayout | Descriptors.IntendedFeaturesLayout |
| project/src/io_parser.cpp:25-29 | the loop tests the stream before extracting and appends whenever `filename` is non-empty; at a final newline the extra round's extractions fail but leave the previous name and label in place, so the last entry is appended twice | the manifest `a.bmp 1` followed by a newline, in directory `data/`, lists `data/a.bmp`, 1 twice | test the stream after the extractions and append only when both succeeded, giving one entry per line | high (not executed) | IoParser.TrailingWhitespaceRepeatsLast | IoParser.LoadFileListCorrectedLayout |
