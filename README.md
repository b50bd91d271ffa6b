# ACIndexer palette indexer, modelled in Dafny

ACIndexer turns a picture into an Animal Crossing custom design. Given an image
and a tile width, it

1. means to pick the tile height whose aspect ratio best matches the image
   (an ascending search that stops when the error starts to rise; see
   "Findings" for the height it actually answers), and crops the image to the
   tiles' aspect ratio, centred;
2. scales and quantises the crop into a pixel buffer `tileWidth*32` by
   `tileHeight*32`, counts its colours into a colour-frequency map and, while
   more than 15 colours remain, runs reduction rounds at radius 1, 2, ...: in
   each round the colours are taken in order of decreasing count and each
   surviving colour assimilates every other surviving colour within RGB
   distance `r` (repainting its pixels and adding up the counts);
3. labels the remaining colours `0`-`9`, `a`, `b`, ... and prints the map of
   labels, one per pixel.

The model has five modules, one per concern of `Main.java`:

- `Colours` (`colours.dfy`): channel extraction and `colourDist`, as the
  integer test `SquaredDist(c1, c2) <= r*r`.
- `Geometry` (`geometry.dfy`): the tile-height search and the crop window,
  with the floating-point quotients compared exactly by cross-multiplication.
- `Histograms` (`histograms.dfy`): the frequency map as the counting loop
  builds it (`Histogram`, a fold over the buffer), what it holds
  (`HistogramAt`: each colour of the buffer with its number of pixels), the
  sum of its counts (`Total`) and one assimilation's repaint (`Replace`).
- `Reduction` (`reduction.dfy`): the class `IndexedImage` holding the pixel
  buffer (`array<int>`) and the frequency map that the source updates in place,
  with its invariant `Valid()` (the map is the histogram of the buffer), the
  counting loop, the sorted snapshot, assimilation, a round and the reduction
  loop. The round's reasoning is stated on values by `RoundState`.
- `Labels` (`labels.dfy`): the label counter, the label lookup and the printed
  map.

Where the source leaves an order open (the order of `HashMap` keys, the
order among equal counts after the stable sort) the model takes that order as
a parameter or chooses it nondeterministically, and proves its properties for
every choice.

The program announces the optimal tile dimensions (`Main.java` lines 43 and
50). The optimal height is the candidate at which the search stops, where the
error starts to rise; the code returns the candidate before it. The model
follows the code (`ResolveTileHeight`, `StageOne`) and records the difference
under "Findings".

Several source expressions are modelled by functions whose meaning is given
by a lemma with a row below: the merge test `colourDist(c1, c2) <= r`
(`Main.java` line 127) is `Colours.Near`, see `Colours.NearIffDistWithin`; the
search's test (line 47) is `Geometry.ErrorRises`, see
`Geometry.ErrorRisesIffErrGrows`; the crop's test (line 54) is
`Geometry.TooWide`, see `Geometry.TooWideIffRatio`; the map built by the
counting loop (lines 100-106) is `Histograms.Histogram`, see
`Histograms.HistogramAt`; and `colourMap.get` (line 172) is `Labels.Lookup`,
see `Labels.LabelGrid`.

## Model

| member | source | states |
|---|---|---|
| Colours.Red | src/net/shinonomelabs/ac/designindexer/Main.java:14 | the red channel of a packed colour is a byte value, 0 to 255 |
| Colours.Green | src/net/shinonomelabs/ac/designindexer/Main.java:15 | the green channel is 0 to 255 |
| Colours.Blue | src/net/shinonomelabs/ac/designindexer/Main.java:16 | the blue channel is 0 to 255 |
| Colours.SquaredDist | src/net/shinonomelabs/ac/designindexer/Main.java:13-21 | the squared RGB distance never exceeds 3*255*255 |
| Colours.Decompose | src/net/shinonomelabs/ac/designindexer/Main.java:14-19 | the three extracted channels make up exactly the low 24 bits of the colour |
| Colours.ChannelsOfRgb | src/net/shinonomelabs/ac/designindexer/Main.java:14-19 | each channel depends only on the low 24 bits (alpha is ignored) |
| Colours.DistSymmetric | src/net/shinonomelabs/ac/designindexer/Main.java:13-21 | the distance is symmetric, and so is the test `colourDist <= r` for every radius |
| Colours.DistOfRgb | src/net/shinonomelabs/ac/designindexer/Main.java:13-21 | the distance of two colours equals the distance of their low 24 bits |
| Colours.DistZeroIffSameRgb | src/net/shinonomelabs/ac/designindexer/Main.java:13-21 | the distance is zero exactly when the colours agree on red, green and blue |
| Colours.NearIffDistWithin | src/net/shinonomelabs/ac/designindexer/Main.java:21 | for the real square root `d` of the squared distance, `d <= r` holds exactly when the integer test `Near` does |
| Colours.NearAtMaxRadius | src/net/shinonomelabs/ac/designindexer/Main.java:127 | from radius 442 on, every two colours pass the merge test |
| Geometry.RisesOncePast | src/net/shinonomelabs/ac/designindexer/Main.java:46-47 | once `i` tiles are at least as tall as the image's ratio demands, the error rises at `i`: the search terminates |
| Geometry.ErrorRisesIffErrGrows | src/net/shinonomelabs/ac/designindexer/Main.java:44-47 | the integer test `ErrorRises` holds exactly when the real error at `i` is below the error at `i + 1` |
| Geometry.FirstRiseFrom | src/net/shinonomelabs/ac/designindexer/Main.java:46-49 | the first candidate from `i` on at which the error rises: it exists, the error rises there and at no earlier candidate |
| Geometry.FirstRise | src/net/shinonomelabs/ac/designindexer/Main.java:46-49 | the candidate at which the search stops is at least 1, the error rises there and at no smaller candidate |
| Geometry.NonPositiveWidthNeverRises | src/net/shinonomelabs/ac/designindexer/Main.java:45-48 | for a tile width of 0 or less the error at the next candidate is never larger, so the test that breaks the loop never holds |
| Geometry.AsWrittenTileHeight | src/net/shinonomelabs/ac/designindexer/Main.java:45-49 | the answer of the loop as written: no candidate below it stops the search, and unless it is 1 it is the candidate just before the one that stops it |
| Geometry.ResolveTileHeight | src/net/shinonomelabs/ac/designindexer/Main.java:45-49 | the loop as written ends with `tileHeight` equal to `AsWrittenTileHeight`: one below the stopping candidate (1 if it stops at once) |
| Geometry.IntendedTileHeight | src/net/shinonomelabs/ac/designindexer/Main.java:45-49 | the stopping candidate is a local minimum of the error: below the next candidate's error and not above the previous one's |
| Geometry.SearchStopsOneShort | src/net/shinonomelabs/ac/designindexer/Main.java:45-49 | for a 1920x1080 image with tile width 4 the search stops at 2, whose error is below that of 1, yet the loop as written answers 1 (`AsWrittenTileHeight` is 1) |
| Geometry.TooWideIffRatio | src/net/shinonomelabs/ac/designindexer/Main.java:54 | the integer test `TooWide` is the source's comparison of the image ratio with the tile ratio |
| Geometry.CropWindow | src/net/shinonomelabs/ac/designindexer/Main.java:53-65 | the crop keeps the full height (too wide) or full width (too tall), the other side is the floor of the ideal length, the window lies inside the image and is centred with the odd pixel on the right or bottom |
| Geometry.StageOne | src/net/shinonomelabs/ac/designindexer/Main.java:44-65 | stage 1 as the program runs it: the height is the loop's answer as written, and the crop window lies inside the image, keeps one full side and cuts the other to the floor of the tiles' ratio for that height |
| Geometry.PlanLayout | src/net/shinonomelabs/ac/designindexer/Main.java:44-65 | stage 1 with the corrected search: the tile height is a local minimum of the error and the crop window lies inside the image, keeps one full side and cuts the other to the floor of the tiles' ratio |
| Histograms.Replace | src/net/shinonomelabs/ac/designindexer/Main.java:129-135 | repainting keeps the length and changes exactly the pixels of the absorbed colour, into the absorbing colour |
| Histograms.ReplaceMembers | src/net/shinonomelabs/ac/designindexer/Main.java:129-135 | after a repaint the colours present are the old ones minus the absorbed colour |
| Histograms.HistogramAt | src/net/shinonomelabs/ac/designindexer/Main.java:100-106 | a colour is in the map exactly when some pixel has it, and its count is the number of such pixels |
| Histograms.HistogramKeysIff | src/net/shinonomelabs/ac/designindexer/Main.java:100-106 | the keys of the map are exactly the colours of the buffer |
| Histograms.HistogramKeys | src/net/shinonomelabs/ac/designindexer/Main.java:100-106 | every pixel's colour is in the map with a count of at least 1 |
| Histograms.HistogramSize | src/net/shinonomelabs/ac/designindexer/Main.java:100-106 | the map has no more colours than the buffer has pixels, and every count is positive |
| Histograms.TotalRemove | src/net/shinonomelabs/ac/designindexer/Main.java:136-137 | removing any colour takes exactly its count off the total |
| Histograms.TotalUpdate | src/net/shinonomelabs/ac/designindexer/Main.java:136 | setting one colour's count to `v` makes the total `v` plus the counts of the other colours |
| Histograms.HistogramTotal | src/net/shinonomelabs/ac/designindexer/Main.java:100-106 | the counts add up to the number of pixels |
| Histograms.ReplaceMultiset | src/net/shinonomelabs/ac/designindexer/Main.java:129-135 | after a repaint the absorbed colour occurs nowhere, the absorbing colour as often as both did, every other colour as before |
| Histograms.HistogramReplace | src/net/shinonomelabs/ac/designindexer/Main.java:129-137 | the histogram of the repainted buffer is the old map with the counts added and the absorbed colour removed, the map update the source makes |
| Histograms.HistogramReplaceAt | src/net/shinonomelabs/ac/designindexer/Main.java:129-137 | colour by colour: after a repaint the absorbed colour is gone, the absorbing one holds both counts, the others keep theirs |
| Reduction.MostFrequentExists | src/net/shinonomelabs/ac/designindexer/Main.java:116-118 | every non-empty frequency map has a colour of largest count, so the descending sort can always pick its next colour |
| Reduction.SeparationBoundsRadius | src/net/shinonomelabs/ac/designindexer/Main.java:113-142 | two colours still apart after a round at radius `r` force `r < 442`, which bounds the number of rounds |
| Reduction.CountColours | src/net/shinonomelabs/ac/designindexer/Main.java:99-107 | the counting loop yields the histogram of the buffer: its keys are exactly the buffer's colours and each count is that colour's number of pixels |
| Reduction.IndexedImage.constructor | src/net/shinonomelabs/ac/designindexer/Main.java:74-77 | a fresh buffer `tileWidth*32` by `tileHeight*32` holding the quantised pixels, with its counted frequency map |
| Reduction.IndexedImage.CountsSumToPixels | src/net/shinonomelabs/ac/designindexer/Main.java:99-107 | the counts of a valid image add up to width times height |
| Reduction.SelectStep | src/net/shinonomelabs/ac/designindexer/Main.java:115-118 | taking a colour of largest remaining count extends the sorted prefix and keeps every colour either taken or remaining |
| Reduction.SelectDone | src/net/shinonomelabs/ac/designindexer/Main.java:115-118 | once no colour remains, the taken colours are a snapshot: each colour once, in non-increasing order of count |
| Reduction.IndexedImage.SortedColours | src/net/shinonomelabs/ac/designindexer/Main.java:115-118 | the snapshot lists every colour of the map exactly once, in non-increasing order of count |
| Reduction.IndexedImage.Repaint | src/net/shinonomelabs/ac/designindexer/Main.java:129-135 | the pixel loop turns every pixel of the absorbed colour into the absorbing one and leaves all others |
| Reduction.IndexedImage.Assimilate | src/net/shinonomelabs/ac/designindexer/Main.java:129-137 | after an assimilation the buffer is repainted, the absorbing colour's count is the sum, the absorbed colour is gone, and the map is still the buffer's histogram |
| Reduction.RoundStart | src/net/shinonomelabs/ac/designindexer/Main.java:115-120 | at the start of a round nothing is absorbed and the snapshot's colours are exactly the buffer's |
| Reduction.MergeStep | src/net/shinonomelabs/ac/designindexer/Main.java:124-138 | a target only ever absorbs a surviving colour later in the snapshot, and the absorption keeps the round's state (survivors, separation, every moved pixel moved once to a near and earlier colour) |
| Reduction.SkipTarget | src/net/shinonomelabs/ac/designindexer/Main.java:123 | skipping an already absorbed target keeps the round's state |
| Reduction.FinishTarget | src/net/shinonomelabs/ac/designindexer/Main.java:124-140 | after its scan a surviving target is more than `r` from every other survivor |
| Reduction.IndexedImage.AbsorbNeighbours | src/net/shinonomelabs/ac/designindexer/Main.java:124-140 | the inner loop absorbs exactly the colours that are in the snapshot, not absorbed before, not the target and within `r` of it; exactly their pixels become the target's colour; the map stays the buffer's histogram and the round's state gains one separated target |
| Reduction.RoundEndSeparated | src/net/shinonomelabs/ac/designindexer/Main.java:122-141 | after the last target the surviving colours are pairwise more than `r` apart |
| Reduction.SurvivorsSeparated | src/net/shinonomelabs/ac/designindexer/Main.java:122-141 | after the last target no two colours still in the buffer are within `r` of each other |
| Reduction.RoundEndColours | src/net/shinonomelabs/ac/designindexer/Main.java:122-141 | the colours left after a round are among the colours the round started with |
| Reduction.RoundEndFirstNear | src/net/shinonomelabs/ac/designindexer/Main.java:122-141 | every pixel changed by a round went to the earliest colour of the snapshot, among those left, that is within `r` of its old colour |
| Reduction.RoundEnd | src/net/shinonomelabs/ac/designindexer/Main.java:122-141 | after the last target the round's start and end buffers satisfy `RoundBy`: same length, only old colours, survivors separated, every changed pixel moved to the earliest remaining near colour of at least its count |
| Reduction.RoundsSnoc | src/net/shinonomelabs/ac/designindexer/Main.java:113-142 | a round at the next radius over a buffer that still has more than 15 colours extends the history of the reduction |
| Reduction.ScanSkip | src/net/shinonomelabs/ac/designindexer/Main.java:123-127 | a candidate already absorbed, equal to the target or too far keeps the scan's state |
| Reduction.ScanMerge | src/net/shinonomelabs/ac/designindexer/Main.java:127-138 | absorbing a candidate repaints exactly its pixels as the target and adds it to the absorbed colours, keeping the scan's state |
| Reduction.ScanDone | src/net/shinonomelabs/ac/designindexer/Main.java:124-140 | after the whole snapshot is scanned, the absorbed colours and the repainted pixels are exactly those of the colours near the target |
| Reduction.ScanningMerge | src/net/shinonomelabs/ac/designindexer/Main.java:124-138 | an absorption keeps the inner loop's whole invariant, the round's state and the scan's state |
| Reduction.RoundEndMoves | src/net/shinonomelabs/ac/designindexer/Main.java:122-141 | every pixel changed by a round went to a near colour earlier in the snapshot, whose count at the start of the round was at least that of its old colour |
| Reduction.MovedTowardsLarger | src/net/shinonomelabs/ac/designindexer/Main.java:115-118 | in the descending snapshot an earlier colour has a count at least that of a later one |
| Reduction.IndexedImage.ReduceRound | src/net/shinonomelabs/ac/designindexer/Main.java:115-141 | one round leaves a valid image whose colours are a subset of the old ones, pairwise more than `r` apart, and moves each pixel at most once to a near, earlier, at least as frequent colour, namely the earliest remaining colour of the snapshot within `r` of its old colour; together these make the old and new buffer a `RoundBy` at radius `r` |
| Reduction.IndexedImage.Reduce | src/net/shinonomelabs/ac/designindexer/Main.java:110-144 | the reduction terminates with at most 15 colours, only old colours, the same pixel total, and changes nothing when 15 or fewer colours were there already; its ghost history of buffers runs from the old buffer to the new one, each step being the round at radius 1, 2, ... over a snapshot of a buffer that still had more than 15 colours, so it stops after the first round that meets the budget |
| Labels.LabelAt | src/net/shinonomelabs/ac/designindexer/Main.java:155-165 | the first ten labels are digits, later ones are from 'a' upwards |
| Labels.LabelsDistinct | src/net/shinonomelabs/ac/designindexer/Main.java:155-165 | different positions get different labels |
| Labels.AssignLabels | src/net/shinonomelabs/ac/designindexer/Main.java:154-166 | every listed colour, and only those, gets a label; the `k`-th gets the `k`-th label; no two colours share a label |
| Labels.LabelsInjective | src/net/shinonomelabs/ac/designindexer/Main.java:154-166 | labels given by position to distinct colours are pairwise different |
| Labels.RowMajorIndex | src/net/shinonomelabs/ac/designindexer/Main.java:171 | `y*w + x` stays inside the buffer for every cell of the map |
| Labels.LabelGrid | src/net/shinonomelabs/ac/designindexer/Main.java:169-176 | the map has `height` rows of `width` cells and each cell shows the lookup of its pixel's colour |
| Labels.EveryCellLabelled | src/net/shinonomelabs/ac/designindexer/Main.java:171-172 | when every colour of the buffer has a label, every cell's colour has one |
| Labels.GridDistinguishes | src/net/shinonomelabs/ac/designindexer/Main.java:169-176 | with an injective labelling covering the buffer, two cells show the same label exactly when their pixels have the same colour |
| Labels.Report | src/net/shinonomelabs/ac/designindexer/Main.java:154-176 | after the reduction every remaining colour gets a label, no cell prints `null`, and equal labels in the map mean equal colours |

## Left out

- Reading the image file, writing `result.png`, and all console output (the legend and map are returned as values instead of printed).
- The command line (lines 25-34): the tile width is a parameter; `Integer.parseInt` failures and a missing argument are not modelled.
- Geometry.ResolveTileHeight: requires a positive tile width. `Integer.parseInt` (line 33) also accepts 0 and negative widths; `NonPositiveWidthNeverRises` proves that for those the stopping test holds at no positive candidate. With width 0 every error equals the image ratio, the comparison at candidate 0 involves NaN, and the program hangs. With a negative width the Java `int` counter `i` wraps around to negative values, the loop stops at a negative height, and the program then fails, at the latest when it allocates the scaled buffer with a negative size at line 68. Neither the wrap-around nor that failure is modelled.
- Geometry.ResolveTileHeight: its counter `i` is unbounded; in Java it is an `int` and would wrap around if the search ran past 2^31-1 candidates, which needs `tileWidth*h` near `INT_MAX`. `StageOne` excludes that with its requirement `h*tileWidth <= INT_MAX`; `ResolveTileHeight` on its own does not.
- `getSubimage`, `getScaledInstance` with area averaging, and drawing into the scaled buffer (lines 58-73): the model computes the crop window and takes the scaled, quantised buffer as the constructor's parameter.
- The HSB quantisation loop (lines 79-94) and the HSB values printed in the legend (lines 157-161): they are floating-point colour-space conversions in `java.awt.Color`, which is not part of this model.
- `IOException` handling (lines 177-181).
- Geometry.ErrorRisesIffErrGrows: the source compares `double` errors; the model compares the exact real errors, so rounding differences at near-ties are not captured.
- Geometry.TooWideIffRatio: the source compares a `double` ratio with a `float` quotient; the model compares the exact quotients.
- Geometry.CropWindow: requires the products `h*tileWidth` and `w*tileHeight` to fit in a Java `int` (no overflow is modelled) and the cropped side to be at least one pixel; a degenerate crop of width or height 0 is excluded.
- Reduction.IndexedImage.SortedColours: the order among colours with equal counts depends on `HashMap` iteration and is chosen nondeterministically; every property is proved for any such order.
- Reduction.IndexedImage.Repaint: the source's nested `y`/`x` loops over `y*w + x` visit the buffer in index order, which the model writes as one loop over the index.
- Reduction.IndexedImage.Reduce: the pixel counts are unbounded integers; a frequency count cannot overflow in the source for any image that fits in memory.
- Labels.AssignLabels: the order of `colourFrequency.keySet()` is a parameter; the counter is modelled up to 55,000-odd labels, before Java's `char` would run into the surrogate range (after the reduction at most 15 are ever used).
- Labels.Report: a cell whose colour had no label would print `null`; the model writes it as `None` and proves it cannot happen.

## Findings

| source | as written | input that shows it | evidently intended | confidence | as-written member | corrected member |
|---|---|---|---|---|---|---|
| src/net/shinonomelabs/ac/designindexer/Main.java:45-49 | `tileHeight` is assigned only on iterations that do not stop, so the loop returns one below the candidate at which the error starts to rise | a 1920x1080 image with tile width 4: the error at height 2 is below the error at height 1 and the loop stops at 2, yet `tileHeight` is 1 | the candidate at which the loop stops, a local minimum of the error | high, not executed | Geometry.SearchStopsOneShort | Geometry.IntendedTileHeight |
