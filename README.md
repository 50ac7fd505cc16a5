# Rubik's cube scanner — a Dafny model of `CubeScanner`

The scanner reads the six faces of a Rubik's cube from a webcam, one capture per face.

- **Sampling.** Each capture takes a frame. It samples the centre of each of the nine cells of a
  3 × 3 grid drawn in the middle of the frame. The sample is the per-channel median of a 5 × 5
  pixel window.
- **Classifying.** Each median is classified as WHITE, RED, ORANGE, YELLOW, GREEN or BLUE. The
  classifier uses a whitish test on the raw BGR channels and five inclusive hue bands.
- **Showing.** The captured face is shown as a picture, and the whole cube as a cross-shaped net.
- **Accepting.** The operator accepts the capture with `n`/`N`, which writes its nine colours into
  the cube with `setColor`, or captures the face again with any other key.

The model has one Dafny module per concern:

| module | file | models |
|---|---|---|
| `Types` | `types.dfy` | pixels (BGR bytes), the `COLOR` enum, hues (0..179, the range of OpenCV's 8-bit hue), face and cube grids |
| `CArith` | `carith.dfy` | C++ integer division by 2, which truncates toward zero |
| `Classifier` | `classifier.dfy` | `classifyColor`, and the band structure behind it |
| `Sorting` | `sorting.dfy` | the `std::sort` of a channel, as a reference insertion sort on byte sequences |
| `Median` | `median.dfy` | `medianColor`: the window, the channel collection loop and the median |
| `Capture` | `capture.dfy` | the sampling part of `captureFace`: grid placement and the 3 × 3 sampling loop over a frame |
| `Layout` | `layout.dfy` | `colorMap`, `drawColorFace` and `drawFullCube`, as the sequences of filled rectangles they paint |
| `Assembly` | `assembly.dfy` | `scan`: the face loop, the rescan loop, the cube net and the `setColor` calls |

## How the pieces are modelled

- **Frames.** A frame is an `array2<Pixel>` indexed `[y, x]`, as `frame.at<Vec3b>(y, x)` is.
- **The median.** `Median.MedianColor` is imperative. Its loops collect the three channels of the
  in-frame pixels into sequences, just as the source's `push_back` does. They are proved to
  collect exactly the channels of the window `Median.Window`, in row-major order. The median is
  then the middle element of each sorted channel.
- **Capture.** `Capture.CaptureFace` fills a fresh grid row by row. It is proved to store, at
  every cell, the colour `Capture.CellColor` that the specification functions assign to it.
- **The scan.** `Scan` works over a finite sequence of events. Each event is the grid one capture
  produced and the key pressed after it.
  - `Assembly.Step` and `Assembly.Run` give the meaning of a session of events.
  - The imperative `Assembly.Scan` drives a `RubiksCube` object, whose `setColor` calls are logged
    in its `calls` field.
  - `Scan` is proved to make exactly the calls the session prescribes.
  - The lemmas show what a complete scan writes: 54 calls, face by face, row by row, each facelet
    with the colour of the accepted capture.
- **Drawing.** A picture is a list of filled rectangles, painted in order. `Layout.PaintedAt` gives
  the colour a point ends up with: the fill painted last among those that cover it.

## Model

| member | source | states |
|---|---|---|
| `CArith.Half` | Scanner/CubeScanner.cpp:53 | `region / 2`, `boxSize / 2` and `(extent - 3 * boxSize) / 2` truncate toward zero: for `a >= 0`, `2q <= a <= 2q + 1`; for negative `a`, `2q - 1 <= a <= 2q` and `q <= 0` |
| `Classifier.IsWhitish` | Scanner/CubeScanner.cpp:36-41 | defines the white test: every channel above 200 and every pairwise channel difference below 30 |
| `Classifier.Classify` | Scanner/CubeScanner.cpp:29-50 | the classifier never answers UNKNOWN, and a whitish pixel is WHITE whatever its hue |
| `Classifier.HueBandsDisjoint` | Scanner/CubeScanner.cpp:43-47 | the five hue bands are pairwise disjoint, and none of them stands for WHITE or UNKNOWN |
| `Classifier.FirstBandFindsContainingBand` | Scanner/CubeScanner.cpp:43-47 | with disjoint bands, the first band that matches a hue is the band that contains it |
| `Classifier.FirstBandNone` | Scanner/CubeScanner.cpp:43-49 | no band matches exactly when no band contains the hue, which is the case that falls through to line 49 |
| `Classifier.BandOrderIrrelevant` | Scanner/CubeScanner.cpp:43-47 | trying the same bands in any other order gives the same colour for every hue |
| `Classifier.ClassifyIsFirstBand` | Scanner/CubeScanner.cpp:43-49 | for a pixel that is not whitish, the chain of tests is the first-match search over the band table, with WHITE when nothing matches |
| `Classifier.ClassifyBandColor` | Scanner/CubeScanner.cpp:36-47 | for every colour other than WHITE: the result is that colour if and only if the pixel is not whitish and its hue lies in that colour's band |
| `Classifier.ClassifyWhite` | Scanner/CubeScanner.cpp:36-49 | the result is WHITE if and only if the pixel is whitish or its hue lies in no band |
| `Sorting.Sort` | Scanner/CubeScanner.cpp:63 | defines the reference sort of one channel (insertion sort); its contract keeps the length, and the lemmas below give its meaning |
| `Sorting.InsertSorted` | Scanner/CubeScanner.cpp:63 | inserting into a sorted channel keeps it sorted, and the new head is the smaller of the old head and the inserted byte |
| `Sorting.InsertPermutes` | Scanner/CubeScanner.cpp:63 | insertion adds exactly the inserted byte to the multiset of the channel |
| `Sorting.SortSorted` | Scanner/CubeScanner.cpp:63 | a sorted channel is in non-decreasing order |
| `Sorting.SortPermutes` | Scanner/CubeScanner.cpp:63 | a sorted channel is a permutation of the collected channel |
| `Sorting.SortedUnique` | Scanner/CubeScanner.cpp:63 | two sorted sequences with the same multiset are equal, so any correct sort gives the channel `std::sort` gives |
| `Sorting.SortPermutation` | Scanner/CubeScanner.cpp:63 | the sorted channel depends only on the multiset of samples, not on the order they were collected in |
| `Median.Window` | Scanner/CubeScanner.cpp:55-60 | defines the samples: the in-frame pixels of the square `[cx - half, cx + half] × [cy - half, cy + half]`, row by row, left to right |
| `Median.ChannelMedian` | Scanner/CubeScanner.cpp:63-65 | defines one channel of the median: the channel sorted, then its element at index `size / 2` |
| `Median.MedianOf` | Scanner/CubeScanner.cpp:63-65 | defines the median colour: the three channel medians, each taken on its own |
| `Median.CollectChannels` | Scanner/CubeScanner.cpp:55-62 | the nested loops collect into `B`, `G`, `R` exactly the blue, green and red channels of the in-frame window pixels, in row-major order |
| `Median.CollectRow` | Scanner/CubeScanner.cpp:56-61 | one pass of the inner loop appends the channels of the in-frame pixels of row `y`, left to right |
| `Median.MedianColor` | Scanner/CubeScanner.cpp:52-66 | when the window meets the frame, the result is the per-channel median of the window: each channel's sorted samples at index `size / 2` |
| `Median.WindowSize` | Scanner/CubeScanner.cpp:55-58 | the window holds (in-frame rows) × (in-frame columns) of the square `[c - half, c + half]` pixels |
| `Median.WindowNonEmpty` | Scanner/CubeScanner.cpp:58 | the window has a sample if and only if the square around the centre overlaps the frame; otherwise `B[mid]` would be out of bounds |
| `Median.WindowFromFrame` | Scanner/CubeScanner.cpp:57-60 | every sample is the frame pixel at some in-frame point of the square around the centre |
| `Median.WindowLocal` | Scanner/CubeScanner.cpp:55-62 | the window depends only on the frame pixels inside the square: frames that agree there give the same samples |
| `Median.MedianIsSample` | Scanner/CubeScanner.cpp:63-65 | each channel of the median is that channel of some sampled pixel |
| `Median.MedianRankBelow` | Scanner/CubeScanner.cpp:63-65 | at least `size / 2 + 1` samples of each channel are at most the median |
| `Median.MedianRankAbove` | Scanner/CubeScanner.cpp:63-65 | at least `size - size / 2` samples of each channel are at least the median |
| `Median.MedianOfUniform` | Scanner/CubeScanner.cpp:63-65 | the median of identical samples is that sample |
| `Median.WindowMedianUniform` | Scanner/CubeScanner.cpp:52-66 | if every pixel of the square around the centre is `p`, the median colour is `p` |
| `Median.ChannelMedianOfSorted` | Scanner/CubeScanner.cpp:63-65 | any sorted rearrangement of a channel holds the channel's median at index `size / 2` |
| `Capture.GridStart` | Scanner/CubeScanner.cpp:89-90 | defines the first pixel of the grid along an axis: `(extent - 3 * boxSize) / 2`, truncating |
| `Capture.CellCentre` | Scanner/CubeScanner.cpp:95-96 | defines the sampling coordinate of cell `k`: grid start plus `k * boxSize + boxSize / 2` |
| `Capture.ColorAt` | Scanner/CubeScanner.cpp:97-98 | defines the colour seen at a point: the classified median of its 5 × 5 neighbourhood |
| `Capture.CellColor` | Scanner/CubeScanner.cpp:95-98 | defines the colour of cell `(i, j)`: the colour seen at its centre |
| `Capture.CaptureFace` | Scanner/CubeScanner.cpp:88-100 | cell `(i, j)` of the captured face is the classified median colour around the centre of grid cell `(i, j)`, and no cell is UNKNOWN |
| `Capture.CaptureRow` | Scanner/CubeScanner.cpp:94-99 | one pass of the inner loop stores, at column `j` of row `i`, the colour of cell `(i, j)`, for each of the three columns |
| `Capture.SampleCell` | Scanner/CubeScanner.cpp:95-98 | one loop body: the median colour around the cell centre, classified |
| `Capture.CentreInFrame` | Scanner/CubeScanner.cpp:89-96 | when three boxes fit in the frame, every cell centre lies inside it |
| `Capture.GridCentred` | Scanner/CubeScanner.cpp:89-90 | the grid is centred: the margins before and after it differ by at most one pixel |
| `Capture.WindowInsideCell` | Scanner/CubeScanner.cpp:95-97 | with boxes of at least 5 pixels, the 5 × 5 window around a centre lies inside its cell |
| `Capture.SameSizeSampleable` | Scanner/CubeScanner.cpp:88-97 | if the captured frame is at least three boxes each way and has the size the grid was laid out for, every cell can be sampled |
| `Capture.CellLocal` | Scanner/CubeScanner.cpp:95-98 | a cell's colour depends only on the pixels of its sampling window |
| `Capture.UniformCellColor` | Scanner/CubeScanner.cpp:95-98 | a cell whose window is filled by one colour `p` gets `p`'s colour, `Classify(p, hue(p))` |
| `Capture.DefaultGridSampleable` | Scanner/CubeScanner.h:17 | with the default 60-pixel cells, a capture frame of the previewed size holding the 180-pixel grid can be sampled in all nine cells, and along both axes every neighbourhood stays inside its own cell |
| `Assembly.Step` | Scanner/CubeScanner.cpp:148-165 | defines one capture of the scan: the current face of the net is replaced by the grid; on `n`/`N` its nine writes are appended and the next face comes up; after six faces nothing changes |
| `Assembly.Run` | Scanner/CubeScanner.cpp:144-167 | defines a session: the captures applied in order from face 0, an all-WHITE net and no calls |
| `Assembly.RubiksCube.constructor` | Scanner/CubeScanner.cpp:144 | a fresh cube has received no `setColor` calls |
| `Assembly.RubiksCube.SetColor` | Scanner/CubeScanner.cpp:162 | one call is logged, and the earlier calls are kept |
| `Assembly.RowsWrites` | Scanner/CubeScanner.cpp:160-162 | the first `n` rows of a face take `3n` writes |
| `Assembly.FaceWrites` | Scanner/CubeScanner.cpp:160-162 | a face takes nine writes |
| `Assembly.FaceWritesAt` | Scanner/CubeScanner.cpp:160-162 | write `3i + j` of a face sets facelet `(i, j)` to the grid's colour there |
| `Assembly.FaceWritesOnCube` | Scanner/CubeScanner.cpp:160-162 | every write of a face addresses a real facelet: face below 6, row and column below 3 |
| `Assembly.CommitRow` | Scanner/CubeScanner.cpp:161-162 | the inner loop makes the three `setColor` calls of row `i`, left to right |
| `Assembly.CommitFace` | Scanner/CubeScanner.cpp:160-162 | the accept branch appends exactly the nine writes of the face to the cube's calls |
| `Assembly.Scan` | Scanner/CubeScanner.cpp:144-167 | the loop stops once all six faces are accepted or the events run out; its net, face and cube calls are those of the session over the events it consumed, and no event after the sixth acceptance changes the session |
| `Assembly.Finished` | Scanner/CubeScanner.cpp:147 | once six faces are accepted, further events change nothing |
| `Assembly.CountAccepts` | Scanner/CubeScanner.cpp:159 | counts the accepting keys among the events, the count `Assembly.RunFace` relates to the face being scanned |
| `Assembly.RunFace` | Scanner/CubeScanner.cpp:147-164 | the face being scanned is the number of accepting keys so far, capped at 6 |
| `Assembly.StepCommitted` | Scanner/CubeScanner.cpp:148-165 | one capture keeps the bookkeeping: the calls are nine per accepted face, and each block commits that face's grid on the net |
| `Assembly.CommitKeepsBookkeeping` | Scanner/CubeScanner.cpp:159-162 | accepting a face keeps the bookkeeping |
| `Assembly.RunCommitted` | Scanner/CubeScanner.cpp:144-167 | every session keeps the bookkeeping |
| `Assembly.CompleteScan` | Scanner/CubeScanner.cpp:144-167 | a complete scan makes 54 calls, and call `9f + 3i + j` sets facelet `(i, j)` of face `f` to its colour on the final net |
| `Assembly.WritesOnCube` | Scanner/CubeScanner.cpp:147-162 | every call addresses a real facelet |
| `Assembly.RejectedCaptureForgotten` | Scanner/CubeScanner.cpp:148-165 | a rejected capture leaves no trace once the face is captured again |
| `Assembly.CaptureShown` | Scanner/CubeScanner.cpp:149-153 | every capture replaces the current face on the net, and only that face |
| `Assembly.RejectCommitsNothing` | Scanner/CubeScanner.cpp:158-165 | a key other than `n`/`N` makes no call and keeps the same face |
| `Layout.ColorMap` | Scanner/CubeScanner.cpp:9-17 | defines the colour map: the BGR value drawn for each of the seven colours |
| `Layout.ColorMapInjective` | Scanner/CubeScanner.cpp:9-17 | the colour map gives each of the seven colours its own BGR value |
| `Layout.PaintedAt` | Scanner/CubeScanner.cpp:111 | a point stays unpainted exactly when no fill covers it |
| `Layout.PaintedBySole` | Scanner/CubeScanner.cpp:111 | a point covered by one fill only gets that fill's colour |
| `Layout.FaceBox` | Scanner/CubeScanner.cpp:110 | defines box `(i, j)` of the face picture: `boxSize` square at column `j`, row `i` |
| `Layout.FaceImage` | Scanner/CubeScanner.cpp:108-111 | the face picture paints nine boxes |
| `Layout.FaceImageFits` | Scanner/CubeScanner.cpp:104-111 | every box lies on the picture, above the strip reserved for the hint text |
| `Layout.FaceImageShowsGrid` | Scanner/CubeScanner.cpp:103-117 | every point of box `(i, j)` shows the colour of cell `(i, j)` of the grid |
| `Layout.NetOrigin` | Scanner/CubeScanner.cpp:137-139 | defines where each face sits on the net, in cells: face 0 at (0, 3), faces 1-4 at (3, 0), (3, 3), (3, 6), (3, 9), face 5 at (6, 3) |
| `Layout.NetCell` | Scanner/CubeScanner.cpp:129-130 | defines the net cell of facelet `(i, j)` of a face: its origin plus `(i, j)` |
| `Layout.FaceOutline` | Scanner/CubeScanner.cpp:124-125 | defines the outline of a face: `3 * boxSize` square at the face origin |
| `Layout.Swatch` | Scanner/CubeScanner.cpp:129-131 | defines the swatch of a facelet: its net cell, `gap` pixels short on the right and below |
| `Layout.NetCellsDistinct` | Scanner/CubeScanner.cpp:137-139 | every facelet has its own cell of the 12 × 9 net |
| `Layout.OutlinesDisjoint` | Scanner/CubeScanner.cpp:123-125 | the outlines of two different faces share no point |
| `Layout.CellIndex` | Scanner/CubeScanner.cpp:129-131 | a point of a band of `n` cells lies in one of those cells |
| `Layout.NetImage` | Scanner/CubeScanner.cpp:127-139 | the net paints 54 swatches |
| `Layout.NetFits` | Scanner/CubeScanner.cpp:120-131 | each swatch lies within its face's outline, and each outline within the canvas |
| `Layout.NetShowsCube` | Scanner/CubeScanner.cpp:119-142 | every point of the swatch of facelet `(f, i, j)` shows the colour of that facelet on the net |

## Left out

- Median.MedianColor: requires the window to meet the frame. Otherwise the source reads `B[0]`
  of an empty vector, which is undefined behaviour in C++ and has no value to model.
- Capture.CaptureFace: requires every cell's window to meet the frame, for the same reason.
  `Capture.SameSizeSampleable` shows this holds whenever the captured frame has the previewed size
  and is at least three boxes each way.
- **Camera, windows and keyboard.** Capturing frames, `imshow`, `destroyWindow`, `waitKey` and
  `putText` are input and output. A capture's frame is a parameter. The keys come from the event
  sequence given to `Assembly.Scan`.
- **The preview loop** (`Scanner/CubeScanner.cpp:72-86`) is left out. It only shows frames until
  SPACE is pressed; the grid lines it draws are on a frame that is discarded. Its lasting effect
  is the frame size, which becomes the `rows`/`cols` parameters of `Capture.CaptureFace`. That
  size need not match the captured frame, as in the source.
- **`cvtColor`** (BGR to HSV) is an OpenCV call. The hue is a parameter of the classifier, and
  `Capture.CaptureFace` takes a function from pixels to hues.
- **Hue bounds.** OpenCV's 8-bit hue never exceeds 179, so the bound 190 of the red band is never
  reached. Hues 0..2 and the gaps between bands fall through to WHITE. Both behaviours are
  modelled as written.
- **The median with a different `region`.** `captureFace` always calls `medianColor` with the
  default 5. `Median.MedianColor` takes any region, while `Capture` fixes it at 5.
- **Sorting in place.** `std::sort` sorts the vectors in place. The model sorts a value copy with
  `Sorting.Sort`; `Sorting.SortedUnique` shows that the result does not depend on the algorithm.
- **The per-channel median** may combine channels from different pixels, as in the source. The
  model states it per channel and does not claim it is one sampled pixel.
- **Outlines and borders.** The 2-pixel black borders around boxes and swatches are drawn on top
  of the fills. Each face's 4-pixel white outline is drawn before that face's own swatches, which
  paint over its inner edge, and after the swatches of the faces drawn earlier. Only the fills are
  modelled, so the `PaintedAt` lemmas are about the fill colours and not the final raster.
- **Pixels outside the picture.** `rectangle` clips to the canvas; the model keeps unclipped
  rectangles. `Layout.FaceImageFits` and `Layout.NetFits` show that nothing needs clipping.
- **The hint text** of `drawColorFace` and the background colours are not modelled, apart from
  the strip the hint text is given.
- **The cube itself.** `RubiksCube` is not part of this model. Only the `setColor` calls it
  receives are kept, and the `FACE` cast of the face index is the identity.
- **The scan loop.** The source's two nested loops (face, then rescan) are one loop over events.
  A finite event sequence may end before six faces are accepted, where the source would wait for
  more input.
- **Closing the camera** at the end of `scan` is not modelled.
- **Integer width.** Frame coordinates are unbounded integers. The products and sums of the
  source stay far inside 32 bits for any realistic frame, so overflow is not modelled.
