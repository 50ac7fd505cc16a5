/**
 * The sampling half of `CubeScanner::captureFace`: the 3x3 grid centred on the frame, one
 * neighbourhood median per cell, each classified. The live preview is not modelled; it only
 * contributes the frame size (`rows`, `cols`) of its last frame, which is kept apart from the frame
 * that is then sampled.
 */
module Capture {
  import opened Types
  import opened CArith
  import opened Classifier
  import opened Median

  /** The default side of one grid cell, in pixels. */
  const DefaultBoxSize: int := 60

  /** First pixel of the centred three-cell grid along an axis `extent` pixels long. */
  function GridStart(extent: int, boxSize: int): int
  {
    Half(extent - 3 * boxSize)
  }

  /** Sampling coordinate of cell `k` (0, 1 or 2) along an axis: the middle of that cell. */
  function CellCentre(extent: int, boxSize: int, k: int): int
  {
    GridStart(extent, boxSize) + k * boxSize + Half(boxSize)
  }

  /** The neighbourhood of cell (i, j) holds at least one pixel of `frame`. */
  predicate CellSampleable(frame: array2<Pixel>, rows: int, cols: int, boxSize: int, i: int, j: int)
    reads frame
  {
    |Window(frame, CellCentre(cols, boxSize, j), CellCentre(rows, boxSize, i), Half(Region))| > 0
  }

  /** Every one of the nine neighbourhoods has a pixel inside `frame`. */
  predicate GridSampleable(frame: array2<Pixel>, rows: int, cols: int, boxSize: int)
    reads frame
  {
    forall i, j | 0 <= i < 3 && 0 <= j < 3 :: CellSampleable(frame, rows, cols, boxSize, i, j)
  }

  /** The colour seen at (x, y): the classified median of the neighbourhood centred there. */
  function ColorAt(frame: array2<Pixel>, x: int, y: int, hue: Pixel -> Hue): Color
    reads frame
    requires |Window(frame, x, y, Half(Region))| > 0
  {
    var m := MedianOf(Window(frame, x, y, Half(Region)));
    Classify(m, hue(m))
  }

  /** The colour of cell (i, j): the colour seen at the cell's centre. */
  function CellColor(frame: array2<Pixel>, rows: int, cols: int, boxSize: int, hue: Pixel -> Hue, i: int, j: int): Color
    reads frame
    requires CellSampleable(frame, rows, cols, boxSize, i, j)
  {
    ColorAt(frame, CellCentre(cols, boxSize, j), CellCentre(rows, boxSize, i), hue)
  }

  /**
   * Samples the capture `frame` on the grid laid out for a `rows` x `cols` frame, filling a fresh
   * face grid in row-major order. `hue` stands for OpenCV's BGR-to-HSV conversion.
   */
  method CaptureFace(frame: array2<Pixel>, rows: int, cols: int, boxSize: int, hue: Pixel -> Hue) returns (face: FaceGrid)
    requires GridSampleable(frame, rows, cols, boxSize)
    ensures forall i, j | 0 <= i < 3 && 0 <= j < 3 :: face[i][j] == CellColor(frame, rows, cols, boxSize, hue, i, j)
    ensures forall i, j | 0 <= i < 3 && 0 <= j < 3 :: face[i][j] != Unknown
  {
    face := AllWhiteFace;
    for i := 0 to 3
      invariant forall i', j | 0 <= i' < i && 0 <= j < 3 :: face[i'][j] == CellColor(frame, rows, cols, boxSize, hue, i', j)
    {
      var row := CaptureRow(frame, rows, cols, boxSize, hue, i, face[i]);
      face := face[i := row];
    }
  }

  /** The inner loop of the sampling: the three cells of grid row `i`, stored left to right into `row`. */
  method CaptureRow(frame: array2<Pixel>, rows: int, cols: int, boxSize: int, hue: Pixel -> Hue, i: int, row0: seq<Color>)
    returns (row: seq<Color>)
    requires |row0| == 3
    requires forall j | 0 <= j < 3 :: CellSampleable(frame, rows, cols, boxSize, i, j)
    ensures |row| == 3
    ensures forall j | 0 <= j < 3 :: row[j] == CellColor(frame, rows, cols, boxSize, hue, i, j)
  {
    row := row0;
    for j := 0 to 3
      invariant |row| == 3
      invariant forall j' | 0 <= j' < j :: row[j'] == CellColor(frame, rows, cols, boxSize, hue, i, j')
    {
      var c := SampleCell(frame, rows, cols, boxSize, hue, i, j);
      row := row[j := c];
    }
  }

  /** One iteration of the sampling loop: the median around the centre of cell (i, j), classified. */
  method SampleCell(frame: array2<Pixel>, rows: int, cols: int, boxSize: int, hue: Pixel -> Hue, i: int, j: int) returns (c: Color)
    requires CellSampleable(frame, rows, cols, boxSize, i, j)
    ensures c == CellColor(frame, rows, cols, boxSize, hue, i, j)
  {
    var x, y := CellCentre(cols, boxSize, j), CellCentre(rows, boxSize, i);
    WindowNonEmpty(frame, x, y, Half(Region));
    var bgr := MedianColor(frame, x, y, Region);
    c := Classify(bgr, hue(bgr));
  }

  /** With a frame at least three cells wide, every cell centre lies inside it. */
  lemma CentreInFrame(extent: int, boxSize: int, k: int)
    requires 1 <= boxSize && 3 * boxSize <= extent && 0 <= k < 3
    ensures 0 <= CellCentre(extent, boxSize, k) < extent
  {
    assert k * boxSize <= 2 * boxSize by {
      if k == 0 { } else if k == 1 { } else { }
    }
  }

  /** The grid is centred: the margins on either side differ by at most one pixel. */
  lemma GridCentred(extent: int, boxSize: int)
    requires 3 * boxSize <= extent
    ensures 0 <= GridStart(extent, boxSize)
    ensures 0 <= (extent - (GridStart(extent, boxSize) + 3 * boxSize)) - GridStart(extent, boxSize) <= 1
  {
  }

  /**
   * For cells at least `Region` pixels wide, the neighbourhood of cell k stays inside cell k, so
   * no two cells share a sample.
   */
  lemma WindowInsideCell(extent: int, boxSize: int, k: int)
    requires Region <= boxSize && 0 <= k < 3
    ensures GridStart(extent, boxSize) + k * boxSize <= CellCentre(extent, boxSize, k) - Half(Region)
    ensures CellCentre(extent, boxSize, k) + Half(Region) < GridStart(extent, boxSize) + (k + 1) * boxSize
  {
    assert (k + 1) * boxSize == k * boxSize + boxSize;
  }

  /**
   * When the capture frame has the size the grid was laid out for, and that size holds three
   * cells each way, all nine neighbourhoods can be sampled.
   */
  lemma SameSizeSampleable(frame: array2<Pixel>, boxSize: int)
    requires 1 <= boxSize && 3 * boxSize <= frame.Length0 && 3 * boxSize <= frame.Length1
    ensures GridSampleable(frame, frame.Length0, frame.Length1, boxSize)
  {
    forall i, j | 0 <= i < 3 && 0 <= j < 3
      ensures CellSampleable(frame, frame.Length0, frame.Length1, boxSize, i, j)
    {
      CentreInFrame(frame.Length0, boxSize, i);
      CentreInFrame(frame.Length1, boxSize, j);
      WindowNonEmpty(frame, CellCentre(frame.Length1, boxSize, j), CellCentre(frame.Length0, boxSize, i), Half(Region));
    }
  }

  /**
   * With the default 60-pixel cells, a capture frame of the previewed size that holds the 180-pixel
   * grid can be sampled in all nine cells, and no cell's neighbourhood reaches into another cell.
   */
  lemma DefaultGridSampleable(frame: array2<Pixel>)
    requires 3 * DefaultBoxSize <= frame.Length0 && 3 * DefaultBoxSize <= frame.Length1
    ensures GridSampleable(frame, frame.Length0, frame.Length1, DefaultBoxSize)
    ensures forall k | 0 <= k < 3 :: InsideCell(frame.Length0, DefaultBoxSize, k) && InsideCell(frame.Length1, DefaultBoxSize, k)
  {
    SameSizeSampleable(frame, DefaultBoxSize);
    forall k | 0 <= k < 3
      ensures InsideCell(frame.Length0, DefaultBoxSize, k) && InsideCell(frame.Length1, DefaultBoxSize, k)
    {
      WindowInsideCell(frame.Length0, DefaultBoxSize, k);
      WindowInsideCell(frame.Length1, DefaultBoxSize, k);
    }
  }

  /** Along an axis, the neighbourhood of cell `k`'s centre lies within cell `k`. */
  predicate InsideCell(extent: int, boxSize: int, k: int)
  {
    GridStart(extent, boxSize) + k * boxSize <= CellCentre(extent, boxSize, k) - Half(Region) &&
    CellCentre(extent, boxSize, k) + Half(Region) < GridStart(extent, boxSize) + (k + 1) * boxSize
  }

  /** The colour of a cell depends only on the pixels of that cell's neighbourhood. */
  lemma CellLocal(f1: array2<Pixel>, f2: array2<Pixel>, rows: int, cols: int, boxSize: int, hue: Pixel -> Hue, i: int, j: int)
    requires f1.Length0 == f2.Length0 && f1.Length1 == f2.Length1
    requires CellSampleable(f1, rows, cols, boxSize, i, j)
    requires forall y, x | InWindow(f1, CellCentre(cols, boxSize, j), CellCentre(rows, boxSize, i), Half(Region), y, x) :: f1[y, x] == f2[y, x]
    ensures CellSampleable(f2, rows, cols, boxSize, i, j)
    ensures CellColor(f1, rows, cols, boxSize, hue, i, j) == CellColor(f2, rows, cols, boxSize, hue, i, j)
  {
    WindowLocal(f1, f2, CellCentre(cols, boxSize, j), CellCentre(rows, boxSize, i), Half(Region));
  }

  /** A cell whose neighbourhood shows one colour `p` gets the colour `p` is classified as. */
  lemma UniformCellColor(frame: array2<Pixel>, rows: int, cols: int, boxSize: int, hue: Pixel -> Hue, i: int, j: int, p: Pixel)
    requires CellSampleable(frame, rows, cols, boxSize, i, j)
    requires forall y, x | InWindow(frame, CellCentre(cols, boxSize, j), CellCentre(rows, boxSize, i), Half(Region), y, x) :: frame[y, x] == p
    ensures CellColor(frame, rows, cols, boxSize, hue, i, j) == Classify(p, hue(p))
  {
    WindowNonEmpty(frame, CellCentre(cols, boxSize, j), CellCentre(rows, boxSize, i), Half(Region));
    WindowMedianUniform(frame, CellCentre(cols, boxSize, j), CellCentre(rows, boxSize, i), Half(Region), p);
  }
}
