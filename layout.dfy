/**
 * The two pictures the scanner draws: `drawColorFace`, the nine classified cells of one capture,
 * and `drawFullCube`, the six faces laid out as a cross-shaped net. Only the filled colour
 * rectangles are modelled, as a list of fills in drawing order; a pixel shows the colour of the last
 * fill that covers it.
 */
module Layout {
  import opened Types

  /** Margin left between neighbouring swatches of the net. */
  const Gap: int := 5

  /** Height of the strip under the face picture that holds the key hint. */
  const Padding: int := 50

  /** The BGR colour each classified colour is drawn in. */
  function ColorMap(c: Color): Pixel
  {
    match c
    case White => Pixel(255, 255, 255)
    case Red => Pixel(0, 0, 255)
    case Orange => Pixel(0, 165, 255)
    case Yellow => Pixel(0, 255, 255)
    case Green => Pixel(0, 255, 0)
    case Blue => Pixel(255, 0, 0)
    case Unknown => Pixel(50, 50, 50)
  }

  /** No two colours are drawn alike, so a picture can be read back into colours. */
  lemma ColorMapInjective(c1: Color, c2: Color)
    ensures ColorMap(c1) == ColorMap(c2) <==> c1 == c2
  {
  }

  /** An axis-aligned rectangle: top-left corner (x, y), width w, height h. */
  datatype Rect = Rect(x: int, y: int, w: int, h: int)
  {
    predicate Contains(px: int, py: int)
    {
      x <= px < x + w && y <= py < y + h
    }

    /** The rectangle lies within a `width` x `height` image. */
    predicate Inside(width: int, height: int)
    {
      0 <= x && 0 <= y && x + w <= width && y + h <= height
    }
  }

  /** One filled rectangle. */
  datatype Fill = Fill(rect: Rect, color: Pixel)

  /** The colour a point ends up with: that of the last fill covering it, if any. */
  function PaintedAt(fills: seq<Fill>, px: int, py: int): (r: Option<Pixel>)
    ensures r.None? <==> forall k | 0 <= k < |fills| :: !fills[k].rect.Contains(px, py)
  {
    if fills == [] then None
    else if fills[|fills| - 1].rect.Contains(px, py) then Some(fills[|fills| - 1].color)
    else PaintedAt(fills[..|fills| - 1], px, py)
  }

  /** A point covered by exactly one fill shows that fill's colour. */
  lemma {:induction false} PaintedBySole(fills: seq<Fill>, px: int, py: int, k: int)
    requires 0 <= k < |fills| && fills[k].rect.Contains(px, py)
    requires forall m | 0 <= m < |fills| && m != k :: !fills[m].rect.Contains(px, py)
    ensures PaintedAt(fills, px, py) == Some(fills[k].color)
  {
    if k != |fills| - 1 {
      PaintedBySole(fills[..|fills| - 1], px, py, k);
    }
  }

  /** Two multiples of `b` whose cells both hold `p` are the same multiple. */
  lemma SameCell(k1: int, k2: int, b: int, p: int)
    requires 1 <= b
    requires k1 * b <= p < k1 * b + b && k2 * b <= p < k2 * b + b
    ensures k1 == k2
  {
    if k1 < k2 {
      MulStep(k1, k2, b);
    } else if k2 < k1 {
      MulStep(k2, k1, b);
    }
  }

  lemma {:induction false} MulStep(a: int, c: int, b: int)
    requires a < c && 0 <= b
    ensures a * b + b <= c * b
    decreases c - a
  {
    assert (a + 1) * b == a * b + b;
    if a + 1 < c {
      MulStep(a + 1, c, b);
    }
  }

  lemma MulLe(a: int, c: int, b: int)
    requires a <= c && 0 <= b
    ensures a * b <= c * b
  {
    if a < c {
      MulStep(a, c, b);
    }
  }

  // ---------------------------------------------------------------------------------------------
  // drawColorFace

  /** The box of cell (i, j) in the face picture. */
  function FaceBox(boxSize: int, i: int, j: int): Rect
  {
    Rect(j * boxSize, i * boxSize, boxSize, boxSize)
  }

  /** The fills of the face picture: cell (i, j) is the fill at 3 i + j. */
  function FaceImage(grid: FaceGrid, boxSize: int): (fills: seq<Fill>)
    ensures |fills| == 9
  {
    seq(9, k requires 0 <= k < 9 => Fill(FaceBox(boxSize, k / 3, k % 3), ColorMap(grid[k / 3][k % 3])))
  }

  /** The face picture is 3 cells wide and 3 cells plus the hint strip high. */
  function FaceImageWidth(boxSize: int): int { 3 * boxSize }
  function FaceImageHeight(boxSize: int): int { 3 * boxSize + Padding }

  /** Every box of the face picture lies inside the picture and above the hint strip. */
  lemma FaceImageFits(grid: FaceGrid, boxSize: int)
    requires 0 <= boxSize
    ensures forall k | 0 <= k < 9 :: FaceImage(grid, boxSize)[k].rect.Inside(FaceImageWidth(boxSize), FaceImageHeight(boxSize) - Padding)
  {
    forall k | 0 <= k < 9
      ensures FaceImage(grid, boxSize)[k].rect.Inside(FaceImageWidth(boxSize), FaceImageHeight(boxSize) - Padding)
    {
      var i, j := k / 3, k % 3;
      MulStep(i, 3, boxSize);
      MulStep(j, 3, boxSize);
    }
  }

  /** Each point of box (i, j) shows the colour of cell (i, j) and of no other cell. */
  lemma FaceImageShowsGrid(grid: FaceGrid, boxSize: int, i: int, j: int, px: int, py: int)
    requires 0 <= i < 3 && 0 <= j < 3
    requires FaceBox(boxSize, i, j).Contains(px, py)
    ensures PaintedAt(FaceImage(grid, boxSize), px, py) == Some(ColorMap(grid[i][j]))
  {
    var fills := FaceImage(grid, boxSize);
    forall m | 0 <= m < 9 && m != 3 * i + j
      ensures !fills[m].rect.Contains(px, py)
    {
      if fills[m].rect.Contains(px, py) {
        SameCell(m / 3, i, boxSize, py);
        SameCell(m % 3, j, boxSize, px);
        assert false;
      }
    }
    PaintedBySole(fills, px, py, 3 * i + j);
  }

  // ---------------------------------------------------------------------------------------------
  // drawFullCube

  /** The net is 12 cells wide and 9 cells high. */
  function NetWidth(boxSize: int): int { 12 * boxSize }
  function NetHeight(boxSize: int): int { 9 * boxSize }

  /** The block (row, column), in cells, at which each face of the net starts. */
  function NetOrigin(face: int): (int, int)
    requires 0 <= face < 6
  {
    if face == 0 then (0, 3)
    else if face == 5 then (6, 3)
    else (3, 3 * (face - 1))
  }

  /** The net cell (row, column) of facelet (i, j) of `face`. */
  function NetCell(face: int, i: int, j: int): (int, int)
    requires 0 <= face < 6
  {
    (NetOrigin(face).0 + i, NetOrigin(face).1 + j)
  }

  /** Every facelet has a cell of its own inside the 12 x 9 net. */
  lemma NetCellsDistinct(f1: int, i1: int, j1: int, f2: int, i2: int, j2: int)
    requires 0 <= f1 < 6 && 0 <= i1 < 3 && 0 <= j1 < 3
    requires 0 <= f2 < 6 && 0 <= i2 < 3 && 0 <= j2 < 3
    ensures 0 <= NetCell(f1, i1, j1).0 < 9 && 0 <= NetCell(f1, i1, j1).1 < 12
    ensures NetCell(f1, i1, j1) == NetCell(f2, i2, j2) <==> f1 == f2 && i1 == i2 && j1 == j2
  {
  }

  /** The white outline drawn around `face`: three cells square from its origin. */
  function FaceOutline(face: int, boxSize: int): Rect
    requires 0 <= face < 6
  {
    Rect(NetOrigin(face).1 * boxSize, NetOrigin(face).0 * boxSize, 3 * boxSize, 3 * boxSize)
  }

  /** The white outlines of two different faces share no point: the six face blocks do not overlap. */
  lemma OutlinesDisjoint(f1: int, f2: int, boxSize: int, px: int, py: int)
    requires 0 <= f1 < 6 && 0 <= f2 < 6 && f1 != f2 && 1 <= boxSize
    requires FaceOutline(f1, boxSize).Contains(px, py)
    ensures !FaceOutline(f2, boxSize).Contains(px, py)
  {
    if FaceOutline(f2, boxSize).Contains(px, py) {
      var (r1, c1) := NetOrigin(f1);
      var (r2, c2) := NetOrigin(f2);
      CellIndex(px, boxSize, c1, 3);
      CellIndex(px, boxSize, c2, 3);
      CellIndex(py, boxSize, r1, 3);
      CellIndex(py, boxSize, r2, 3);
      assert false;
    }
  }

  /** A point in the band of `n` cells starting at cell `lo` lies in cell `p / b` of that band. */
  lemma CellIndex(p: int, b: int, lo: int, n: int)
    requires 1 <= b && lo * b <= p < lo * b + n * b
    ensures lo <= p / b < lo + n
  {
    var k := p / b;
    assert k * b <= p < k * b + b;
    assert (lo + n) * b == lo * b + n * b;
    if k < lo {
      MulStep(k, lo, b);
    }
    if lo + n <= k {
      MulLe(lo + n, k, b);
    }
  }

  /** The swatch of facelet (i, j) of `face`: its net cell, less the gap on the right and below. */
  function Swatch(face: int, i: int, j: int, boxSize: int): Rect
    requires 0 <= face < 6
  {
    Rect((NetOrigin(face).1 + j) * boxSize, (NetOrigin(face).0 + i) * boxSize, boxSize - Gap, boxSize - Gap)
  }

  /** The fills of the net, face by face and row by row: facelet (f, i, j) is the fill at 9 f + 3 i + j. */
  function NetImage(cubeGrid: CubeGrid, boxSize: int): (fills: seq<Fill>)
    ensures |fills| == 54
  {
    seq(54, k requires 0 <= k < 54 =>
      Fill(Swatch(k / 9, k % 9 / 3, k % 3, boxSize), ColorMap(cubeGrid[k / 9][k % 9 / 3][k % 3])))
  }

  /** Each swatch lies within its face's outline, and each outline within the canvas. */
  lemma NetFits(face: int, i: int, j: int, boxSize: int)
    requires 0 <= face < 6 && 0 <= i < 3 && 0 <= j < 3 && Gap <= boxSize
    ensures var o := FaceOutline(face, boxSize); var s := Swatch(face, i, j, boxSize);
      o.x <= s.x && s.x + s.w <= o.x + o.w && o.y <= s.y && s.y + s.h <= o.y + o.h
    ensures FaceOutline(face, boxSize).Inside(NetWidth(boxSize), NetHeight(boxSize))
  {
    var (r, c) := NetOrigin(face);
    assert (c + j) * boxSize == c * boxSize + j * boxSize;
    assert (r + i) * boxSize == r * boxSize + i * boxSize;
    MulStep(j, 3, boxSize);
    MulStep(i, 3, boxSize);
    MulLe(c, 9, boxSize);
    MulLe(r, 6, boxSize);
    MulLe(0, c, boxSize);
    MulLe(0, r, boxSize);
    assert 12 * boxSize == 9 * boxSize + 3 * boxSize;
    assert 9 * boxSize == 6 * boxSize + 3 * boxSize;
  }

  /** Each point of a swatch shows the colour of its facelet on the scanned cube grid. */
  lemma NetShowsCube(cubeGrid: CubeGrid, boxSize: int, face: int, i: int, j: int, px: int, py: int)
    requires 0 <= face < 6 && 0 <= i < 3 && 0 <= j < 3
    requires Swatch(face, i, j, boxSize).Contains(px, py)
    ensures PaintedAt(NetImage(cubeGrid, boxSize), px, py) == Some(ColorMap(cubeGrid[face][i][j]))
  {
    var fills := NetImage(cubeGrid, boxSize);
    var k := 9 * face + 3 * i + j;
    assert k / 9 == face && k % 9 / 3 == i && k % 3 == j;
    forall m | 0 <= m < 54 && m != k
      ensures !fills[m].rect.Contains(px, py)
    {
      var f2, i2, j2 := m / 9, m % 9 / 3, m % 3;
      assert m == 9 * f2 + 3 * i2 + j2;
      if fills[m].rect.Contains(px, py) {
        SameCell(NetCell(f2, i2, j2).0, NetCell(face, i, j).0, boxSize, py);
        SameCell(NetCell(f2, i2, j2).1, NetCell(face, i, j).1, boxSize, px);
        NetCellsDistinct(f2, i2, j2, face, i, j);
        assert false;
      }
    }
    PaintedBySole(fills, px, py, k);
  }
}
