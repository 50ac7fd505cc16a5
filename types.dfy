/** The values the scanner works on: channel bytes, BGR pixels, hues, facelet colours and colour grids. */
module Types {

  datatype Option<T> = None | Some(value: T)

  /** An 8-bit channel intensity (OpenCV `uchar`). */
  type Byte = x: int | 0 <= x < 256

  /** One pixel of a `CV_8UC3` frame, channels in OpenCV's blue, green, red order. */
  datatype Pixel = Pixel(b: Byte, g: Byte, r: Byte) {
    /** `bgr[k]`: channel 0 is blue, 1 is green, 2 is red. */
    function At(k: nat): Byte
      requires k < 3
    {
      if k == 0 then b else if k == 1 then g else r
    }
  }

  /** `RubiksCube::COLOR`: the six facelet colours and a fallback. */
  datatype Color = White | Red | Orange | Yellow | Green | Blue | Unknown

  /** An 8-bit OpenCV hue (`COLOR_BGR2HSV` maps hue into 0..179). */
  type Hue = h: int | 0 <= h <= 179

  /** A 3x3 face grid, indexed `[row][col]`. */
  type FaceGrid = g: seq<seq<Color>> | |g| == 3 && forall i | 0 <= i < 3 :: |g[i]| == 3
    witness [[White, White, White], [White, White, White], [White, White, White]]

  /** Six face grids, indexed by face number 0..5. */
  type CubeGrid = c: seq<FaceGrid> | |c| == 6
    witness [AllWhiteFace, AllWhiteFace, AllWhiteFace, AllWhiteFace, AllWhiteFace, AllWhiteFace]

  const AllWhiteFace: FaceGrid := [[White, White, White], [White, White, White], [White, White, White]]

  /** The cube grid `scan` starts from: every cell WHITE. */
  const AllWhiteCube: CubeGrid := [AllWhiteFace, AllWhiteFace, AllWhiteFace, AllWhiteFace, AllWhiteFace, AllWhiteFace]
}
