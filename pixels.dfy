/** Pixel grids shared by the mask encoder and the layout compositor.
    An image is a grid of rows, each a sequence of RGB triples of 8-bit
    channels (a numpy array of shape (rows, cols, 3) and dtype uint8). */
module Pixels {

  /** An unsigned 8-bit channel value. */
  type Byte = x: int | 0 <= x < 256

  datatype Rgb = Rgb(r: Byte, g: Byte, b: Byte)

  /** The all-zero pixel: background in a mask, "transparent" in a cutout. */
  const Black: Rgb := Rgb(0, 0, 0)

  /** Row-major pixel grid. */
  type Grid = seq<seq<Rgb>>

  /** Number of columns (taken from the first row). */
  function Width(g: Grid): nat {
    if |g| == 0 then 0 else |g[0]|
  }

  /** Every row has the same length. */
  predicate IsGrid(g: Grid) {
    forall i :: 0 <= i < |g| ==> |g[i]| == Width(g)
  }

  /** The grid has no pixels (zero rows or zero columns). */
  predicate IsEmpty(g: Grid) {
    |g| == 0 || Width(g) == 0
  }

  /** The two grids have the same number of rows and matching row lengths. */
  predicate SameShape(g: Grid, h: Grid) {
    |g| == |h| && forall i :: 0 <= i < |g| ==> |g[i]| == |h[i]|
  }

  /** In bounds for a row-major grid. */
  predicate InBounds(g: Grid, i: int, j: int) {
    0 <= i < |g| && 0 <= j < |g[i]|
  }

  /** The binarisation shared by both call sites of the luminance
      threshold: 255 where the value is STRICTLY above 10, 0 elsewhere
      (cv2.threshold with thresh 10, maxval 255 and THRESH_BINARY). */
  const Threshold: Byte := 10
  const MaxVal: Byte := 255

  function ThresholdBinary(v: Byte): (m: Byte)
    ensures m == 0 || m == MaxVal
    ensures m != 0 <==> v > Threshold
  {
    if v > Threshold then MaxVal else 0
  }

  /** A pixel belongs to the leaf when its luminance exceeds the threshold. */
  predicate Foreground(gray: Rgb -> Byte, p: Rgb) {
    ThresholdBinary(gray(p)) != 0
  }

  /** The grid held by a two-dimensional array of pixels. */
  function Snapshot(a: array2<Rgb>): (g: Grid)
    reads a
    ensures IsGrid(g) && |g| == a.Length0
    ensures |g| > 0 ==> Width(g) == a.Length1
    ensures forall i :: 0 <= i < |g| ==> |g[i]| == a.Length1
    ensures forall i, j :: 0 <= i < a.Length0 && 0 <= j < a.Length1 ==> InBounds(g, i, j) && g[i][j] == a[i, j]
  {
    seq(a.Length0, i requires 0 <= i < a.Length0 reads a =>
      seq(a.Length1, j requires 0 <= j < a.Length1 reads a => a[i, j]))
  }

  /** The exceptions the core raises. */
  datatype Error =
    | UnknownLeafType(leafType: int)   // KeyError on ENCODING[leaf_type]
    | NoLeaves                         // ZeroDivisionError on i % len(leaves)
    | MissingArgument                  // TypeError on a call lacking an argument
    | EmptyImage                       // cv2.error from cvtColor on an image without pixels

  datatype Result<T> = Ok(value: T) | Err(error: Error)
}
