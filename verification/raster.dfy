/** The page raster: a grid of intensities indexed `pix[x][y]`, whose foreground
    ("ink") is intensity 0. Reading outside the grid yields background; every
    coordinate the detection pipeline reads comes from the grid itself. */
module Raster {

  type Pixels = seq<seq<int>>

  /** The raster is `w` columns of `h` intensities each. */
  predicate HasShape(pix: Pixels, w: nat, h: nat)
  {
    |pix| == w && forall x :: 0 <= x < w ==> |pix[x]| == h
  }

  /** (x, y) addresses a pixel of the raster. */
  predicate OnPage(pix: Pixels, x: int, y: int)
  {
    0 <= x < |pix| && 0 <= y < |pix[x]|
  }

  /** Pixel (x, y) lies inside the raster and is black. */
  predicate Ink(pix: Pixels, x: int, y: int)
  {
    OnPage(pix, x, y) && pix[x][y] == 0
  }

  /** Which way a scan walks: down each column, or along each row. */
  datatype Axis = Columns | Rows

  /** Ink at position `moving` of the column (or row) numbered `fixed`. */
  predicate InkOn(pix: Pixels, axis: Axis, fixed: int, moving: int)
  {
    match axis
    case Columns => Ink(pix, fixed, moving)
    case Rows => Ink(pix, moving, fixed)
  }

  /** No pixel of the raster is black. */
  predicate Blank(pix: Pixels)
  {
    forall x, y :: 0 <= x < |pix| && 0 <= y < |pix[x]| ==> pix[x][y] != 0
  }
}
