/** Cells, colours and grids shared by the canvas engine (src/widgets/Canvas.js). */
module Grids {

  /** A colour is the CSS string the canvas stores in each cell, such as "#FFFFFF". */
  type Color = string

  /** A (row, col) pair; rows and columns may be negative or too large before clipping. */
  type Cell = (int, int)

  /** A row-major raster of colours. */
  type Grid = seq<seq<Color>>

  /** The background colour: a fresh grid, a cleared grid and the eraser all use it. */
  const White: Color := "#FFFFFF"

  /** The four tools the editor offers. */
  datatype Tool = Brush | Eraser | Fill | Eyedropper

  /** `g` has `height` rows of `width` cells each. */
  predicate WellFormed(g: Grid, height: nat, width: nat)
  {
    |g| == height && forall r :: 0 <= r < |g| ==> |g[r]| == width
  }

  /** The absolute value, for distances between cells. */
  function Abs(x: int): nat
  {
    if x < 0 then -x else x
  }

  /** The cell lies inside a `height` by `width` grid. */
  predicate InBounds(cell: Cell, height: int, width: int)
  {
    0 <= cell.0 < height && 0 <= cell.1 < width
  }

  /** The cell lies inside `g` (a grid whose rows may have different lengths). */
  predicate InGrid(g: Grid, cell: Cell)
  {
    0 <= cell.0 < |g| && 0 <= cell.1 < |g[cell.0]|
  }

  /** The colour of an in-grid cell. */
  function At(g: Grid, cell: Cell): Color
    requires InGrid(g, cell)
  {
    g[cell.0][cell.1]
  }

  /** `g` with one in-grid cell set to `color`. */
  function Set(g: Grid, cell: Cell, color: Color): (r: Grid)
    requires InGrid(g, cell)
    ensures |r| == |g| && forall i :: 0 <= i < |g| ==> |r[i]| == |g[i]|
    ensures forall i, j :: 0 <= i < |g| && 0 <= j < |g[i]| ==>
      r[i][j] == if (i, j) == cell then color else g[i][j]
  {
    g[cell.0 := g[cell.0][cell.1 := color]]
  }

  /** A `height` by `width` grid of background colour (Canvas.js lines 41 and 79). */
  function Blank(height: nat, width: nat): (g: Grid)
    ensures WellFormed(g, height, width)
    ensures forall r, c :: 0 <= r < height && 0 <= c < width ==> g[r][c] == White
  {
    seq(height, _ => seq(width, _ => White))
  }

  /**
   * `getColorAtPosition`: the colour of an in-bounds cell, `None` (JavaScript `null`)
   * for any other position.
   */
  function ColorAt(g: Grid, height: nat, width: nat, row: int, col: int): (r: Option<Color>)
    requires WellFormed(g, height, width)
    ensures r.Some? <==> InBounds((row, col), height, width)
    ensures r.Some? ==> r.value == g[row][col]
  {
    if 0 <= row < height && 0 <= col < width then Some(g[row][col]) else None
  }

  datatype Option<T> = None | Some(value: T)
}
