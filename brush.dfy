/**
 * The brush mask of `queuePixelUpdate` and the cell writes of `applyPendingUpdates`
 * (src/widgets/Canvas.js lines 85-134), as functions of their inputs.
 */
module Brush {
  import opened Grids

  /**
   * Whether the cell at offset (i, j) from the centre survives the circle test for
   * brush size `size`; sizes up to 2 keep the whole square. The source compares
   * `Math.sqrt(i*i + j*j)` with the offset, which for integers is this comparison.
   */
  predicate Round(size: int, i: int, j: int)
  {
    var offset := size / 2;
    size <= 2 || i * i + j * j <= offset * offset
  }

  /** The test the inner loop applies to offset (i, j): clipped to the grid, then round. */
  predicate Keep(row: int, col: int, i: int, j: int, size: int, height: int, width: int)
  {
    InBounds((row + i, col + j), height, width) && Round(size, i, j)
  }

  /** The cells the inner loop pushes for row offset `i`, for column offsets below `jEnd`. */
  function RowCells(row: int, col: int, i: int, size: int, height: int, width: int, jEnd: int): seq<Cell>
    decreases jEnd + size / 2
  {
    if jEnd <= -(size / 2) then []
    else
      RowCells(row, col, i, size, height, width, jEnd - 1) +
      (if Keep(row, col, i, jEnd - 1, size, height, width) then [(row + i, col + jEnd - 1)] else [])
  }

  /** The cells the outer loop pushes for row offsets below `iEnd`. */
  function RowsUpTo(row: int, col: int, size: int, height: int, width: int, iEnd: int): seq<Cell>
    decreases iEnd + size / 2
  {
    if iEnd <= -(size / 2) then []
    else
      RowsUpTo(row, col, size, height, width, iEnd - 1) +
      RowCells(row, col, iEnd - 1, size, height, width, size / 2 + 1)
  }

  /** One more column offset: the inner loop's step. */
  lemma RowCellsNext(row: int, col: int, i: int, size: int, height: int, width: int, j: int)
    requires j >= -(size / 2)
    ensures RowCells(row, col, i, size, height, width, j + 1) ==
      RowCells(row, col, i, size, height, width, j) +
      (if Keep(row, col, i, j, size, height, width) then [(row + i, col + j)] else [])
  {
  }

  /** One more row offset: the outer loop's step. */
  lemma RowsUpToNext(row: int, col: int, size: int, height: int, width: int, i: int)
    requires i >= -(size / 2)
    ensures RowsUpTo(row, col, size, height, width, i + 1) ==
      RowsUpTo(row, col, size, height, width, i) + RowCells(row, col, i, size, height, width, size / 2 + 1)
  {
  }

  /**
   * The cells one `queuePixelUpdate(row, col)` appends to the pending list: the centre
   * alone, unclipped, for sizes up to 1; otherwise the clipped square or disc of radius
   * `size / 2`, row offset by row offset, column by column. Above size 1 every cell is
   * on the grid and within `size / 2` rows and columns of the centre; `MaskMembers` and
   * `MaskOrdered` state exactly which cells and in what order.
   */
  function Mask(row: int, col: int, size: int, height: int, width: int): (r: seq<Cell>)
    ensures size > 1 ==> forall k :: 0 <= k < |r| ==>
      InBounds(r[k], height, width) && Abs(r[k].0 - row) <= size / 2 && Abs(r[k].1 - col) <= size / 2
  {
    if size > 1 then
      RowsUpToMembers(row, col, size, height, width, size / 2 + 1);
      RowsUpTo(row, col, size, height, width, size / 2 + 1)
    else [(row, col)]
  }

  /** The shape the mask is meant to have around its centre, before clipping. */
  predicate InShape(size: int, i: int, j: int)
  {
    var offset := size / 2;
    -offset <= i <= offset && -offset <= j <= offset && Round(size, i, j)
  }

  /** Row-major order: `a` comes strictly before `b`. */
  predicate Before(a: Cell, b: Cell)
  {
    a.0 < b.0 || (a.0 == b.0 && a.1 < b.1)
  }

  /** Strictly increasing in row-major order, hence without repeats. */
  predicate Ordered(s: seq<Cell>)
  {
    forall a, b :: 0 <= a < b < |s| ==> Before(s[a], s[b])
  }

  lemma {:induction false} RowCellsMembers(row: int, col: int, i: int, size: int, height: int, width: int, jEnd: int)
    ensures forall cell :: cell in RowCells(row, col, i, size, height, width, jEnd) <==>
      cell.0 == row + i && -(size / 2) <= cell.1 - col < jEnd && Keep(row, col, i, cell.1 - col, size, height, width)
    ensures Ordered(RowCells(row, col, i, size, height, width, jEnd))
    decreases jEnd + size / 2
  {
    if jEnd > -(size / 2) {
      RowCellsMembers(row, col, i, size, height, width, jEnd - 1);
    }
  }

  lemma {:induction false} RowsUpToMembers(row: int, col: int, size: int, height: int, width: int, iEnd: int)
    ensures forall cell :: cell in RowsUpTo(row, col, size, height, width, iEnd) <==>
      -(size / 2) <= cell.0 - row < iEnd && -(size / 2) <= cell.1 - col <= size / 2 &&
      Keep(row, col, cell.0 - row, cell.1 - col, size, height, width)
    decreases iEnd + size / 2
  {
    if iEnd > -(size / 2) {
      RowsUpToMembers(row, col, size, height, width, iEnd - 1);
      RowCellsMembers(row, col, iEnd - 1, size, height, width, size / 2 + 1);
    }
  }

  lemma {:induction false} RowsUpToOrdered(row: int, col: int, size: int, height: int, width: int, iEnd: int)
    ensures Ordered(RowsUpTo(row, col, size, height, width, iEnd))
    decreases iEnd + size / 2
  {
    if iEnd > -(size / 2) {
      var prev := RowsUpTo(row, col, size, height, width, iEnd - 1);
      var last := RowCells(row, col, iEnd - 1, size, height, width, size / 2 + 1);
      RowsUpToOrdered(row, col, size, height, width, iEnd - 1);
      RowsUpToMembers(row, col, size, height, width, iEnd - 1);
      RowCellsMembers(row, col, iEnd - 1, size, height, width, size / 2 + 1);
      OrderedConcat(prev, last);
    }
  }

  /** Two ordered runs, every cell of the first before every cell of the second, join into one. */
  lemma OrderedConcat(s: seq<Cell>, t: seq<Cell>)
    requires Ordered(s) && Ordered(t)
    requires forall x, y :: x in s && y in t ==> Before(x, y)
    ensures Ordered(s + t)
  {
    forall a, b | 0 <= a < b < |s + t|
      ensures Before((s + t)[a], (s + t)[b])
    {
      if b < |s| {
        assert (s + t)[a] == s[a] && (s + t)[b] == s[b];
      } else if a >= |s| {
        assert (s + t)[a] == t[a - |s|] && (s + t)[b] == t[b - |s|];
      } else {
        assert (s + t)[a] == s[a] && s[a] in s;
        assert (s + t)[b] == t[b - |s|] && t[b - |s|] in t;
      }
    }
  }

  /**
   * For sizes above 1, a cell is in the mask exactly when it is on the grid and in the
   * brush shape around the centre; every cell pushed is therefore in bounds.
   */
  lemma MaskMembers(row: int, col: int, size: int, height: int, width: int)
    requires size > 1
    ensures forall cell :: cell in Mask(row, col, size, height, width) <==>
      InBounds(cell, height, width) && InShape(size, cell.0 - row, cell.1 - col)
  {
    RowsUpToMembers(row, col, size, height, width, size / 2 + 1);
  }

  /** The mask lists its cells in i-then-j (row-major) order, each once. */
  lemma MaskOrdered(row: int, col: int, size: int, height: int, width: int)
    ensures Ordered(Mask(row, col, size, height, width))
  {
    RowsUpToOrdered(row, col, size, height, width, size / 2 + 1);
  }

  /** A centre on the grid is always painted, whatever the size. */
  lemma CentreInMask(row: int, col: int, size: int, height: int, width: int)
    requires InBounds((row, col), height, width)
    ensures (row, col) in Mask(row, col, size, height, width)
  {
    if size > 1 {
      MaskMembers(row, col, size, height, width);
      assert InShape(size, 0, 0);
      assert (row, col).0 - row == 0 && (row, col).1 - col == 0;
    }
  }

  /** Size 1 pushes exactly the centre, even when it is off the grid. */
  lemma SizeOneIsCentre(row: int, col: int, height: int, width: int)
    ensures Mask(row, col, 1, height, width) == [(row, col)]
  {
  }

  /** Size 2 paints the clipped full 3 by 3 square. */
  lemma SizeTwoIsSquare(row: int, col: int, height: int, width: int)
    ensures forall cell :: cell in Mask(row, col, 2, height, width) <==>
      InBounds(cell, height, width) && -1 <= cell.0 - row <= 1 && -1 <= cell.1 - col <= 1
  {
    MaskMembers(row, col, 2, height, width);
  }

  /** Size 3 paints the clipped plus: the centre and its four orthogonal neighbours. */
  lemma SizeThreeIsPlus(row: int, col: int, height: int, width: int)
    ensures forall cell :: cell in Mask(row, col, 3, height, width) <==>
      InBounds(cell, height, width) && Manhattan(cell, (row, col)) <= 1
  {
    MaskMembers(row, col, 3, height, width);
    forall i, j ensures InShape(3, i, j) <==> Abs(i) + Abs(j) <= 1 {
      DiscRadiusOne(i, j);
    }
  }

  /** Size 5 paints the clipped cells with i*i + j*j <= 4, the diamond of radius 2. */
  lemma SizeFiveIsDiamond(row: int, col: int, height: int, width: int)
    ensures forall cell :: cell in Mask(row, col, 5, height, width) <==>
      InBounds(cell, height, width) && Manhattan(cell, (row, col)) <= 2
  {
    MaskMembers(row, col, 5, height, width);
    forall i, j ensures InShape(5, i, j) <==> Abs(i) + Abs(j) <= 2 {
      DiscRadiusTwo(i, j);
    }
  }

  /** With size 3 centred at (2, 2) on a 5 by 5 grid the mask is the plus, in row-major order. */
  lemma PlusAtTwoTwo()
    ensures Mask(2, 2, 3, 5, 5) == [(1, 2), (2, 1), (2, 2), (2, 3), (3, 2)]
  {
    assert RowsUpTo(2, 2, 3, 5, 5, -1) == [];
    assert RowCells(2, 2, -1, 3, 5, 5, 2) == [(1, 2)];
    assert RowCells(2, 2, 0, 3, 5, 5, 2) == [(2, 1), (2, 2), (2, 3)];
    assert RowCells(2, 2, 1, 3, 5, 5, 2) == [(3, 2)];
    calc {
      Mask(2, 2, 3, 5, 5);
      RowsUpTo(2, 2, 3, 5, 5, 2);
      RowsUpTo(2, 2, 3, 5, 5, -1) + RowCells(2, 2, -1, 3, 5, 5, 2) +
        RowCells(2, 2, 0, 3, 5, 5, 2) + RowCells(2, 2, 1, 3, 5, 5, 2);
      [(1, 2), (2, 1), (2, 2), (2, 3), (3, 2)];
    }
  }

  function Manhattan(a: Cell, b: Cell): nat
  {
    Abs(a.0 - b.0) + Abs(a.1 - b.1)
  }

  lemma DiscRadiusOne(i: int, j: int)
    ensures InShape(3, i, j) <==> Abs(i) + Abs(j) <= 1
  {
    if -1 <= i <= 1 && -1 <= j <= 1 {
      assert i * i == Abs(i) && j * j == Abs(j);
    }
  }

  lemma DiscRadiusTwo(i: int, j: int)
    ensures InShape(5, i, j) <==> Abs(i) + Abs(j) <= 2
  {
    if -2 <= i <= 2 && -2 <= j <= 2 {
      assert i * i == Abs(i) * Abs(i) && j * j == Abs(j) * Abs(j);
      assert Abs(i) == 0 || Abs(i) == 1 || Abs(i) == 2;
      assert Abs(j) == 0 || Abs(j) == 1 || Abs(j) == 2;
    }
  }

  /** The colour a flush writes under each tool: none for fill and eyedropper. */
  function Ink(tool: Tool, drawingColor: Color): Option<Color>
  {
    match tool
    case Brush => Some(drawingColor)
    case Eraser => Some(White)
    case _ => None
  }

  /** One step of the flush: write the tool's colour into an in-bounds cell. */
  function WriteCell(g: Grid, height: nat, width: nat, cell: Cell, tool: Tool, drawingColor: Color): Grid
    requires WellFormed(g, height, width)
  {
    if InBounds(cell, height, width) && Ink(tool, drawingColor).Some? then
      Set(g, cell, Ink(tool, drawingColor).value)
    else g
  }

  /** The grid a flush of `cells` produces, writing them in list order. */
  function Paint(g: Grid, height: nat, width: nat, cells: seq<Cell>, tool: Tool, drawingColor: Color): (r: Grid)
    requires WellFormed(g, height, width)
    ensures WellFormed(r, height, width)
    decreases |cells|
  {
    if cells == [] then g
    else
      WriteCell(Paint(g, height, width, cells[..|cells| - 1], tool, drawingColor),
                height, width, cells[|cells| - 1], tool, drawingColor)
  }

  /**
   * After a flush every in-bounds pending cell holds the drawing colour (brush) or the
   * background (eraser); every other cell, and every cell under the other tools, is
   * unchanged. Out-of-bounds entries are ignored.
   */
  lemma {:induction false} PaintEffect(g: Grid, height: nat, width: nat, cells: seq<Cell>, tool: Tool, drawingColor: Color)
    requires WellFormed(g, height, width)
    ensures forall r, c :: 0 <= r < height && 0 <= c < width ==>
      Paint(g, height, width, cells, tool, drawingColor)[r][c] ==
        if (r, c) in cells && Ink(tool, drawingColor).Some? then Ink(tool, drawingColor).value else g[r][c]
    decreases |cells|
  {
    if cells != [] {
      var init := cells[..|cells| - 1];
      PaintEffect(g, height, width, init, tool, drawingColor);
      assert cells == init + [cells[|cells| - 1]];
      forall r, c | 0 <= r < height && 0 <= c < width
        ensures (r, c) in cells <==> (r, c) in init || (r, c) == cells[|cells| - 1]
      {
      }
    }
  }
}
