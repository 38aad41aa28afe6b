/**
 * The canvas widget of src/widgets/Canvas.js as an object: its React state (`grid`,
 * `history`, `historyIndex`) and refs (`lastDrawnPixel`, `throttleRef`,
 * `pendingUpdates`, `floodFillStarted`) are fields, and each handler is a method.
 * Every state updater runs at once; each `setTimeout` callback is an event of its own
 * that the host fires later (`TimerFire`, `CommitTimerFire`).
 */
module CanvasWidget {
  import opened Grids
  import HistoryStore
  import opened Brush
  import FloodFill

  /** `lastDrawnPixel` after a pan begins: no cell drawn yet. */
  const NoCell: Cell := (-1, -1)

  /**
   * The cell under pointer position (x, y): `Math.floor(y / pixelSize)` and
   * `Math.floor(x / pixelSize)`. The cell's square contains the point.
   */
  function CellOf(x: int, y: int, pixelSize: int): (cell: Cell)
    requires pixelSize > 0
    ensures cell.0 * pixelSize <= y < cell.0 * pixelSize + pixelSize
    ensures cell.1 * pixelSize <= x < cell.1 * pixelSize + pixelSize
  {
    (y / pixelSize, x / pixelSize)
  }

  /**
   * What `handleEyedropper` passes to `onColorPicked`: the colour of an in-bounds cell,
   * unless it is the empty string (falsy in JavaScript); `None` means no call.
   */
  function Picked(g: Grid, height: nat, width: nat, cell: Cell): (r: Option<Color>)
    requires WellFormed(g, height, width)
    ensures r.Some? <==> InBounds(cell, height, width) && g[cell.0][cell.1] != ""
    ensures r.Some? ==> r.value == g[cell.0][cell.1]
  {
    match ColorAt(g, height, width, cell.0, cell.1)
    case Some(c) => if c != "" then Some(c) else None
    case None => None
  }

  /**
   * The effect of `floodFill(seed, target, replacement)` on the grid and the history,
   * from (`g0`, `h0`) to (`g1`, `h1`): nothing on an early return; otherwise the seed's
   * region is repainted and the result committed as exactly one new entry.
   */
  ghost predicate FillEffect(g0: Grid, h0: HistoryStore.History, g1: Grid, h1: HistoryStore.History,
                             height: nat, width: nat, seed: Cell, target: Option<Color>, replacement: Color)
    requires WellFormed(g0, height, width) && 0 <= h0.index < |h0.entries|
  {
    if FloodFill.IsNoOp(g0, height, width, seed, target, replacement) then
      g1 == g0 && h1 == h0
    else
      FloodFill.FillResult(g0, height, width, seed, replacement, g1) &&
      h1 == HistoryStore.Save(h0, g1)
  }

  class Canvas {
    const height: nat
    const width: nat

    // Props from the editor screen.
    var drawingColor: Color
    var tool: Tool
    var brushSize: int
    var pixelSize: int

    // React state.
    var grid: Grid
    var history: seq<Grid>
    var historyIndex: int

    // Refs.
    var lastDrawn: Cell
    var throttle: bool
    var pending: seq<Cell>
    var fillStarted: bool

    /** Flush timers (16 ms) the host has not fired yet. */
    ghost var flushTimers: nat
    /** History-commit timers (50 ms) the host has not fired yet. */
    ghost var commitTimers: nat
    /** Fills run by pan events since the pan began; `Valid` keeps it at most one. */
    ghost var panFills: nat

    function Hist(): HistoryStore.History
      reads this
    {
      HistoryStore.History(history, historyIndex)
    }

    /**
     * The grid and every snapshot have the canvas's dimensions, the history is within
     * its cap with the index on an entry, the cell size is positive, a non-empty pending
     * list always has the flag up, and at most one fill has run in the current pan, none
     * while the pan's fill flag is down.
     */
    ghost predicate Valid()
      reads this
    {
      WellFormed(grid, height, width) &&
      HistoryStore.Valid(Hist()) &&
      (forall k :: 0 <= k < |history| ==> WellFormed(history[k], height, width)) &&
      pixelSize > 0 &&
      (pending != [] ==> throttle) &&
      panFills <= 1 && (!fillStarted ==> panFills == 0)
    }

    /** Mounting the canvas and running its initialisation effect (lines 40-45). */
    constructor (height: nat, width: nat, drawingColor: Color, tool: Tool, brushSize: int, pixelSize: int)
      requires pixelSize > 0
      ensures Valid()
      ensures this.height == height && this.width == width
      ensures this.drawingColor == drawingColor && this.tool == tool
      ensures this.brushSize == brushSize && this.pixelSize == pixelSize
      ensures grid == Blank(height, width) && history == [grid] && historyIndex == 0
      ensures lastDrawn == NoCell && !throttle && pending == [] && !fillStarted
      ensures flushTimers == 0 && commitTimers == 0
    {
      this.height, this.width := height, width;
      this.drawingColor, this.tool := drawingColor, tool;
      this.brushSize, this.pixelSize := brushSize, pixelSize;
      var initialGrid := Blank(height, width);
      grid := initialGrid;
      history := [initialGrid];
      historyIndex := 0;
      lastDrawn := NoCell;
      throttle := false;
      pending := [];
      fillStarted := false;
      flushTimers, commitTimers, panFills := 0, 0, 0;
    }

    /** The editor re-rendering the canvas with new props of the same dimensions. */
    method SetProps(drawingColor: Color, tool: Tool, brushSize: int, pixelSize: int)
      requires Valid() && pixelSize > 0
      modifies this`drawingColor, this`tool, this`brushSize, this`pixelSize
      ensures Valid()
      ensures this.drawingColor == drawingColor && this.tool == tool
      ensures this.brushSize == brushSize && this.pixelSize == pixelSize
    {
      this.drawingColor, this.tool := drawingColor, tool;
      this.brushSize, this.pixelSize := brushSize, pixelSize;
    }

    /** `saveToHistory(newGrid)` (lines 48-59). */
    method SaveToHistory(newGrid: Grid)
      requires Valid() && WellFormed(newGrid, height, width)
      modifies this`history, this`historyIndex
      ensures Valid()
      ensures Hist() == HistoryStore.Save(old(Hist()), newGrid)
    {
      var currentHistory := history[..historyIndex + 1];
      var updatedHistory := currentHistory + [newGrid];
      if |updatedHistory| > HistoryStore.Capacity {
        updatedHistory := updatedHistory[1..];
      }
      history := updatedHistory;
      historyIndex := |updatedHistory| - 1;
      HistoryStore.SaveKeepsValid(old(Hist()), newGrid);
    }

    /** `undo` (lines 63-68): step back and show that snapshot, unless at the oldest. */
    method Undo()
      requires Valid()
      modifies this`historyIndex, this`grid
      ensures Valid()
      ensures Hist() == HistoryStore.Undo(old(Hist()))
      ensures grid == if old(historyIndex) > 0 then HistoryStore.Current(Hist()) else old(grid)
    {
      if historyIndex > 0 {
        historyIndex := historyIndex - 1;
        grid := history[historyIndex];
      }
    }

    /** `redo` (lines 69-74): step forward and show that snapshot, unless at the newest. */
    method Redo()
      requires Valid()
      modifies this`historyIndex, this`grid
      ensures Valid()
      ensures Hist() == HistoryStore.Redo(old(Hist()))
      ensures grid == if old(historyIndex) < |history| - 1 then HistoryStore.Current(Hist()) else old(grid)
    {
      if historyIndex < |history| - 1 {
        historyIndex := historyIndex + 1;
        grid := history[historyIndex];
      }
    }

    /** `clear` (lines 78-82): an all-background grid, committed as the newest entry. */
    method Clear()
      requires Valid()
      modifies this`grid, this`history, this`historyIndex
      ensures Valid()
      ensures grid == Blank(height, width)
      ensures Hist() == HistoryStore.Save(old(Hist()), grid)
    {
      var clearedGrid := Blank(height, width);
      grid := clearedGrid;
      SaveToHistory(clearedGrid);
    }

    /**
     * `applyPendingUpdates` (lines 85-106). With nothing pending it returns at once and
     * leaves the flag as it is; otherwise it writes the pending cells into a copy of the
     * grid, empties the list and lowers the flag.
     */
    method ApplyPendingUpdates()
      requires Valid()
      modifies this`grid, this`pending, this`throttle
      ensures Valid()
      ensures old(pending) == [] ==> grid == old(grid) && pending == [] && throttle == old(throttle)
      ensures old(pending) != [] ==>
        grid == Paint(old(grid), height, width, old(pending), tool, drawingColor) && pending == [] && !throttle
    {
      if |pending| == 0 {
        return;
      }
      var newGrid := grid;
      for k := 0 to |pending|
        invariant WellFormed(newGrid, height, width)
        invariant newGrid == Paint(grid, height, width, pending[..k], tool, drawingColor)
      {
        var (row, col) := pending[k];
        if row >= 0 && row < height && col >= 0 && col < width {
          if tool == Brush {
            newGrid := Set(newGrid, (row, col), drawingColor);
          } else if tool == Eraser {
            newGrid := Set(newGrid, (row, col), White);
          }
        }
        assert pending[..k + 1][..k] == pending[..k];
      }
      assert pending[..|pending|] == pending;
      pending := [];
      grid := newGrid;
      throttle := false;
    }

    /**
     * `queuePixelUpdate(row, col)` (lines 108-134): append the brush mask around the
     * cell to the pending list and, unless the flag is already up, raise it and start a
     * flush timer. The flag goes up even when the mask is empty.
     */
    method QueuePixelUpdate(row: int, col: int)
      requires Valid()
      modifies this`pending, this`throttle, this`flushTimers
      ensures Valid()
      ensures pending == old(pending) + Mask(row, col, brushSize, height, width)
      ensures throttle
      ensures flushTimers == if old(throttle) then old(flushTimers) else old(flushTimers) + 1
    {
      QueueMask(row, col);
      if !throttle {
        throttle := true;
        flushTimers := flushTimers + 1;
      }
    }

    /**
     * The loops of `queuePixelUpdate` (lines 109-128): the centre alone for sizes up to
     * 1, otherwise row offset by row offset through the clipped square.
     */
    method QueueMask(row: int, col: int)
      modifies this`pending
      ensures pending == old(pending) + Mask(row, col, brushSize, height, width)
    {
      if brushSize > 1 {
        var offset := brushSize / 2;
        for i := -offset to offset + 1
          invariant pending == old(pending) + RowsUpTo(row, col, brushSize, height, width, i)
        {
          QueueRow(row, col, i);
          RowsUpToNext(row, col, brushSize, height, width, i);
        }
      } else {
        pending := pending + [(row, col)];
      }
    }

    /** The inner loop of `queuePixelUpdate` (lines 114-124): one row offset of the mask. */
    method QueueRow(row: int, col: int, i: int)
      requires brushSize > 1
      modifies this`pending
      ensures pending == old(pending) + RowCells(row, col, i, brushSize, height, width, brushSize / 2 + 1)
    {
      var offset := brushSize / 2;
      for j := -offset to offset + 1
        invariant pending == old(pending) + RowCells(row, col, i, brushSize, height, width, j)
      {
        var newRow := row + i;
        var newCol := col + j;
        RowCellsNext(row, col, i, brushSize, height, width, j);
        if newRow >= 0 && newRow < height && newCol >= 0 && newCol < width {
          if brushSize <= 2 || i * i + j * j <= offset * offset {
            pending := pending + [(newRow, newCol)];
          }
        }
      }
    }

    /** `handleEyedropper` (lines 145-150): the colour handed to `onColorPicked`, if any. */
    method HandleEyedropper(row: int, col: int) returns (picked: Option<Color>)
      requires Valid()
      ensures picked == Picked(grid, height, width, (row, col))
      ensures picked.Some? ==> InBounds((row, col), height, width)
    {
      var color := ColorAt(grid, height, width, row, col);
      picked := None;
      if color.Some? && color.value != "" {
        picked := color;
      }
    }

    /**
     * `floodFill(row, col, targetColor, replacementColor)` (lines 153-185): nothing on
     * an early return; otherwise the seed's region is repainted and the result committed
     * as exactly one new history entry.
     */
    method FloodFillAt(row: int, col: int, target: Option<Color>, replacement: Color)
      requires Valid()
      modifies this`grid, this`history, this`historyIndex
      ensures Valid()
      ensures FillEffect(old(grid), old(Hist()), grid, Hist(), height, width, (row, col), target, replacement)
    {
      var result := FloodFill.Fill(grid, height, width, row, col, target, replacement);
      if result.Some? {
        grid := result.value;
        SaveToHistory(result.value);
      }
    }

    /**
     * `onGestureEvent` (lines 187-224), the handler of every pan event. A pointer on the
     * cell drawn last does nothing; the eyedropper only reads; the fill runs once per pan;
     * brush and eraser record the cell and queue its mask. Line 213 records the cell
     * before the distance test at lines 217-219, so that distance is always 0 and the
     * interpolation of lines 220-221 never runs: the pending list grows by exactly one
     * mask.
     */
    method Move(x: int, y: int) returns (picked: Option<Color>)
      requires Valid()
      modifies this
      ensures Valid()
      ensures drawingColor == old(drawingColor) && tool == old(tool)
      ensures brushSize == old(brushSize) && pixelSize == old(pixelSize) && commitTimers == old(commitTimers)
      ensures picked.Some? ==> tool == Eyedropper && InBounds(CellOf(x, y, pixelSize), height, width)
      ensures var cell := CellOf(x, y, pixelSize);
        if cell == old(lastDrawn) then
          unchanged(this) && picked == None
        else if tool == Eyedropper then
          unchanged(this) && picked == Picked(grid, height, width, cell)
        else if tool == Fill then
          lastDrawn == old(lastDrawn) && pending == old(pending) && throttle == old(throttle) &&
          flushTimers == old(flushTimers) && fillStarted &&
          (old(fillStarted) ==> unchanged(this)) &&
          (!old(fillStarted) ==>
            panFills == 1 &&
            FillEffect(old(grid), old(Hist()), grid, Hist(), height, width, cell,
                       ColorAt(old(grid), height, width, cell.0, cell.1), drawingColor))
        else
          lastDrawn == cell && !old(lastDrawn == cell) && fillStarted == old(fillStarted) &&
          panFills == old(panFills) &&
          grid == old(grid) && history == old(history) && historyIndex == old(historyIndex) &&
          pending == old(pending) + Mask(cell.0, cell.1, brushSize, height, width) && throttle &&
          flushTimers == (if old(throttle) then old(flushTimers) else old(flushTimers) + 1)
    {
      var cell := CellOf(x, y, pixelSize);
      var (row, col) := cell;
      picked := None;
      if lastDrawn.0 == row && lastDrawn.1 == col {
        return;
      }
      if tool == Eyedropper {
        picked := HandleEyedropper(row, col);
        return;
      }
      if tool == Fill {
        FillOncePerPan(row, col);
        return;
      }
      lastDrawn := (row, col);
      QueuePixelUpdate(row, col);
    }

    /**
     * The fill branch of `onGestureEvent` (lines 203-210): the first pan event of a pan
     * fills from its cell with the drawing colour; later ones do nothing.
     */
    method FillOncePerPan(row: int, col: int)
      requires Valid()
      modifies this`grid, this`history, this`historyIndex, this`fillStarted, this`panFills
      ensures Valid()
      ensures fillStarted
      ensures old(fillStarted) ==>
        grid == old(grid) && history == old(history) && historyIndex == old(historyIndex) &&
        panFills == old(panFills)
      ensures !old(fillStarted) ==>
        panFills == 1 &&
        FillEffect(old(grid), old(Hist()), grid, Hist(), height, width, (row, col),
                   ColorAt(old(grid), height, width, row, col), drawingColor)
    {
      if !fillStarted {
        fillStarted := true;
        panFills := panFills + 1;
        var targetColor := ColorAt(grid, height, width, row, col);
        FloodFillAt(row, col, targetColor, drawingColor);
      }
    }

    /**
     * The pan's BEGAN event (lines 288-291): forget the last cell and the fill flag, then
     * handle the position like any pan event. A fill therefore starts again in each pan.
     */
    method Begin(x: int, y: int) returns (picked: Option<Color>)
      requires Valid()
      modifies this
      ensures Valid()
      ensures drawingColor == old(drawingColor) && tool == old(tool)
      ensures brushSize == old(brushSize) && pixelSize == old(pixelSize) && commitTimers == old(commitTimers)
      ensures picked.Some? ==> tool == Eyedropper && InBounds(CellOf(x, y, pixelSize), height, width)
      ensures var cell := CellOf(x, y, pixelSize);
        if cell == NoCell || tool == Eyedropper then
          lastDrawn == NoCell && !fillStarted && panFills == 0 &&
          grid == old(grid) && history == old(history) && historyIndex == old(historyIndex) &&
          pending == old(pending) && throttle == old(throttle) && flushTimers == old(flushTimers) &&
          picked == (if cell == NoCell then None else Picked(grid, height, width, cell))
        else if tool == Fill then
          lastDrawn == NoCell && fillStarted && panFills == 1 &&
          pending == old(pending) && throttle == old(throttle) && flushTimers == old(flushTimers) &&
          FillEffect(old(grid), old(Hist()), grid, Hist(), height, width, cell,
                     ColorAt(old(grid), height, width, cell.0, cell.1), drawingColor)
        else
          lastDrawn == cell && !fillStarted && panFills == 0 &&
          grid == old(grid) && history == old(history) && historyIndex == old(historyIndex) &&
          pending == old(pending) + Mask(cell.0, cell.1, brushSize, height, width) && throttle &&
          flushTimers == (if old(throttle) then old(flushTimers) else old(flushTimers) + 1)
    {
      lastDrawn := NoCell;
      fillStarted := false;
      panFills := 0;
      picked := Move(x, y);
    }

    /**
     * The pan's END event (lines 292-301): flush what is pending at once, whatever the
     * flag says, and start the timer that commits the grid to the history.
     */
    method End()
      requires Valid()
      modifies this`grid, this`pending, this`throttle, this`commitTimers
      ensures Valid()
      ensures old(pending) == [] ==> grid == old(grid) && throttle == old(throttle)
      ensures old(pending) != [] ==> grid == Paint(old(grid), height, width, old(pending), tool, drawingColor) && !throttle
      ensures pending == [] && commitTimers == old(commitTimers) + 1
    {
      ApplyPendingUpdates();
      commitTimers := commitTimers + 1;
    }

    /** The 50 ms timer started by END: commit the grid as it is now (lines 295-300). */
    method CommitTimerFire()
      requires Valid() && commitTimers > 0
      modifies this`history, this`historyIndex, this`commitTimers
      ensures Valid()
      ensures Hist() == HistoryStore.Save(old(Hist()), grid)
      ensures commitTimers == old(commitTimers) - 1
    {
      commitTimers := commitTimers - 1;
      SaveToHistory(grid);
    }

    /** The 16 ms timer started by `queuePixelUpdate`: run `applyPendingUpdates` (line 132). */
    method TimerFire()
      requires Valid() && flushTimers > 0
      modifies this`grid, this`pending, this`throttle, this`flushTimers
      ensures Valid()
      ensures old(pending) == [] ==> grid == old(grid) && throttle == old(throttle)
      ensures old(pending) != [] ==> grid == Paint(old(grid), height, width, old(pending), tool, drawingColor) && !throttle
      ensures pending == [] && flushTimers == old(flushTimers) - 1
    {
      flushTimers := flushTimers - 1;
      ApplyPendingUpdates();
    }

    /**
     * `handleTapGesture` (lines 253-274). The eyedropper only reads; the fill runs on
     * every tap, with no flag; brush and eraser queue the cell's mask and flush at once,
     * so the tap is visible without waiting for the timer.
     */
    method Tap(x: int, y: int) returns (picked: Option<Color>)
      requires Valid()
      modifies this
      ensures Valid()
      ensures drawingColor == old(drawingColor) && tool == old(tool)
      ensures brushSize == old(brushSize) && pixelSize == old(pixelSize) && commitTimers == old(commitTimers)
      ensures lastDrawn == old(lastDrawn) && fillStarted == old(fillStarted) && panFills == old(panFills)
      ensures picked.Some? ==> tool == Eyedropper && InBounds(CellOf(x, y, pixelSize), height, width)
      ensures var cell := CellOf(x, y, pixelSize);
        if tool == Eyedropper then
          unchanged(this) && picked == Picked(grid, height, width, cell)
        else if tool == Fill then
          pending == old(pending) && throttle == old(throttle) && flushTimers == old(flushTimers) &&
          FillEffect(old(grid), old(Hist()), grid, Hist(), height, width, cell,
                     ColorAt(old(grid), height, width, cell.0, cell.1), drawingColor)
        else
          var queued := old(pending) + Mask(cell.0, cell.1, brushSize, height, width);
          pending == [] && throttle == (queued == []) &&
          grid == Paint(old(grid), height, width, queued, tool, drawingColor) &&
          history == old(history) && historyIndex == old(historyIndex) &&
          flushTimers == (if old(throttle) then old(flushTimers) else old(flushTimers) + 1)
    {
      var (row, col) := CellOf(x, y, pixelSize);
      picked := None;
      if tool == Eyedropper {
        picked := HandleEyedropper(row, col);
        return;
      }
      if tool == Fill {
        var targetColor := ColorAt(grid, height, width, row, col);
        FloodFillAt(row, col, targetColor, drawingColor);
        return;
      }
      QueueAndFlush(row, col);
    }

    /**
     * A tap of the brush or the eraser (lines 271-273): queue the cell's mask, then flush
     * everything pending at once. The flag stays up only when there was nothing to flush.
     */
    method QueueAndFlush(row: int, col: int)
      requires Valid()
      modifies this`grid, this`pending, this`throttle, this`flushTimers
      ensures Valid()
      ensures var queued := old(pending) + Mask(row, col, brushSize, height, width);
        pending == [] && throttle == (queued == []) &&
        grid == Paint(old(grid), height, width, queued, tool, drawingColor) &&
        flushTimers == (if old(throttle) then old(flushTimers) else old(flushTimers) + 1)
    {
      QueuePixelUpdate(row, col);
      ApplyPendingUpdates();
    }
  }

  /**
   * A brush stroke whose writes are held back until the pan ends. With brush size 2 a
   * drag starts on the grid and its first mask is flushed. It then leaves the grid by
   * two or more cells: the empty mask there raises the flag and starts a timer, and that
   * timer finds nothing pending and returns before lowering the flag. Back on the grid
   * nine cells are queued, yet no timer is started for them, because the flag is still up.
   */
  method StrandedBatch() returns (c: Canvas)
    ensures c.Valid() && c.tool == Brush
    ensures |c.pending| == 9 && c.throttle && c.flushTimers == 0
  {
    c := FlushedStart();
    LeaveGrid(c);
    assert CellOf(50, 50, 20) == (2, 2);
    var picked := c.Move(50, 50);
    FullSquareInside(2, 2);
  }

  /** A brush drag of size 2 that starts on cell (1, 1), whose mask a timer has flushed. */
  method FlushedStart() returns (c: Canvas)
    ensures fresh(c) && c.Valid()
    ensures c.height == 10 && c.width == 10 && c.tool == Brush && c.brushSize == 2 && c.pixelSize == 20
    ensures c.lastDrawn == (1, 1) && c.pending == [] && !c.throttle && c.flushTimers == 0
  {
    c := StartOnGrid();
    c.TimerFire();
  }

  /** A brush drag of size 2 that starts on cell (1, 1) of a fresh 10 by 10 canvas. */
  method StartOnGrid() returns (c: Canvas)
    ensures fresh(c) && c.Valid()
    ensures c.height == 10 && c.width == 10 && c.tool == Brush && c.brushSize == 2 && c.pixelSize == 20
    ensures c.lastDrawn == (1, 1) && |c.pending| == 9 && c.throttle && c.flushTimers == 1
  {
    c := new Canvas(10, 10, "#000000", Brush, 2, 20);
    assert CellOf(30, 30, 20) == (1, 1);
    var picked := c.Begin(30, 30);
    FullSquareInside(1, 1);
  }

  /** The drag leaves the grid by several cells and the timer that starts then fires. */
  method LeaveGrid(c: Canvas)
    requires c.Valid()
    requires c.height == 10 && c.width == 10 && c.tool == Brush && c.brushSize == 2 && c.pixelSize == 20
    requires c.lastDrawn == (1, 1) && c.pending == [] && !c.throttle && c.flushTimers == 0
    modifies c
    ensures c.Valid()
    ensures c.height == 10 && c.width == 10 && c.tool == Brush && c.brushSize == 2 && c.pixelSize == 20
    ensures c.lastDrawn == (-5, -5) && c.pending == [] && c.throttle && c.flushTimers == 0
  {
    assert CellOf(-100, -100, 20) == (-5, -5);
    var picked := c.Move(-100, -100);
    EmptyMaskFarOff();
    assert c.pending == [] && c.throttle && c.flushTimers == 1;
    c.TimerFire();
  }

  lemma EmptyMaskFarOff()
    ensures Mask(-5, -5, 2, 10, 10) == []
  {
    MaskMembers(-5, -5, 2, 10, 10);
  }

  /** Away from the border, brush size 2 queues the full 3 by 3 square, nine cells. */
  lemma FullSquareInside(row: int, col: int)
    requires 1 <= row <= 8 && 1 <= col <= 8
    ensures |Mask(row, col, 2, 10, 10)| == 9
  {
    assert RowCells(row, col, -1, 2, 10, 10, 2) == [(row - 1, col - 1), (row - 1, col), (row - 1, col + 1)];
    assert RowCells(row, col, 0, 2, 10, 10, 2) == [(row, col - 1), (row, col), (row, col + 1)];
    assert RowCells(row, col, 1, 2, 10, 10, 2) == [(row + 1, col - 1), (row + 1, col), (row + 1, col + 1)];
  }
}
