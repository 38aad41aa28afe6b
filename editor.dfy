/**
 * The editor screen's own logic in src/screens/Editor.js: the zoom buttons, which clamp
 * the pixel size the canvas divides by, and the tools and brush sizes it offers.
 */
module EditorScreen {

  import opened Grids
  import Brush

  /** The pixel size the editor starts with (line 19). */
  const DefaultPixelSize: int := 20

  /** The tool bar (lines 29-34), in its order. */
  const Tools: seq<Tool> := [Brush, Eraser, Fill, Eyedropper]

  /** The brush sizes offered (line 37). */
  const BrushSizes: seq<int> := [1, 2, 3, 5]

  /** `handleZoomIn` (lines 136-138): five more, but never above 50. */
  function ZoomIn(pixelSize: int): (r: int)
    ensures r <= 50
    ensures pixelSize <= 45 ==> r == pixelSize + 5
  {
    if pixelSize + 5 < 50 then pixelSize + 5 else 50
  }

  /** `handleZoomOut` (lines 140-142): five less, but never below 10. */
  function ZoomOut(pixelSize: int): (r: int)
    ensures r >= 10
    ensures pixelSize >= 15 ==> r == pixelSize - 5
  {
    if pixelSize - 5 > 10 then pixelSize - 5 else 10
  }

  datatype Zoom = In | Out

  /** The pixel size after pressing the zoom buttons in the given order. */
  function ApplyZooms(pixelSize: int, presses: seq<Zoom>): int
    decreases |presses|
  {
    if presses == [] then pixelSize
    else
      var last := presses[|presses| - 1];
      var before := ApplyZooms(pixelSize, presses[..|presses| - 1]);
      if last == In then ZoomIn(before) else ZoomOut(before)
  }

  /** The sizes the buttons can reach: 10 to 50 in steps of 5. */
  predicate Reachable(pixelSize: int)
  {
    10 <= pixelSize <= 50 && pixelSize % 5 == 0
  }

  /** One press keeps a reachable size reachable. */
  lemma ZoomKeepsReachable(pixelSize: int)
    requires Reachable(pixelSize)
    ensures Reachable(ZoomIn(pixelSize)) && Reachable(ZoomOut(pixelSize))
  {
  }

  /**
   * Whatever the buttons pressed since the editor opened, the pixel size is from 10 to
   * 50 and a multiple of 5, so it is positive, as the canvas's division by it needs.
   */
  lemma {:induction false} ZoomsFromDefault(presses: seq<Zoom>)
    ensures Reachable(ApplyZooms(DefaultPixelSize, presses))
    ensures ApplyZooms(DefaultPixelSize, presses) > 0
    decreases |presses|
  {
    if presses != [] {
      ZoomsFromDefault(presses[..|presses| - 1]);
      ZoomKeepsReachable(ApplyZooms(DefaultPixelSize, presses[..|presses| - 1]));
    }
  }

  /** Zooming in then out gives back any size from 10 to 45, and out then in any from 15 to 50. */
  lemma ZoomRoundTrip(pixelSize: int)
    ensures 10 <= pixelSize <= 45 ==> ZoomOut(ZoomIn(pixelSize)) == pixelSize
    ensures 15 <= pixelSize <= 50 ==> ZoomIn(ZoomOut(pixelSize)) == pixelSize
  {
  }

  /** Zooming in at 50 and zooming out at 10 change nothing. */
  lemma ZoomFixedPoints()
    ensures ZoomIn(50) == 50 && ZoomOut(10) == 10
  {
  }

  /**
   * Every brush size offered paints the cell under the pointer when it is on the grid,
   * and reaches no further than two rows and two columns from it.
   */
  lemma OfferedBrushReach(size: int, row: int, col: int, height: int, width: int)
    requires size in BrushSizes
    ensures InBounds((row, col), height, width) ==> (row, col) in Brush.Mask(row, col, size, height, width)
    ensures forall cell :: cell in Brush.Mask(row, col, size, height, width) ==>
      Abs(cell.0 - row) <= 2 && Abs(cell.1 - col) <= 2
  {
    if InBounds((row, col), height, width) {
      Brush.CentreInMask(row, col, size, height, width);
    }
    if size == 1 {
      Brush.SizeOneIsCentre(row, col, height, width);
    }
  }

  /** Every tool appears once on the tool bar. */
  lemma ToolsComplete(t: Tool)
    ensures t in Tools
    ensures forall i, j :: 0 <= i < j < |Tools| ==> Tools[i] != Tools[j]
  {
  }
}
