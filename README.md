# Pixel canvas: a verified model

Pixel is a React Native pixel-art editor. The user picks a canvas size, then draws on a
grid of coloured cells with a brush, an eraser, a paint bucket or an eyedropper. The
editor has undo and redo, a zoom, and a colour picker with a hexadecimal field. This
project models the editor's core in Dafny and proves what that code promises.

- **`Grids`** (`grids.dfy`): the grid of colour strings, the background colour
  `#FFFFFF`, the four tools, cell access and bounds.
- **`HistoryStore`** (`history.dfy`): the undo history of `Canvas.js`.
  - A history is a list of grid snapshots and an index.
  - It is capped at 30 entries, the oldest dropped first.
  - A save drops the redo branch; undo and redo move the index by one.
- **`Brush`** (`brush.dfy`): the brush mask that `queuePixelUpdate` queues for a cell,
  and the way `applyPendingUpdates` writes a list of cells into the grid.
- **`FloodFill`** (`floodfill.dfy`): the paint bucket.
  - `floodFill`'s breadth-first loop is a method.
  - It is proved against a specification: exactly the cells 4-connected to the seed
    through the target colour are repainted.
- **`LineInterpolation`** (`line.dfy`): `getLinePoints`, the Bresenham loop. It is
  proved to end on the end point and to leave no gaps.
- **`CanvasWidget`** (`canvas.dfy`): the canvas widget as a class.
  - The React state and refs are fields.
  - Each gesture handler is a method: `Begin`, `Move`, `End` for a pan, `Tap` for a tap.
  - The two `setTimeout` callbacks are events the host fires later: `TimerFire` for the
    16 ms flush and `CommitTimerFire` for the 50 ms history commit.
  - Ghost counters record the timers still outstanding.
- **`CreateScreen`** (`create.dfy`): the canvas-size form.
  - The global `parseInt` is modelled as section 19.2.5 of ECMA-262 defines it: leading
    white space, an optional sign, a `0x` prefix, the longest run of digits.
  - The three checks then run in order, as `Validate` on the two parsed values;
    `HandleCreateCanvas` parses both fields and applies `Validate`.
- **`ColorPicker`** (`colorpicker.dfy`): the hexadecimal field of the colour picker. It
  covers the initial text, the sync with the colour passed in, cleaning of typed text
  and the six-digit test.
- **`EditorScreen`** (`editor.dfy`): the zoom buttons, which clamp the cell size the
  canvas divides by, and the tool bar and brush sizes the editor offers.

How the source is modelled:

- **Grids as values.** A grid is a value (`seq<seq<string>>`), so the source's deep
  copies through `JSON.parse(JSON.stringify(...))` are the identity here.
- **Missing values.** JavaScript's `null` and `undefined` become `None`.
- **Cell from a pointer position.** The source computes
  `Math.floor(coordinate / pixelSize)`. The model uses Dafny's `/`, which is the floor
  for the positive divisor.

Three behaviours of the source as written are worth knowing:

- **Interpolation never runs.** `onGestureEvent` records the current cell as the last
  drawn (line 213) before it measures the distance from the last drawn cell (lines
  217-219). That distance is therefore always 0, and the interpolation of lines 220-221
  never runs. `Move`'s contract states that a brush or eraser pan event on a new cell
  appends exactly one mask to the pending list. Under the fill and eyedropper tools a
  pan event appends nothing.
- **A stroke can stall until the pan ends.** `queuePixelUpdate` raises the throttle flag
  and starts a flush timer even when the clipped mask is empty. `applyPendingUpdates`
  returns on an empty list before it lowers the flag (line 86).
  - This needs a brush size above 1. Size 1, the editor's default, queues the
    unclipped cell, so the list is never empty and the flush lowers the flag.
  - With a larger size, a drag can go more than `size / 2` cells (rounded down)
    beyond the grid, after its earlier cells have been flushed. If it stays there until
    the 16 ms timer fires, the timer finds nothing pending, and the flag stays up with
    no timer outstanding. The cells the drag paints after coming back wait for the
    pan's end.
  - A pan that begins that far off the grid, with such a size, stalls the same way
    when the timer fires before the pointer reaches the grid.
  - `CanvasWidget.StrandedBatch` builds such a run with size 2: a drag starts on the
    grid, leaves it, the timer fires, and the drag comes back.
- **A fill pan can fill nothing.** `onGestureEvent` raises `floodFillStarted` (line 205)
  before `floodFill` checks its early returns (lines 154-156). When the pan's first cell
  is off the grid, or already has the drawing colour, nothing is filled or committed.
  The flag is still up, so the rest of the pan fills nothing either.
  `CanvasWidget.Canvas.FillOncePerPan` states this through `FillEffect`'s no-change case.

## Model

| member | source | states |
|---|---|---|
| Grids.Blank | src/widgets/Canvas.js:41 | a height by width grid with every cell `#FFFFFF` |
| Grids.ColorAt | src/widgets/Canvas.js:137-142 | `getColorAtPosition`: a colour exactly for in-bounds cells, and it is that cell's colour |
| HistoryStore.Initial | src/widgets/Canvas.js:40-45 | the history starts as the one initial grid, with the index on it |
| HistoryStore.Save | src/widgets/Canvas.js:48-59 | after a save the index is on the last entry, which is the saved grid |
| HistoryStore.SaveKeepsValid | src/widgets/Canvas.js:48-59 | a save keeps the history non-empty, at most 30 entries, with the index on an entry |
| HistoryStore.SaveKeepsPrefix | src/widgets/Canvas.js:49-55 | a save keeps the entries up to the index and drops the redo branch; past 30 entries it drops the oldest one first |
| HistoryStore.Undo | src/widgets/Canvas.js:63-68 | undo keeps the entries and a valid history valid, and moves the index back by at most one; `BoundariesAreNoOps` and `StepsMoveByOne` say exactly when it moves |
| HistoryStore.Redo | src/widgets/Canvas.js:69-74 | redo keeps the entries and a valid history valid, and moves the index forward by at most one; `BoundariesAreNoOps` and `StepsMoveByOne` say exactly when it moves |
| HistoryStore.BoundariesAreNoOps | src/widgets/Canvas.js:63-74 | undo at the oldest entry and redo at the newest change nothing |
| HistoryStore.StepsMoveByOne | src/widgets/Canvas.js:63-74 | otherwise undo and redo move the index by exactly one and keep the entries |
| HistoryStore.UndoRedoRoundTrip | src/widgets/Canvas.js:63-74 | redo after an undo that moved returns to the same history, and undo after such a redo does too |
| HistoryStore.UndoNSteps | src/widgets/Canvas.js:63-68 | n undos, for n up to the index, lower the index by exactly n and keep the entries |
| HistoryStore.RedoNSteps | src/widgets/Canvas.js:69-74 | n redos, while n entries follow the index, raise it by exactly n and keep the entries |
| HistoryStore.UndoThenRedoN | src/widgets/Canvas.js:63-74 | n undos that all move, followed by n redos, restore the history |
| HistoryStore.SaveThenUndo | src/widgets/Canvas.js:48-68 | undo right after a save shows the grid that was current before the save |
| Brush.Mask | src/widgets/Canvas.js:108-128 | above size 1 every queued cell is on the grid and within `size / 2` rows and columns of the centre; `MaskMembers`, `MaskOrdered` and `SizeOneIsCentre` state exactly which cells, in what order |
| Brush.MaskMembers | src/widgets/Canvas.js:108-125 | for sizes above 1 a cell is queued exactly when it is on the grid and within the offset square and the round test |
| Brush.MaskOrdered | src/widgets/Canvas.js:113-125 | the mask lists its cells in row-major order, each once |
| Brush.CentreInMask | src/widgets/Canvas.js:108-128 | a centre on the grid is always queued, whatever the brush size |
| Brush.SizeOneIsCentre | src/widgets/Canvas.js:126-128 | size 1 queues the centre alone, unclipped |
| Brush.SizeTwoIsSquare | src/widgets/Canvas.js:110-125 | size 2 queues the clipped 3 by 3 square |
| Brush.SizeThreeIsPlus | src/widgets/Canvas.js:110-125 | size 3 queues the clipped plus, the cells at Manhattan distance at most 1 |
| Brush.SizeFiveIsDiamond | src/widgets/Canvas.js:110-125 | size 5 queues the clipped diamond, the cells at Manhattan distance at most 2 |
| Brush.PlusAtTwoTwo | src/widgets/Canvas.js:110-125 | size 3 at (2, 2) on a 5 by 5 grid queues the five cells of the plus in row-major order |
| Brush.Paint | src/widgets/Canvas.js:88-103 | writing pending cells keeps the grid's dimensions |
| Brush.PaintEffect | src/widgets/Canvas.js:91-99 | after the writes a cell holds the brush colour or white if it is listed and the tool is brush or eraser, and its old colour otherwise |
| FloodFill.Fill | src/widgets/Canvas.js:153-185 | no result exactly on the three early returns; otherwise exactly the seed's 4-connected target-coloured region is repainted and nothing else changes |
| FloodFill.FillRegion | src/widgets/Canvas.js:159-181 | from a seed of the target colour, the queue loop ends with exactly the seed's 4-connected target-coloured region repainted |
| LineInterpolation.StepChoice | src/widgets/Canvas.js:237-247 | short of the end point at least one axis steps, and an axis steps only before it reaches its end, so the guards at lines 239 and 244 never fire |
| LineInterpolation.LinePoints | src/widgets/Canvas.js:226-251 | the points start at the start and end at the end, each touches the next, all lie in the bounding box, and the end appears only last |
| CanvasWidget.CellOf | src/widgets/Canvas.js:190-191 | the cell's square of side `pixelSize` contains the pointer position |
| CanvasWidget.Picked | src/widgets/Canvas.js:145-150 | a colour is picked exactly for an in-bounds cell with a non-empty colour, and it is that colour |
| CanvasWidget.Canvas.constructor | src/widgets/Canvas.js:19-45 | a blank grid, a one-entry history at index 0, no last cell, nothing pending, flags down, no timers |
| CanvasWidget.Canvas.SetProps | src/widgets/Canvas.js:19-27 | new props replace the old ones and the invariant holds |
| CanvasWidget.Canvas.SaveToHistory | src/widgets/Canvas.js:48-59 | the history becomes `HistoryStore.Save` of the old one |
| CanvasWidget.Canvas.Undo | src/widgets/Canvas.js:63-68 | the history steps back as `HistoryStore.Undo`, and the grid shows the new current entry when it moved |
| CanvasWidget.Canvas.Redo | src/widgets/Canvas.js:69-74 | the history steps forward as `HistoryStore.Redo`, and the grid shows the new current entry when it moved |
| CanvasWidget.Canvas.Clear | src/widgets/Canvas.js:78-82 | the grid becomes blank and is saved as the newest entry |
| CanvasWidget.Canvas.ApplyPendingUpdates | src/widgets/Canvas.js:85-106 | with nothing pending nothing changes, the flag included; otherwise the grid becomes the pending cells painted in, the list empties and the flag drops |
| CanvasWidget.Canvas.QueuePixelUpdate | src/widgets/Canvas.js:108-134 | the cell's mask is appended to the pending list and the flag is up; a flush timer starts exactly when the flag was down |
| CanvasWidget.Canvas.QueueMask | src/widgets/Canvas.js:109-128 | the loops append exactly the cell's mask to the pending list |
| CanvasWidget.Canvas.QueueRow | src/widgets/Canvas.js:114-124 | one pass of the inner loop appends the mask's cells of that row offset |
| CanvasWidget.Canvas.HandleEyedropper | src/widgets/Canvas.js:145-150 | the colour handed to `onColorPicked` is `Picked`, and only for in-bounds cells |
| CanvasWidget.Canvas.FloodFillAt | src/widgets/Canvas.js:153-185 | nothing changes on an early return; otherwise the region is repainted and committed as exactly one new history entry |
| CanvasWidget.Canvas.Move | src/widgets/Canvas.js:187-224 | the same cell again changes nothing; the eyedropper only picks; the fill runs at most once per pan; brush and eraser record the cell and append exactly one mask |
| CanvasWidget.Canvas.FillOncePerPan | src/widgets/Canvas.js:203-210 | the first fill event of a pan runs the fill from its cell with the drawing colour, which changes nothing on an early return and otherwise commits once, and raises the flag either way; later ones change nothing |
| CanvasWidget.Canvas.Begin | src/widgets/Canvas.js:287-291 | as `Move`, after forgetting the last cell and the fill flag: a pan handles its first cell unless that cell is (-1, -1), which equals the forgotten cell's marker, and may fill once |
| CanvasWidget.Canvas.End | src/widgets/Canvas.js:292-301 | the pending cells are flushed at once, whatever the flag, and one commit timer starts |
| CanvasWidget.Canvas.CommitTimerFire | src/widgets/Canvas.js:295-300 | the grid as it is now is saved to the history |
| CanvasWidget.Canvas.TimerFire | src/widgets/Canvas.js:130-133 | the flush timer runs `applyPendingUpdates` with the same effect as above |
| CanvasWidget.Canvas.Tap | src/widgets/Canvas.js:253-274 | the eyedropper only picks; the fill runs on every tap; brush and eraser leave nothing pending, with the queued cells painted at once |
| CanvasWidget.Canvas.QueueAndFlush | src/widgets/Canvas.js:271-273 | a brush or eraser tap paints everything pending plus its mask at once and empties the list; the flag stays up only when there was nothing to paint |
| CanvasWidget.StrandedBatch | src/widgets/Canvas.js:85-134 | a drag that starts on the grid, leaves it by several cells and comes back ends with nine cells pending, the flag up and no flush timer outstanding |
| CanvasWidget.FullSquareInside | src/widgets/Canvas.js:110-125 | away from the border of a 10 by 10 grid, brush size 2 queues nine cells |
| CreateScreen.ParseInt | src/screens/Create.js:23-24 | `parseInt` reads a number only from text with a decimal digit, and a negative one only from text with a minus sign; the lemmas below pin down which number |
| CreateScreen.SignedNeedsDigit | src/screens/Create.js:23-24 | after the white space, a number needs a decimal digit first or right after the sign, and a negative one needs the sign `-` |
| CreateScreen.UnsignedNeedsDigit | src/screens/Create.js:23-24 | the unsigned digits, decimal or after `0x`, start with a decimal digit |
| CreateScreen.Validate | src/screens/Create.js:26-45 | the outcome is one of the three alerts or navigation with exactly the parsed values, each from 1 to 100 |
| CreateScreen.HandleCreateCanvas | src/screens/Create.js:21-46 | the editor opens only with the values `parseInt` read from the two fields, width first, each from 1 to 100 |
| CreateScreen.TrimStart | src/screens/Create.js:23-24 | `parseInt` skips exactly the leading white space |
| CreateScreen.DigitPrefix | src/screens/Create.js:23-24 | `parseInt` reads the longest run of digits of the radix |
| CreateScreen.DigitRun | src/screens/Create.js:23-24 | a run of decimal digits followed by a non-digit reads as the run's value |
| CreateScreen.DecimalRoundTrip | src/screens/Create.js:23-24 | `parseInt` reads back the decimal numeral of n as n, with no sign, `-` or `+`, whatever non-digit text follows, except an `x` or `X` after a lone `0` |
| CreateScreen.LeadingSpaceIgnored | src/screens/Create.js:23-24 | leading white space does not change what `parseInt` reads |
| CreateScreen.NavigatesIffAcceptable | src/screens/Create.js:26-45 | the editor opens exactly when both parsed values are integers from 1 to 100, and with those values, width first |
| CreateScreen.RejectionOrder | src/screens/Create.js:26-39 | the alerts come in order: not a number first, then not positive, then above 100 |
| CreateScreen.NoDigits | src/screens/Create.js:23-24 | text that starts with no white space, sign or decimal digit reads as NaN |
| CreateScreen.Parse16 | src/screens/Create.js:23-24 | `"16"` reads as 16 |
| CreateScreen.ParseUnit | src/screens/Create.js:23-24 | `"12px"` reads as 12 |
| CreateScreen.ParseLeadingSpace | src/screens/Create.js:23-24 | `" 7"` reads as 7 |
| CreateScreen.ParseExponent | src/screens/Create.js:23-24 | `"1e3"` reads as 1 |
| CreateScreen.ParseMinus | src/screens/Create.js:23-24 | `"-3"` reads as -3 |
| CreateScreen.ParseHex | src/screens/Create.js:23-24 | `"0x10"` reads as 16 |
| CreateScreen.ParseAboveLimit | src/screens/Create.js:23-24 | `"101"` reads as 101 |
| CreateScreen.ParseLetters | src/screens/Create.js:23-24 | `"abc"` is NaN |
| CreateScreen.ParseEmpty | src/screens/Create.js:23-24 | the empty field is NaN |
| CreateScreen.ParseLoneSign | src/screens/Create.js:23-24 | `"-"` is NaN |
| CreateScreen.UnitAndSpaceAccepted | src/screens/Create.js:21-46 | `"12px"` by `" 7"` opens a 12 by 7 canvas |
| CreateScreen.HexAndExponentAccepted | src/screens/Create.js:21-46 | `"0x10"` by `"1e3"` opens a 16 by 1 canvas |
| CreateScreen.NoDigitsReportedFirst | src/screens/Create.js:26-29 | a field without digits gives "Invalid Input", even beside a negative one |
| CreateScreen.NonPositiveReportedBeforeTooLarge | src/screens/Create.js:31-34 | -3 by 101 gives "Invalid Dimensions" |
| CreateScreen.TooLargeRejected | src/screens/Create.js:36-39 | 101 by 7 gives "Dimensions Too Large" |
| CreateScreen.Preset16Accepted | src/screens/Create.js:94-95 | the 16 by 16 preset opens a 16 by 16 canvas |
| CreateScreen.Preset32Accepted | src/screens/Create.js:102-103 | the 32 by 32 preset opens a 32 by 32 canvas |
| CreateScreen.Preset64Accepted | src/screens/Create.js:110-111 | the 64 by 64 preset opens a 64 by 64 canvas |
| CreateScreen.Preset48x24Accepted | src/screens/Create.js:118-119 | the 48 by 24 preset opens a 48 by 24 canvas |
| ColorPicker.CleanHex | src/widgets/ColorPicker.js:47 | the cleaned text has only hex digits and is no longer than the input |
| ColorPicker.CleanAppend | src/widgets/ColorPicker.js:47 | cleaning distributes over concatenation |
| ColorPicker.CleanOne | src/widgets/ColorPicker.js:47 | a hex digit is kept and any other character dropped |
| ColorPicker.CleanFixesHex | src/widgets/ColorPicker.js:47 | cleaning leaves text unchanged exactly when it is all hex digits |
| ColorPicker.CleanIdempotent | src/widgets/ColorPicker.js:47-48 | cleaning twice is cleaning once |
| ColorPicker.StripFirstHash | src/widgets/ColorPicker.js:34 | removing the first `#` shortens the text by one exactly when it has a `#` |
| ColorPicker.StripNoHash | src/widgets/ColorPicker.js:34 | text without `#` is unchanged |
| ColorPicker.StripFirst | src/widgets/ColorPicker.js:34 | only the first `#` goes; the text before and after it is kept |
| ColorPicker.Init | src/widgets/ColorPicker.js:17-18 | with no colour, or an empty one, the picker shows `#000000` and the field `000000`; otherwise it shows the colour, and the field holds the colour without its first `#`, or `000000` when that is empty; so the initial field is never empty |
| ColorPicker.Sync | src/widgets/ColorPicker.js:31-36 | a missing or empty colour changes nothing; otherwise the shown colour is the new one and the field holds it without its first `#` |
| ColorPicker.Mount | src/widgets/ColorPicker.js:17-36 | after mounting, when the `color` effect has run once, a non-empty colour is shown and its text without the first `#` is in the field, even when that is empty; a missing or empty colour leaves `#000000` and `000000` |
| ColorPicker.MountLoneHash | src/widgets/ColorPicker.js:17-36 | mounted with the colour `#`, the picker shows `#` and the field is empty |
| ColorPicker.HexChange | src/widgets/ColorPicker.js:45-56 | the field always takes the cleaned text |
| ColorPicker.EmitsIffSixHex | src/widgets/ColorPicker.js:51-55 | a colour is emitted exactly when the cleaned text has six characters; it is `#` plus the cleaned text, seven characters long, and becomes the shown colour |
| ColorPicker.HexRoundTrip | src/widgets/ColorPicker.js:31-55 | six typed hex digits emit `#` plus the digits, and syncing that colour back puts the same digits in the field |
| ColorPicker.SyncedFieldValid | src/widgets/ColorPicker.js:31-36 | syncing `#` plus six hex digits leaves a field that passes the six-digit test |
| ColorPicker.CommonColorsWellFormed | src/widgets/ColorPicker.js:24-28 | every swatch is `#` plus six hex digits |
| EditorScreen.ZoomIn | src/screens/Editor.js:136-138 | zooming in never exceeds 50 and adds exactly 5 up to 45 |
| EditorScreen.ZoomOut | src/screens/Editor.js:140-142 | zooming out never goes below 10 and subtracts exactly 5 from 15 up |
| EditorScreen.ZoomKeepsReachable | src/screens/Editor.js:136-142 | a press keeps the cell size within 10 to 50 and a multiple of 5 |
| EditorScreen.ZoomsFromDefault | src/screens/Editor.js:136-142 | from the default 20, any sequence of presses keeps the cell size within 10 to 50, a multiple of 5, and positive |
| EditorScreen.ZoomRoundTrip | src/screens/Editor.js:136-142 | in then out restores sizes 10 to 45; out then in restores sizes 15 to 50 |
| EditorScreen.ZoomFixedPoints | src/screens/Editor.js:136-142 | zooming in at 50 and out at 10 change nothing |
| EditorScreen.OfferedBrushReach | src/screens/Editor.js:37 | every brush size offered paints the cell under the pointer when it is on the grid, and reaches no more than two rows and columns from it |
| EditorScreen.ToolsComplete | src/screens/Editor.js:29-34 | every tool is on the tool bar, once |

## Left out

- Rendering is not modelled: the `Pixel` cells, the grid lines and `toggleGrid` (src/widgets/Canvas.js:75-77) only affect what is drawn.
- Timing is not modelled.
  - Each state updater and each `setTimeout` callback runs as one atomic step.
  - A timer callback sees the current props and state, not the ones captured when it was scheduled.
  - Which of several outstanding timers fires first is up to the caller.
- Pointer coordinates are integers. The source receives floating-point positions; for them the cell computation is the same floor.
- The brush's `Math.sqrt(i*i + j*j) <= offset` is modelled as `i*i + j*j <= offset*offset`. The two agree for the integers involved.
- A change of canvas dimensions re-runs the initialisation effect (src/widgets/Canvas.js:40-45). Here that is a new `Canvas` object. The new object also resets the last drawn cell, the pending list, the throttle flag, the fill flag and the count of outstanding timers, which the source's effect leaves as they are; it resets only the grid and the history.
- CreateScreen.ParseInt: the result is an exact integer, not a double. Any value large enough for the difference to matter is above 100 either way, and so is Infinity. `-0` is 0, and it is rejected as non-positive just as in the source.
- The colour picker's swatch and wheel selection go through the external `tinycolor2` library (src/widgets/ColorPicker.js:38-43, 58-62). They are not modelled. The `ColorWheel` widget and the picker's layout are UI.
- The editor's saving and exporting depend on view capture, the media library, storage and alerts (src/screens/Editor.js:40-134). They are not modelled, and neither are navigation and the screen layout.
- src/widgets/ZoomableView.js and src/widgets/Art.js are gesture animation and navigation only. src/utils/StorageService.js is persistence. These files are not part of this model.
- The interpolation of src/widgets/Canvas.js:216-223 is not modelled as a step of `Move`, because it cannot run (see above). `getLinePoints` itself is modelled and proved on its own as `LineInterpolation.LinePoints`.
