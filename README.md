# DragDropGrid drag-reorder engine in Dafny

This project models the core of `DragDropGrid`, an Android view group. The grid lays out equally sized cells in rows and columns. A long press picks one cell up. While the cell is dragged, the cells it passes over slide aside. On release, the dragged cell animates into its new place. The model keeps the integer logic and leaves out the platform views:

- **Grid geometry**: `pointWithIndex`, `indexWithPoint` and half-open `Rect.contains`. These are pure functions over a `GridGeometry` record. Java's truncating `/` and `%` are written out in `JavaInt`.
- **Grid sizing**: `computeGridMatrixSize`, `computeColumnsAndRowsSizes`, the measured height in `onMeasure`, and the header and footer frames in `onLayout`. These are in `Sizing`, over an `Adapter` record that folds in the `DragDropGridAdapter` interface.
- **Reorder algorithm**: `transferChildView`. `Reorder` writes it step by step over the sequence of cell indices. Each cell is looked up afresh with `viewWithIndex`, and a step whose lookup misses is skipped. The lemmas show the result is a range shift, and that it keeps the indices a permutation of `0..n-1`.
- **Drag-location state machine**: the `ACTION_DRAG_LOCATION` branch of `onDrag`, driven by `mLastOverlapIndex`. `Session` models it as a function of the controller state. From a state where the dragged cell holds the last overlap index (`Session.Valid`, which the corrected `startDrag` establishes), a run of events keeps the indices a permutation, and time spent outside the grid reorders nothing. As written, both can fail; see "## Findings".
- **The view group itself**: `DragDropGrid.Grid`, a class with the fields the Java class updates in place. Cell indices and cell origins are arrays, one slot per cell view. The methods follow the Java loops, and their postconditions tie each new state to the functions above: `viewWithIndex`, `indexWithPoint`, the two reorder loops, `moveDraggedView`, `startDrag`, the drag-location branch, drag end and settle completion, `onMeasure` and `onLayout`.

Three points of the code's behaviour shape the model:
- During a drag, `onLayout` places no cell at all, not even the cells that are not dragged (DragDropGrid.java:227).
- When the pointer leaves the grid, `mLastOverlapIndex` becomes -1 (DragDropGrid.java:517), so the last index over the grid is not kept.
- `transferChildView` first places the dragged view at its new cell's corner (DragDropGrid.java:727-730). `moveDraggedView` then puts it back under the pointer within the same event (DragDropGrid.java:515).

## Model

| member | source | states |
|---|---|---|
| JavaInt.Div | src/com/example/dragdropgrid/lib/DragDropGrid.java:259 | Java's integer `/`, which truncates toward zero; DivIsTruncated states its meaning |
| JavaInt.Rem | src/com/example/dragdropgrid/lib/DragDropGrid.java:258 | Java's `%`, the remainder left by Div; DivIsTruncated states its meaning |
| JavaInt.DivIsTruncated | src/com/example/dragdropgrid/lib/DragDropGrid.java:258-259 | Java `/` rounds the quotient toward zero and `%` is what is left: dividend = divisor times quotient plus remainder, the remainder takes the dividend's sign and is below the divisor in size |
| Geometry.PointWithIndex | src/com/example/dragdropgrid/lib/DragDropGrid.java:256-263 | the top-left pixel of a cell; PointWithIndexIsCorner and PointWithIndexRoundTrip state what it is |
| Geometry.Rect.Contains | src/com/example/dragdropgrid/lib/DragDropGrid.java:275-276 | Android's half-open `Rect.contains`: left and top edges inside, right and bottom edges outside; CellRectsDisjoint and IndexWithPointRoundTrip rest on it |
| Geometry.CellRect | src/com/example/dragdropgrid/lib/DragDropGrid.java:268-275 | the rectangle indexWithPoint tests for a cell; CellRectsDisjoint and IndexWithPointRoundTrip state its properties |
| Geometry.PointWithIndexIsCorner | src/com/example/dragdropgrid/lib/DragDropGrid.java:256-263 | the top-left pixel is (index mod columns) times the column width, and (index div columns) times the row height plus the header height; it is the corner of the rectangle indexWithPoint tests for that index, and lies inside it when cells have positive size |
| Geometry.SearchFrom | src/com/example/dragdropgrid/lib/DragDropGrid.java:267-280 | the scan returns the first cell from `from` on whose rectangle contains the point, or -1 exactly when no such cell exists |
| Geometry.IndexWithPoint | src/com/example/dragdropgrid/lib/DragDropGrid.java:265-281 | the result is -1 exactly when no cell rectangle holds the point; otherwise it is the first cell whose half-open rectangle holds it |
| Geometry.CellRectsDisjoint | src/com/example/dragdropgrid/lib/DragDropGrid.java:268-276 | with positive sizes and columns, no point lies in two different cells' rectangles |
| Geometry.IndexWithPointRoundTrip | src/com/example/dragdropgrid/lib/DragDropGrid.java:265-281 | any point inside cell i's rectangle resolves to i, for 0 <= i < count |
| Geometry.PointWithIndexRoundTrip | src/com/example/dragdropgrid/lib/DragDropGrid.java:256-281 | indexWithPoint at pointWithIndex(i) returns i |
| Geometry.IndexWithPointIsCellUnder | src/com/example/dragdropgrid/lib/DragDropGrid.java:265-281 | the linear scan equals the direct computation by division: column x/width and row (y-header)/height, or -1 left of, right of or above the grid, or past the last cell |
| Geometry.DraggedViewOrigin | src/com/example/dragdropgrid/lib/DragDropGrid.java:562-577 | with a touch point the half-width terms cancel, so the view's corner is the pointer minus the touch point; without one, the corner is the pointer minus half the width and half the height, in Java's truncating division, so a view of positive size is centred under the pointer |
| Sizing.MatrixSize | src/com/example/dragdropgrid/lib/DragDropGrid.java:334-352 | neither count is ever 0; non-negative adapter counts give counts of at least 1, a count of 0 becomes exactly 1, and positive ones are kept as is; an AUTOMATIC count keeps the previous values, with 0 raised to exactly 1 |
| Sizing.ColumnsAndRowsSizes | src/com/example/dragdropgrid/lib/DragDropGrid.java:325-328 | the column width (row height) is the largest size that fits the column (row) count times into the available width (height) |
| Sizing.GridHeight | src/com/example/dragdropgrid/lib/DragDropGrid.java:312 | the height onMeasure gives the grid: the adapter's child height times its row count; MeasuredHeight and CellsBetweenHeaderAndFooter build on it |
| Sizing.MeasuredHeight | src/com/example/dragdropgrid/lib/DragDropGrid.java:312-322 | the reported height is the larger of the rows times the child height and the adapter's view height |
| Sizing.RowHeightIsChildHeight | src/com/example/dragdropgrid/lib/DragDropGrid.java:312-327 | with positive adapter counts, the measured row height equals the adapter's child height |
| Sizing.HeaderFrame | src/com/example/dragdropgrid/lib/DragDropGrid.java:232-233 | the header's frame, from the top of the grid down to the header height; CellsBetweenHeaderAndFooter places every cell below it |
| Sizing.FooterFrame | src/com/example/dragdropgrid/lib/DragDropGrid.java:235-238 | the footer's frame, starting rowCount child heights below the header; CellsBetweenHeaderAndFooter places every cell above it |
| Sizing.CellsBetweenHeaderAndFooter | src/com/example/dragdropgrid/lib/DragDropGrid.java:226-240 | after measuring, every one of the rowCount times columnCount cells lies below the header frame and above the footer frame |
| Reorder.LookupFrom | src/com/example/dragdropgrid/lib/DragDropGrid.java:291-294 | the scan from slot `from` returns the first slot holding the index, or -1 exactly when no slot from there on holds it |
| Reorder.Lookup | src/com/example/dragdropgrid/lib/DragDropGrid.java:290-296 | viewWithIndex returns -1 exactly when no cell holds the index; otherwise it returns the first cell that does |
| Reorder.LookupOwnIndex | src/com/example/dragdropgrid/lib/DragDropGrid.java:290-296 | on distinct indices, looking up a cell's own index finds that cell |
| Reorder.ShiftStep | src/com/example/dragdropgrid/lib/DragDropGrid.java:688-704 | one iteration of either loop: the cell viewWithIndex finds, if any, gets its index moved by one; ForwardStepsShift and BackwardStepsShift state what the steps add up to |
| Reorder.ForwardSteps | src/com/example/dragdropgrid/lib/DragDropGrid.java:686-705 | the ascending loop as a run of ShiftSteps; ForwardStepsShift and ForwardLoopIsShift state its effect |
| Reorder.BackwardSteps | src/com/example/dragdropgrid/lib/DragDropGrid.java:707-724 | the descending loop as a run of ShiftSteps; BackwardStepsShift and BackwardLoopIsShift state its effect |
| Reorder.ForwardStepsShift | src/com/example/dragdropgrid/lib/DragDropGrid.java:686-705 | on distinct indices, the ascending loop lowers by one exactly the cells whose index lies in the loop's range, including when some lookups miss |
| Reorder.BackwardStepsShift | src/com/example/dragdropgrid/lib/DragDropGrid.java:707-724 | on distinct indices, the descending loop raises by one exactly the cells whose index lies in the loop's range |
| Reorder.ForwardStepsExtend | src/com/example/dragdropgrid/lib/DragDropGrid.java:686-705 | running the ascending loop one index further appends one lookup-and-lower step, which is what each iteration does |
| Reorder.BackwardStepsExtend | src/com/example/dragdropgrid/lib/DragDropGrid.java:707-724 | running the descending loop one index further down appends one lookup-and-raise step |
| Reorder.ForwardLoopIsShift | src/com/example/dragdropgrid/lib/DragDropGrid.java:685-705 | on distinct indices, the whole ascending loop from fromIndex+1 to toIndex lowers exactly the cells whose index lies in (fromIndex, toIndex] |
| Reorder.BackwardLoopIsShift | src/com/example/dragdropgrid/lib/DragDropGrid.java:706-725 | on distinct indices, the whole descending loop from fromIndex-1 down to toIndex raises exactly the cells whose index lies in [toIndex, fromIndex) |
| Reorder.Transfer | src/com/example/dragdropgrid/lib/DragDropGrid.java:682-731 | transferChildView on the indices: the loop toIndex selects, then the dragged cell takes toIndex; TransferForward, TransferBackward, TransferToSelf and TransferPreservesPermutation state its effect |
| Reorder.TransferForward | src/com/example/dragdropgrid/lib/DragDropGrid.java:685-729 | when toIndex > fromIndex, cells with index in (fromIndex, toIndex] drop by one, the dragged cell gets toIndex, and every other index stays |
| Reorder.TransferBackward | src/com/example/dragdropgrid/lib/DragDropGrid.java:706-729 | when toIndex <= fromIndex, cells with index in [toIndex, fromIndex) rise by one, the dragged cell gets toIndex, and every other index stays |
| Reorder.TransferToSelf | src/com/example/dragdropgrid/lib/DragDropGrid.java:706-729 | a reorder to the dragged cell's own index changes nothing |
| Reorder.TransferPreservesPermutation | src/com/example/dragdropgrid/lib/DragDropGrid.java:682-731 | if the indices are a permutation of 0..n-1 and 0 <= toIndex < n, they still are after the reorder |
| Reorder.Arrangement | src/com/example/dragdropgrid/lib/DragDropGrid.java:290-296 | grid position p holds the cell that viewWithIndex(p) finds, and that cell's index is p |
| Reorder.ArrangementIsInverse | src/com/example/dragdropgrid/lib/DragDropGrid.java:290-296 | on distinct indices, any sequence that names for each position p a cell holding p is the arrangement; viewWithIndex inverts the numbering |
| Reorder.ForwardExample | src/com/example/dragdropgrid/lib/DragDropGrid.java:685-705 | example, one input: dragging the cell holding 0 of indices [0,1,2,3,4] to index 3 gives the indices [3,0,1,2,4] |
| Reorder.ForwardExampleOrder | src/com/example/dragdropgrid/lib/DragDropGrid.java:685-705 | example, one input: after that same drag, the grid shows the cells in the order [1,2,3,0,4] |
| Reorder.BackwardExample | src/com/example/dragdropgrid/lib/DragDropGrid.java:706-725 | example, one input: dragging the cell holding 4 of indices [0,1,2,3,4] to index 1 gives the indices [0,2,3,4,1] |
| Reorder.BackwardExampleOrder | src/com/example/dragdropgrid/lib/DragDropGrid.java:706-725 | example, one input: after that same drag, the grid shows the cells in the order [0,4,1,2,3] |
| Session.EnterTarget | src/com/example/dragdropgrid/lib/DragDropGrid.java:500-513 | the same index as last time enters nothing; a new index is entered; no index re-enters the last index |
| Session.OnDragLocation | src/com/example/dragdropgrid/lib/DragDropGrid.java:492-518 | without a dragged view nothing changes; otherwise mLastOverlapIndex becomes the resolved index, -1 included; the cell count and the dragged cell stay |
| Session.DragLocationPreservesValid | src/com/example/dragdropgrid/lib/DragDropGrid.java:492-518 | from a state where the dragged cell holds the last overlap index (Session.Valid, which the corrected startDrag establishes), a drag-location event keeps Valid and the indices a permutation, and leaves the dragged cell holding the overlap index; as written this can fail, see ## Findings |
| Session.OutsideGridKeepsIndices | src/com/example/dragdropgrid/lib/DragDropGrid.java:509-517 | from a state where the dragged cell holds the last overlap index (Session.Valid, which the corrected startDrag establishes), overlap index -1 re-enters the dragged cell's own index, which is a no-op; no cell's index changes, and mLastOverlapIndex becomes -1; as written this can fail, see ## Findings |
| Session.SameOverlapKeepsIndices | src/com/example/dragdropgrid/lib/DragDropGrid.java:500-502 | in any well-formed state, stale overlap index included, the same overlap index as last time causes no reorder |
| Session.NewOverlapReorders | src/com/example/dragdropgrid/lib/DragDropGrid.java:503-508 | in any well-formed state with a dragged cell, stale overlap index included, a new valid overlap index reorders the dragged cell onto it |
| Session.RunLocations | src/com/example/dragdropgrid/lib/DragDropGrid.java:492-518 | a run of drag-location events keeps the cell count and the dragged cell |
| Session.RunPreservesValid | src/com/example/dragdropgrid/lib/DragDropGrid.java:492-518 | from a state where the dragged cell holds the last overlap index (Session.Valid, which the corrected startDrag establishes), any sequence of drag-location events keeps Valid and the indices a permutation of 0..n-1; as written this can fail, see ## Findings |
| Session.RunPreservesPermutation | src/com/example/dragdropgrid/lib/DragDropGrid.java:492-518 | a run of drag-location events keeps the indices a permutation of 0..n-1 whenever the last overlap index is -1 or a valid index, even one the dragged cell does not hold |
| Session.RunOutsideKeepsIndices | src/com/example/dragdropgrid/lib/DragDropGrid.java:509-517 | from a state where the dragged cell holds the last overlap index (Session.Valid, which the corrected startDrag establishes), any stretch of events outside the grid leaves every index unchanged; as written this can fail, see ## Findings |
| Session.StartDragAsWritten | src/com/example/dragdropgrid/lib/DragDropGrid.java:453-454 | as written, startDrag sets the dragged cell and keeps mLastOverlapIndex from before |
| Session.StartDrag | src/com/example/dragdropgrid/lib/DragDropGrid.java:453-454 | startDrag sets the dragged cell and resets the last overlap index to none (corrected) |
| Session.SettleComplete | src/com/example/dragdropgrid/lib/DragDropGrid.java:546-551 | settle completion clears the dragged view and leaves indices and the overlap index alone |
| Session.StartDragValid | src/com/example/dragdropgrid/lib/DragDropGrid.java:453-469 | starting a drag on any cell of a permutation establishes the controller invariant |
| Session.StaleOverlapReordersOutsideGrid | src/com/example/dragdropgrid/lib/DragDropGrid.java:509-512 | as written, a second drag whose first event is outside the grid reorders to the previous drag's overlap index, and one over that cell does not reorder |
| Session.StartDragThenOutsideKeepsIndices | src/com/example/dragdropgrid/lib/DragDropGrid.java:453-469 | with the reset, events outside the grid never reorder, whatever earlier drags left behind |
| Session.StartDragEntersStaleCell | src/com/example/dragdropgrid/lib/DragDropGrid.java:500-508 | with the reset, the same second drag ignores the outside event, and reorders on entering cell 3 |
| Session.Numbering | src/com/example/dragdropgrid/lib/DragDropGrid.java:217-223 | the indices addChildView hands out: cell k holds k, for k below the item count |
| Session.NumberingIsPermutation | src/com/example/dragdropgrid/lib/DragDropGrid.java:217-223 | the fresh numbering is a permutation of 0..n-1 |
| Session.SetAdapterAsWritten | src/com/example/dragdropgrid/lib/DragDropGrid.java:202-215 | setAdapter renumbers the cells 0..n-1 and, as written, keeps mLastOverlapIndex from before |
| Session.ShrunkGridBreaksPermutation | src/com/example/dragdropgrid/lib/DragDropGrid.java:202-215 | as written, ten cells, a drag of cell 8 released over its own place, setAdapter with five items, and a drag of cell 0 whose first event is outside the grid give the indices [8,0,1,2,3], which are not a permutation |
| Session.StartDragAfterSetAdapterKeepsPermutation | src/com/example/dragdropgrid/lib/DragDropGrid.java:202-215 | with the corrected startDrag, any run of drag-location events after setAdapter keeps the new indices a permutation of 0..n-1 |
| DragDropGrid.Grid.constructor | src/com/example/dragdropgrid/lib/DragDropGrid.java:127-200 | a new grid has no cells, the dummy adapter, and no dragged view |
| DragDropGrid.Grid.ChildCount | src/com/example/dragdropgrid/lib/DragDropGrid.java:228 | getChildCount: the cells plus the header and footer views the adapter supplies; DragAndDropElementCount takes them off again |
| DragDropGrid.Grid.DragAndDropElementCount | src/com/example/dragdropgrid/lib/DragDropGrid.java:283-288 | taking the header and footer off the child count leaves exactly the number of cells |
| DragDropGrid.Grid.SetAdapter | src/com/example/dragdropgrid/lib/DragDropGrid.java:202-223 | removeAllViews drops every cell and its animation, and addChildView adds one cell per item, none for a negative count; cell k holds index k (numbered by the adapter's getView) with origin (0,0); the controller state is SetAdapterAsWritten, so mLastOverlapIndex is kept; the counts, cell sizes and touch point are untouched; the grid stays valid |
| DragDropGrid.Grid.AddChildView | src/com/example/dragdropgrid/lib/DragDropGrid.java:217-223 | the loop creates one cell per item, none for a negative count, numbered 0..n-1 (Numbering) |
| DragDropGrid.Grid.ComputeGridMatrixSize | src/com/example/dragdropgrid/lib/DragDropGrid.java:334-352 | the new counts are MatrixSize of the adapter and the previous counts |
| DragDropGrid.Grid.ComputeColumnsAndRowsSizes | src/com/example/dragdropgrid/lib/DragDropGrid.java:325-328 | the new cell sizes are ColumnsAndRowsSizes of the available size and the counts |
| DragDropGrid.Grid.Measure | src/com/example/dragdropgrid/lib/DragDropGrid.java:298-323 | the counts and cell sizes are recomputed for a grid of rowCount child heights; the reported height is MeasuredHeight |
| DragDropGrid.Grid.Layout | src/com/example/dragdropgrid/lib/DragDropGrid.java:225-240 | with no dragged view, every cell is placed at pointWithIndex of its index, so in a proper grid it resolves back to that index; during a drag no cell moves; the header and footer get their frames |
| DragDropGrid.Grid.LayoutAChild | src/com/example/dragdropgrid/lib/DragDropGrid.java:242-254 | one cell goes to pointWithIndex of its index, and nothing else moves |
| DragDropGrid.Grid.ViewWithIndex | src/com/example/dragdropgrid/lib/DragDropGrid.java:290-296 | the loop returns Lookup: the first cell holding the index, or -1 |
| DragDropGrid.Grid.FindIndexWithPoint | src/com/example/dragdropgrid/lib/DragDropGrid.java:265-281 | the loop returns IndexWithPoint for the grid's geometry and cell count |
| DragDropGrid.Grid.TransferChildView | src/com/example/dragdropgrid/lib/DragDropGrid.java:682-731 | the new indices are Transfer of the old ones; only the dragged view is placed, at toIndex's corner; every other cell whose index changed is animating to its new corner, no cell whose index stayed gets a new animation, and no other animation changes (AnimationsFollow) |
| DragDropGrid.Grid.ShiftTowards | src/com/example/dragdropgrid/lib/DragDropGrid.java:684-725 | the loop toIndex selects leaves indices that, with the dragged cell given toIndex, are Transfer of the old ones; every changed cell is animating to its new corner |
| DragDropGrid.Grid.ShiftForward | src/com/example/dragdropgrid/lib/DragDropGrid.java:686-705 | the ascending loop computes ForwardSteps, leaves the dragged cell alone, and animates each moved cell to its new corner |
| DragDropGrid.Grid.ShiftBackward | src/com/example/dragdropgrid/lib/DragDropGrid.java:707-724 | the descending loop computes BackwardSteps, leaves the dragged cell alone, and animates each moved cell to its new corner |
| DragDropGrid.Grid.ShiftCell | src/com/example/dragdropgrid/lib/DragDropGrid.java:688-704 | one iteration is ShiftStep: if no cell holds index i, nothing changes; otherwise the first cell holding i gets moveIndex, and the animations map becomes the old one with that cell's entry replaced by moveIndex's corner; the dragged cell is untouched |
| DragDropGrid.Grid.PlaceDragged | src/com/example/dragdropgrid/lib/DragDropGrid.java:727-730 | the dragged cell takes toIndex and is placed at toIndex's corner; no other cell changes |
| DragDropGrid.Grid.MoveDraggedView | src/com/example/dragdropgrid/lib/DragDropGrid.java:562-577 | only the dragged view moves; with a touch point, its corner is the pointer minus the touch point |
| DragDropGrid.Grid.StartDrag | src/com/example/dragdropgrid/lib/DragDropGrid.java:453-469 | the dragged cell and the grab point are recorded; the last overlap index is reset (corrected); the grid stays valid |
| DragDropGrid.Grid.DispatchOverlap | src/com/example/dragdropgrid/lib/DragDropGrid.java:500-513 | the same index as last time (onDragOver) changes nothing; a new index, or the last one re-entered from outside, reorders to EnterTarget; only the dragged view's origin may change |
| DragDropGrid.Grid.DragLocation | src/com/example/dragdropgrid/lib/DragDropGrid.java:492-518 | the new state is OnDragLocation at the point's overlap index, so the indices stay a permutation; outside the grid no index changes; the dragged view follows the pointer; every cell whose index changed is animating to its new corner |
| DragDropGrid.Grid.DragEnded | src/com/example/dragdropgrid/lib/DragDropGrid.java:652-680 | with a dragged view, the settle animation targets pointWithIndex of the index the view holds now |
| DragDropGrid.Grid.SettleComplete | src/com/example/dragdropgrid/lib/DragDropGrid.java:546-551 | the settled view stands at the settle target, the dragged view becomes null, and indices are untouched |

## Findings

| source | as written | input that shows it | evidently intended | confidence | as-written member | corrected member |
|---|---|---|---|---|---|---|
| src/com/example/dragdropgrid/lib/DragDropGrid.java:453-469 | `startDrag` sets `mDraggingView`, but `mLastOverlapIndex` keeps the value from the previous drag | cells [0,1,2,3,4]; drag cell 3 and release it over its own place, which leaves `mLastOverlapIndex` at 3; drag cell 0, and let the first location event fall outside the grid: the indices become [3,0,1,2,4]. If instead the first event is over cell 3, no reorder happens | each drag session starts with no last overlap index, so leaving the grid never reorders | medium, not executed | Session.StaleOverlapReordersOutsideGrid | Session.StartDragThenOutsideKeepsIndices |
| src/com/example/dragdropgrid/lib/DragDropGrid.java:202-215 | `setAdapter` renumbers the cells, but `mLastOverlapIndex` keeps the value from the last drag, which may lie past the new cell count | ten cells; drag cell 8 and release it over its own place, which leaves `mLastOverlapIndex` at 8; `setAdapter` with five items; drag cell 0, and let the first location event fall outside the grid: the indices become [8,0,1,2,3], so index 4 is lost and 8 names no grid position | a new drag never reorders toward an index the grid does not have | medium, not executed | Session.ShrunkGridBreaksPermutation | Session.StartDragAfterSetAdapterKeepsPermutation |

`DragDropGrid.Grid.StartDrag` uses the corrected behaviour: it resets the last overlap index to -1.

## Left out

- Android view plumbing is not modelled: `addView`, `removeAllViews`, `bringToFront`, `measureChildren` and `layout` as platform calls. Cells are slots with an index and an origin. `bringToFront` only changes the order in which `viewWithIndex` scans children, and on distinct indices the result is the same.
- Cell selection by screen hit-testing is not modelled: `onLongClick`, `onClick`, `positionForView`, `isPointInsideView`, `touchDown` and `onTouch`. `Grid.StartDrag` takes the chosen slot directly. The click notification changes no state.
- `TabDragShadowBuilder` is not modelled. `Grid.StartDrag` takes the grab point it would report as a parameter. `ClipData` and the platform's drag session are not modelled either.
- The `ValueAnimator` frames in `transferAnimation` and `returnDraggingViewPosition` are float, time-driven interpolation and are not modelled. Only the target of each animation is kept. Cancelling and replacing an animation is a map update. A transfer animation that finishes stays in the map.
- Grid.SettleComplete: the settled position is the target exactly. The source computes the last frame in `float`, which is exact only while coordinates stay below 2^24.
- The `DragAndDropElement` hooks (`onDragStartPreceding`, `onDragEnded`) and the `DragSource` callbacks are host code and are not modelled.
- `onMeasure` queries the display's width through `WindowManager` (`acknowledgeWidthSize`). `Grid.Measure` takes the width as a parameter instead.
- Java's 32-bit `int` wrap-around is not modelled: all arithmetic is unbounded. Event coordinates arrive as already-truncated integers.
- Grid.SetAdapter requires that no drag or settle is in progress. Replacing the adapter mid-drag leaves the source holding a removed view, which slots cannot represent.
- Session.SetAdapterAsWritten requires that no drag is in progress, for the same reason.
- Grid.SetAdapter assumes the adapter's `getView(k)` numbers cell k with index k, as the sample host does. The library itself never sets initial indices.
- Grid.Valid requires a non-zero adapter column count. `pointWithIndex` and `indexWithPoint` divide by the adapter's own count, not by the coerced `computedColumnCount`, so a count of 0 makes the source throw `ArithmeticException`. That throw is not modelled.
- Grid.DragEnded: if a second drag end arrives while a settle animation is running, the model replaces the pending settle. The source would run both animations and fire both completions.
- `getDraggingView(String)` and the logging are debug helpers and are not modelled.
- `MainActivity` is a sample host and is not modelled. `DragDropGridAdapter` has no behaviour of its own; it is folded into the `Sizing.Adapter` record.
