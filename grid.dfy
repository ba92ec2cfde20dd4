/**
 * The DragDropGrid view group, stripped of the platform: a class whose fields are the ones
 * the Java class updates in place and whose methods follow its loops and branches.
 *
 * Cell views are slots 0..n-1. `indices[k]` is the index cell k reports through getIndex
 * and `origins[k]` the top-left corner it was last laid out at; `dragging` is the slot of
 * mDraggingView (-1 for null), `lastOverlap` is mLastOverlapIndex, `touchPoint` is
 * mLastTouchPoint, `animations` maps each cell with a running transfer animation to the
 * point it ends on, and `settle` is the settle animation in flight.
 */
module DragDropGrid {
  import JavaInt
  import opened Wrappers
  import opened Geometry
  import opened Sizing
  import opened Reorder
  import opened Session

  /** A settle animation in flight: the cell it moves and the point it ends on. */
  datatype Settle = Settle(slot: int, target: Point)

  class Grid {
    var adapter: Adapter
    var computedColumnCount: int
    var computedRowCount: int
    var columnWidthSize: int
    var rowHeightSize: int
    var indices: array<int>
    var origins: array<Point>
    var dragging: int
    var lastOverlap: int
    var touchPoint: Option<Point>
    var animations: map<int, Point>
    var settle: Option<Settle>

    /** The controller state the drag-location events act on. */
    function State(): DragState
      reads this`indices, this`dragging, this`lastOverlap, indices
    {
      DragState(indices[..], dragging, lastOverlap)
    }

    /** What pointWithIndex and indexWithPoint read. */
    function CellGeometry(): GridGeometry
      reads this`adapter, this`columnWidthSize, this`rowHeightSize
    {
      GridGeometry(adapter.columnCount, columnWidthSize, rowHeightSize, adapter.headerViewHeight)
    }

    ghost predicate Valid()
      reads this, indices
    {
      indices.Length == origins.Length &&
      adapter.columnCount != 0 &&
      Session.Valid(State()) &&
      (settle.Some? ==> 0 <= settle.value.slot < indices.Length)
    }

    /** init: no cells yet, and the dummy adapter in place of a missing one. */
    constructor ()
      ensures Valid() && fresh(indices) && fresh(origins)
      ensures adapter == DummyAdapter && indices.Length == 0
      ensures dragging == -1 && lastOverlap == -1 && touchPoint == None && settle == None
    {
      adapter := DummyAdapter;
      computedColumnCount, computedRowCount := 0, 0;
      columnWidthSize, rowHeightSize := 0, 0;
      indices := new int[0];
      origins := new Point[0];
      dragging, lastOverlap := -1, -1;
      touchPoint := None;
      animations := map[];
      settle := None;
    }

    /** getChildCount: the cells plus the header and footer views the adapter supplies. */
    function ChildCount(): int
      reads this, indices
    {
      indices.Length + (if adapter.hasHeader then 1 else 0) + (if adapter.hasFooter then 1 else 0)
    }

    /** getDragAndDropElementCount: the header and footer are not cells, so this is the cell count. */
    function DragAndDropElementCount(): (count: int)
      reads this, indices
      ensures count == indices.Length
    {
      var count := ChildCount();
      var count := if adapter.hasFooter then count - 1 else count;
      if adapter.hasHeader then count - 1 else count
    }

    /**
     * setAdapter: removeAllViews drops every cell, with its animations, and one new cell per
     * item (none for a negative count) is added, numbered with its position by the adapter's
     * getView and not yet laid out; then the header and footer. mLastOverlapIndex is kept.
     */
    method SetAdapter(a: Adapter)
      requires Valid() && dragging == -1 && settle == None
      requires a.columnCount != 0
      modifies this
      ensures Valid() && fresh(indices) && fresh(origins)
      ensures adapter == a && dragging == -1 && settle == None
      ensures indices.Length == if a.itemCount < 0 then 0 else a.itemCount
      ensures forall k :: 0 <= k < indices.Length ==> indices[k] == k
      ensures State() == SetAdapterAsWritten(old(State()), indices.Length)
      ensures forall k :: 0 <= k < origins.Length ==> origins[k] == Point(0, 0)
      ensures animations == map[]
      ensures lastOverlap == old(lastOverlap) && touchPoint == old(touchPoint)
      ensures computedColumnCount == old(computedColumnCount) && computedRowCount == old(computedRowCount)
      ensures columnWidthSize == old(columnWidthSize) && rowHeightSize == old(rowHeightSize)
    {
      var cells := AddChildView(a.itemCount);
      var n := cells.Length;
      adapter := a;
      indices := cells;
      origins := new Point[n](_ => Point(0, 0));
      animations := map[];
    }

    /** addChildView: one new cell per item, none for a negative count, cell k numbered k. */
    static method AddChildView(count: int) returns (cells: array<int>)
      ensures fresh(cells) && cells.Length == (if count < 0 then 0 else count)
      ensures cells[..] == Numbering(cells.Length)
    {
      var n := if count < 0 then 0 else count;
      cells := new int[n];
      var index := 0;
      while index < count
        modifies cells
        invariant 0 <= index <= n
        invariant forall k :: 0 <= k < index ==> cells[k] == k
      {
        cells[index] := index;
        index := index + 1;
      }
      assert cells[..] == Numbering(n);
    }

    /** computeGridMatrixSize: the adapter's counts unless AUTOMATIC, a zero count coerced to 1. */
    method ComputeGridMatrixSize()
      modifies this`computedColumnCount, this`computedRowCount
      ensures (computedColumnCount, computedRowCount) ==
        MatrixSize(adapter, old(computedColumnCount), old(computedRowCount))
    {
      if adapter.columnCount != AUTOMATIC && adapter.rowCount != AUTOMATIC {
        computedColumnCount := adapter.columnCount;
        computedRowCount := adapter.rowCount;
      }
      if computedColumnCount == 0 {
        computedColumnCount := 1;
      }
      if computedRowCount == 0 {
        computedRowCount := 1;
      }
    }

    /** computeColumnsAndRowsSizes: the cell size from the available size and the counts. */
    method ComputeColumnsAndRowsSizes(widthSize: int, heightSize: int)
      requires computedColumnCount != 0 && computedRowCount != 0
      modifies this`columnWidthSize, this`rowHeightSize
      ensures (columnWidthSize, rowHeightSize) ==
        ColumnsAndRowsSizes(widthSize, heightSize, computedColumnCount, computedRowCount)
    {
      columnWidthSize := JavaInt.Div(widthSize, computedColumnCount);
      rowHeightSize := JavaInt.Div(heightSize, computedRowCount);
    }

    /**
     * onMeasure, given the width the platform settled on: the grid is as high as the
     * adapter's rows of child height (at least the adapter's view height), and the counts
     * and cell sizes are recomputed from that.
     */
    method Measure(widthSize: int) returns (measuredWidth: int, measuredHeight: int)
      requires Valid()
      modifies this`computedColumnCount, this`computedRowCount, this`columnWidthSize, this`rowHeightSize
      ensures Valid()
      ensures (computedColumnCount, computedRowCount) ==
        MatrixSize(adapter, old(computedColumnCount), old(computedRowCount))
      ensures (columnWidthSize, rowHeightSize) ==
        ColumnsAndRowsSizes(widthSize, GridHeight(adapter), computedColumnCount, computedRowCount)
      ensures measuredWidth == widthSize && measuredHeight == MeasuredHeight(adapter)
    {
      var heightSize := adapter.childViewHeight * adapter.rowCount;
      ComputeGridMatrixSize();
      ComputeColumnsAndRowsSizes(widthSize, heightSize);
      if heightSize < adapter.viewHeight {
        heightSize := adapter.viewHeight;
      }
      measuredWidth, measuredHeight := widthSize, heightSize;
    }

    /**
     * onLayout for a grid `width` wide: with no dragged view every cell is placed at
     * pointWithIndex of its index, so in a grid of proper cells each lies over its own index;
     * during a drag no cell is placed. Returns the frames the header and footer are given.
     */
    method Layout(width: int) returns (header: Option<Rect>, footer: Option<Rect>)
      requires Valid()
      modifies origins
      ensures Valid()
      ensures dragging == -1 ==>
        forall k :: 0 <= k < origins.Length ==> origins[k] == PointWithIndex(CellGeometry(), indices[k])
      ensures dragging == -1 && CellGeometry().Proper() ==>
        forall k :: 0 <= k < origins.Length ==>
          IndexWithPoint(CellGeometry(), indices.Length, origins[k].x, origins[k].y) == indices[k]
      ensures dragging != -1 ==> origins[..] == old(origins[..])
      ensures header == if adapter.hasHeader then Some(HeaderFrame(adapter, width)) else None
      ensures footer == if adapter.hasFooter then Some(FooterFrame(adapter, width)) else None
    {
      if dragging == -1 {
        var index := 0;
        while index < origins.Length
          invariant 0 <= index <= origins.Length
          invariant forall k :: 0 <= k < index ==> origins[k] == PointWithIndex(CellGeometry(), indices[k])
        {
          LayoutAChild(index);
          index := index + 1;
        }
        if CellGeometry().Proper() {
          forall k | 0 <= k < origins.Length
            ensures IndexWithPoint(CellGeometry(), indices.Length, origins[k].x, origins[k].y) == indices[k]
          {
            PointWithIndexRoundTrip(CellGeometry(), indices.Length, indices[k]);
          }
        }
      }
      header := if adapter.hasHeader then Some(Rect(0, 0, width, adapter.headerViewHeight)) else None;
      if adapter.hasFooter {
        var footerY := adapter.rowCount * adapter.childViewHeight + adapter.headerViewHeight;
        footer := Some(Rect(0, footerY, width, footerY + adapter.footerViewHeight));
      } else {
        footer := None;
      }
    }

    /** layoutAChild: the cell in `slot` goes to pointWithIndex of its index. */
    method LayoutAChild(slot: int)
      requires adapter.columnCount != 0 && indices.Length == origins.Length && 0 <= slot < origins.Length
      modifies origins
      ensures origins[..] == old(origins[..])[slot := PointWithIndex(CellGeometry(), indices[slot])]
    {
      var p := PointWithIndex(CellGeometry(), indices[slot]);
      origins[slot] := p;
    }

    /** viewWithIndex: the first cell reporting `index`, or -1. */
    method ViewWithIndex(index: int) returns (slot: int)
      ensures slot == Lookup(indices[..], index)
    {
      slot := 0;
      while slot < indices.Length
        invariant 0 <= slot <= indices.Length
        invariant forall k :: 0 <= k < slot ==> indices[k] != index
      {
        if indices[slot] == index {
          return;
        }
        slot := slot + 1;
      }
      slot := -1;
    }

    /** indexWithPoint: the first cell whose rectangle contains (x, y), or -1. */
    method FindIndexWithPoint(x: int, y: int) returns (index: int)
      requires adapter.columnCount != 0
      ensures index == IndexWithPoint(CellGeometry(), indices.Length, x, y)
    {
      var childViewCount := DragAndDropElementCount();
      var i := 0;
      while i < childViewCount
        invariant 0 <= i <= childViewCount
        invariant forall j :: 0 <= j < i ==> !CellRect(CellGeometry(), j).Contains(x, y)
      {
        var marginTop := adapter.headerViewHeight;
        var col := JavaInt.Rem(i, adapter.columnCount);
        var row := JavaInt.Div(i, adapter.columnCount);
        var left := col * columnWidthSize;
        var right := left + columnWidthSize;
        var top := row * rowHeightSize + marginTop;
        var bottom := top + rowHeightSize;
        var r := Rect(left, top, right, bottom);
        if r.Contains(x, y) {
          assert r == CellRect(CellGeometry(), i);
          ghost var found := IndexWithPoint(CellGeometry(), indices.Length, x, y);
          assert found != -1 && !(found < i) && !(i < found);
          return i;
        }
        i := i + 1;
      }
      return -1;
    }

    /**
     * transferChildView(toIndex): every cell between the dragged cell's index and `toIndex`,
     * looked up afresh, moves one place towards the dragged cell's old place and gets a
     * transfer animation to that place (replacing any it had); a lookup that misses is
     * skipped. The dragged cell then takes `toIndex` and is placed at its corner.
     */
    method TransferChildView(toIndex: int)
      requires adapter.columnCount != 0 && indices.Length == origins.Length
      requires 0 <= dragging < indices.Length
      modifies indices, origins, this`animations
      ensures indices[..] == Transfer(old(indices[..]), dragging, toIndex)
      ensures origins[..] == old(origins[..])[dragging := PointWithIndex(CellGeometry(), toIndex)]
      ensures AnimationsFollow(old(indices[..]), indices[..], old(animations), animations, dragging, CellGeometry())
    {
      ShiftTowards(toIndex);
      ghost var shifted := indices[..];
      PlaceDragged(toIndex);
      AnimationsFollowDragged(old(indices[..]), shifted, old(animations), animations, dragging, CellGeometry(), toIndex);
    }

    /** The end of transferChildView: the dragged cell takes `toIndex` and moves to its corner. */
    method PlaceDragged(toIndex: int)
      requires adapter.columnCount != 0 && 0 <= dragging < indices.Length == origins.Length
      modifies indices, origins
      ensures indices[..] == old(indices[..])[dragging := toIndex]
      ensures origins[..] == old(origins[..])[dragging := PointWithIndex(CellGeometry(), toIndex)]
    {
      var p := PointWithIndex(CellGeometry(), toIndex);
      indices[dragging] := toIndex;
      origins[dragging] := p;
    }

    /** The loop of transferChildView that `toIndex` selects, run over the cells in between. */
    method ShiftTowards(toIndex: int)
      requires adapter.columnCount != 0 && 0 <= dragging < indices.Length
      modifies indices, this`animations
      ensures Transfer(old(indices[..]), dragging, toIndex) == indices[..][dragging := toIndex]
      ensures AnimationsFollow(old(indices[..]), indices[..], old(animations), animations, dragging, CellGeometry())
    {
      ghost var s := indices[..];
      var fromIndex := indices[dragging];
      if toIndex > fromIndex {
        ShiftForward(fromIndex + 1, toIndex + 1, s);
        TransferOfForwardSteps(s, dragging, toIndex, indices[..]);
      } else {
        ShiftBackward(fromIndex - 1, toIndex, s);
        TransferOfBackwardSteps(s, dragging, toIndex, indices[..]);
      }
    }

    /**
     * The ascending loop of transferChildView, `i` running over [first, end): the cell
     * reporting `i` is given `i - 1` and animated to that place.
     */
    method ShiftForward(first: int, end: int, ghost s: seq<int>)
      requires adapter.columnCount != 0 && 0 <= dragging < indices.Length
      requires indices[dragging] < first <= end
      requires s == indices[..]
      modifies indices, this`animations
      ensures indices[..] == ForwardSteps(s, first, end)
      ensures indices[dragging] == old(indices[dragging])
      ensures AnimationsFollow(s, indices[..], old(animations), animations, dragging, CellGeometry())
    {
      var i := first;
      while i < end
        invariant first <= i <= end
        invariant indices[..] == ForwardSteps(s, first, i)
        invariant indices[dragging] == s[dragging]
        invariant MovedBelow(s, indices[..], i - 1)
        invariant AnimationsFollow(s, indices[..], old(animations), animations, dragging, CellGeometry())
      {
        ForwardStepsExtend(s, first, i);
        ForwardStepMovesBelow(s, indices[..], i);
        ShiftCell(i, -1, s, old(animations));
        i := i + 1;
      }
    }

    /**
     * The descending loop of transferChildView, `i` running from `first` down to `last`:
     * the cell reporting `i` is given `i + 1` and animated to that place.
     */
    method ShiftBackward(first: int, last: int, ghost s: seq<int>)
      requires adapter.columnCount != 0 && 0 <= dragging < indices.Length
      requires last - 1 <= first < indices[dragging]
      requires s == indices[..]
      modifies indices, this`animations
      ensures indices[..] == BackwardSteps(s, first, last)
      ensures indices[dragging] == old(indices[dragging])
      ensures AnimationsFollow(s, indices[..], old(animations), animations, dragging, CellGeometry())
    {
      var i := first;
      while i > last - 1
        invariant last - 1 <= i <= first
        invariant indices[..] == BackwardSteps(s, first, i + 1)
        invariant indices[dragging] == s[dragging]
        invariant MovedAbove(s, indices[..], i + 1)
        invariant AnimationsFollow(s, indices[..], old(animations), animations, dragging, CellGeometry())
      {
        BackwardStepsExtend(s, first, i);
        BackwardStepMovesAbove(s, indices[..], i);
        ShiftCell(i, 1, s, old(animations));
        i := i - 1;
      }
    }

    /**
     * The body of either loop of transferChildView: the cell reporting `index`, if any, is
     * given `index + delta` and a transfer animation to that place, replacing the one it had.
     * The dragged cell, which holds another index, is untouched.
     */
    method ShiftCell(index: int, delta: int, ghost s: seq<int>, ghost before: map<int, Point>)
      requires adapter.columnCount != 0 && 0 <= dragging < indices.Length && indices[dragging] != index
      requires delta != 0 && MovedAvoid(s, indices[..], index)
      requires AnimationsFollow(s, indices[..], before, animations, dragging, CellGeometry())
      modifies indices, this`animations
      ensures indices[..] == ShiftStep(old(indices[..]), index, delta)
      ensures indices[dragging] == old(indices[dragging])
      ensures Lookup(old(indices[..]), index) == -1 ==> animations == old(animations)
      ensures Lookup(old(indices[..]), index) != -1 ==>
        animations == old(animations)[Lookup(old(indices[..]), index) := PointWithIndex(CellGeometry(), index + delta)]
      ensures AnimationsFollow(s, indices[..], before, animations, dragging, CellGeometry())
    {
      var moveIndex := index + delta;
      ghost var now := indices[..];
      var tb := ViewWithIndex(index);
      if tb != -1 {
        indices[tb] := moveIndex;
        var p := PointWithIndex(CellGeometry(), moveIndex);
        AnimationsFollowStep(s, now, before, animations, dragging, CellGeometry(), tb, moveIndex);
        animations := animations[tb := p];
        assert indices[..] == now[tb := moveIndex];
      }
    }

    /**
     * moveDraggedView: the dragged view's corner follows the pointer, keeping the grab
     * offset of the recorded touch point.
     */
    method MoveDraggedView(x: int, y: int, width: int, height: int)
      requires 0 <= dragging < origins.Length
      modifies origins
      ensures origins[..] == old(origins[..])[dragging := DraggedViewOrigin(x, y, width, height, touchPoint)]
      ensures touchPoint.Some? ==> origins[dragging] == Point(x - touchPoint.value.x, y - touchPoint.value.y)
    {
      var l := x - JavaInt.Div(1 * width, 2);
      var t := y - JavaInt.Div(1 * height, 2);
      if touchPoint.Some? {
        l := l - touchPoint.value.x + JavaInt.Div(width, 2);
        t := t - touchPoint.value.y + JavaInt.Div(height, 2);
      }
      origins[dragging] := Point(l, t);
    }

    /**
     * startDrag on the cell in `slot`, with the grab point the drag shadow reported; the
     * drag session's last overlap index starts out as none.
     */
    method StartDrag(slot: int, grab: Point)
      requires Valid() && 0 <= slot < indices.Length
      modifies this`dragging, this`lastOverlap, this`touchPoint
      ensures Valid()
      ensures State() == Session.StartDrag(old(State()), slot)
      ensures touchPoint == Some(grab)
    {
      dragging := slot;
      lastOverlap := -1;
      touchPoint := Some(grab);
    }

    /**
     * The overlap dispatch of ACTION_DRAG_LOCATION: over the last index nothing happens
     * (onDragOver); over a new index onDragEnter reorders towards it (onDragExit does nothing);
     * outside every cell the last index, if any, is entered again.
     */
    method DispatchOverlap(index: int)
      requires adapter.columnCount != 0 && indices.Length == origins.Length
      requires 0 <= dragging < indices.Length
      modifies indices, origins, this`animations
      ensures EnterTarget(lastOverlap, index) == -1 ==> indices[..] == old(indices[..])
      ensures EnterTarget(lastOverlap, index) != -1 ==>
        indices[..] == Transfer(old(indices[..]), dragging, EnterTarget(lastOverlap, index))
      ensures origins[..] == old(origins[..])[dragging := origins[dragging]]
      ensures AnimationsFollow(old(indices[..]), indices[..], old(animations), animations, dragging, CellGeometry())
    {
      if index != -1 {
        if lastOverlap == index {
          // onDragOver does nothing
        } else {
          // onDragExit does nothing; onDragEnter reorders
          TransferChildView(index);
        }
      } else {
        if lastOverlap != -1 {
          TransferChildView(lastOverlap);
        }
      }
    }

    /**
     * The ACTION_DRAG_LOCATION branch of onDrag for a pointer at (x, y) and a dragged view of
     * the given size. The indices stay a permutation; leaving the grid changes none of them;
     * the dragged view follows the pointer.
     */
    method DragLocation(x: int, y: int, width: int, height: int)
      requires Valid()
      modifies indices, origins, this`lastOverlap, this`animations
      ensures Valid()
      ensures State() == OnDragLocation(old(State()), IndexWithPoint(CellGeometry(), indices.Length, x, y))
      ensures IndexWithPoint(CellGeometry(), indices.Length, x, y) == -1 ==> indices[..] == old(indices[..])
      ensures dragging != -1 ==>
        origins[..] == old(origins[..])[dragging := DraggedViewOrigin(x, y, width, height, touchPoint)]
      ensures dragging == -1 ==> origins[..] == old(origins[..]) && animations == old(animations)
      ensures AnimationsFollow(old(indices[..]), indices[..], old(animations), animations, dragging, CellGeometry())
    {
      if dragging != -1 {
        var index := FindIndexWithPoint(x, y);
        DispatchOverlap(index);
        MoveDraggedView(x, y, width, height);
        lastOverlap := index;
        DragLocationPreservesValid(old(State()), index);
        if index == -1 {
          OutsideGridKeepsIndices(old(State()));
        }
      }
    }

    /**
     * ACTION_DRAG_ENDED: when a view is being dragged, its settle animation starts towards
     * pointWithIndex of the index it now holds.
     */
    method DragEnded()
      requires Valid()
      modifies this`settle
      ensures Valid()
      ensures dragging != -1 ==> settle == Some(Settle(dragging, PointWithIndex(CellGeometry(), indices[dragging])))
      ensures dragging == -1 ==> settle == old(settle)
    {
      if dragging != -1 {
        var index := indices[dragging];
        var p := PointWithIndex(CellGeometry(), index);
        settle := Some(Settle(dragging, p));
      }
    }

    /**
     * The settle animation's last frame and completion: the settled cell stands at the
     * target, and mDraggingView becomes null.
     */
    method SettleComplete()
      requires Valid() && settle.Some?
      modifies origins, this`dragging, this`settle
      ensures Valid()
      ensures origins[..] == old(origins[..])[old(settle).value.slot := old(settle).value.target]
      ensures State() == Session.SettleComplete(old(State()))
      ensures settle == None
    {
      var s := settle.value;
      origins[s.slot] := s.target;
      dragging := -1;
      settle := None;
    }
  }

  /**
   * The transfer animations while a reorder runs from indices `s`: every cell other than
   * the dragged one whose index changed is animating to its new corner, and every animation
   * is either one that was running before or one of those.
   */
  ghost predicate AnimationsFollow(s: seq<int>, now: seq<int>, before: map<int, Point>, after: map<int, Point>,
                                   dragging: int, g: GridGeometry)
    requires g.columns != 0
  {
    |now| == |s| &&
    (forall k :: k in before ==> k in after) &&
    (forall k :: 0 <= k < |now| && k != dragging && now[k] != s[k] ==>
      k in after && after[k] == PointWithIndex(g, now[k])) &&
    (forall k :: k in after ==>
      (k in before && after[k] == before[k]) ||
      (0 <= k < |now| && k != dragging && now[k] != s[k] && after[k] == PointWithIndex(g, now[k])))
  }

  /** No cell that a reorder from `s` has moved so far holds `index`. */
  ghost predicate MovedAvoid(s: seq<int>, now: seq<int>, index: int) {
    forall k :: 0 <= k < |now| && k < |s| && now[k] != s[k] ==> now[k] != index
  }

  /** Every cell the ascending loop has moved so far holds an index below `bound`. */
  ghost predicate MovedBelow(s: seq<int>, now: seq<int>, bound: int) {
    forall k :: 0 <= k < |now| && k < |s| && now[k] != s[k] ==> now[k] < bound
  }

  /** Every cell the descending loop has moved so far holds an index above `bound`. */
  ghost predicate MovedAbove(s: seq<int>, now: seq<int>, bound: int) {
    forall k :: 0 <= k < |now| && k < |s| && now[k] != s[k] ==> now[k] > bound
  }

  /** A step of the ascending loop at `i` moves a cell to `i - 1`, below the next bound. */
  lemma ForwardStepMovesBelow(s: seq<int>, now: seq<int>, i: int)
    requires MovedBelow(s, now, i - 1)
    ensures MovedAvoid(s, now, i)
    ensures MovedBelow(s, ShiftStep(now, i, -1), i)
  {
  }

  /** A step of the descending loop at `i` moves a cell to `i + 1`, above the next bound. */
  lemma BackwardStepMovesAbove(s: seq<int>, now: seq<int>, i: int)
    requires MovedAbove(s, now, i + 1)
    ensures MovedAvoid(s, now, i)
    ensures MovedAbove(s, ShiftStep(now, i, 1), i)
  {
  }

  /** A step of either loop: cell k (not the dragged one) gets index v and an animation to its corner. */
  lemma AnimationsFollowStep(s: seq<int>, now: seq<int>, before: map<int, Point>, after: map<int, Point>,
                             dragging: int, g: GridGeometry, k: int, v: int)
    requires g.columns != 0 && AnimationsFollow(s, now, before, after, dragging, g)
    requires 0 <= k < |now| && k != dragging && v != s[k]
    ensures AnimationsFollow(s, now[k := v], before, after[k := PointWithIndex(g, v)], dragging, g)
  {
  }

  /** The dragged cell's own index plays no part in the transfer animations. */
  lemma AnimationsFollowDragged(s: seq<int>, now: seq<int>, before: map<int, Point>, after: map<int, Point>,
                                dragging: int, g: GridGeometry, v: int)
    requires g.columns != 0 && AnimationsFollow(s, now, before, after, dragging, g)
    requires 0 <= dragging < |now|
    ensures AnimationsFollow(s, now[dragging := v], before, after, dragging, g)
  {
  }
}
