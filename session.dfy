/**
 * The drag-location state machine of DragDropGrid.onDrag as a function of the controller
 * state: the cells' indices, the dragged cell (mDraggingView, a slot or -1 for null) and
 * mLastOverlapIndex. A drag-location event arrives with the overlap index that
 * indexWithPoint resolved for the pointer (-1 outside every cell).
 */
module Session {
  import opened Reorder

  datatype DragState = DragState(indices: seq<int>, dragging: int, lastOverlap: int)

  /** The dragged slot, if any, names a cell. */
  predicate WellFormed(st: DragState) {
    -1 <= st.dragging < |st.indices|
  }

  /**
   * The controller invariant: the indices are a permutation; during a drag the last overlap
   * index is -1 or a cell of the grid, and in the latter case the dragged cell already holds it.
   */
  predicate Valid(st: DragState) {
    IsPermutation(st.indices) && WellFormed(st) &&
    (st.dragging != -1 ==>
      -1 <= st.lastOverlap < |st.indices| &&
      (st.lastOverlap != -1 ==> st.indices[st.dragging] == st.lastOverlap))
  }

  /**
   * The index onDragEnter (and so transferChildView) is called with, or -1 when it is not
   * called: the same index as last time is only "over"; a new index is entered; no index
   * re-enters the last one.
   */
  function EnterTarget(lastOverlap: int, index: int): (t: int)
    ensures index != -1 && index == lastOverlap ==> t == -1
    ensures index != -1 && index != lastOverlap ==> t == index
    ensures index == -1 ==> t == lastOverlap
  {
    if index != -1 then
      (if lastOverlap == index then -1 else index)
    else
      lastOverlap
  }

  /**
   * The ACTION_DRAG_LOCATION branch: nothing without a dragged view; otherwise reorder to the
   * entered index, if any, and record the overlap index (-1 included).
   */
  function OnDragLocation(st: DragState, index: int): (r: DragState)
    requires WellFormed(st)
    ensures |r.indices| == |st.indices| && r.dragging == st.dragging
    ensures st.dragging == -1 ==> r == st
    ensures st.dragging != -1 ==> r.lastOverlap == index
  {
    if st.dragging == -1 then st
    else
      var target := EnterTarget(st.lastOverlap, index);
      var indices := if target == -1 then st.indices else Transfer(st.indices, st.dragging, target);
      DragState(indices, st.dragging, index)
  }

  /**
   * The permutation invariant survives a drag-location event whose overlap index comes from
   * the grid (a cell or -1); afterwards the dragged cell holds the overlap index.
   */
  lemma DragLocationPreservesValid(st: DragState, index: int)
    requires Valid(st) && -1 <= index < |st.indices|
    ensures Valid(OnDragLocation(st, index))
    ensures st.dragging != -1 && index != -1 ==> OnDragLocation(st, index).indices[st.dragging] == index
  {
    if st.dragging != -1 {
      var target := EnterTarget(st.lastOverlap, index);
      if target != -1 {
        TransferPreservesPermutation(st.indices, st.dragging, target);
      }
    }
  }

  /**
   * Moving outside the grid changes no cell's index: the re-entered last index is the one the
   * dragged cell already holds, so the reorder is a no-op; the overlap index becomes -1.
   */
  lemma OutsideGridKeepsIndices(st: DragState)
    requires Valid(st)
    ensures OnDragLocation(st, -1).indices == st.indices
    ensures st.dragging != -1 ==> OnDragLocation(st, -1).lastOverlap == -1
  {
    if st.dragging != -1 && st.lastOverlap != -1 {
      TransferToSelf(st.indices, st.dragging);
    }
  }

  /** The same overlap index as last time triggers no reorder. */
  lemma SameOverlapKeepsIndices(st: DragState, index: int)
    requires WellFormed(st) && index == st.lastOverlap
    ensures OnDragLocation(st, index).indices == st.indices
  {
  }

  /** A new overlap index reorders the dragged cell onto it. */
  lemma NewOverlapReorders(st: DragState, index: int)
    requires WellFormed(st) && st.dragging != -1 && 0 <= index < |st.indices| && index != st.lastOverlap
    ensures OnDragLocation(st, index).indices == Transfer(st.indices, st.dragging, index)
    ensures OnDragLocation(st, index).indices[st.dragging] == index
  {
  }

  /** A run of drag-location events, one overlap index each. */
  function RunLocations(st: DragState, overlaps: seq<int>): (r: DragState)
    requires WellFormed(st)
    ensures |r.indices| == |st.indices| && r.dragging == st.dragging
    decreases |overlaps|
  {
    if overlaps == [] then st
    else RunLocations(OnDragLocation(st, overlaps[0]), overlaps[1..])
  }

  /**
   * The key invariant: after any sequence of drag-location events the cells' indices are
   * still a permutation of 0..n-1.
   */
  lemma {:induction false} RunPreservesValid(st: DragState, overlaps: seq<int>)
    requires Valid(st)
    requires forall k :: 0 <= k < |overlaps| ==> -1 <= overlaps[k] < |st.indices|
    ensures Valid(RunLocations(st, overlaps))
    ensures IsPermutation(RunLocations(st, overlaps).indices)
    decreases |overlaps|
  {
    if overlaps != [] {
      DragLocationPreservesValid(st, overlaps[0]);
      RunPreservesValid(OnDragLocation(st, overlaps[0]), overlaps[1..]);
    }
  }

  /**
   * The permutation survives any run of drag-location events even when the last overlap
   * index does not match the dragged cell, as after a drag started without resetting it,
   * provided that index names a cell of the grid or is -1.
   */
  lemma {:induction false} RunPreservesPermutation(st: DragState, overlaps: seq<int>)
    requires IsPermutation(st.indices) && WellFormed(st) && -1 <= st.lastOverlap < |st.indices|
    requires forall k :: 0 <= k < |overlaps| ==> -1 <= overlaps[k] < |st.indices|
    ensures IsPermutation(RunLocations(st, overlaps).indices)
    decreases |overlaps|
  {
    if overlaps != [] {
      if st.dragging != -1 {
        var target := EnterTarget(st.lastOverlap, overlaps[0]);
        if target != -1 {
          TransferPreservesPermutation(st.indices, st.dragging, target);
        }
      }
      RunPreservesPermutation(OnDragLocation(st, overlaps[0]), overlaps[1..]);
    }
  }

  /** Any stretch of the drag spent outside the grid leaves every index where it was. */
  lemma {:induction false} RunOutsideKeepsIndices(st: DragState, overlaps: seq<int>)
    requires Valid(st)
    requires forall k :: 0 <= k < |overlaps| ==> overlaps[k] == -1
    ensures RunLocations(st, overlaps).indices == st.indices
    decreases |overlaps|
  {
    if overlaps != [] {
      OutsideGridKeepsIndices(st);
      DragLocationPreservesValid(st, -1);
      RunOutsideKeepsIndices(OnDragLocation(st, -1), overlaps[1..]);
    }
  }

  /** startDrag as written: mDraggingView is set and mLastOverlapIndex is left as it was. */
  function StartDragAsWritten(st: DragState, slot: int): (r: DragState)
    ensures r.indices == st.indices && r.dragging == slot && r.lastOverlap == st.lastOverlap
  {
    DragState(st.indices, slot, st.lastOverlap)
  }

  /** startDrag with the drag session's last overlap index starting out as none. */
  function StartDrag(st: DragState, slot: int): (r: DragState)
    ensures r.indices == st.indices && r.dragging == slot && r.lastOverlap == -1
  {
    DragState(st.indices, slot, -1)
  }

  /** The settle animation's completion: mDraggingView becomes null. */
  function SettleComplete(st: DragState): (r: DragState)
    ensures r.indices == st.indices && r.dragging == -1 && r.lastOverlap == st.lastOverlap
  {
    DragState(st.indices, -1, st.lastOverlap)
  }

  /** Starting a drag on any cell of a permutation establishes the controller invariant. */
  lemma StartDragValid(st: DragState, slot: int)
    requires IsPermutation(st.indices) && 0 <= slot < |st.indices|
    ensures Valid(StartDrag(st, slot))
  {
  }

  /**
   * As written, the overlap index of the previous drag survives into the next: a first drag
   * of cell 3 released over its own place leaves mLastOverlapIndex at 3; a second drag of
   * cell 0 whose first location event is outside the grid then reorders the cells as if the
   * pointer had entered cell 3, and one over cell 3 does not reorder at all.
   */
  lemma StaleOverlapReordersOutsideGrid(s: seq<int>)
    requires s == [0, 1, 2, 3, 4]
    ensures
      var first := SettleComplete(OnDragLocation(StartDragAsWritten(DragState(s, -1, -1), 3), 3));
      var second := StartDragAsWritten(first, 0);
      first.indices == s && first.lastOverlap == 3 &&
      OnDragLocation(second, -1).indices == [3, 0, 1, 2, 4] &&
      OnDragLocation(second, 3).indices == s
  {
    TransferToSelf(s, 3);
    ForwardExample(s);
    var first := SettleComplete(OnDragLocation(StartDragAsWritten(DragState(s, -1, -1), 3), 3));
    assert first == DragState(s, -1, 3);
    assert StartDragAsWritten(first, 0) == DragState(s, 0, 3);
  }

  /**
   * With the overlap index reset at the start of a drag, a drag's time outside the grid
   * never reorders, whatever the previous drags left behind; and the same second drag as
   * above reorders when the pointer enters cell 3.
   */
  lemma {:induction false} StartDragThenOutsideKeepsIndices(st: DragState, slot: int, overlaps: seq<int>)
    requires IsPermutation(st.indices) && 0 <= slot < |st.indices|
    requires forall k :: 0 <= k < |overlaps| ==> overlaps[k] == -1
    ensures RunLocations(StartDrag(st, slot), overlaps).indices == st.indices
  {
    StartDragValid(st, slot);
    RunOutsideKeepsIndices(StartDrag(st, slot), overlaps);
  }

  lemma StartDragEntersStaleCell(s: seq<int>)
    requires s == [0, 1, 2, 3, 4]
    ensures
      var first := SettleComplete(OnDragLocation(StartDrag(DragState(s, -1, -1), 3), 3));
      var second := StartDrag(first, 0);
      OnDragLocation(second, -1).indices == s &&
      OnDragLocation(second, 3).indices == [3, 0, 1, 2, 4]
  {
    TransferToSelf(s, 3);
    ForwardExample(s);
    var first := SettleComplete(OnDragLocation(StartDrag(DragState(s, -1, -1), 3), 3));
    assert first == DragState(s, -1, 3);
    assert StartDrag(first, 0) == DragState(s, 0, -1);
  }

  /** The numbering addChildView gives n new cells: cell k holds index k. */
  function Numbering(n: nat): (r: seq<int>)
    ensures |r| == n && forall k :: 0 <= k < n ==> r[k] == k
  {
    seq(n, k requires 0 <= k < n => k)
  }

  lemma NumberingIsPermutation(n: nat)
    ensures IsPermutation(Numbering(n))
  {
  }

  /**
   * setAdapter as written, between drags: the cells are replaced by n new ones numbered in
   * order, and mLastOverlapIndex is left as it was.
   */
  function SetAdapterAsWritten(st: DragState, n: nat): (r: DragState)
    requires st.dragging == -1
    ensures r.indices == Numbering(n) && r.dragging == -1 && r.lastOverlap == st.lastOverlap
  {
    DragState(Numbering(n), -1, st.lastOverlap)
  }

  /**
   * As written, an overlap index left by a drag on a larger grid survives setAdapter: after
   * a drag of cell 8 of ten released over its own place, the adapter is replaced by one with
   * five items; a drag of cell 0 whose first location event is outside the grid then
   * reorders towards index 8, which no cell of the new grid has, and the indices stop being
   * a permutation.
   */
  lemma ShrunkGridBreaksPermutation(ten: seq<int>, s: seq<int>)
    requires |ten| == 10 && s == [0, 1, 2, 3, 4]
    ensures
      var first := SettleComplete(OnDragLocation(StartDragAsWritten(DragState(ten, -1, -1), 8), 8));
      var second := StartDragAsWritten(SetAdapterAsWritten(first, 5), 0);
      first.lastOverlap == 8 && second == DragState(s, 0, 8) &&
      OnDragLocation(second, -1).indices == [8, 0, 1, 2, 3] &&
      !IsPermutation(OnDragLocation(second, -1).indices)
  {
    var first := SettleComplete(OnDragLocation(StartDragAsWritten(DragState(ten, -1, -1), 8), 8));
    assert Numbering(5) == s;
    var second := StartDragAsWritten(SetAdapterAsWritten(first, 5), 0);
    assert second == DragState(s, 0, 8);
    TransferForward(s, 0, 8);
    var r := Transfer(s, 0, 8);
    assert r[0] == 8 && r[1] == 0 && r[2] == 1 && r[3] == 2 && r[4] == 3;
    assert r == [8, 0, 1, 2, 3];
  }

  /**
   * With the overlap index reset at the start of each drag, a drag after setAdapter keeps
   * the new cells' indices a permutation, whatever the previous adapter's drags left behind.
   */
  lemma StartDragAfterSetAdapterKeepsPermutation(st: DragState, n: nat, slot: int, overlaps: seq<int>)
    requires st.dragging == -1 && 0 <= slot < n
    requires forall k :: 0 <= k < |overlaps| ==> -1 <= overlaps[k] < n
    ensures IsPermutation(RunLocations(StartDrag(SetAdapterAsWritten(st, n), slot), overlaps).indices)
  {
    NumberingIsPermutation(n);
    StartDragValid(SetAdapterAsWritten(st, n), slot);
    RunPreservesValid(StartDrag(SetAdapterAsWritten(st, n), slot), overlaps);
  }
}
