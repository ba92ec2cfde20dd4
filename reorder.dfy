/**
 * The reorder algorithm of DragDropGrid (transferChildView) over the cells' indices.
 *
 * Cells are identified by their slot 0..n-1 (the view object); `s[k]` is the logical index
 * that the cell in slot k reports through getIndex. The functions follow the Java loops
 * step by step, including the fresh lookup of every cell by its index (viewWithIndex) and
 * the skip of a step whose lookup misses; the lemmas then say what the loops amount to.
 */
module Reorder {

  /** The indices are exactly 0..|s|-1, each held by one cell. */
  predicate IsPermutation(s: seq<int>) {
    (forall k :: 0 <= k < |s| ==> 0 <= s[k] < |s|) && Distinct(s)
  }

  predicate Distinct(s: seq<int>) {
    forall j, k :: 0 <= j < k < |s| ==> s[j] != s[k]
  }

  /** The scan of viewWithIndex from slot `from` on. */
  function LookupFrom(s: seq<int>, index: int, from: nat): (r: int)
    requires from <= |s|
    ensures r == -1 || (from <= r < |s| && s[r] == index)
    ensures r == -1 <==> forall k :: from <= k < |s| ==> s[k] != index
    ensures r != -1 ==> forall k :: from <= k < r ==> s[k] != index
    decreases |s| - from
  {
    if from == |s| then -1
    else if s[from] == index then from
    else LookupFrom(s, index, from + 1)
  }

  /**
   * viewWithIndex: the first cell whose index is `index`, or -1 (null) when no cell holds it.
   */
  function Lookup(s: seq<int>, index: int): (r: int)
    ensures r == -1 <==> index !in s
    ensures r != -1 ==> 0 <= r < |s| && s[r] == index
    ensures r != -1 ==> forall k :: 0 <= k < r ==> s[k] != index
  {
    LookupFrom(s, index, 0)
  }

  /** One iteration of either loop: the cell found with `index` is given `index + delta`. */
  function ShiftStep(s: seq<int>, index: int, delta: int): (r: seq<int>)
    ensures |r| == |s|
  {
    var k := Lookup(s, index);
    if k == -1 then s else s[k := index + delta]
  }

  /** The ascending loop `for (i = from + 1; i < to + 1; i++)`, from `i` up to `end`. */
  function ForwardSteps(s: seq<int>, i: int, end: int): (r: seq<int>)
    ensures |r| == |s|
    decreases end - i
  {
    if end <= i then s else ForwardSteps(ShiftStep(s, i, -1), i + 1, end)
  }

  /** The descending loop `for (i = from - 1; i > to - 1; i--)`, from `i` down to `last`. */
  function BackwardSteps(s: seq<int>, i: int, last: int): (r: seq<int>)
    ensures |r| == |s|
    decreases i - last
  {
    if i < last then s else BackwardSteps(ShiftStep(s, i, 1), i - 1, last)
  }

  /**
   * transferChildView(toIndex) with the dragged cell in slot `d`: the cells between the
   * dragged cell's index and `toIndex` move one slot towards the gap, then the dragged cell
   * takes `toIndex`. `toIndex == from` takes the descending branch with no iteration.
   */
  function Transfer(s: seq<int>, d: nat, toIndex: int): seq<int>
    requires d < |s|
  {
    var fromIndex := s[d];
    var shifted :=
      if toIndex > fromIndex then ForwardSteps(s, fromIndex + 1, toIndex + 1)
      else BackwardSteps(s, fromIndex - 1, toIndex);
    shifted[d := toIndex]
  }

  /** Every cell whose index lies in [lo, hi) moved by `delta`; every other cell as it was. */
  function ShiftRange(s: seq<int>, lo: int, hi: int, delta: int): (r: seq<int>)
    ensures |r| == |s|
    ensures forall k :: 0 <= k < |s| ==> r[k] == (if lo <= s[k] < hi then s[k] + delta else s[k])
  {
    seq(|s|, k requires 0 <= k < |s| => if lo <= s[k] < hi then s[k] + delta else s[k])
  }

  /** Two sequences that hold `index` in the same slots answer a lookup of it alike. */
  lemma LookupAgrees(s: seq<int>, t: seq<int>, index: int)
    requires |s| == |t|
    requires forall k :: 0 <= k < |s| ==> (s[k] == index <==> t[k] == index)
    ensures Lookup(s, index) == Lookup(t, index)
  {
    var a, b := Lookup(s, index), Lookup(t, index);
    if a != -1 && b != -1 {
      assert !(a < b) && !(b < a);
    }
  }

  /**
   * The ascending loop, started after the cells with index in [lo, i) have already dropped
   * by one, ends with every cell of [lo, end) dropped by one: each step finds the one cell
   * holding `i` (or none, and skips), since cells already moved now hold less than `i - 1`.
   */
  lemma {:induction false} ForwardStepsShift(s: seq<int>, lo: int, i: int, end: int)
    requires Distinct(s) && lo <= i <= end
    ensures ForwardSteps(ShiftRange(s, lo, i, -1), i, end) == ShiftRange(s, lo, end, -1)
    decreases end - i
  {
    if i < end {
      var t := ShiftRange(s, lo, i, -1);
      LookupAgrees(s, t, i);
      GrowAbove(s, lo, i, -1);
      assert ShiftStep(t, i, -1) == ShiftRange(s, lo, i + 1, -1);
      ForwardStepsShift(s, lo, i + 1, end);
    }
  }

  /** The descending loop likewise raises every cell of [last, hi) by one. */
  lemma {:induction false} BackwardStepsShift(s: seq<int>, last: int, i: int, hi: int)
    requires Distinct(s) && last - 1 <= i < hi
    ensures BackwardSteps(ShiftRange(s, i + 1, hi, 1), i, last) == ShiftRange(s, last, hi, 1)
    decreases i - last
  {
    if last <= i {
      var t := ShiftRange(s, i + 1, hi, 1);
      LookupAgrees(s, t, i);
      GrowBelow(s, i, hi, 1);
      assert ShiftStep(t, i, 1) == ShiftRange(s, i, hi, 1);
      BackwardStepsShift(s, last, i - 1, hi);
    }
  }

  /** Widening the shifted range by `i` at the top moves exactly the one cell holding `i`. */
  lemma GrowAbove(s: seq<int>, lo: int, i: int, delta: int)
    requires Distinct(s) && lo <= i
    ensures Lookup(s, i) == -1 ==> ShiftRange(s, lo, i + 1, delta) == ShiftRange(s, lo, i, delta)
    ensures Lookup(s, i) != -1 ==>
      ShiftRange(s, lo, i + 1, delta) == ShiftRange(s, lo, i, delta)[Lookup(s, i) := i + delta]
  {
    var k := Lookup(s, i);
    if k != -1 {
      forall m | 0 <= m < |s| && m != k ensures s[m] != i {
        if m < k { } else { assert s[k] != s[m]; }
      }
    }
  }

  /** Widening the shifted range by `i` at the bottom moves exactly the one cell holding `i`. */
  lemma GrowBelow(s: seq<int>, i: int, hi: int, delta: int)
    requires Distinct(s) && i < hi
    ensures Lookup(s, i) == -1 ==> ShiftRange(s, i, hi, delta) == ShiftRange(s, i + 1, hi, delta)
    ensures Lookup(s, i) != -1 ==>
      ShiftRange(s, i, hi, delta) == ShiftRange(s, i + 1, hi, delta)[Lookup(s, i) := i + delta]
  {
    var k := Lookup(s, i);
    if k != -1 {
      forall m | 0 <= m < |s| && m != k ensures s[m] != i {
        if m < k { } else { assert s[k] != s[m]; }
      }
    }
  }

  /** Helper: shifting an empty range changes nothing. */
  lemma EmptyShift(s: seq<int>, lo: int, delta: int)
    ensures ShiftRange(s, lo, lo, delta) == s
  {
  }

  /** Running the ascending loop one index further adds one step at the end. */
  lemma {:induction false} ForwardStepsExtend(s: seq<int>, first: int, i: int)
    requires first <= i
    ensures ForwardSteps(s, first, i + 1) == ShiftStep(ForwardSteps(s, first, i), i, -1)
    decreases i - first
  {
    if first < i {
      ForwardStepsExtend(ShiftStep(s, first, -1), first + 1, i);
    }
  }

  /** Running the descending loop one index further down adds one step at the end. */
  lemma {:induction false} BackwardStepsExtend(s: seq<int>, first: int, i: int)
    requires i <= first
    ensures BackwardSteps(s, first, i) == ShiftStep(BackwardSteps(s, first, i + 1), i, 1)
    decreases first - i
  {
    if i < first {
      BackwardStepsExtend(ShiftStep(s, first, 1), first - 1, i);
    }
  }

  /** A forward reorder is the ascending loop followed by placing the dragged cell. */
  lemma TransferOfForwardSteps(s: seq<int>, d: nat, toIndex: int, shifted: seq<int>)
    requires d < |s| && toIndex > s[d] && shifted == ForwardSteps(s, s[d] + 1, toIndex + 1)
    ensures Transfer(s, d, toIndex) == shifted[d := toIndex]
  {
  }

  /** A backward reorder is the descending loop followed by placing the dragged cell. */
  lemma TransferOfBackwardSteps(s: seq<int>, d: nat, toIndex: int, shifted: seq<int>)
    requires d < |s| && toIndex <= s[d] && shifted == BackwardSteps(s, s[d] - 1, toIndex)
    ensures Transfer(s, d, toIndex) == shifted[d := toIndex]
  {
  }

  /**
   * What transferChildView amounts to, whether or not every lookup hits, once the loop is
   * known to shift its range: the dragged cell then takes `toIndex`.
   */
  lemma TransferOfForwardLoop(s: seq<int>, d: nat, toIndex: int)
    requires d < |s| && toIndex > s[d]
    requires ForwardSteps(s, s[d] + 1, toIndex + 1) == ShiftRange(s, s[d] + 1, toIndex + 1, -1)
    ensures Transfer(s, d, toIndex) == ShiftRange(s, s[d] + 1, toIndex + 1, -1)[d := toIndex]
  {
  }

  /** The same for the descending loop. */
  lemma TransferOfBackwardLoop(s: seq<int>, d: nat, toIndex: int)
    requires d < |s| && toIndex <= s[d]
    requires BackwardSteps(s, s[d] - 1, toIndex) == ShiftRange(s, toIndex, s[d], 1)
    ensures Transfer(s, d, toIndex) == ShiftRange(s, toIndex, s[d], 1)[d := toIndex]
  {
  }

  /** The whole ascending loop of a forward reorder from `from` to `to`. */
  lemma ForwardLoopIsShift(s: seq<int>, from: int, to: int)
    requires Distinct(s) && from < to
    ensures ForwardSteps(s, from + 1, to + 1) == ShiftRange(s, from + 1, to + 1, -1)
  {
    EmptyShift(s, from + 1, -1);
    ForwardStepsShift(s, from + 1, from + 1, to + 1);
  }

  /** The whole descending loop of a backward reorder from `from` to `to`. */
  lemma BackwardLoopIsShift(s: seq<int>, from: int, to: int)
    requires Distinct(s) && to <= from
    ensures BackwardSteps(s, from - 1, to) == ShiftRange(s, to, from, 1)
  {
    EmptyShift(s, from, 1);
    BackwardStepsShift(s, to, from - 1, from);
  }

  /** Forward reorder, cell by cell. */
  lemma TransferForward(s: seq<int>, d: nat, toIndex: int)
    requires Distinct(s) && d < |s| && s[d] < toIndex
    ensures |Transfer(s, d, toIndex)| == |s|
    ensures forall k :: 0 <= k < |s| ==>
      Transfer(s, d, toIndex)[k] == (if k == d then toIndex else if s[d] < s[k] <= toIndex then s[k] - 1 else s[k])
  {
    ForwardLoopIsShift(s, s[d], toIndex);
    TransferOfForwardLoop(s, d, toIndex);
  }

  /** Backward reorder, cell by cell; with `toIndex == s[d]` nothing changes. */
  lemma TransferBackward(s: seq<int>, d: nat, toIndex: int)
    requires Distinct(s) && d < |s| && toIndex <= s[d]
    ensures |Transfer(s, d, toIndex)| == |s|
    ensures forall k :: 0 <= k < |s| ==>
      Transfer(s, d, toIndex)[k] == (if k == d then toIndex else if toIndex <= s[k] < s[d] then s[k] + 1 else s[k])
  {
    BackwardLoopIsShift(s, s[d], toIndex);
    TransferOfBackwardLoop(s, d, toIndex);
  }

  /** Re-entering the dragged cell's own index changes nothing. */
  lemma TransferToSelf(s: seq<int>, d: nat)
    requires d < |s|
    ensures Transfer(s, d, s[d]) == s
  {
    assert BackwardSteps(s, s[d] - 1, s[d]) == s;
  }

  /**
   * The permutation invariant: a reorder to an index of the grid leaves the indices a
   * permutation of 0..n-1.
   */
  lemma TransferPreservesPermutation(s: seq<int>, d: nat, toIndex: int)
    requires IsPermutation(s) && d < |s| && 0 <= toIndex < |s|
    ensures IsPermutation(Transfer(s, d, toIndex))
  {
    var r := Transfer(s, d, toIndex);
    if s[d] < toIndex {
      TransferForward(s, d, toIndex);
    } else {
      TransferBackward(s, d, toIndex);
    }
    forall j, k | 0 <= j < k < |r|
      ensures r[j] != r[k]
    {
      assert s[j] != s[k];
    }
  }

  /** The cells in grid order: position p holds the cell whose index is p. */
  function Arrangement(s: seq<int>): (order: seq<int>)
    ensures |order| == |s|
    ensures forall p :: 0 <= p < |s| ==> -1 <= order[p] < |s| && (order[p] != -1 ==> s[order[p]] == p)
  {
    seq(|s|, p requires 0 <= p < |s| => Lookup(s, p))
  }

  /** On distinct indices the lookup of a cell's index finds that cell. */
  lemma LookupOwnIndex(s: seq<int>, k: nat)
    requires Distinct(s) && k < |s|
    ensures Lookup(s, s[k]) == k
  {
    var r := Lookup(s, s[k]);
    assert !(r < k);
  }

  /**
   * The arrangement is the inverse of the indices: any `order` that names, for every position
   * p, a cell holding p is the arrangement.
   */
  lemma ArrangementIsInverse(s: seq<int>, order: seq<int>)
    requires Distinct(s) && |order| == |s|
    requires forall p :: 0 <= p < |s| ==> 0 <= order[p] < |s| && s[order[p]] == p
    ensures Arrangement(s) == order
  {
    forall p | 0 <= p < |s|
      ensures Arrangement(s)[p] == order[p]
    {
      LookupOwnIndex(s, order[p]);
    }
  }

  /** Example (one input). Dragging the first of five cells onto index 3: the cells at indices 1 to 3 drop by one. */
  lemma ForwardExample(s: seq<int>)
    requires s == [0, 1, 2, 3, 4]
    ensures Transfer(s, 0, 3) == [3, 0, 1, 2, 4]
  {
    TransferForward(s, 0, 3);
    var r := Transfer(s, 0, 3);
    assert r[0] == 3 && r[1] == 0 && r[2] == 1 && r[3] == 2 && r[4] == 4;
    assert r == [3, 0, 1, 2, 4];
  }

  /** Example (one input): after that drag the grid shows the cells in the order 1, 2, 3, 0, 4. */
  lemma ForwardExampleOrder(s: seq<int>)
    requires s == [0, 1, 2, 3, 4]
    ensures Arrangement(Transfer(s, 0, 3)) == [1, 2, 3, 0, 4]
  {
    ForwardExample(s);
    ArrangementOfFive([3, 0, 1, 2, 4], [1, 2, 3, 0, 4]);
  }

  /** Example (one input). Dragging the last of five cells onto index 1: the cells at indices 1 to 3 rise by one. */
  lemma BackwardExample(s: seq<int>)
    requires s == [0, 1, 2, 3, 4]
    ensures Transfer(s, 4, 1) == [0, 2, 3, 4, 1]
  {
    TransferBackward(s, 4, 1);
    var r := Transfer(s, 4, 1);
    assert r[0] == 0 && r[1] == 2 && r[2] == 3 && r[3] == 4 && r[4] == 1;
    assert r == [0, 2, 3, 4, 1];
  }

  /** Example (one input): after that drag the grid shows the cells in the order 0, 4, 1, 2, 3. */
  lemma BackwardExampleOrder(s: seq<int>)
    requires s == [0, 1, 2, 3, 4]
    ensures Arrangement(Transfer(s, 4, 1)) == [0, 4, 1, 2, 3]
  {
    BackwardExample(s);
    ArrangementOfFive([0, 2, 3, 4, 1], [0, 4, 1, 2, 3]);
  }

  /** The arrangement of five distinct indices 0 to 4, read off the cells holding each. */
  lemma ArrangementOfFive(r: seq<int>, order: seq<int>)
    requires |r| == 5 && |order| == 5
    requires r[0] != r[1] && r[0] != r[2] && r[0] != r[3] && r[0] != r[4] && r[1] != r[2]
    requires r[1] != r[3] && r[1] != r[4] && r[2] != r[3] && r[2] != r[4] && r[3] != r[4]
    requires 0 <= order[0] < 5 && r[order[0]] == 0 && 0 <= order[1] < 5 && r[order[1]] == 1
    requires 0 <= order[2] < 5 && r[order[2]] == 2 && 0 <= order[3] < 5 && r[order[3]] == 3
    requires 0 <= order[4] < 5 && r[order[4]] == 4
    ensures Arrangement(r) == order
  {
    assert Distinct(r) by {
      forall j, k | 0 <= j < k < 5
        ensures r[j] != r[k]
      {
      }
    }
    ArrangementIsInverse(r, order);
  }
}
