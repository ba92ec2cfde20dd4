/**
 * Grid geometry of DragDropGrid: the mapping between a cell's linear index and its pixel
 * rectangle (pointWithIndex, indexWithPoint), and the placement of the dragged view under the
 * pointer (moveDraggedView). Everything here is arithmetic over a parameter record.
 */
module Geometry {
  import JavaInt
  import opened Wrappers

  datatype Point = Point(x: int, y: int)

  /** android.graphics.Rect: left and top inside, right and bottom outside. */
  datatype Rect = Rect(left: int, top: int, right: int, bottom: int) {
    predicate Contains(x: int, y: int) {
      left <= x < right && top <= y < bottom
    }
  }

  /**
   * What the geometry reads from the grid: the adapter's column count (the source divides by
   * the adapter's count, not by the coerced computedColumnCount), the measured column width
   * and row height, and the header height that offsets every row.
   */
  datatype GridGeometry = GridGeometry(columns: int, columnWidth: int, rowHeight: int, headerHeight: int) {
    /** Cells of positive size in a positive number of columns. */
    predicate Proper() {
      columns > 0 && columnWidth > 0 && rowHeight > 0
    }
  }

  /** Column and row of a linear index, with Java's truncating `%` and `/`. */
  function Column(g: GridGeometry, index: int): int
    requires g.columns != 0
  {
    JavaInt.Rem(index, g.columns)
  }

  function Row(g: GridGeometry, index: int): int
    requires g.columns != 0
  {
    JavaInt.Div(index, g.columns)
  }

  /**
   * The rectangle indexWithPoint tests for cell `index`: it starts at the cell's column and
   * row and extends one column width and one row height.
   */
  function CellRect(g: GridGeometry, index: int): Rect
    requires g.columns != 0
  {
    var left := Column(g, index) * g.columnWidth;
    var top := Row(g, index) * g.rowHeight + g.headerHeight;
    Rect(left, top, left + g.columnWidth, top + g.rowHeight)
  }

  /** pointWithIndex: the top-left pixel of cell `index`. */
  function PointWithIndex(g: GridGeometry, index: int): Point
    requires g.columns != 0
  {
    var marginTop := g.headerHeight;
    Point(Column(g, index) * g.columnWidth, Row(g, index) * g.rowHeight + marginTop)
  }

  /**
   * For a non-negative index in a positive number of columns, pointWithIndex is the column
   * times the width and the row times the height below the header. It is the corner of the
   * rectangle indexWithPoint tests, so a cell of positive size contains its own corner.
   */
  lemma PointWithIndexIsCorner(g: GridGeometry, index: int)
    requires g.columns != 0
    ensures 0 <= index && 0 < g.columns ==>
      PointWithIndex(g, index) ==
      Point((index % g.columns) * g.columnWidth, (index / g.columns) * g.rowHeight + g.headerHeight)
    ensures PointWithIndex(g, index).x == CellRect(g, index).left
    ensures PointWithIndex(g, index).y == CellRect(g, index).top
    ensures 0 < g.columnWidth && 0 < g.rowHeight ==>
      CellRect(g, index).Contains(PointWithIndex(g, index).x, PointWithIndex(g, index).y)
  {
    if 0 <= index && 0 < g.columns {
      JavaInt.DivRemNonNegative(index, g.columns);
    }
  }

  /**
   * The scan of indexWithPoint from cell `from` on: the first cell below `count` whose
   * rectangle contains the point, or -1 when none does.
   */
  function SearchFrom(g: GridGeometry, count: int, x: int, y: int, from: nat): (r: int)
    requires g.columns != 0
    ensures r == -1 || (from <= r < count && CellRect(g, r).Contains(x, y))
    ensures r == -1 <==> forall i :: from <= i < count ==> !CellRect(g, i).Contains(x, y)
    ensures r != -1 ==> forall i :: from <= i < r ==> !CellRect(g, i).Contains(x, y)
    decreases count - from
  {
    if count <= from then -1
    else if CellRect(g, from).Contains(x, y) then from
    else SearchFrom(g, count, x, y, from + 1)
  }

  /**
   * indexWithPoint: the first of the `count` cells whose rectangle contains (x, y), or -1
   * when the point lies in no cell.
   */
  function IndexWithPoint(g: GridGeometry, count: int, x: int, y: int): (r: int)
    requires g.columns != 0
    ensures r == -1 <==> forall i :: 0 <= i < count ==> !CellRect(g, i).Contains(x, y)
    ensures r != -1 ==> 0 <= r < count && CellRect(g, r).Contains(x, y)
    ensures r != -1 ==> forall i :: 0 <= i < r ==> !CellRect(g, i).Contains(x, y)
  {
    SearchFrom(g, count, x, y, 0)
  }

  /** Two cells of a proper grid never share a point: cell rectangles tile the plane. */
  lemma {:induction false} CellRectsDisjoint(g: GridGeometry, i: int, j: int, x: int, y: int)
    requires g.Proper() && 0 <= i && 0 <= j
    requires CellRect(g, i).Contains(x, y) && CellRect(g, j).Contains(x, y)
    ensures i == j
  {
    var c := g.columns;
    JavaInt.DivRemNonNegative(i, c);
    JavaInt.DivRemNonNegative(j, c);
    SameSlot(i % c, j % c, g.columnWidth, x);
    SameSlot(i / c, j / c, g.rowHeight, y - g.headerHeight);
    assert i == (i / c) * c + i % c;
    assert j == (j / c) * c + j % c;
  }

  /** Two slots of width `w` that both hold `x` are the same slot. */
  lemma SameSlot(a: int, b: int, w: int, x: int)
    requires 0 < w
    requires a * w <= x < a * w + w && b * w <= x < b * w + w
    ensures a == b
  {
    JavaInt.QuotientOfSlot(x, w, a);
    JavaInt.QuotientOfSlot(x, w, b);
  }

  /**
   * Round trip: in a proper grid, any point of cell `i`'s rectangle (its corner included)
   * resolves back to `i`.
   */
  lemma {:induction false} IndexWithPointRoundTrip(g: GridGeometry, count: int, i: int, x: int, y: int)
    requires g.Proper() && 0 <= i < count
    requires CellRect(g, i).Contains(x, y)
    ensures IndexWithPoint(g, count, x, y) == i
  {
    var r := IndexWithPoint(g, count, x, y);
    assert r != -1;
    CellRectsDisjoint(g, r, i, x, y);
  }

  lemma PointWithIndexRoundTrip(g: GridGeometry, count: int, i: int)
    requires g.Proper() && 0 <= i < count
    ensures IndexWithPoint(g, count, PointWithIndex(g, i).x, PointWithIndex(g, i).y) == i
  {
    var p := PointWithIndex(g, i);
    PointWithIndexIsCorner(g, i);
    IndexWithPointRoundTrip(g, count, i, p.x, p.y);
  }

  /**
   * The cell under (x, y) computed directly by division: the column is x over the width and
   * the row is the height below the header over the row height; -1 left of the grid, right of
   * the last column, above the first row or past the last cell.
   */
  function CellUnder(g: GridGeometry, count: int, x: int, y: int): (r: int)
    requires g.Proper()
    ensures r == -1 || 0 <= r < count
  {
    if x < 0 || g.columns <= x / g.columnWidth || y < g.headerHeight then -1
    else
      var i := ((y - g.headerHeight) / g.rowHeight) * g.columns + x / g.columnWidth;
      if i < count then i else -1
  }

  /** The linear scan of indexWithPoint agrees with the direct division everywhere. */
  lemma {:induction false} IndexWithPointIsCellUnder(g: GridGeometry, count: int, x: int, y: int)
    requires g.Proper()
    ensures IndexWithPoint(g, count, x, y) == CellUnder(g, count, x, y)
  {
    var d := CellUnder(g, count, x, y);
    if d != -1 {
      CellUnderContains(g, count, x, y);
      IndexWithPointRoundTrip(g, count, d, x, y);
    } else {
      NoCellWhereCellUnderMisses(g, count, x, y);
    }
  }

  lemma NoCellWhereCellUnderMisses(g: GridGeometry, count: int, x: int, y: int)
    requires g.Proper() && CellUnder(g, count, x, y) == -1
    ensures forall j :: 0 <= j < count ==> !CellRect(g, j).Contains(x, y)
  {
    forall j | 0 <= j < count
      ensures !CellRect(g, j).Contains(x, y)
    {
      if CellRect(g, j).Contains(x, y) {
        CellUnderOfContained(g, count, j, x, y);
      }
    }
  }

  lemma CellUnderContains(g: GridGeometry, count: int, x: int, y: int)
    requires g.Proper() && CellUnder(g, count, x, y) != -1
    ensures CellRect(g, CellUnder(g, count, x, y)).Contains(x, y)
  {
    var c, w, h := g.columns, g.columnWidth, g.rowHeight;
    var col, row := x / w, (y - g.headerHeight) / h;
    var d := row * c + col;
    assert CellUnder(g, count, x, y) == d;
    JavaInt.QuotientOfSlot(d, c, row);
    JavaInt.DivRemNonNegative(d, c);
    assert Column(g, d) == col && Row(g, d) == row;
  }

  lemma CellUnderOfContained(g: GridGeometry, count: int, j: int, x: int, y: int)
    requires g.Proper() && 0 <= j < count && CellRect(g, j).Contains(x, y)
    ensures CellUnder(g, count, x, y) == j
  {
    var c := g.columns;
    var col, row := Column(g, j), Row(g, j);
    JavaInt.DivRemNonNegative(j, c);
    JavaInt.Decompose(j, c);
    SlotOf(col, g.columnWidth, x);
    SlotOf(row, g.rowHeight, y - g.headerHeight);
    CellUnderOfSlots(g, count, j, col, row, x, y);
  }

  /** The direct computation finds cell j once x and y are known to divide to its column and row. */
  lemma CellUnderOfSlots(g: GridGeometry, count: int, j: int, col: int, row: int, x: int, y: int)
    requires g.Proper() && 0 <= j < count && 0 <= col < g.columns && j == row * g.columns + col
    requires 0 <= x && x / g.columnWidth == col
    requires g.headerHeight <= y && (y - g.headerHeight) / g.rowHeight == row
    ensures CellUnder(g, count, x, y) == j
  {
  }

  /** A point in slot `a` (of width `w`, counting from 0) is non-negative and divides back to `a`. */
  lemma SlotOf(a: int, w: int, v: int)
    requires 0 <= a && 0 < w && a * w <= v < a * w + w
    ensures 0 <= v && v / w == a
  {
    JavaInt.MulMonotone(0, a, w);
    JavaInt.QuotientOfSlot(v, w, a);
  }

  /**
   * moveDraggedView: the top-left corner given to the dragged view for a pointer at (x, y).
   * With a recorded grab point the two half-size terms cancel and the view keeps the offset
   * at which it was grabbed; without one the view is centred on the pointer, so a view of
   * positive size stays under it.
   */
  function DraggedViewOrigin(x: int, y: int, width: int, height: int, touch: Option<Point>): (p: Point)
    ensures touch.Some? ==> p == Point(x - touch.value.x, y - touch.value.y)
    ensures touch.None? ==> p == Point(x - JavaInt.Div(width, 2), y - JavaInt.Div(height, 2))
    ensures touch.None? && 0 < width ==> p.x <= x < p.x + width
    ensures touch.None? && 0 < height ==> p.y <= y < p.y + height
  {
    JavaInt.DivIsTruncated(width, 2);
    JavaInt.DivIsTruncated(height, 2);
    var l := x - JavaInt.Div(1 * width, 2);
    var t := y - JavaInt.Div(1 * height, 2);
    if touch.Some? then
      Point(l - touch.value.x + JavaInt.Div(width, 2), t - touch.value.y + JavaInt.Div(height, 2))
    else
      Point(l, t)
  }
}
