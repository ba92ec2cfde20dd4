/**
 * Sizing of DragDropGrid: the adapter's declared counts and sizes, the coerced row and
 * column counts (computeGridMatrixSize), the cell size derived from the available space
 * (computeColumnsAndRowsSizes), the measured height (onMeasure) and the frames of the header
 * and footer (onLayout).
 */
module Sizing {
  import JavaInt
  import opened Geometry

  /** DragDropGridAdapter.AUTOMATIC: a count the adapter leaves to the grid. */
  const AUTOMATIC: int := -1

  /**
   * What the grid reads from its DragDropGridAdapter. `hasHeader` and `hasFooter` say whether
   * getHeader and getFooter return a view.
   */
  datatype Adapter = Adapter(
    itemCount: int,
    rowCount: int,
    columnCount: int,
    childViewWidth: int,
    childViewHeight: int,
    viewHeight: int,
    headerViewHeight: int,
    footerViewHeight: int,
    hasHeader: bool,
    hasFooter: bool)

  /** The adapter installed before the host supplies one (useDummyAdapter). */
  const DummyAdapter: Adapter := Adapter(AUTOMATIC, 1, 1, 400, 400, 0, 0, 0, false, false)

  /**
   * computeGridMatrixSize: the new (computedColumnCount, computedRowCount) given the previous
   * ones. Neither is ever zero, so the divisions that follow are safe; when the adapter's
   * counts are non-negative both are at least 1 and a positive adapter count is taken as is;
   * when either count is AUTOMATIC the previous counts stay, a zero becoming 1.
   */
  function MatrixSize(a: Adapter, columns: int, rows: int): (r: (int, int))
    ensures r.0 != 0 && r.1 != 0
    ensures 0 <= a.columnCount && 0 <= a.rowCount ==> 1 <= r.0 && 1 <= r.1
    ensures 0 < a.columnCount && a.rowCount != AUTOMATIC ==> r.0 == a.columnCount
    ensures 0 < a.rowCount && a.columnCount != AUTOMATIC ==> r.1 == a.rowCount
    ensures (a.columnCount == AUTOMATIC || a.rowCount == AUTOMATIC) && columns != 0 ==> r.0 == columns
    ensures (a.columnCount == AUTOMATIC || a.rowCount == AUTOMATIC) && rows != 0 ==> r.1 == rows
    ensures a.columnCount == 0 && a.rowCount != AUTOMATIC ==> r.0 == 1
    ensures a.rowCount == 0 && a.columnCount != AUTOMATIC ==> r.1 == 1
    ensures (a.columnCount == AUTOMATIC || a.rowCount == AUTOMATIC) && columns == 0 ==> r.0 == 1
    ensures (a.columnCount == AUTOMATIC || a.rowCount == AUTOMATIC) && rows == 0 ==> r.1 == 1
  {
    var (c, r) :=
      if a.columnCount != AUTOMATIC && a.rowCount != AUTOMATIC then (a.columnCount, a.rowCount)
      else (columns, rows);
    (if c == 0 then 1 else c, if r == 0 then 1 else r)
  }

  /**
   * computeColumnsAndRowsSizes: (columnWidthSize, rowHeightSize). For a non-negative size
   * and a positive count the cell size is the largest that fits that many times.
   */
  function ColumnsAndRowsSizes(width: int, height: int, columns: int, rows: int): (r: (int, int))
    requires columns != 0 && rows != 0
    ensures 0 <= width && 0 < columns ==> r.0 * columns <= width < r.0 * columns + columns
    ensures 0 <= height && 0 < rows ==> r.1 * rows <= height < r.1 * rows + rows
  {
    JavaInt.DivIsTruncated(width, columns);
    JavaInt.DivIsTruncated(height, rows);
    (JavaInt.Div(width, columns), JavaInt.Div(height, rows))
  }

  /** The height onMeasure hands to the sizing: one child height per declared row. */
  function GridHeight(a: Adapter): int {
    a.childViewHeight * a.rowCount
  }

  /** The height onMeasure reports: the grid's, raised to the adapter's view height. */
  function MeasuredHeight(a: Adapter): (h: int)
    ensures h >= GridHeight(a) && h >= a.viewHeight
    ensures h == GridHeight(a) || h == a.viewHeight
  {
    var heightSize := GridHeight(a);
    if heightSize < a.viewHeight then a.viewHeight else heightSize
  }

  /** The header's frame: the full width, from the top down to the header height. */
  function HeaderFrame(a: Adapter, width: int): Rect {
    Rect(0, 0, width, a.headerViewHeight)
  }

  /** The footer's frame: below the adapter's rows of child height, under the header. */
  function FooterFrame(a: Adapter, width: int): Rect {
    var footerY := a.rowCount * a.childViewHeight + a.headerViewHeight;
    Rect(0, footerY, width, footerY + a.footerViewHeight)
  }

  /**
   * After measuring with an adapter of positive counts, every one of its
   * rowCount * columnCount cells lies below the header's frame and above the footer's.
   */
  lemma {:induction false} CellsBetweenHeaderAndFooter(a: Adapter, width: int, columns: int, rows: int, i: int)
    requires 1 <= a.columnCount && 1 <= a.rowCount && 0 <= a.childViewHeight && 0 <= a.headerViewHeight
    requires 0 <= i < a.columnCount * a.rowCount
    ensures
      var counts := MatrixSize(a, columns, rows);
      var sizes := ColumnsAndRowsSizes(width, GridHeight(a), counts.0, counts.1);
      var g := GridGeometry(a.columnCount, sizes.0, sizes.1, a.headerViewHeight);
      HeaderFrame(a, width).bottom <= CellRect(g, i).top && CellRect(g, i).bottom <= FooterFrame(a, width).top
  {
    var counts := MatrixSize(a, columns, rows);
    var sizes := ColumnsAndRowsSizes(width, GridHeight(a), counts.0, counts.1);
    RowHeightIsChildHeight(a, width, columns, rows);
    var g := GridGeometry(a.columnCount, sizes.0, sizes.1, a.headerViewHeight);
    JavaInt.DivRemNonNegative(i, a.columnCount);
    RowWithinCount(i, a.columnCount, a.rowCount);
    RowSpan(Row(g, i), a.rowCount, a.childViewHeight);
  }

  /** With positive counts the measured row height is the adapter's child height. */
  lemma RowHeightIsChildHeight(a: Adapter, width: int, columns: int, rows: int)
    requires 1 <= a.columnCount && 1 <= a.rowCount && 0 <= a.childViewHeight
    ensures MatrixSize(a, columns, rows) == (a.columnCount, a.rowCount)
    ensures ColumnsAndRowsSizes(width, GridHeight(a), a.columnCount, a.rowCount).1 == a.childViewHeight
  {
    JavaInt.QuotientOfSlot(GridHeight(a), a.rowCount, a.childViewHeight);
    JavaInt.DivRemNonNegative(GridHeight(a), a.rowCount);
  }

  lemma RowWithinCount(i: int, columns: int, rows: int)
    requires 1 <= columns && 0 <= i < columns * rows
    ensures 0 <= i / columns < rows
  {
    if rows <= i / columns {
      JavaInt.MulMonotone(rows, i / columns, columns);
    }
  }

  lemma RowSpan(row: int, rows: int, h: int)
    requires 0 <= row < rows && 0 <= h
    ensures 0 <= row * h && row * h + h <= rows * h
  {
    JavaInt.MulMonotone(0, row, h);
    JavaInt.MulMonotone(row + 1, rows, h);
  }
}
