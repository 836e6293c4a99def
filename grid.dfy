/**
 The fixed three-column grid in which createFileGrid places one rectangle per
 file: index i goes to column i % 3 and row i / 3, and each cell is a 200 x 100
 rectangle separated from its neighbours by 30-pixel gaps.
 */
module Grid {
  import opened Wrappers

  const StartX: int := 50
  const StartY: int := 50
  const RectWidth: int := 200
  const RectHeight: int := 100
  const HorizontalGap: int := 30
  const VerticalGap: int := 30
  const ColumnsCount: nat := 3

  /** Horizontal and vertical distance between the corners of neighbouring cells. */
  const ColumnPitch: int := RectWidth + HorizontalGap
  const RowPitch: int := RectHeight + VerticalGap

  /** A rectangle given by its top-left corner and its size, as passed to insertVertex. */
  datatype Rect = Rect(x: int, y: int, width: int, height: int)

  /** The column of a file index; together with Row it determines the index. */
  function Col(index: nat): (c: nat)
    ensures c < ColumnsCount
    ensures index == Row(index) * ColumnsCount + c
  {
    index % ColumnsCount
  }

  /** The row of a file index: Math.floor(index / columnsCount). */
  function Row(index: nat): (r: nat)
    ensures r * ColumnsCount <= index < r * ColumnsCount + ColumnsCount
  {
    index / ColumnsCount
  }

  /** The rectangle of the file at the given index. */
  function CellAt(index: nat): (cell: Rect)
    ensures cell.width == RectWidth && cell.height == RectHeight
    ensures cell.x == StartX || cell.x == StartX + ColumnPitch || cell.x == StartX + 2 * ColumnPitch
    ensures cell.y >= StartY && (cell.y - StartY) % RowPitch == 0
  {
    Rect(StartX + Col(index) * ColumnPitch, StartY + Row(index) * RowPitch, RectWidth, RectHeight)
  }

  /** The index whose cell has its top-left corner at (x, y), if there is one. */
  function IndexAt(x: int, y: int): (index: Option<nat>)
  {
    var dx, dy := x - StartX, y - StartY;
    if dx >= 0 && dy >= 0 && dx % ColumnPitch == 0 && dy % RowPitch == 0 && dx / ColumnPitch < ColumnsCount
    then Some(dy / RowPitch * ColumnsCount + dx / ColumnPitch)
    else None
  }

  /** Two rectangles share interior points. */
  predicate Overlap(a: Rect, b: Rect)
  {
    a.x < b.x + b.width && b.x < a.x + a.width &&
    a.y < b.y + b.height && b.y < a.y + a.height
  }

  /** The corner of every cell leads back to its index. */
  lemma IndexAtCell(index: nat)
    ensures IndexAt(CellAt(index).x, CellAt(index).y) == Some(index)
  {
  }

  /** A corner that IndexAt accepts is exactly the corner of that index's cell. */
  lemma CellAtIndex(x: int, y: int)
    requires IndexAt(x, y).Some?
    ensures CellAt(IndexAt(x, y).value).x == x && CellAt(IndexAt(x, y).value).y == y
  {
  }

  /** Distinct indices get distinct corners. */
  lemma PlacementInjective(i: nat, j: nat)
    requires i != j
    ensures (CellAt(i).x, CellAt(i).y) != (CellAt(j).x, CellAt(j).y)
  {
  }

  /** Cells of distinct indices are separated by at least one gap in some direction, so they never overlap. */
  lemma CellsDisjoint(i: nat, j: nat)
    requires i != j
    ensures CellAt(i).x + RectWidth + HorizontalGap <= CellAt(j).x
         || CellAt(j).x + RectWidth + HorizontalGap <= CellAt(i).x
         || CellAt(i).y + RectHeight + VerticalGap <= CellAt(j).y
         || CellAt(j).y + RectHeight + VerticalGap <= CellAt(i).y
    ensures !Overlap(CellAt(i), CellAt(j))
  {
  }

  /** Row r holds exactly the indices 3r, 3r + 1 and 3r + 2. */
  lemma RowMembers(index: nat, r: nat)
    ensures CellAt(index).y == StartY + r * RowPitch <==> r * ColumnsCount <= index < r * ColumnsCount + ColumnsCount
  {
  }

  /** Cells fill row by row, and left to right within a row. */
  lemma RowMajorOrder(i: nat, j: nat)
    requires i < j
    ensures CellAt(i).y < CellAt(j).y || (CellAt(i).y == CellAt(j).y && CellAt(i).x < CellAt(j).x)
  {
  }

  /** With four files, indices 0 to 2 fill row 0 and index 3 starts row 1 at the left edge. */
  lemma FourFilesLayout()
    ensures CellAt(0).y == CellAt(1).y == CellAt(2).y == StartY
    ensures CellAt(3) == Rect(StartX, StartY + RectHeight + VerticalGap, RectWidth, RectHeight)
  {
  }
}
