/** Rows and columns of a buffer addressed by linear offset. */
module Grid {

  lemma MultipleAtLeast(k: int, columns: nat)
    requires k >= 1
    ensures k * columns >= columns
  {
    assert (k - 1) * columns >= 0;
  }

  /** A position has one offset, and an offset one position. */
  lemma PositionUnique(row: int, column: nat, row': int, column': nat, columns: nat)
    requires column < columns && column' < columns
    requires row * columns + column == row' * columns + column'
    ensures row == row' && column == column'
  {
    assert (row - row') * columns == column' - column;
    if row > row' {
      MultipleAtLeast(row - row', columns);
    } else if row < row' {
      MultipleAtLeast(row' - row, columns);
    }
  }

  lemma OffsetSplits(offset: nat, columns: nat)
    requires columns > 0
    ensures offset == offset / columns * columns + offset % columns
    ensures 0 <= offset % columns < columns && 0 <= offset / columns
  {
  }

  lemma OffsetInside(rows: nat, columns: nat, row: nat, column: nat)
    requires row < rows && column < columns
    ensures row * columns + column < rows * columns
  {
    MultipleAtLeast(rows - row, columns);
    assert rows * columns == row * columns + (rows - row) * columns;
  }

  lemma RowInside(rows: nat, columns: nat, offset: nat)
    requires offset < rows * columns
    ensures columns > 0 && offset / columns < rows
  {
    if columns > 0 {
      OffsetSplits(offset, columns);
    }
  }
}
