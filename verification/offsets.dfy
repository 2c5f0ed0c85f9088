/**
 * Row-major offset arithmetic: cell `(i, j)` of a matrix with `columns`
 * columns lives at offset `i * columns + j`.
 */
module Offsets {

  lemma MulMonotone(a: int, b: int, c: int)
    requires a <= b && 0 <= c
    ensures a * c <= b * c
  {
  }

  /** An in-range cell has an in-range offset. */
  lemma OffsetBounds(i: int, j: int, rows: int, columns: int)
    requires 0 <= i < rows && 0 <= j < columns
    ensures 0 <= i * columns + j < rows * columns
  {
    MulMonotone(i, rows - 1, columns);
  }

  /** Distinct cells have distinct offsets. */
  lemma OffsetInjective(i: int, j: int, k: int, l: int, columns: int)
    requires 0 <= i && 0 <= k && 0 <= j < columns && 0 <= l < columns
    requires i * columns + j == k * columns + l
    ensures i == k && j == l
  {
    if i < k {
      MulMonotone(i + 1, k, columns);
    } else if k < i {
      MulMonotone(k + 1, i, columns);
    }
  }

  /** Every offset below `rows * columns` is the offset of an in-range cell. */
  lemma OffsetSplit(k: int, rows: int, columns: int)
    requires 0 <= rows && 0 <= columns && 0 <= k < rows * columns
    ensures columns > 0
    ensures 0 <= k / columns < rows && 0 <= k % columns < columns
    ensures k == (k / columns) * columns + k % columns
  {
    if k / columns >= rows {
      MulMonotone(rows, k / columns, columns);
    }
  }
}
