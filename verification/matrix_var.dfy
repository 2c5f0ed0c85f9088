/**
 * The mutating members of Matrix.swift.  A Swift `var` of type `Matrix` is
 * a `MatrixVar` holding the current value; each mutating member replaces
 * that value with the result of its non-mutating twin (`self = self.op()`),
 * and a throwing one leaves it untouched when the twin throws.  The compound
 * assignment operators (`+=`, `-=`, `*=`) take such a variable `inout`.
 */
module MatrixVars {

  import opened Wrappers
  import opened Limits
  import opened MatrixCore
  import opened MatrixEdits
  import opened MatrixOps

  class MatrixVar<T> {
    var matrix: Matrix<T>

    constructor (m: Matrix<T>)
      ensures matrix == m
    {
      matrix := m;
    }

    /** The subscript setter `self[i, j] = x`: writes buffer offset `i * columns + j`. */
    method SetCell(i: int, j: int, x: T)
      requires 0 <= i * matrix.columns + j < |matrix.value|
      modifies this
      ensures matrix == old(matrix).(value := old(matrix).value[i * old(matrix).columns + j := x])
      ensures old(matrix).Valid() && 0 <= i < matrix.rows && 0 <= j < matrix.columns ==>
        matrix.Valid() && matrix.Get(i, j) == x &&
        forall a, b :: 0 <= a < matrix.rows && 0 <= b < matrix.columns && (a, b) != (i, j) ==>
          matrix.Get(a, b) == old(matrix).Get(a, b)
    {
      matrix := WithCell(matrix, i, j, x);
    }

    /** `transpose()`. */
    method Transpose()
      requires matrix.Valid()
      modifies this
      ensures old(matrix).Valid() && IsTransposeOf(matrix, old(matrix))
    {
      matrix := Transposed(matrix);
    }

    /** `appendRow(_:)`: throws, and changes nothing, when the row's length is not `columns`. */
    method AppendRow(row: seq<T>) returns (error: Option<MatrixError>)
      requires matrix.Valid()
      modifies this
      ensures error.Some? <==> |row| != old(matrix).columns
      ensures error.Some? ==> error.value == SizeMismatch && matrix == old(matrix)
      ensures error.None? ==> matrix.Valid() && matrix.columns == old(matrix).columns && Rows(matrix) == Rows(old(matrix)) + [row]
    {
      var r := AppendingRow(matrix, row);
      if r.Failure? {
        return Some(r.error);
      }
      matrix := r.value;
      return None;
    }

    /** `insertRow(_:at:)`: throws, and changes nothing, when the row's length is not `columns`. */
    method InsertRow(row: seq<T>, i: int) returns (error: Option<MatrixError>)
      requires matrix.Valid()
      requires |row| == matrix.columns && matrix.columns > 0 ==> 0 <= i <= matrix.rows
      modifies this
      ensures error.Some? <==> |row| != old(matrix).columns
      ensures error.Some? ==> error.value == SizeMismatch && matrix == old(matrix)
      ensures error.None? ==> matrix.Valid() && matrix.rows == old(matrix).rows + 1 && matrix.columns == old(matrix).columns
      ensures error.None? && matrix.columns > 0 ==> Rows(matrix) == RowSpliced(Rows(old(matrix)), row, i)
    {
      var r := InsertingRow(matrix, row, i);
      if r.Failure? {
        return Some(r.error);
      }
      matrix := r.value;
      return None;
    }

    /** `appendColumn(_:)`: throws, and changes nothing, when the column's length is not `rows`. */
    method AppendColumn(column: seq<T>) returns (error: Option<MatrixError>)
      requires matrix.Valid()
      modifies this
      ensures error.Some? <==> |column| != old(matrix).rows
      ensures error.Some? ==> error.value == SizeMismatch && matrix == old(matrix)
      ensures error.None? ==> matrix.Valid() && matrix.rows == old(matrix).rows && matrix.columns == old(matrix).columns + 1
      ensures error.None? ==> forall a :: 0 <= a < matrix.rows ==> Rows(matrix)[a] == Rows(old(matrix))[a] + [column[a]]
    {
      var r := AppendingColumn(matrix, column);
      if r.Failure? {
        return Some(r.error);
      }
      matrix := r.value;
      return None;
    }

    /** `insertColumn(_:at:)`: throws, and changes nothing, when the column's length is not `rows`. */
    method InsertColumn(column: seq<T>, j: int) returns (error: Option<MatrixError>)
      requires matrix.Valid()
      requires |column| == matrix.rows && matrix.rows > 0 ==> 0 <= j <= matrix.columns
      modifies this
      ensures error.Some? <==> |column| != old(matrix).rows
      ensures error.Some? ==> error.value == SizeMismatch && matrix == old(matrix)
      ensures error.None? ==> matrix.Valid() && matrix.rows == old(matrix).rows && matrix.columns == old(matrix).columns + 1
      ensures error.None? ==> Rows(matrix) == ColumnSpliced(Rows(old(matrix)), column, j)
    {
      var r := InsertingColumn(matrix, column, j);
      if r.Failure? {
        return Some(r.error);
      }
      matrix := r.value;
      return None;
    }

    /** `keepRow(at:)`. */
    method KeepRow(n: int)
      requires matrix.Valid() && matrix.rows > 0
      modifies this
      ensures matrix == KeepingRow(old(matrix), n)
      ensures Rows(matrix) == [Rows(old(matrix))[LimitedHalfOpen(n, 0, old(matrix).rows)]]
    {
      matrix := KeepingRow(matrix, n);
    }

    /** `keepFirstRows(of:)`. */
    method KeepFirstRows(count: int)
      requires matrix.Valid()
      modifies this
      ensures matrix == KeepingFirstRows(old(matrix), count)
      ensures Rows(matrix) == Rows(old(matrix))[..LimitedClosed(count, 0, old(matrix).rows)]
    {
      matrix := KeepingFirstRows(matrix, count);
    }

    /** `keepLastRows(of:)`. */
    method KeepLastRows(count: int)
      requires matrix.Valid()
      modifies this
      ensures matrix == KeepingLastRows(old(matrix), count)
      ensures Rows(matrix) == Rows(old(matrix))[old(matrix).rows - LimitedClosed(count, 0, old(matrix).rows)..]
    {
      matrix := KeepingLastRows(matrix, count);
    }

    /** `keepColumn(at:)`. */
    method KeepColumn(n: int)
      requires matrix.Valid() && matrix.columns > 0
      modifies this
      ensures matrix == KeepingColumn(old(matrix), n)
    {
      matrix := KeepingColumn(matrix, n);
    }

    /** `keepFirstColumns(of:)`. */
    method KeepFirstColumns(count: int)
      requires matrix.Valid()
      modifies this
      ensures matrix == KeepingFirstColumns(old(matrix), count)
    {
      matrix := KeepingFirstColumns(matrix, count);
    }

    /** `keepLastColumns(of:)`. */
    method KeepLastColumns(count: int)
      requires matrix.Valid()
      modifies this
      ensures matrix == KeepingLastColumns(old(matrix), count)
    {
      matrix := KeepingLastColumns(matrix, count);
    }

    /** `removeRow(at:)`. */
    method RemoveRow(n: int)
      requires matrix.Valid() && matrix.rows > 0
      modifies this
      ensures matrix == RemovingRow(old(matrix), n)
      ensures var i := LimitedHalfOpen(n, 0, old(matrix).rows);
        Rows(matrix) == Rows(old(matrix))[..i] + Rows(old(matrix))[i + 1..]
    {
      matrix := RemovingRow(matrix, n);
    }

    /** `removeFirstRows(of:)`: inherits the defect of `removingFirstRows(of:)`. */
    method RemoveFirstRows(count: int)
      requires matrix.Valid()
      modifies this
      ensures matrix == RemovingFirstRows(old(matrix), count)
    {
      matrix := RemovingFirstRows(matrix, count);
    }

    /** `removeLastRows(of:)`: inherits the defect of `removingLastRows(of:)`. */
    method RemoveLastRows(count: int)
      requires matrix.Valid()
      modifies this
      ensures matrix == RemovingLastRows(old(matrix), count)
    {
      matrix := RemovingLastRows(matrix, count);
    }

    /** `removeColumn(at:)`: inherits the defect of `removingColumn(at:)`. */
    method RemoveColumn(n: int)
      requires matrix.Valid() && matrix.columns > 0 && ColumnRemovalReadable(matrix, n)
      modifies this
      ensures matrix == RemovingColumn(old(matrix), n)
    {
      matrix := RemovingColumn(matrix, n);
    }

    /** `removeFirstColumns(of:)`. */
    method RemoveFirstColumns(count: int)
      requires matrix.Valid()
      modifies this
      ensures matrix == RemovingFirstColumns(old(matrix), count)
    {
      matrix := RemovingFirstColumns(matrix, count);
    }

    /** `removeLastColumns(of:)`. */
    method RemoveLastColumns(count: int)
      requires matrix.Valid()
      modifies this
      ensures matrix == RemovingLastColumns(old(matrix), count)
    {
      matrix := RemovingLastColumns(matrix, count);
    }
  }

  /** `lhs += rhs`: throws, and changes nothing, when the sizes differ. */
  method AddAssign(lhs: MatrixVar<int>, rhs: Matrix<int>) returns (error: Option<MatrixError>)
    requires lhs.matrix.Valid() && rhs.Valid()
    modifies lhs
    ensures error.Some? <==> Size(old(lhs.matrix)) != Size(rhs)
    ensures error.Some? ==> error.value == SizeMismatch && lhs.matrix == old(lhs.matrix)
    ensures error.None? ==> IsSum(lhs.matrix, old(lhs.matrix), rhs)
  {
    var r := Add(lhs.matrix, rhs);
    if r.Failure? {
      return Some(r.error);
    }
    lhs.matrix := r.value;
    return None;
  }

  /** `lhs -= rhs`: throws, and changes nothing, when the sizes differ. */
  method SubtractAssign(lhs: MatrixVar<int>, rhs: Matrix<int>) returns (error: Option<MatrixError>)
    requires lhs.matrix.Valid() && rhs.Valid()
    modifies lhs
    ensures error.Some? <==> Size(old(lhs.matrix)) != Size(rhs)
    ensures error.Some? ==> error.value == SizeMismatch && lhs.matrix == old(lhs.matrix)
    ensures error.None? ==> IsDifference(lhs.matrix, old(lhs.matrix), rhs)
  {
    var r := Subtract(lhs.matrix, rhs);
    if r.Failure? {
      return Some(r.error);
    }
    lhs.matrix := r.value;
    return None;
  }

  /** `lhs *= rhs` for a matrix `rhs`: throws, and changes nothing, when `lhs.n != rhs.m`. */
  method MultiplyAssign(lhs: MatrixVar<int>, rhs: Matrix<int>) returns (error: Option<MatrixError>)
    requires lhs.matrix.Valid() && rhs.Valid()
    modifies lhs
    ensures error.Some? <==> old(lhs.matrix).columns != rhs.rows
    ensures error.Some? ==> error.value == SizeMismatch && lhs.matrix == old(lhs.matrix)
    ensures error.None? ==> lhs.matrix == Product(old(lhs.matrix), rhs).value
  {
    var r := Product(lhs.matrix, rhs);
    if r.Failure? {
      return Some(r.error);
    }
    lhs.matrix := r.value;
    return None;
  }

  /** `lhs *= rhs` for a scalar `rhs`: `lhs = lhs * rhs`. */
  method ScaleAssign(lhs: MatrixVar<int>, s: int)
    requires lhs.matrix.Valid() && SwappedLoopsInRange(lhs.matrix)
    modifies lhs
    ensures lhs.matrix.Valid() && Size(lhs.matrix) == Size(old(lhs.matrix))
    ensures IsSquare(old(lhs.matrix)) ==> forall i, j :: 0 <= i < lhs.matrix.rows && 0 <= j < lhs.matrix.columns ==>
      lhs.matrix.Get(i, j) == old(lhs.matrix).Get(i, j) * s
  {
    lhs.matrix := MatrixTimesScalar(lhs.matrix, s);
  }
}
