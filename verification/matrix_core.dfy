/**
 * The dense row-major `Matrix<Element>` value of Matrix.swift: a flat buffer
 * `value` plus the counts `rows` and `columns`, with cell `(i, j)` stored at
 * offset `i * columns + j`.  This module holds the construction, the
 * subscripts and the shape queries.
 */
module MatrixCore {

  import opened Wrappers
  import opened Flattening
  import Offsets

  /** `MatrixInitError.rowsWithDifferentColumns` and `MatrixMathError.sizeMismatch`. */
  datatype MatrixError = RowsWithDifferentColumns | SizeMismatch

  /** The stored properties `_value`, `_columns`, `_rows`. */
  datatype Matrix<T> = Matrix(value: seq<T>, columns: nat, rows: nat)
  {
    /** The storage invariant: one buffer slot per cell. */
    predicate Valid()
    {
      |value| == rows * columns
    }

    /** `self[i, j]` for an in-range cell. */
    function Get(i: int, j: int): T
      requires Valid() && 0 <= i < rows && 0 <= j < columns
      ensures 0 <= i * columns + j < |value|
    {
      Offsets.OffsetBounds(i, j, rows, columns);
      value[i * columns + j]
    }
  }

  /** Two valid matrices of the same shape that agree on every cell are the same value. */
  lemma CellsDetermine<T>(a: Matrix<T>, b: Matrix<T>)
    requires a.Valid() && b.Valid()
    requires a.rows == b.rows && a.columns == b.columns
    requires forall i, j :: 0 <= i < a.rows && 0 <= j < a.columns ==> a.Get(i, j) == b.Get(i, j)
    ensures a == b
  {
    forall k | 0 <= k < |a.value|
      ensures a.value[k] == b.value[k]
    {
      Offsets.OffsetSplit(k, a.rows, a.columns);
      assert a.Get(k / a.columns, k % a.columns) == b.Get(k / a.columns, k % a.columns);
    }
  }

  /** A matrix whose buffer is the flattening of uniform rows has those rows as its cells. */
  lemma {:induction false} FromUniformRows<T>(rows: seq<seq<T>>, width: nat)
    requires Uniform(rows, width)
    ensures Matrix(Flatten(rows), width, |rows|).Valid()
    ensures forall i, j :: 0 <= i < |rows| && 0 <= j < width ==> Matrix(Flatten(rows), width, |rows|).Get(i, j) == rows[i][j]
  {
    FlattenLength(rows, width);
    forall i, j | 0 <= i < |rows| && 0 <= j < width
      ensures Matrix(Flatten(rows), width, |rows|).Get(i, j) == rows[i][j]
    {
      FlattenAt(rows, width, i, j);
    }
  }

  /** The column count `init(_:)` reads from the first row (`array.first?.count ?? 0`). */
  function FirstCount<T>(grid: seq<seq<T>>): nat
  {
    if |grid| == 0 then 0 else |grid[0]|
  }

  /**
   * `init(_ array: [[Element]]) throws`: fails exactly when some row's length
   * differs from the first row's; otherwise the rows become the cells.
   */
  function FromRows<T>(grid: seq<seq<T>>): (r: Result<Matrix<T>, MatrixError>)
    ensures r.Failure? <==> exists k :: 0 <= k < |grid| && |grid[k]| != FirstCount(grid)
    ensures r.Failure? ==> r.error == RowsWithDifferentColumns
    ensures r.Success? ==> r.value.Valid() && r.value.rows == |grid| && r.value.columns == FirstCount(grid)
    ensures r.Success? ==> forall i, j :: 0 <= i < r.value.rows && 0 <= j < r.value.columns ==> r.value.Get(i, j) == grid[i][j]
  {
    var columnCount := FirstCount(grid);
    if forall k :: 0 <= k < |grid| ==> |grid[k]| == columnCount then
      FromUniformRows(grid, columnCount);
      Success(Matrix(Flatten(grid), columnCount, |grid|))
    else
      Failure(RowsWithDifferentColumns)
  }

  /** `init(size:repeatedValue:)`: every one of the `rows * columns` cells holds `x`. */
  function Filled<T>(rows: nat, columns: nat, x: T): (r: Matrix<T>)
    ensures r.Valid() && r.rows == rows && r.columns == columns
    ensures forall i, j :: 0 <= i < rows && 0 <= j < columns ==> r.Get(i, j) == x
  {
    Matrix(seq(rows * columns, _ => x), columns, rows)
  }

  /** `init(size:)` for integer-literal elements: the zero matrix. */
  function Zeros(rows: nat, columns: nat): (r: Matrix<int>)
    ensures r.Valid() && r.rows == rows && r.columns == columns
    ensures forall i, j :: 0 <= i < rows && 0 <= j < columns ==> r.Get(i, j) == 0
  {
    Filled(rows, columns, 0)
  }

  /** `size`: the pair `(m, n)`, which accounts for every stored element of a valid matrix. */
  function Size<T>(m: Matrix<T>): (r: (nat, nat))
    ensures r.0 == m.rows && r.1 == m.columns
    ensures m.Valid() ==> |m.value| == r.0 * r.1
  {
    (m.rows, m.columns)
  }

  /** `isEmpty`: a valid matrix is empty exactly when it stores no element. */
  function IsEmpty<T>(m: Matrix<T>): (r: bool)
    ensures m.Valid() ==> (r <==> |m.value| == 0)
  {
    !(m.rows > 0 && m.columns > 0)
  }

  /** `isSquare`: as many rows as columns, so that a valid square matrix has `rows * rows` elements. */
  function IsSquare<T>(m: Matrix<T>): (r: bool)
    ensures r <==> m.rows == m.columns
    ensures r && m.Valid() ==> |m.value| == m.rows * m.rows
  {
    m.rows == m.columns
  }

  /**
   * `subscript(row: i)`: the `columns` elements of row `i`.  When there are
   * columns the source reads `self[(i, j)]`, so `i` must be a row index.
   */
  function Row<T>(m: Matrix<T>, i: int): (r: seq<T>)
    requires m.Valid()
    requires m.columns > 0 ==> 0 <= i < m.rows
    ensures |r| == m.columns
    ensures forall j :: 0 <= j < m.columns ==> r[j] == m.Get(i, j)
  {
    if m.columns == 0 then []
    else
      Offsets.MulMonotone(i + 1, m.rows, m.columns);
      m.value[i * m.columns .. i * m.columns + m.columns]
  }

  /** `subscript(column: j)`: the `rows` elements of column `j`. */
  function Column<T>(m: Matrix<T>, j: int): (r: seq<T>)
    requires m.Valid()
    requires m.rows > 0 ==> 0 <= j < m.columns
    ensures |r| == m.rows
    ensures forall i :: 0 <= i < m.rows ==> r[i] == m.Get(i, j)
  {
    seq(m.rows, i requires 0 <= i < m.rows => m.Get(i, j))
  }

  /**
   * The subscript getter `self[i, j]` as written: it reads offset
   * `i * columns + j` whenever that offset is in the buffer, so an
   * out-of-range column wraps into the next row (`m[0, 2]` of a 2 x 2
   * matrix is cell (1, 0)).
   */
  function Subscript<T>(m: Matrix<T>, i: int, j: int): (r: T)
    requires 0 <= i * m.columns + j < |m.value|
    ensures m.Valid() && 0 <= i < m.rows && 0 <= j < m.columns ==> r == m.Get(i, j)
    ensures m.Valid() ==> var k := i * m.columns + j;
      m.columns > 0 && 0 <= k / m.columns < m.rows && 0 <= k % m.columns < m.columns &&
      r == m.Get(k / m.columns, k % m.columns)
  {
    var k := i * m.columns + j;
    if m.Valid() then Offsets.OffsetSplit(k, m.rows, m.columns); m.value[k] else m.value[k]
  }

  /**
   * The subscript setter `self[i, j] = x`, as the value it leaves behind: the
   * source only needs the offset `i * columns + j` to lie in the buffer.
   */
  function WithCell<T>(m: Matrix<T>, i: int, j: int, x: T): (r: Matrix<T>)
    requires 0 <= i * m.columns + j < |m.value|
    ensures r.rows == m.rows && r.columns == m.columns && |r.value| == |m.value|
    ensures m.Valid() && 0 <= i < m.rows && 0 <= j < m.columns ==>
      r.Valid() && r.Get(i, j) == x &&
      forall a, b :: 0 <= a < m.rows && 0 <= b < m.columns && (a, b) != (i, j) ==> r.Get(a, b) == m.Get(a, b)
  {
    var r := m.(value := m.value[i * m.columns + j := x]);
    if m.Valid() && 0 <= i < m.rows && 0 <= j < m.columns then
      assert forall a, b :: 0 <= a < m.rows && 0 <= b < m.columns && (a, b) != (i, j) ==> r.Get(a, b) == m.Get(a, b) by {
        forall a, b | 0 <= a < m.rows && 0 <= b < m.columns && (a, b) != (i, j)
          ensures r.Get(a, b) == m.Get(a, b)
        {
          if a * m.columns + b == i * m.columns + j {
            Offsets.OffsetInjective(a, b, i, j, m.columns);
          }
        }
      }
      r
    else
      r
  }

  /** The rows of a valid matrix, in order: the view every structural edit is specified against. */
  function Rows<T>(m: Matrix<T>): (r: seq<seq<T>>)
    requires m.Valid()
    ensures |r| == m.rows && Uniform(r, m.columns)
    ensures forall i, j :: 0 <= i < m.rows && 0 <= j < m.columns ==> r[i][j] == m.Get(i, j)
  {
    seq(m.rows, i requires 0 <= i < m.rows => Row(m, i))
  }

  /** Laying uniform rows out row-major and reading the rows back gives the same rows. */
  lemma RowsOfFlatten<T>(rows: seq<seq<T>>, width: nat)
    requires Uniform(rows, width)
    ensures Matrix(Flatten(rows), width, |rows|).Valid()
    ensures Rows(Matrix(Flatten(rows), width, |rows|)) == rows
  {
    FromUniformRows(rows, width);
    var r := Rows(Matrix(Flatten(rows), width, |rows|));
    forall i | 0 <= i < |rows|
      ensures r[i] == rows[i]
    {
      assert forall j :: 0 <= j < width ==> r[i][j] == rows[i][j];
    }
  }

  /** The buffer of a valid matrix is the concatenation of its rows. */
  lemma FlattenOfRows<T>(m: Matrix<T>)
    requires m.Valid()
    ensures Flatten(Rows(m)) == m.value
  {
    var rows := Rows(m);
    FromUniformRows(rows, m.columns);
    CellsDetermine(Matrix(Flatten(rows), m.columns, m.rows), m);
  }

  /** A valid matrix is determined by its column count and its rows. */
  lemma RowsDetermine<T>(a: Matrix<T>, b: Matrix<T>)
    requires a.Valid() && b.Valid() && a.columns == b.columns
    requires Rows(a) == Rows(b)
    ensures a == b
  {
    FlattenOfRows(a);
    FlattenOfRows(b);
  }

  /** The first `i` rows occupy exactly the first `i * columns` slots of the buffer. */
  lemma FlattenSplit<T>(m: Matrix<T>, i: int)
    requires m.Valid() && 0 <= i <= m.rows
    ensures i * m.columns <= |m.value|
    ensures m.value[..i * m.columns] == Flatten(Rows(m)[..i])
    ensures m.value[i * m.columns..] == Flatten(Rows(m)[i..])
  {
    var rows := Rows(m);
    FlattenOfRows(m);
    assert rows == rows[..i] + rows[i..];
    FlattenAppend(rows[..i], rows[i..]);
    FlattenLength(rows[..i], m.columns);
  }

  /** Reading back through the getter what the setter wrote gives the written value. */
  lemma SubscriptAfterSet<T>(m: Matrix<T>, i: int, j: int, x: T)
    requires 0 <= i * m.columns + j < |m.value|
    ensures 0 <= i * WithCell(m, i, j, x).columns + j < |WithCell(m, i, j, x).value|
    ensures Subscript(WithCell(m, i, j, x), i, j) == x
  {
  }

  /** The wrap-around read: `m[0, 2]` of a 2 x 2 matrix is its cell (1, 0). */
  lemma SubscriptWraps<T>(m: Matrix<T>)
    requires m.Valid() && m.rows == 2 && m.columns == 2
    ensures Subscript(m, 0, 2) == m.Get(1, 0)
  {
  }
}
