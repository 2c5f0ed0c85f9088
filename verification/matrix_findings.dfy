/**
 * Corrected counterparts of the matrix operations whose code does not do what
 * their names promise, each next to a small input on which the code as
 * written (modelled in MatrixEdits and MatrixOps) and the intended behaviour
 * part ways.
 */
module MatrixFindings {
  import opened Wrappers
  import opened Limits
  import opened Flattening
  import opened MatrixCore
  import opened MatrixEdits
  import opened MatrixOps

  // ---------------------------------------------------------------- removing rows

  /** `removingFirstRows(of:)` as intended: drop the first `k` rows, `k` clamped into `0 ... rows`. */
  function RemovingFirstRowsIntended<T>(m: Matrix<T>, count: int): (r: Matrix<T>)
    requires m.Valid()
    ensures r.Valid() && r.rows == m.rows - LimitedClosed(count, 0, m.rows) && r.columns == m.columns
    ensures Rows(r) == Rows(m)[LimitedClosed(count, 0, m.rows)..]
  {
    KeepingLastRows(m, m.rows - LimitedClosed(count, 0, m.rows))
  }

  /** `removingLastRows(of:)` as intended: drop the last `k` rows, `k` clamped into `0 ... rows`. */
  function RemovingLastRowsIntended<T>(m: Matrix<T>, count: int): (r: Matrix<T>)
    requires m.Valid()
    ensures r.Valid() && r.rows == m.rows - LimitedClosed(count, 0, m.rows) && r.columns == m.columns
    ensures Rows(r) == Rows(m)[..m.rows - LimitedClosed(count, 0, m.rows)]
  {
    KeepingFirstRows(m, m.rows - LimitedClosed(count, 0, m.rows))
  }

  /** The 3 x 2 matrix `[[1, 1], [2, 2], [3, 3]]`. */
  function ThreeByTwo(): (m: Matrix<int>)
    ensures m.Valid() && Rows(m) == [[1, 1], [2, 2], [3, 3]]
  {
    var m := Matrix([1, 1, 2, 2, 3, 3], 2, 3);
    assert Rows(m)[0] == [1, 1] && Rows(m)[1] == [2, 2] && Rows(m)[2] == [3, 3];
    m
  }

  /**
   * Removing the first row of `[[1, 1], [2, 2], [3, 3]]`: the code keeps the
   * buffer `[3, 3]` under a 2 x 2 shape; intended is `[[2, 2], [3, 3]]`.
   * Removing the last row keeps `[1, 1]` under a 2 x 2 shape; intended is
   * `[[1, 1], [2, 2]]`.
   */
  lemma RowRemovalCounterexample()
    ensures var m := ThreeByTwo();
      RemovingFirstRows(m, 1).value == [3, 3] && RemovingFirstRows(m, 1).rows == 2 && !RemovingFirstRows(m, 1).Valid()
    ensures var m := ThreeByTwo();
      RemovingLastRows(m, 1).value == [1, 1] && RemovingLastRows(m, 1).rows == 2 && !RemovingLastRows(m, 1).Valid()
    ensures Rows(RemovingFirstRowsIntended(ThreeByTwo(), 1)) == [[2, 2], [3, 3]]
    ensures Rows(RemovingLastRowsIntended(ThreeByTwo(), 1)) == [[1, 1], [2, 2]]
  {
    var m := ThreeByTwo();
    var last := KeepingLastRows(m, 1);
    assert Rows(last) == [[3, 3]];
    FlattenOfRows(last);
    assert Flatten([[3, 3]]) == [3, 3] + Flatten([]);
    var first := KeepingFirstRows(m, 1);
    assert Rows(first) == [[1, 1]];
    FlattenOfRows(first);
    assert Flatten([[1, 1]]) == [1, 1] + Flatten([]);
    assert Rows(m)[1..] == [[2, 2], [3, 3]];
    assert Rows(m)[..2] == [[1, 1], [2, 2]];
  }

  // ---------------------------------------------------------------- removing a column

  /** `removingColumn(at:)` as intended: every row without its cell in the column clamped into `0 ..< columns`. */
  function RemovingColumnIntended<T>(m: Matrix<T>, n: int): (r: Matrix<T>)
    requires m.Valid() && m.columns > 0
    ensures r.Valid() && r.rows == m.rows && r.columns == m.columns - 1
    ensures var j := LimitedHalfOpen(n, 0, m.columns);
      forall i, b :: 0 <= i < r.rows && 0 <= b < r.columns ==> r.Get(i, b) == m.Get(i, if b < j then b else b + 1)
  {
    var j := LimitedHalfOpen(n, 0, m.columns);
    var kept := Without(m.columns, j);
    var rows := seq(m.rows, i requires 0 <= i < m.rows =>
      seq(|kept|, b requires 0 <= b < |kept| => m.Get(i, kept[b])));
    FromUniformRows(rows, m.columns - 1);
    Matrix(Flatten(rows), m.columns - 1, m.rows)
  }

  /**
   * Removing column 0 of `[[1, 2], [3, 4]]`: the code yields `[[3], [3]]`
   * (column 0 read at row 1, for every row); intended is `[[2], [4]]`.
   */
  lemma ColumnRemovalCounterexample()
    ensures var m := Matrix([1, 2, 3, 4], 2, 2);
      var r := RemovingColumn(m, 0);
      r.Get(0, 0) == 3 && r.Get(1, 0) == 3
    ensures var m := Matrix([1, 2, 3, 4], 2, 2);
      var r := RemovingColumnIntended(m, 0);
      r.Get(0, 0) == 2 && r.Get(1, 0) == 4
  {
    var m := Matrix([1, 2, 3, 4], 2, 2);
    assert LimitedHalfOpen(0, 0, 2) == 0;
    assert m.Get(1, 0) == 3 && m.Get(0, 1) == 2 && m.Get(1, 1) == 4;
  }

  // ---------------------------------------------------------------- matrix product

  /** `lhs * rhs` as intended: an `lhs.rows x rhs.columns` matrix of dot products, whatever `lhs.rows` is. */
  function ProductIntended(lhs: Matrix<int>, rhs: Matrix<int>): (r: Result<Matrix<int>, MatrixError>)
    requires lhs.Valid() && rhs.Valid()
    ensures r.Failure? <==> lhs.columns != rhs.rows
    ensures r.Failure? ==> r.error == SizeMismatch
    ensures r.Success? ==> r.value.Valid() && r.value.rows == lhs.rows && r.value.columns == rhs.columns
    ensures r.Success? ==> forall i, j :: 0 <= i < lhs.rows && 0 <= j < rhs.columns ==>
      r.value.Get(i, j) == Dot(lhs, rhs, i, j, lhs.columns)
  {
    if lhs.columns != rhs.rows then
      Failure(SizeMismatch)
    else
      var rows := seq(lhs.rows, i requires 0 <= i < lhs.rows =>
        seq(rhs.columns, j requires 0 <= j < rhs.columns => Dot(lhs, rhs, i, j, lhs.columns)));
      FromUniformRows(rows, rhs.columns);
      Success(Matrix(Flatten(rows), rhs.columns, lhs.rows))
  }

  /** The code and the intended product agree whenever the left operand has a row. */
  lemma ProductAgreesWithRows(lhs: Matrix<int>, rhs: Matrix<int>)
    requires lhs.Valid() && rhs.Valid() && lhs.rows > 0
    ensures Product(lhs, rhs) == ProductIntended(lhs, rhs)
  {
    if lhs.columns == rhs.rows {
      CellsDetermine(Product(lhs, rhs).value, ProductIntended(lhs, rhs).value);
    }
  }

  /** A 0 x 2 matrix times a 2 x 3 matrix: the code yields 0 x 0, intended is 0 x 3. */
  lemma ProductCounterexample()
    ensures var r := Product(Matrix([], 2, 0), Zeros(2, 3));
      r.Success? && r.value.rows == 0 && r.value.columns == 0
    ensures var r := ProductIntended(Matrix([], 2, 0), Zeros(2, 3));
      r.Success? && r.value.rows == 0 && r.value.columns == 3
  {
  }

  // ---------------------------------------------------------------- scalar product

  /** Scalar `*` as intended: rows in the outer loop, columns in the inner one, every cell scaled once. */
  method Scaled(s: int, m: Matrix<int>) returns (r: Matrix<int>)
    requires m.Valid()
    ensures r.Valid() && Size(r) == Size(m)
    ensures forall i, j :: 0 <= i < m.rows && 0 <= j < m.columns ==> r.Get(i, j) == m.Get(i, j) * s
  {
    r := m;
    for i := 0 to m.rows
      invariant r.Valid() && Size(r) == Size(m)
      invariant forall a, b :: 0 <= a < m.rows && 0 <= b < m.columns ==>
        r.Get(a, b) == if a < i then m.Get(a, b) * s else m.Get(a, b)
    {
      for j := 0 to m.columns
        invariant r.Valid() && Size(r) == Size(m)
        invariant forall a, b :: 0 <= a < m.rows && 0 <= b < m.columns ==>
          r.Get(a, b) == if a < i || (a == i && b < j) then m.Get(a, b) * s else m.Get(a, b)
      {
        r := WithCell(r, i, j, r.Get(i, j) * s);
      }
    }
  }

  // ---------------------------------------------------------------- equality

  /** `==` as intended: same size and equal cells, rows in the outer loop. */
  method Equals<T(==)>(lhs: Matrix<T>, rhs: Matrix<T>) returns (r: bool)
    requires lhs.Valid() && rhs.Valid()
    ensures r <==> lhs == rhs
  {
    if Size(lhs) != Size(rhs) {
      return false;
    }
    for i := 0 to lhs.rows
      invariant forall a, b :: 0 <= a < i && 0 <= b < lhs.columns ==> lhs.Get(a, b) == rhs.Get(a, b)
    {
      for j := 0 to lhs.columns
        invariant forall a, b :: 0 <= a < lhs.rows && 0 <= b < lhs.columns && (a < i || (a == i && b < j)) ==>
          lhs.Get(a, b) == rhs.Get(a, b)
      {
        if lhs.Get(i, j) != rhs.Get(i, j) {
          return false;
        }
      }
    }
    CellsDetermine(lhs, rhs);
    return true;
  }

  /**
   * Two 3 x 2 matrices that differ only in their last cell: every cell the
   * swapped loops of `==` compare agrees, so the code answers true.
   */
  lemma EqualityCounterexample()
    ensures var a := Zeros(3, 2);
      var b := Matrix([0, 0, 0, 0, 0, 1], 2, 3);
      SwappedCellsAgree(a, b) && a != b
  {
    var a := Zeros(3, 2);
    var b := Matrix([0, 0, 0, 0, 0, 1], 2, 3);
    forall i, j | 0 <= i < 2 && 0 <= j < 3
      ensures SwappedAt(a, i, j) == SwappedAt(b, i, j)
    {
      assert i * 2 + j < 5;
    }
    assert a.value[5] != b.value[5];
  }
}
