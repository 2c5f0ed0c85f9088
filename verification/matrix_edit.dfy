/**
 * Structural edits of Matrix.swift: appending and inserting rows and columns
 * (shape-checked, throwing `sizeMismatch`), and keeping or removing rows and
 * columns by a clamped index or count.  Every producing operation leaves its
 * receiver alone (a `Matrix` is a value) and is specified by the rows of the
 * matrix it returns.
 */
module MatrixEdits {

  import opened Wrappers
  import opened Flattening
  import opened Limits
  import opened MatrixCore
  import Offsets

  /** `rows` with `row` placed at index `i`: earlier rows stay, later rows shift down by one. */
  ghost function RowSpliced<T>(rows: seq<seq<T>>, row: seq<T>, i: int): seq<seq<T>>
    requires 0 <= i <= |rows|
  {
    rows[..i] + [row] + rows[i..]
  }

  /** Each row `a` of `rows` with `column[a]` placed at position `j`. */
  ghost function ColumnSpliced<T>(rows: seq<seq<T>>, column: seq<T>, j: int): seq<seq<T>>
    requires |column| == |rows|
    requires |rows| > 0 ==> 0 <= j && forall a :: 0 <= a < |rows| ==> j <= |rows[a]|
  {
    seq(|rows|, a requires 0 <= a < |rows| => rows[a][..j] + [column[a]] + rows[a][j..])
  }

  /** A buffer with `row` spliced in at row `i` is the buffer of the spliced rows. */
  lemma SpliceRowBuffer<T>(m: Matrix<T>, row: seq<T>, i: int)
    requires m.Valid() && |row| == m.columns && 0 <= i <= m.rows
    ensures i * m.columns <= |m.value|
    ensures Uniform(RowSpliced(Rows(m), row, i), m.columns)
    ensures m.value[..i * m.columns] + row + m.value[i * m.columns..] == Flatten(RowSpliced(Rows(m), row, i))
  {
    var rows := Rows(m);
    FlattenSplit(m, i);
    FlattenAppend(rows[..i] + [row], rows[i..]);
    FlattenAppend(rows[..i], [row]);
    assert Flatten([row]) == row;
  }

  // ---------------------------------------------------------------- rows: append and insert

  /** `appendingRow(_:)`: throws `sizeMismatch` iff the row's length is not `columns`; else the row goes last. */
  function AppendingRow<T>(m: Matrix<T>, row: seq<T>): (r: Result<Matrix<T>, MatrixError>)
    requires m.Valid()
    ensures r.Failure? <==> |row| != m.columns
    ensures r.Failure? ==> r.error == SizeMismatch
    ensures r.Success? ==> r.value.Valid() && r.value.rows == m.rows + 1 && r.value.columns == m.columns
    ensures r.Success? ==> Rows(r.value) == Rows(m) + [row]
  {
    if |row| != m.columns then
      Failure(SizeMismatch)
    else
      SpliceRowBuffer(m, row, m.rows);
      var rows := RowSpliced(Rows(m), row, m.rows);
      RowsOfFlatten(rows, m.columns);
      assert Rows(m)[m.rows..] == [] && Rows(m)[..m.rows] == Rows(m);
      assert rows == Rows(m) + [row];
      assert m.value[..m.rows * m.columns] + row + m.value[m.rows * m.columns..] == m.value + row;
      Success(Matrix(m.value + row, m.columns, m.rows + 1))
  }

  /**
   * `insertingRow(_:at:)`: the shape check, then each element `row[k]` is
   * inserted into the buffer at `i * columns + k`.  The index is not clamped:
   * when there is something to insert it must be a row position `0 ... rows`.
   */
  method InsertingRow<T>(m: Matrix<T>, row: seq<T>, i: int) returns (r: Result<Matrix<T>, MatrixError>)
    requires m.Valid()
    requires |row| == m.columns && m.columns > 0 ==> 0 <= i <= m.rows
    ensures r.Failure? <==> |row| != m.columns
    ensures r.Failure? ==> r.error == SizeMismatch
    ensures r.Success? ==> r.value.Valid() && r.value.rows == m.rows + 1 && r.value.columns == m.columns
    ensures r.Success? && m.columns > 0 ==> Rows(r.value) == RowSpliced(Rows(m), row, i)
  {
    if |row| != m.columns {
      return Failure(SizeMismatch);
    }
    var value := m.value;
    var base := i * m.columns;
    if m.columns > 0 {
      Offsets.MulMonotone(i, m.rows, m.columns);
    } else {
      assert base == 0;
    }
    assert 0 <= base <= |m.value|;
    for k := 0 to |row|
      invariant value == m.value[..base] + row[..k] + m.value[base..]
    {
      assert value[..base + k] == m.value[..base] + row[..k];
      assert value[base + k..] == m.value[base..];
      assert row[..k + 1] == row[..k] + [row[k]];
      value := value[..base + k] + [row[k]] + value[base + k..];
    }
    assert row[..|row|] == row;
    r := Success(Matrix(value, m.columns, m.rows + 1));
    if m.columns > 0 {
      SpliceRowBuffer(m, row, i);
      RowsOfFlatten(RowSpliced(Rows(m), row, i), m.columns);
    }
  }

  // ---------------------------------------------------------------- columns: append and insert

  /**
   * One step of the column-inserting loops: once rows `i + 1 ..` carry their
   * new element, inserting `column[i]` at `i * columns + j` completes row `i`.
   */
  lemma SpliceColumnStep<T>(m: Matrix<T>, column: seq<T>, j: int, i: int, value: seq<T>)
    requires m.Valid() && |column| == m.rows && 0 <= j <= m.columns && 0 <= i < m.rows
    requires value == Flatten(Rows(m)[..i + 1]) + Flatten(ColumnSpliced(Rows(m), column, j)[i + 1..])
    ensures 0 <= i * m.columns + j <= |value|
    ensures value[..i * m.columns + j] + [column[i]] + value[i * m.columns + j..]
      == Flatten(Rows(m)[..i]) + Flatten(ColumnSpliced(Rows(m), column, j)[i..])
  {
    SpliceRowsStep(Rows(m), m.columns, column, j, i, value);
  }

  /** `SpliceColumnStep` on any rows of one width. */
  lemma SpliceRowsStep<T>(rows: seq<seq<T>>, width: nat, column: seq<T>, j: int, i: int, value: seq<T>)
    requires Uniform(rows, width) && |column| == |rows| && 0 <= j <= width && 0 <= i < |rows|
    requires value == Flatten(rows[..i + 1]) + Flatten(ColumnSpliced(rows, column, j)[i + 1..])
    ensures 0 <= i * width + j <= |value|
    ensures value[..i * width + j] + [column[i]] + value[i * width + j..]
      == Flatten(rows[..i]) + Flatten(ColumnSpliced(rows, column, j)[i..])
  {
    var spliced := ColumnSpliced(rows, column, j);
    var p := Flatten(rows[..i]);
    var q := Flatten(spliced[i + 1..]);
    FlattenPrefixStep(rows, i, width);
    SpliceInto(p, rows[i], q, j, column[i]);
    SplicedAt(rows, width, column, j, i);
    FlattenSuffixStep(spliced, i);
  }

  /** The first `i + 1` rows flatten to the first `i` rows and then row `i`; the first `i` take `i * width` slots. */
  lemma FlattenPrefixStep<T>(rows: seq<seq<T>>, i: int, width: nat)
    requires Uniform(rows, width) && 0 <= i < |rows|
    ensures Flatten(rows[..i + 1]) == Flatten(rows[..i]) + rows[i]
    ensures |Flatten(rows[..i])| == i * width
  {
    assert rows[..i + 1] == rows[..i] + [rows[i]];
    FlattenAppend(rows[..i], [rows[i]]);
    assert Flatten([rows[i]]) == rows[i];
    assert Uniform(rows[..i], width);
    FlattenLength(rows[..i], width);
  }

  /** The rows from `i` flatten to row `i` and then the rows from `i + 1`. */
  lemma FlattenSuffixStep<T>(rows: seq<seq<T>>, i: int)
    requires 0 <= i < |rows|
    ensures Flatten(rows[i..]) == rows[i] + Flatten(rows[i + 1..])
  {
    assert rows[i..][1..] == rows[i + 1..];
  }

  /** Inserting `x` at offset `|p| + j` of `p + r + q` inserts it at `j` within `r`. */
  lemma SpliceInto<T>(p: seq<T>, r: seq<T>, q: seq<T>, j: int, x: T)
    requires 0 <= j <= |r|
    ensures (p + r + q)[..|p| + j] + [x] + (p + r + q)[|p| + j..] == p + ((r[..j] + [x] + r[j..]) + q)
  {
    var s := p + r + q;
    assert s[..|p| + j] == p + r[..j];
    assert s[|p| + j..] == r[j..] + q;
  }

  /** The loop both column operations run, inserting `column[i]` at `i * columns + j` for `i` from the last row up. */
  lemma SpliceColumnDone<T>(m: Matrix<T>, column: seq<T>, j: int, value: seq<T>)
    requires m.Valid() && |column| == m.rows && (m.rows > 0 ==> 0 <= j <= m.columns)
    requires value == Flatten(Rows(m)[..0]) + Flatten(ColumnSpliced(Rows(m), column, j)[0..])
    ensures Matrix(value, m.columns + 1, m.rows).Valid()
    ensures Rows(Matrix(value, m.columns + 1, m.rows)) == ColumnSpliced(Rows(m), column, j)
  {
    SplicedRowsDone(Rows(m), m.columns, column, j, value);
  }

  /** `SpliceColumnDone` on any rows of one width. */
  lemma SplicedRowsDone<T>(rows: seq<seq<T>>, width: nat, column: seq<T>, j: int, value: seq<T>)
    requires Uniform(rows, width) && |column| == |rows| && (|rows| > 0 ==> 0 <= j <= width)
    requires value == Flatten(rows[..0]) + Flatten(ColumnSpliced(rows, column, j)[0..])
    ensures Matrix(value, width + 1, |rows|).Valid()
    ensures Rows(Matrix(value, width + 1, |rows|)) == ColumnSpliced(rows, column, j)
  {
    var spliced := ColumnSpliced(rows, column, j);
    assert spliced[0..] == spliced && rows[..0] == [];
    assert value == Flatten(spliced) && |spliced| == |rows|;
    SplicedUniform(rows, width, column, j);
    RowsOfFlatten(spliced, width + 1);
  }

  /** Row `i` of the spliced rows. */
  lemma SplicedAt<T>(rows: seq<seq<T>>, width: nat, column: seq<T>, j: int, i: int)
    requires Uniform(rows, width) && |column| == |rows| && 0 <= j <= width && 0 <= i < |rows|
    ensures ColumnSpliced(rows, column, j)[i] == rows[i][..j] + [column[i]] + rows[i][j..]
  {
  }

  /** Splicing one element into each row of width `width` gives rows of width `width + 1`. */
  lemma SplicedUniform<T>(rows: seq<seq<T>>, width: nat, column: seq<T>, j: int)
    requires Uniform(rows, width) && |column| == |rows| && (|rows| > 0 ==> 0 <= j <= width)
    ensures Uniform(ColumnSpliced(rows, column, j), width + 1)
  {
  }

  /**
   * `appendingColumn(_:)`: throws `sizeMismatch` iff the column's length is
   * not `rows`; otherwise `column[i]` is inserted at `i * columns + columns`,
   * last row first, so that it ends each row.
   */
  method AppendingColumn<T>(m: Matrix<T>, column: seq<T>) returns (r: Result<Matrix<T>, MatrixError>)
    requires m.Valid()
    ensures r.Failure? <==> |column| != m.rows
    ensures r.Failure? ==> r.error == SizeMismatch
    ensures r.Success? ==> r.value.Valid() && r.value.rows == m.rows && r.value.columns == m.columns + 1
    ensures r.Success? ==> Rows(r.value) == seq(m.rows, a requires 0 <= a < m.rows => Rows(m)[a] + [column[a]])
  {
    if |column| != m.rows {
      return Failure(SizeMismatch);
    }
    var value := m.value;
    var i := |column|;
    FlattenOfRows(m);
    assert Rows(m)[..i] == Rows(m);
    while i > 0
      invariant 0 <= i <= m.rows
      invariant value == Flatten(Rows(m)[..i]) + Flatten(ColumnSpliced(Rows(m), column, m.columns)[i..])
    {
      i := i - 1;
      SpliceColumnStep(m, column, m.columns, i, value);
      value := value[..i * m.columns + m.columns] + [column[i]] + value[i * m.columns + m.columns..];
    }
    SpliceColumnDone(m, column, m.columns, value);
    r := Success(Matrix(value, m.columns + 1, m.rows));
    SpliceAtEnd(Rows(m), column, m.columns);
  }

  /** Splicing at position `width` into rows of that width appends to each row. */
  lemma SpliceAtEnd<T>(rows: seq<seq<T>>, column: seq<T>, width: nat)
    requires Uniform(rows, width) && |column| == |rows|
    ensures ColumnSpliced(rows, column, width) == seq(|rows|, a requires 0 <= a < |rows| => rows[a] + [column[a]])
  {
    var spliced := ColumnSpliced(rows, column, width);
    var appended := seq(|rows|, a requires 0 <= a < |rows| => rows[a] + [column[a]]);
    forall a | 0 <= a < |rows|
      ensures spliced[a] == appended[a]
    {
      assert rows[a][..width] == rows[a] && rows[a][width..] == [];
    }
  }

  /**
   * `insertingColumn(_:at:)`: the shape check, then `column[i]` is inserted at
   * `i * columns + j`, last row first.  The position is not clamped: when
   * there is a row it must be a column position `0 ... columns`.
   */
  method InsertingColumn<T>(m: Matrix<T>, column: seq<T>, j: int) returns (r: Result<Matrix<T>, MatrixError>)
    requires m.Valid()
    requires |column| == m.rows && m.rows > 0 ==> 0 <= j <= m.columns
    ensures r.Failure? <==> |column| != m.rows
    ensures r.Failure? ==> r.error == SizeMismatch
    ensures r.Success? ==> r.value.Valid() && r.value.rows == m.rows && r.value.columns == m.columns + 1
    ensures r.Success? ==> Rows(r.value) == ColumnSpliced(Rows(m), column, j)
  {
    if |column| != m.rows {
      return Failure(SizeMismatch);
    }
    var value := m.value;
    var i := |column|;
    FlattenOfRows(m);
    assert Rows(m)[..i] == Rows(m);
    while i > 0
      invariant 0 <= i <= m.rows
      invariant value == Flatten(Rows(m)[..i]) + Flatten(ColumnSpliced(Rows(m), column, j)[i..])
    {
      i := i - 1;
      SpliceColumnStep(m, column, j, i, value);
      value := value[..i * m.columns + j] + [column[i]] + value[i * m.columns + j..];
    }
    SpliceColumnDone(m, column, j, value);
    r := Success(Matrix(value, m.columns + 1, m.rows));
  }

  // ---------------------------------------------------------------- keeping rows

  /** `keepingRow(at:)`: the one row at the index clamped into `0 ..< rows`. */
  function KeepingRow<T>(m: Matrix<T>, n: int): (r: Matrix<T>)
    requires m.Valid() && m.rows > 0
    ensures r.Valid() && r.rows == 1 && r.columns == m.columns
    ensures Rows(r) == [Rows(m)[LimitedHalfOpen(n, 0, m.rows)]]
  {
    var i := LimitedHalfOpen(n, 0, m.rows);
    var row := Row(m, i);
    assert Flatten([row]) == row;
    RowsOfFlatten([row], m.columns);
    Matrix(row, m.columns, 1)
  }

  /** `keepingFirstRows(of:)`: the first `count` rows, the count clamped into `0 ... rows`. */
  function KeepingFirstRows<T>(m: Matrix<T>, count: int): (r: Matrix<T>)
    requires m.Valid()
    ensures r.Valid() && r.rows == LimitedClosed(count, 0, m.rows) && r.columns == m.columns
    ensures Rows(r) == Rows(m)[..LimitedClosed(count, 0, m.rows)]
  {
    var k := LimitedClosed(count, 0, m.rows);
    var rows := seq(k, a requires 0 <= a < k => Row(m, a));
    assert rows == Rows(m)[..k];
    RowsOfFlatten(rows, m.columns);
    Matrix(Flatten(rows), m.columns, k)
  }

  /** `keepingLastRows(of:)`: the last `count` rows, the count clamped into `0 ... rows`. */
  function KeepingLastRows<T>(m: Matrix<T>, count: int): (r: Matrix<T>)
    requires m.Valid()
    ensures r.Valid() && r.rows == LimitedClosed(count, 0, m.rows) && r.columns == m.columns
    ensures Rows(r) == Rows(m)[m.rows - LimitedClosed(count, 0, m.rows)..]
  {
    var k := LimitedClosed(count, 0, m.rows);
    var rows := seq(k, a requires 0 <= a < k => Row(m, m.rows - k + a));
    assert rows == Rows(m)[m.rows - k..];
    RowsOfFlatten(rows, m.columns);
    Matrix(Flatten(rows), m.columns, k)
  }

  // ---------------------------------------------------------------- keeping columns

  /**
   * The shape every column slice takes: each row `i` mapped over the column
   * range `lo ..< hi` to `matrix[(i, j)]`, then flattened with `hi - lo`
   * columns.
   */
  function ColumnRange<T>(m: Matrix<T>, lo: int, hi: int): (r: Matrix<T>)
    requires m.Valid() && 0 <= lo <= hi <= m.columns
    ensures r.Valid() && r.rows == m.rows && r.columns == hi - lo
    ensures forall i, j :: 0 <= i < r.rows && 0 <= j < r.columns ==> r.Get(i, j) == m.Get(i, lo + j)
  {
    var rows := seq(m.rows, i requires 0 <= i < m.rows => seq(hi - lo, j requires 0 <= j < hi - lo => m.Get(i, lo + j)));
    FromUniformRows(rows, hi - lo);
    Matrix(Flatten(rows), hi - lo, m.rows)
  }

  /** `keepingColumn(at:)`: the one column at the index clamped into `0 ..< columns`. */
  function KeepingColumn<T>(m: Matrix<T>, n: int): (r: Matrix<T>)
    requires m.Valid() && m.columns > 0
    ensures r.Valid() && r.rows == m.rows && r.columns == 1
    ensures forall i :: 0 <= i < m.rows ==> r.Get(i, 0) == m.Get(i, LimitedHalfOpen(n, 0, m.columns))
  {
    var j := LimitedHalfOpen(n, 0, m.columns);
    Matrix(Column(m, j), 1, m.rows)
  }

  /** `keepingFirstColumns(of:)`: the first `count` columns, the count clamped into `0 ... columns`. */
  function KeepingFirstColumns<T>(m: Matrix<T>, count: int): (r: Matrix<T>)
    requires m.Valid()
    ensures r.Valid() && r.rows == m.rows && r.columns == LimitedClosed(count, 0, m.columns)
    ensures forall i, j :: 0 <= i < r.rows && 0 <= j < r.columns ==> r.Get(i, j) == m.Get(i, j)
  {
    ColumnRange(m, 0, LimitedClosed(count, 0, m.columns))
  }

  /** `keepingLastColumns(of:)`: the last `count` columns, the count clamped into `0 ... columns`. */
  function KeepingLastColumns<T>(m: Matrix<T>, count: int): (r: Matrix<T>)
    requires m.Valid()
    ensures r.Valid() && r.rows == m.rows && r.columns == LimitedClosed(count, 0, m.columns)
    ensures forall i, j :: 0 <= i < r.rows && 0 <= j < r.columns ==> r.Get(i, j) == m.Get(i, m.columns - r.columns + j)
  {
    var k := LimitedClosed(count, 0, m.columns);
    ColumnRange(m, m.columns - k, m.columns)
  }

  // ---------------------------------------------------------------- removing rows

  /**
   * `Array(0 ..< n).filter { $0 != j }`: the indices below `n` other than `j`,
   * in order.
   */
  function Without(n: nat, j: int): (r: seq<nat>)
    ensures |r| == if 0 <= j < n then n - 1 else n
    ensures forall k :: 0 <= k < |r| ==> r[k] == if 0 <= j <= k then k + 1 else k
  {
    if n == 0 then [] else Without(n - 1, j) + (if n - 1 == j then [] else [n - 1])
  }

  /** `removingRow(at:)`: every row but the one at the index clamped into `0 ..< rows`. */
  function RemovingRow<T>(m: Matrix<T>, n: int): (r: Matrix<T>)
    requires m.Valid() && m.rows > 0
    ensures r.Valid() && r.rows == m.rows - 1 && r.columns == m.columns
    ensures var i := LimitedHalfOpen(n, 0, m.rows); Rows(r) == Rows(m)[..i] + Rows(m)[i + 1..]
  {
    var i := LimitedHalfOpen(n, 0, m.rows);
    var kept := Without(m.rows, i);
    var rows := seq(|kept|, a requires 0 <= a < |kept| => Row(m, kept[a]));
    assert rows == Rows(m)[..i] + Rows(m)[i + 1..];
    RowsOfFlatten(rows, m.columns);
    Matrix(Flatten(rows), m.columns, m.rows - 1)
  }

  /**
   * `removingFirstRows(of:)` as written: it collects rows `rows - k ..< rows`
   * (the LAST `k` rows, `k` clamped into `0 ... rows`) yet records `rows - k`
   * rows, so its buffer is that of `keepingLastRows(of:)`.
   */
  function RemovingFirstRows<T>(m: Matrix<T>, count: int): (r: Matrix<T>)
    requires m.Valid()
    ensures r.columns == m.columns && r.rows == m.rows - LimitedClosed(count, 0, m.rows)
    ensures r.value == KeepingLastRows(m, count).value
  {
    var k := LimitedClosed(count, 0, m.rows);
    var rows := seq(k, a requires 0 <= a < k => Row(m, m.rows - k + a));
    Matrix(Flatten(rows), m.columns, m.rows - k)
  }

  /**
   * `removingLastRows(of:)` as written: it collects rows `0 ..< k` (the FIRST
   * `k` rows) yet records `rows - k` rows, so its buffer is that of
   * `keepingFirstRows(of:)`.
   */
  function RemovingLastRows<T>(m: Matrix<T>, count: int): (r: Matrix<T>)
    requires m.Valid()
    ensures r.columns == m.columns && r.rows == m.rows - LimitedClosed(count, 0, m.rows)
    ensures r.value == KeepingFirstRows(m, count).value
  {
    var k := LimitedClosed(count, 0, m.rows);
    var rows := seq(k, a requires 0 <= a < k => Row(m, a));
    Matrix(Flatten(rows), m.columns, m.rows - k)
  }

  /** The as-written row removals keep the storage invariant only when they remove half the rows. */
  lemma RowRemovalsKeepShapeOnlyAtHalf<T>(m: Matrix<T>, count: int)
    requires m.Valid() && m.columns > 0
    ensures RemovingFirstRows(m, count).Valid() <==> 2 * LimitedClosed(count, 0, m.rows) == m.rows
    ensures RemovingLastRows(m, count).Valid() <==> 2 * LimitedClosed(count, 0, m.rows) == m.rows
  {
    var k := LimitedClosed(count, 0, m.rows);
    KeptRowsLength(KeepingLastRows(m, count), k, m.columns);
    KeptRowsLength(KeepingFirstRows(m, count), k, m.columns);
    HalfShape(m.rows, k, m.columns);
  }

  /** A kept block of `k` rows of width `c` has `k * c` elements. */
  lemma KeptRowsLength<T>(kept: Matrix<T>, k: int, c: int)
    requires kept.Valid() && kept.rows == k && kept.columns == c
    ensures |kept.value| == k * c
  {
  }

  /** `k * c` slots fit `rows - k` rows of width `c` exactly when `k` is half of `rows`. */
  lemma HalfShape(rows: int, k: int, c: int)
    requires 0 <= k <= rows && c > 0
    ensures k * c == (rows - k) * c <==> 2 * k == rows
  {
    EqualProductsEqualFactors(rows - k, k, c);
  }

  lemma EqualProductsEqualFactors(a: nat, b: nat, c: nat)
    requires c > 0
    ensures a * c == b * c <==> a == b
  {
    if a < b {
      Offsets.MulMonotone(a + 1, b, c);
    } else if b < a {
      Offsets.MulMonotone(b + 1, a, c);
    }
  }

  // ---------------------------------------------------------------- removing columns

  /**
   * When `removingColumn(at:)` can read every cell it asks for: its inner
   * closure reads `matrix[(c, j)]` for each column index `c != j`, so each
   * such `c` must also be a row index.
   */
  predicate ColumnRemovalReadable<T>(m: Matrix<T>, n: int)
    requires m.columns > 0
  {
    var j := LimitedHalfOpen(n, 0, m.columns);
    m.rows == 0 || m.columns <= m.rows || (m.columns == m.rows + 1 && j == m.columns - 1)
  }

  /**
   * `removingColumn(at:)` as written: the inner closure's parameter shadows
   * the row index, so every output row is column `j` (clamped into
   * `0 ..< columns`) read at the row indices `c != j`, `c < columns`.
   */
  function RemovingColumn<T>(m: Matrix<T>, n: int): (r: Matrix<T>)
    requires m.Valid() && m.columns > 0 && ColumnRemovalReadable(m, n)
    ensures r.Valid() && r.rows == m.rows && r.columns == m.columns - 1
    ensures var j := LimitedHalfOpen(n, 0, m.columns);
      forall i, b :: 0 <= i < r.rows && 0 <= b < r.columns ==> r.Get(i, b) == m.Get(if b < j then b else b + 1, j)
  {
    var j := LimitedHalfOpen(n, 0, m.columns);
    var kept := Without(m.columns, j);
    ShadowedReadsInRange(m, n, kept);
    var row := if m.rows == 0 then [] else seq(|kept|, b requires 0 <= b < |kept| => m.Get(kept[b], j));
    var rows := seq(m.rows, i requires 0 <= i < m.rows => row);
    assert Uniform(rows, m.columns - 1);
    FromUniformRows(rows, m.columns - 1);
    Matrix(Flatten(rows), m.columns - 1, m.rows)
  }

  /** Under `ColumnRemovalReadable`, every index the shadowed closure reads as a row index is one. */
  lemma ShadowedReadsInRange<T>(m: Matrix<T>, n: int, kept: seq<nat>)
    requires m.Valid() && m.columns > 0 && ColumnRemovalReadable(m, n)
    requires kept == Without(m.columns, LimitedHalfOpen(n, 0, m.columns))
    ensures |kept| == m.columns - 1
    ensures m.rows > 0 ==> forall b :: 0 <= b < |kept| ==> kept[b] < m.rows
  {
  }

  /** `removingFirstColumns(of:)`: columns `k ..< columns`, `k` clamped into `0 ... columns`. */
  function RemovingFirstColumns<T>(m: Matrix<T>, count: int): (r: Matrix<T>)
    requires m.Valid()
    ensures r.Valid() && r.rows == m.rows && r.columns == m.columns - LimitedClosed(count, 0, m.columns)
    ensures forall i, j :: 0 <= i < r.rows && 0 <= j < r.columns ==> r.Get(i, j) == m.Get(i, m.columns - r.columns + j)
  {
    ColumnRange(m, LimitedClosed(count, 0, m.columns), m.columns)
  }

  /** `removingLastColumns(of:)`: columns `0 ..< columns - k`, `k` clamped into `0 ... columns`. */
  function RemovingLastColumns<T>(m: Matrix<T>, count: int): (r: Matrix<T>)
    requires m.Valid()
    ensures r.Valid() && r.rows == m.rows && r.columns == m.columns - LimitedClosed(count, 0, m.columns)
    ensures forall i, j :: 0 <= i < r.rows && 0 <= j < r.columns ==> r.Get(i, j) == m.Get(i, j)
  {
    ColumnRange(m, 0, m.columns - LimitedClosed(count, 0, m.columns))
  }
}
