/**
 * Transposition and the free operators of Matrix.swift over integer
 * elements: `+`, `-`, matrix `*`, scalar `*` (both argument orders), `==`
 * and `!=`.  The nested-loop operators are methods that update a copy of
 * their operand cell by cell, as the source does.
 */
module MatrixOps {

  import opened Wrappers
  import opened MatrixCore
  import Offsets

  // ---------------------------------------------------------------- transposition

  /** `t` is the transpose of `m`: the counts swap and `t[i, j] == m[j, i]`. */
  ghost predicate IsTransposeOf<T>(t: Matrix<T>, m: Matrix<T>)
    requires m.Valid()
  {
    && t.Valid() && t.rows == m.columns && t.columns == m.rows
    && forall i, j :: 0 <= i < t.rows && 0 <= j < t.columns ==> t.Get(i, j) == m.Get(j, i)
  }

  /**
   * `transposed`: a copy with the counts swapped, then every cell `(i, j)`
   * of the copy overwritten with `self[j, i]`, row by row.
   */
  method Transposed<T>(m: Matrix<T>) returns (t: Matrix<T>)
    requires m.Valid()
    ensures IsTransposeOf(t, m)
  {
    t := Matrix(m.value, m.rows, m.columns);
    ghost var start := t;
    for i := 0 to t.rows
      invariant t.Valid() && t.rows == m.columns && t.columns == m.rows
      invariant forall a, b :: 0 <= a < t.rows && 0 <= b < t.columns ==>
        t.Get(a, b) == if a < i then m.Get(b, a) else start.Get(a, b)
    {
      for j := 0 to t.columns
        invariant t.Valid() && t.rows == m.columns && t.columns == m.rows
        invariant forall a, b :: 0 <= a < t.rows && 0 <= b < t.columns ==>
          t.Get(a, b) == if a < i || (a == i && b < j) then m.Get(b, a) else start.Get(a, b)
      {
        Offsets.OffsetBounds(i, j, t.rows, t.columns);
        t := WithCell(t, i, j, m.Get(j, i));
      }
    }
  }

  /** Transposing twice gives back the original matrix. */
  lemma TransposeInvolution<T>(m: Matrix<T>, t: Matrix<T>, u: Matrix<T>)
    requires m.Valid() && IsTransposeOf(t, m) && IsTransposeOf(u, t)
    ensures u == m
  {
    CellsDetermine(u, m);
  }

  /** A matrix has only one transpose, so `transpose()` and `self = transposed` agree. */
  lemma TransposeUnique<T>(m: Matrix<T>, t: Matrix<T>, u: Matrix<T>)
    requires m.Valid() && IsTransposeOf(t, m) && IsTransposeOf(u, m)
    ensures t == u
  {
    CellsDetermine(t, u);
  }

  // ---------------------------------------------------------------- addition and subtraction

  /** `r` is the elementwise sum of `a` and `b`, which share its shape. */
  ghost predicate IsSum(r: Matrix<int>, a: Matrix<int>, b: Matrix<int>)
    requires a.Valid() && b.Valid()
  {
    && r.Valid() && Size(r) == Size(a) == Size(b)
    && forall i, j :: 0 <= i < r.rows && 0 <= j < r.columns ==> r.Get(i, j) == a.Get(i, j) + b.Get(i, j)
  }

  /** `r` is the elementwise difference `a - b`. */
  ghost predicate IsDifference(r: Matrix<int>, a: Matrix<int>, b: Matrix<int>)
    requires a.Valid() && b.Valid()
  {
    && r.Valid() && Size(r) == Size(a) == Size(b)
    && forall i, j :: 0 <= i < r.rows && 0 <= j < r.columns ==> r.Get(i, j) == a.Get(i, j) - b.Get(i, j)
  }

  /** `lhs + rhs`: throws `sizeMismatch` iff the sizes differ, else adds `rhs[i, j]` into a copy of `lhs`. */
  method Add(lhs: Matrix<int>, rhs: Matrix<int>) returns (r: Result<Matrix<int>, MatrixError>)
    requires lhs.Valid() && rhs.Valid()
    ensures r.Failure? <==> Size(lhs) != Size(rhs)
    ensures r.Failure? ==> r.error == SizeMismatch
    ensures r.Success? ==> IsSum(r.value, lhs, rhs)
  {
    if Size(lhs) != Size(rhs) {
      return Failure(SizeMismatch);
    }
    var matrix := lhs;
    for i := 0 to matrix.rows
      invariant matrix.Valid() && Size(matrix) == Size(lhs)
      invariant forall a, b :: 0 <= a < lhs.rows && 0 <= b < lhs.columns ==>
        matrix.Get(a, b) == if a < i then lhs.Get(a, b) + rhs.Get(a, b) else lhs.Get(a, b)
    {
      for j := 0 to matrix.columns
        invariant matrix.Valid() && Size(matrix) == Size(lhs)
        invariant forall a, b :: 0 <= a < lhs.rows && 0 <= b < lhs.columns ==>
          matrix.Get(a, b) == if a < i || (a == i && b < j) then lhs.Get(a, b) + rhs.Get(a, b) else lhs.Get(a, b)
      {
        Offsets.OffsetBounds(i, j, matrix.rows, matrix.columns);
        matrix := WithCell(matrix, i, j, matrix.Get(i, j) + rhs.Get(i, j));
      }
    }
    return Success(matrix);
  }

  /** `lhs - rhs`: throws `sizeMismatch` iff the sizes differ, else subtracts `rhs[i, j]` from a copy of `lhs`. */
  method Subtract(lhs: Matrix<int>, rhs: Matrix<int>) returns (r: Result<Matrix<int>, MatrixError>)
    requires lhs.Valid() && rhs.Valid()
    ensures r.Failure? <==> Size(lhs) != Size(rhs)
    ensures r.Failure? ==> r.error == SizeMismatch
    ensures r.Success? ==> IsDifference(r.value, lhs, rhs)
  {
    if Size(lhs) != Size(rhs) {
      return Failure(SizeMismatch);
    }
    var matrix := lhs;
    for i := 0 to matrix.rows
      invariant matrix.Valid() && Size(matrix) == Size(lhs)
      invariant forall a, b :: 0 <= a < lhs.rows && 0 <= b < lhs.columns ==>
        matrix.Get(a, b) == if a < i then lhs.Get(a, b) - rhs.Get(a, b) else lhs.Get(a, b)
    {
      for j := 0 to matrix.columns
        invariant matrix.Valid() && Size(matrix) == Size(lhs)
        invariant forall a, b :: 0 <= a < lhs.rows && 0 <= b < lhs.columns ==>
          matrix.Get(a, b) == if a < i || (a == i && b < j) then lhs.Get(a, b) - rhs.Get(a, b) else lhs.Get(a, b)
      {
        Offsets.OffsetBounds(i, j, matrix.rows, matrix.columns);
        matrix := WithCell(matrix, i, j, matrix.Get(i, j) - rhs.Get(i, j));
      }
    }
    return Success(matrix);
  }

  /** Matrix addition is commutative. */
  lemma SumCommutes(r: Matrix<int>, s: Matrix<int>, a: Matrix<int>, b: Matrix<int>)
    requires a.Valid() && b.Valid() && IsSum(r, a, b) && IsSum(s, b, a)
    ensures r == s
  {
    CellsDetermine(r, s);
  }

  /** Subtracting what was added gives back the original matrix. */
  lemma SubtractUndoesAdd(r: Matrix<int>, d: Matrix<int>, a: Matrix<int>, b: Matrix<int>)
    requires a.Valid() && b.Valid() && IsSum(r, a, b) && IsDifference(d, r, b)
    ensures d == a
  {
    CellsDetermine(d, a);
  }

  // ---------------------------------------------------------------- matrix product

  /**
   * `getMultipliedValue(at: (i, j))`: `lhs[i, k] * rhs[k, j]` for `k` in
   * `0 ..< n`, folded left from the additive zero.
   */
  function Dot(lhs: Matrix<int>, rhs: Matrix<int>, i: int, j: int, n: int): int
    requires lhs.Valid() && rhs.Valid() && lhs.columns == rhs.rows
    requires 0 <= i < lhs.rows && 0 <= j < rhs.columns && 0 <= n <= lhs.columns
  {
    if n == 0 then 0 else Dot(lhs, rhs, i, j, n - 1) + lhs.Get(i, n - 1) * rhs.Get(n - 1, j)
  }

  /**
   * `lhs * rhs`: throws `sizeMismatch` iff `lhs.n != rhs.m`; otherwise the
   * nested array of dot products is rebuilt through `try Matrix(value)`, so a
   * left operand with no rows yields a 0 x 0 matrix.
   */
  function Product(lhs: Matrix<int>, rhs: Matrix<int>): (r: Result<Matrix<int>, MatrixError>)
    requires lhs.Valid() && rhs.Valid()
    ensures r.Failure? <==> lhs.columns != rhs.rows
    ensures r.Failure? ==> r.error == SizeMismatch
    ensures r.Success? ==> r.value.Valid() && r.value.rows == lhs.rows
    ensures r.Success? ==> r.value.columns == if lhs.rows > 0 then rhs.columns else 0
    ensures r.Success? ==> forall i, j :: 0 <= i < r.value.rows && 0 <= j < r.value.columns ==>
      r.value.Get(i, j) == Dot(lhs, rhs, i, j, lhs.columns)
  {
    if lhs.columns != rhs.rows then
      Failure(SizeMismatch)
    else
      var value := seq(lhs.rows, i requires 0 <= i < lhs.rows =>
        seq(rhs.columns, j requires 0 <= j < rhs.columns => Dot(lhs, rhs, i, j, lhs.columns)));
      FromRows(value)
  }

  /** The n x n identity matrix. */
  function Identity(n: nat): (r: Matrix<int>)
    ensures r.Valid() && r.rows == n && r.columns == n
    ensures forall i, j :: 0 <= i < n && 0 <= j < n ==> r.Get(i, j) == if i == j then 1 else 0
  {
    var rows := seq(n, i requires 0 <= i < n => seq(n, j requires 0 <= j < n => if i == j then 1 else 0));
    Flattening.FlattenLength(rows, n);
    FromUniformRows(rows, n);
    Matrix(Flattening.Flatten(rows), n, n)
  }

  /** Against an identity column, the first `n` products pick out `lhs[i, j]` if `j < n`. */
  lemma {:induction false} DotWithIdentity(lhs: Matrix<int>, i: int, j: int, n: int)
    requires lhs.Valid() && 0 <= i < lhs.rows && 0 <= j < lhs.columns && 0 <= n <= lhs.columns
    ensures Dot(lhs, Identity(lhs.columns), i, j, n) == if j < n then lhs.Get(i, j) else 0
  {
    if n > 0 {
      DotWithIdentity(lhs, i, j, n - 1);
    }
  }

  /** Multiplying a matrix that has rows by the identity gives it back. */
  lemma ProductWithIdentity(m: Matrix<int>)
    requires m.Valid() && m.rows > 0
    ensures Product(m, Identity(m.columns)) == Success(m)
  {
    var r := Product(m, Identity(m.columns)).value;
    forall i, j | 0 <= i < m.rows && 0 <= j < m.columns
      ensures r.Get(i, j) == m.Get(i, j)
    {
      DotWithIdentity(m, i, j, m.columns);
    }
    CellsDetermine(r, m);
  }

  // ---------------------------------------------------------------- scalar product

  /** Under `columns <= rows`, the swapped-loop offset `i * columns + j` (`i < columns`, `j < rows`) is in the buffer. */
  lemma SwappedOffsetInRange(i: int, j: int, rows: int, columns: int)
    requires 0 <= i < columns && 0 <= j < rows && columns <= rows
    ensures 0 <= i * columns + j < rows * columns
    ensures 2 <= columns < rows ==> i * columns + j < rows * columns - 1
  {
    Offsets.MulMonotone(i, columns - 1, columns);
    Offsets.MulMonotone(1, columns, rows - columns);
    assert (columns - 1) * columns + rows <= rows * columns;
    if 2 <= columns < rows {
      Offsets.MulMonotone(2, columns, rows - columns);
      assert (columns - 1) * columns + rows < rows * columns;
    }
  }

  /** The loops of scalar `*` and `==` stay inside the buffer: no rows, or no more columns than rows. */
  predicate SwappedLoopsInRange<T>(m: Matrix<T>)
  {
    m.rows == 0 || m.columns <= m.rows
  }

  /**
   * `lhs * rhs` for a scalar `lhs`: the loops run `j` over the ROW range and
   * `i` over the COLUMN range and scale `matrix[i, j]`, i.e. offset
   * `i * columns + j`.  On a square matrix that is every cell once; with
   * at least two columns and more rows than columns the last cell is never
   * reached (and some other offsets are scaled twice).
   */
  method ScalarTimesMatrix(s: int, m: Matrix<int>) returns (r: Matrix<int>)
    requires m.Valid() && SwappedLoopsInRange(m)
    ensures r.Valid() && Size(r) == Size(m)
    ensures IsSquare(m) ==> forall i, j :: 0 <= i < m.rows && 0 <= j < m.columns ==> r.Get(i, j) == m.Get(i, j) * s
    ensures 2 <= m.columns < m.rows ==> r.Get(m.rows - 1, m.columns - 1) == m.Get(m.rows - 1, m.columns - 1)
  {
    r := m;
    var last := m.rows * m.columns - 1;
    for j := 0 to m.rows
      invariant r.Valid() && Size(r) == Size(m)
      invariant 2 <= m.columns < m.rows ==> r.value[last] == m.value[last]
      invariant IsSquare(m) ==> ScaledUpTo(m, r, s, j, 0)
    {
      for i := 0 to m.columns
        invariant r.Valid() && Size(r) == Size(m)
        invariant 2 <= m.columns < m.rows ==> r.value[last] == m.value[last]
        invariant IsSquare(m) ==> ScaledUpTo(m, r, s, j, i)
      {
        ScaleStep(m, r, s, j, i);
        r := WithCell(r, i, j, r.value[i * m.columns + j] * s);
      }
      if IsSquare(m) {
        ScaledColumnDone(m, r, s, j);
      }
    }
  }

  /**
   * The square loop's progress: the cells of the columns before `j`, and of
   * column `j` above row `i`, are scaled by `s`; the rest are as in `m`.
   */
  ghost predicate ScaledUpTo(m: Matrix<int>, r: Matrix<int>, s: int, j: int, i: int)
    requires m.Valid() && r.Valid() && Size(r) == Size(m)
  {
    forall a, b :: 0 <= a < m.rows && 0 <= b < m.columns ==>
      r.Get(a, b) == if b < j || (b == j && a < i) then m.Get(a, b) * s else m.Get(a, b)
  }

  /**
   * One pass of the inner loop: the offset is in the buffer, the last slot is
   * untouched when `2 <= columns < rows`, and on a square matrix the
   * progress extends by one row.
   */
  lemma ScaleStep(m: Matrix<int>, r: Matrix<int>, s: int, j: int, i: int)
    requires m.Valid() && SwappedLoopsInRange(m) && r.Valid() && Size(r) == Size(m)
    requires 0 <= i < m.columns && 0 <= j < m.rows
    ensures 0 <= i * m.columns + j < |r.value|
    ensures var next := WithCell(r, i, j, r.value[i * m.columns + j] * s);
      && next.Valid() && Size(next) == Size(m)
      && (2 <= m.columns < m.rows ==> next.value[m.rows * m.columns - 1] == r.value[m.rows * m.columns - 1])
      && (IsSquare(m) && ScaledUpTo(m, r, s, j, i) ==> ScaledUpTo(m, next, s, j, i + 1))
  {
    SwappedOffsetInRange(i, j, m.rows, m.columns);
    if 2 <= m.columns < m.rows {
      WithCellElsewhere(r, i, j, r.value[i * m.columns + j] * s, m.rows * m.columns - 1);
    }
  }

  /** A finished column `j` is progress up to column `j + 1`. */
  lemma ScaledColumnDone(m: Matrix<int>, r: Matrix<int>, s: int, j: int)
    requires m.Valid() && IsSquare(m) && r.Valid() && Size(r) == Size(m)
    requires ScaledUpTo(m, r, s, j, m.rows)
    ensures ScaledUpTo(m, r, s, j + 1, 0)
  {
  }

  /** The setter leaves every other buffer offset alone. */
  lemma WithCellElsewhere<T>(m: Matrix<T>, i: int, j: int, x: T, k: int)
    requires 0 <= i * m.columns + j < |m.value| && 0 <= k < |m.value| && k != i * m.columns + j
    ensures WithCell(m, i, j, x).value[k] == m.value[k]
  {
  }

  /** `lhs * rhs` for a scalar `rhs`: defined as `rhs * lhs`. */
  method MatrixTimesScalar(m: Matrix<int>, s: int) returns (r: Matrix<int>)
    requires m.Valid() && SwappedLoopsInRange(m)
    ensures r.Valid() && Size(r) == Size(m)
    ensures IsSquare(m) ==> forall i, j :: 0 <= i < m.rows && 0 <= j < m.columns ==> r.Get(i, j) == m.Get(i, j) * s
    ensures 2 <= m.columns < m.rows ==> r.Get(m.rows - 1, m.columns - 1) == m.Get(m.rows - 1, m.columns - 1)
  {
    r := ScalarTimesMatrix(s, m);
  }

  // ---------------------------------------------------------------- equality

  /** `m[i, j]` as the swapped loops of `==` read it: `i` below `columns`, `j` below `rows`. */
  function SwappedAt<T>(m: Matrix<T>, i: int, j: int): T
    requires m.Valid() && SwappedLoopsInRange(m) && 0 <= i < m.columns && 0 <= j < m.rows
  {
    SwappedOffsetInRange(i, j, m.rows, m.columns);
    m.value[i * m.columns + j]
  }

  /** Every cell the swapped loops of `==` compare is equal in `a` and `b`. */
  ghost predicate SwappedCellsAgree<T>(a: Matrix<T>, b: Matrix<T>)
    requires a.Valid() && b.Valid() && Size(a) == Size(b) && SwappedLoopsInRange(a)
  {
    forall i, j :: 0 <= i < a.columns && 0 <= j < a.rows ==> SwappedAt(a, i, j) == SwappedAt(b, i, j)
  }

  /**
   * `lhs == rhs`: false when the sizes differ; otherwise the loops run `i`
   * over the COLUMN range and `j` over the ROW range, compare
   * `lhs[i, j]` with `rhs[i, j]` and answer false at the first difference.
   */
  method AreEqual<T(==)>(lhs: Matrix<T>, rhs: Matrix<T>) returns (r: bool)
    requires lhs.Valid() && rhs.Valid()
    requires Size(lhs) == Size(rhs) ==> SwappedLoopsInRange(lhs)
    ensures r <==> Size(lhs) == Size(rhs) && SwappedCellsAgree(lhs, rhs)
  {
    if Size(lhs) != Size(rhs) {
      return false;
    }
    for i := 0 to lhs.columns
      invariant forall a, b :: 0 <= a < i && 0 <= b < lhs.rows ==> SwappedAt(lhs, a, b) == SwappedAt(rhs, a, b)
    {
      for j := 0 to lhs.rows
        invariant forall a, b :: 0 <= a < lhs.columns && 0 <= b < lhs.rows && (a < i || (a == i && b < j)) ==>
          SwappedAt(lhs, a, b) == SwappedAt(rhs, a, b)
      {
        if SwappedAt(lhs, i, j) != SwappedAt(rhs, i, j) {
          return false;
        }
      }
    }
    return true;
  }

  /** `lhs != rhs`: the negation of `==`. */
  method AreNotEqual<T(==)>(lhs: Matrix<T>, rhs: Matrix<T>) returns (r: bool)
    requires lhs.Valid() && rhs.Valid()
    requires Size(lhs) == Size(rhs) ==> SwappedLoopsInRange(lhs)
    ensures r <==> !(Size(lhs) == Size(rhs) && SwappedCellsAgree(lhs, rhs))
  {
    var equal := AreEqual(lhs, rhs);
    r := !equal;
  }

  /** On square matrices the swapped loops compare every cell, so `==` is value equality. */
  lemma SwappedCellsAgreeOnSquare<T>(a: Matrix<T>, b: Matrix<T>)
    requires a.Valid() && b.Valid() && Size(a) == Size(b) && IsSquare(a)
    ensures SwappedCellsAgree(a, b) <==> a == b
  {
    if SwappedCellsAgree(a, b) {
      forall i, j | 0 <= i < a.rows && 0 <= j < a.columns
        ensures a.Get(i, j) == b.Get(i, j)
      {
        assert SwappedAt(a, i, j) == SwappedAt(b, i, j);
      }
      CellsDetermine(a, b);
    }
  }
}
