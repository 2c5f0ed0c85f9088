# Eltaso core in Dafny

A verified model of the core of Eltaso, a Swift extension library:

- **The `Matrix<Element>` value type.** It is a dense row-major matrix: a flat buffer `_value` with counts `_rows` and `_columns`, and cell `(i, j)` is stored at offset `i * _columns + j`. The model covers:
  - its two initialisers, the subscripts and the shape queries;
  - transposition;
  - appending, inserting, keeping and removing rows and columns, each producing form with its mutating twin;
  - the free operators `+`, `-`, matrix `*`, scalar `*`, `==`, `!=` and their compound assignments.
- **The non-random `Array` helpers:** appending, the clamped keeping/removing slices, their mutating twins, and `group(condition:)`.
- **The `Dictionary` helpers:** `init(tuples:)`, `dropping(_:)` and `drop(_:)`.
- **The duration constants and `timeFormattedDescription` of `TimeInterval`,** and their legacy copies on `NSTimeInterval`.
- **The `ClosedRange` width and bound arithmetic,** and `Collection.second`.

## Layout

| file | module | what |
|---|---|---|
| `wrappers.dfy` | `Wrappers` | `Option`, and `Result` for members that `throw` |
| `limits.dfy` | `Limits` | the index clamp `limited(within:)`, for half-open and for closed ranges |
| `offsets.dfy` | `Offsets` | arithmetic about row-major offsets |
| `flatten.dfy` | `Flattening` | the `flatten` of nested arrays and its layout lemmas |
| `matrix_core.dfy` | `MatrixCore` | the `Matrix` datatype, the initialisers, the subscripts, the shape queries, and `Rows`, the row view the edits are specified against |
| `matrix_edit.dfy` | `MatrixEdits` | producing forms of the row and column edits |
| `matrix_ops.dfy` | `MatrixOps` | transposition and the operators |
| `matrix_var.dfy` | `MatrixVars` | the mutating members, on a class `MatrixVar` holding the current value, and the compound assignments |
| `matrix_findings.dfy` | `MatrixFindings` | corrected matrix members and the inputs that separate them from the code |
| `array.dfy` | `Arrays` | the array helpers, `ArrayVar` for the mutating ones, and the corrected count clamps |
| `dictionary.dfy` | `Dictionaries` | the dictionary helpers and `DictionaryVar` |
| `time_interval.dfy` | `TimeIntervals` | the constants, Swift's truncating `/` and `%`, the decomposition, the rendering and the formatter |
| `ns_time_interval.dfy` | `NSTimeIntervals` | the legacy copies |
| `closed_range.dfy` | `ClosedRanges` | closed integer ranges |
| `collection.dfy` | `Collections` | `second` |

### Modelling choices

- **Matrix values.** A Swift matrix is a value, so `Matrix` is a datatype. Its storage invariant is `Valid()`: `|value| == rows * columns`.
  - Structural edits are stated on `Rows(m)`, the sequence of rows.
  - Cell-level results are stated through `m.Get(i, j)`, the `self[i, j]` getter.
- **Mutation.** The mutating members reassign `self` to the result of the producing form. They become methods of `MatrixVar`, `ArrayVar` and `DictionaryVar`, which hold the current value and `modify` it.
  - Throwing members return `Option<MatrixError>` and leave the value unchanged on error.
  - The compound assignments take a `MatrixVar<int>`, as Swift takes the left operand `inout`.
- **Loops stay loops.** The source's loops become methods with loop invariants:
  - the nested cell loops of `transposed`, `+`, `-`, scalar `*` and `==`;
  - the per-element `insert` loops of `insertingRow`, `appendingColumn` and `insertingColumn`;
  - `append(_:)`, `group(condition:)` and `init(tuples:)`.

  The `map`/`filter`/`reduce` pipelines become functions.
- **Matrix elements** that need arithmetic are `int`. The protocols `AdditionOperatable` and friends are not part of this model. The additive identity is 0.
- **Out-of-range reads.** Swift traps on an out-of-range array read. Where an operation would trap, the model carries it as a precondition:
  - a row or column subscript outside the matrix;
  - an unclamped insertion position;
  - a swapped loop running off the buffer;
  - `ClosedRange` bounds that cross.

  Elsewhere a precondition is stronger than the source's own no-trap condition. Each such place has a `Left out` entry:
  - `MatrixCore.Matrix.Get` takes in-range coordinates; the raw read of any in-buffer offset is `MatrixCore.Subscript`;
  - `MatrixCore.Filled` and `MatrixCore.Zeros` take natural sizes;
  - most matrix operations require the storage invariant `Valid()`;
  - `MatrixOps.AreEqual` and `MatrixOps.AreNotEqual` require the swapped loops to stay in the buffer;
  - `MatrixEdits.RemovingColumn` requires its shadowed reads to stay in the buffer;
  - the `limited(within:)` callers require a non-empty collection (below).
- **`limited(within:)`.** The file that defines it is not part of this model. It is taken to saturate into `lo ... hi - 1` for a half-open range and into `lo ... hi` for a closed one.
  - The half-open form is undefined on an empty range. So `keepingRow`, `removingRow`, `keepingColumn`, `removingColumn`, and the array `keeping*`/`removing*` helpers require a non-empty collection.
- **Durations** are whole seconds. Swift's `/` and `%` on `Int` truncate toward zero; `Quot` and `Rem` define that explicitly, since Dafny's operators are Euclidean.

## Model

| member | source | states |
|---|---|---|
| MatrixCore.FromRows | Eltaso/Eltaso/Matrix.swift:35-46 | fails with `rowsWithDifferentColumns` exactly when some row's length differs from the first row's; otherwise the size is (row count, first row's count or 0) and cell (i, j) is `array[i][j]` |
| MatrixCore.Filled | Eltaso/Eltaso/Matrix.swift:48-56 | a valid matrix of the given size with every cell equal to the repeated value |
| MatrixCore.Zeros | Eltaso/Eltaso/Matrix.swift:96-98 | a valid matrix of the given size with every cell 0 |
| MatrixCore.Matrix.Get | Eltaso/Eltaso/Matrix.swift:69-73 | an in-range cell (i, j) of a valid matrix is read from offset `i * columns + j`, which lies inside the buffer |
| MatrixCore.Subscript | Eltaso/Eltaso/Matrix.swift:69-73 | the getter as written reads any in-buffer offset; in range it is cell (i, j), and otherwise the cell that offset falls on in row-major order |
| MatrixCore.SubscriptAfterSet | Eltaso/Eltaso/Matrix.swift:69-78 | reading a cell back after the setter wrote x gives x |
| MatrixCore.SubscriptWraps | Eltaso/Eltaso/Matrix.swift:69-73 | `m[0, 2]` of a 2 x 2 matrix is cell (1, 0) |
| MatrixCore.WithCell | Eltaso/Eltaso/Matrix.swift:74-77 | the setter keeps the shape; on an in-range cell it writes that cell and leaves every other cell unchanged |
| MatrixCore.Row | Eltaso/Eltaso/Matrix.swift:80-84 | the row has `columns` elements and element j is cell (i, j) |
| MatrixCore.Column | Eltaso/Eltaso/Matrix.swift:86-90 | the column has `rows` elements and element i is cell (i, j) |
| MatrixCore.Size | Eltaso/Eltaso/Matrix.swift:28-30 | `size` is (rows, columns), and their product counts the buffer of a valid matrix |
| MatrixCore.IsEmpty | Eltaso/Eltaso/Matrix.swift:104-106 | a valid matrix is empty exactly when it stores no element |
| MatrixCore.IsSquare | Eltaso/Eltaso/Matrix.swift:108-110 | square exactly when rows equal columns; a square valid matrix stores rows² elements |
| MatrixCore.Rows | Eltaso/Eltaso/Matrix.swift:69-78 | the row view of the row-major layout: `rows` rows of `columns` cells, row i holding cells (i, 0 ..< columns) |
| MatrixCore.CellsDetermine | Eltaso/Eltaso/Matrix.swift:19-23 | two valid matrices of one shape that agree on every cell are equal |
| MatrixCore.RowsDetermine | Eltaso/Eltaso/Matrix.swift:19-23 | two valid matrices with the same column count and the same rows are equal |
| MatrixCore.FlattenOfRows | Eltaso/Eltaso/Matrix.swift:43 | the buffer is the flattening of the rows |
| MatrixOps.Transposed | Eltaso/Eltaso/Matrix.swift:116-130 | the result has the counts swapped and cell (i, j) equal to the input's cell (j, i) |
| MatrixOps.TransposeInvolution | Eltaso/Eltaso/Matrix.swift:116-130 | transposing twice gives back the matrix |
| MatrixOps.TransposeUnique | Eltaso/Eltaso/Matrix.swift:132-134 | a matrix has one transpose |
| MatrixEdits.AppendingRow | Eltaso/Eltaso/Matrix.swift:140-151 | throws `sizeMismatch` exactly when the row's length is not `columns`; otherwise the rows are the old rows followed by the new one |
| MatrixEdits.InsertingRow | Eltaso/Eltaso/Matrix.swift:153-167 | throws exactly on a length mismatch; otherwise one more row, and (when there are columns) the new row sits at position i with the old rows around it in order |
| MatrixEdits.AppendingColumn | Eltaso/Eltaso/Matrix.swift:181-195 | throws exactly when the column's length is not `rows`; otherwise each row gains `column[i]` at its end |
| MatrixEdits.InsertingColumn | Eltaso/Eltaso/Matrix.swift:197-210 | throws exactly on a length mismatch; otherwise row i becomes its first j cells, `column[i]`, then the rest |
| MatrixEdits.KeepingRow | Eltaso/Eltaso/Matrix.swift:224-237 | a 1-row matrix holding the row at the clamped index |
| MatrixEdits.KeepingFirstRows | Eltaso/Eltaso/Matrix.swift:239-254 | the first k rows, k clamped into 0 ... rows; the storage invariant holds |
| MatrixEdits.KeepingLastRows | Eltaso/Eltaso/Matrix.swift:256-271 | the last k rows, k clamped into 0 ... rows; the storage invariant holds |
| MatrixEdits.KeepingColumn | Eltaso/Eltaso/Matrix.swift:289-302 | a 1-column matrix holding the column at the clamped index |
| MatrixEdits.KeepingFirstColumns | Eltaso/Eltaso/Matrix.swift:304-319 | every row cut to its first k cells, k clamped into 0 ... columns |
| MatrixEdits.KeepingLastColumns | Eltaso/Eltaso/Matrix.swift:321-336 | every row cut to its last k cells, k clamped into 0 ... columns |
| MatrixEdits.Without | Eltaso/Eltaso/Matrix.swift:359-361 | the indices below n other than j, in order: one fewer when j is among them |
| MatrixEdits.RemovingRow | Eltaso/Eltaso/Matrix.swift:354-371 | every row except the one at the clamped index, in order |
| MatrixEdits.RemovingFirstRows | Eltaso/Eltaso/Matrix.swift:373-388 | as written: the buffer holds the last k rows while the row count is rows - k |
| MatrixEdits.RemovingLastRows | Eltaso/Eltaso/Matrix.swift:390-405 | as written: the buffer holds the first k rows while the row count is rows - k |
| MatrixEdits.RowRemovalsKeepShapeOnlyAtHalf | Eltaso/Eltaso/Matrix.swift:373-405 | with columns, the as-written row removals keep the storage invariant exactly when they remove half the rows |
| MatrixEdits.RemovingColumn | Eltaso/Eltaso/Matrix.swift:423-440 | as written: cell (i, b) of the result is input cell (b or b + 1, j), for every row i |
| MatrixEdits.RemovingFirstColumns | Eltaso/Eltaso/Matrix.swift:442-457 | every row without its first k cells, k clamped into 0 ... columns |
| MatrixEdits.RemovingLastColumns | Eltaso/Eltaso/Matrix.swift:459-474 | every row without its last k cells, k clamped into 0 ... columns |
| MatrixOps.Add | Eltaso/Eltaso/Matrix.swift:506-521 | throws `sizeMismatch` exactly when the sizes differ; otherwise cellwise sums |
| MatrixOps.Subtract | Eltaso/Eltaso/Matrix.swift:527-542 | throws `sizeMismatch` exactly when the sizes differ; otherwise cellwise differences |
| MatrixOps.SumCommutes | Eltaso/Eltaso/Matrix.swift:506-521 | `a + b` and `b + a` are the same matrix |
| MatrixOps.SubtractUndoesAdd | Eltaso/Eltaso/Matrix.swift:506-542 | `(a + b) - b` is `a` |
| MatrixOps.Product | Eltaso/Eltaso/Matrix.swift:548-577 | throws exactly when `lhs.n != rhs.m`; otherwise `lhs.rows` rows of dot products, with `rhs.columns` columns only when `lhs` has a row (0 otherwise) |
| MatrixOps.Identity | Eltaso/Eltaso/Matrix.swift:548-577 | the n x n identity used to check the product |
| MatrixOps.DotWithIdentity | Eltaso/Eltaso/Matrix.swift:562-567 | the partial dot product against an identity column picks out one cell |
| MatrixOps.ProductWithIdentity | Eltaso/Eltaso/Matrix.swift:548-577 | a matrix with rows times the identity is itself |
| MatrixOps.SwappedOffsetInRange | Eltaso/Eltaso/Matrix.swift:582-585 | with no more columns than rows the swapped loops stay in the buffer; with 2 <= columns < rows they never reach the last slot |
| MatrixOps.ScalarTimesMatrix | Eltaso/Eltaso/Matrix.swift:579-589 | the shape is kept; a square matrix has every cell scaled; with 2 <= columns < rows the last cell is left unscaled |
| MatrixOps.MatrixTimesScalar | Eltaso/Eltaso/Matrix.swift:591-593 | the same as scalar times matrix |
| MatrixOps.AreEqual | Eltaso/Eltaso/Matrix.swift:603-619 | true exactly when the sizes agree and every cell the swapped loops compare agrees |
| MatrixOps.AreNotEqual | Eltaso/Eltaso/Matrix.swift:621-623 | the negation of `==` |
| MatrixOps.SwappedCellsAgreeOnSquare | Eltaso/Eltaso/Matrix.swift:603-619 | on square matrices `==` is value equality |
| MatrixVars.MatrixVar.SetCell | Eltaso/Eltaso/Matrix.swift:58-78 | the setter writes offset `i * columns + j`; on an in-range cell only that cell changes |
| MatrixVars.MatrixVar.Transpose | Eltaso/Eltaso/Matrix.swift:132-134 | the new value is the transpose of the old |
| MatrixVars.MatrixVar.AppendRow | Eltaso/Eltaso/Matrix.swift:169-171 | throws and keeps the value on a length mismatch; otherwise the row is appended |
| MatrixVars.MatrixVar.InsertRow | Eltaso/Eltaso/Matrix.swift:173-175 | throws and keeps the value on a length mismatch; otherwise the row is inserted at i |
| MatrixVars.MatrixVar.AppendColumn | Eltaso/Eltaso/Matrix.swift:212-214 | throws and keeps the value on a length mismatch; otherwise each row gains its element at the end |
| MatrixVars.MatrixVar.InsertColumn | Eltaso/Eltaso/Matrix.swift:216-218 | throws and keeps the value on a length mismatch; otherwise the column is inserted at j |
| MatrixVars.MatrixVar.KeepRow | Eltaso/Eltaso/Matrix.swift:273-275 | the value becomes `keepingRow(at:)` of the old one |
| MatrixVars.MatrixVar.KeepFirstRows | Eltaso/Eltaso/Matrix.swift:277-279 | the value becomes `keepingFirstRows(of:)` of the old one |
| MatrixVars.MatrixVar.KeepLastRows | Eltaso/Eltaso/Matrix.swift:281-283 | the value becomes `keepingLastRows(of:)` of the old one |
| MatrixVars.MatrixVar.KeepColumn | Eltaso/Eltaso/Matrix.swift:338-340 | the value becomes `keepingColumn(at:)` of the old one |
| MatrixVars.MatrixVar.KeepFirstColumns | Eltaso/Eltaso/Matrix.swift:342-344 | the value becomes `keepingFirstColumns(of:)` of the old one |
| MatrixVars.MatrixVar.KeepLastColumns | Eltaso/Eltaso/Matrix.swift:346-348 | the value becomes `keepingLastColumns(of:)` of the old one |
| MatrixVars.MatrixVar.RemoveRow | Eltaso/Eltaso/Matrix.swift:407-409 | the value becomes `removingRow(at:)` of the old one |
| MatrixVars.MatrixVar.RemoveFirstRows | Eltaso/Eltaso/Matrix.swift:411-413 | the value becomes `removingFirstRows(of:)` of the old one, as written |
| MatrixVars.MatrixVar.RemoveLastRows | Eltaso/Eltaso/Matrix.swift:415-417 | the value becomes `removingLastRows(of:)` of the old one, as written |
| MatrixVars.MatrixVar.RemoveColumn | Eltaso/Eltaso/Matrix.swift:476-478 | the value becomes `removingColumn(at:)` of the old one, as written |
| MatrixVars.MatrixVar.RemoveFirstColumns | Eltaso/Eltaso/Matrix.swift:480-482 | the value becomes `removingFirstColumns(of:)` of the old one |
| MatrixVars.MatrixVar.RemoveLastColumns | Eltaso/Eltaso/Matrix.swift:484-486 | the value becomes `removingLastColumns(of:)` of the old one |
| MatrixVars.AddAssign | Eltaso/Eltaso/Matrix.swift:523-525 | throws and keeps `lhs` when the sizes differ; otherwise `lhs` becomes the cellwise sum |
| MatrixVars.SubtractAssign | Eltaso/Eltaso/Matrix.swift:544-546 | throws and keeps `lhs` when the sizes differ; otherwise `lhs` becomes the cellwise difference |
| MatrixVars.MultiplyAssign | Eltaso/Eltaso/Matrix.swift:595-597 | throws and keeps `lhs` when `lhs.n != rhs.m`; otherwise `lhs` becomes the product |
| MatrixVars.ScaleAssign | Eltaso/Eltaso/Matrix.swift:599-601 | `lhs` keeps its shape; a square `lhs` has every cell scaled |
| MatrixFindings.RemovingFirstRowsIntended | Eltaso/Eltaso/Matrix.swift:373-388 | corrected: the rows after the first k, a valid matrix |
| MatrixFindings.RemovingLastRowsIntended | Eltaso/Eltaso/Matrix.swift:390-405 | corrected: the rows before the last k, a valid matrix |
| MatrixFindings.RowRemovalCounterexample | Eltaso/Eltaso/Matrix.swift:373-405 | on `[[1, 1], [2, 2], [3, 3]]` with k = 1 the code yields invalid matrices where `[[2, 2], [3, 3]]` and `[[1, 1], [2, 2]]` are meant |
| MatrixFindings.RemovingColumnIntended | Eltaso/Eltaso/Matrix.swift:423-440 | corrected: every row without its cell in the clamped column |
| MatrixFindings.ColumnRemovalCounterexample | Eltaso/Eltaso/Matrix.swift:423-440 | removing column 0 of `[[1, 2], [3, 4]]` yields `[[3], [3]]` where `[[2], [4]]` is meant |
| MatrixFindings.ProductIntended | Eltaso/Eltaso/Matrix.swift:548-577 | corrected: always `lhs.rows x rhs.columns` dot products |
| MatrixFindings.ProductAgreesWithRows | Eltaso/Eltaso/Matrix.swift:548-577 | code and corrected product agree whenever `lhs` has a row |
| MatrixFindings.ProductCounterexample | Eltaso/Eltaso/Matrix.swift:569-575 | a 0 x 2 times a 2 x 3 matrix gives 0 x 0 where 0 x 3 is meant |
| MatrixFindings.Scaled | Eltaso/Eltaso/Matrix.swift:579-589 | corrected: every cell of any valid matrix scaled once |
| MatrixFindings.Equals | Eltaso/Eltaso/Matrix.swift:603-619 | corrected: true exactly when the matrices are equal |
| MatrixFindings.EqualityCounterexample | Eltaso/Eltaso/Matrix.swift:603-619 | two 3 x 2 matrices differing in their last cell agree on every cell `==` compares |
| Limits.LimitedHalfOpen | Eltaso/Eltaso/Matrix.swift:226 | `n.limited(within: lo ..< hi)` lies in the range, is n when n does, and saturates to the nearer end |
| Limits.LimitedClosed | Eltaso/Eltaso/Matrix.swift:241 | `n.limited(within: lo ... hi)` lies in the range, is n when n does, and saturates to the nearer end |
| Arrays.Appending | Eltaso/Eltaso/Array.swift:39-41 | the array followed by the new element |
| Arrays.AppendingAll | Eltaso/Eltaso/Array.swift:43-45 | the array followed by the new elements |
| Arrays.ArrayVar.AppendAll | Eltaso/Eltaso/Array.swift:51-55 | appending one element at a time leaves the old array followed by the new elements |
| Arrays.Keeping | Eltaso/Eltaso/Array.swift:61-64 | the single element at the clamped index |
| Arrays.KeepingFirst | Eltaso/Eltaso/Array.swift:66-69 | the prefix of length n (default 1) clamped into 0 ..< count, so n >= count keeps count - 1 |
| Arrays.KeepingLast | Eltaso/Eltaso/Array.swift:71-74 | the suffix of length n (default 1) clamped into 0 ..< count |
| Arrays.ArrayVar.Keep | Eltaso/Eltaso/Array.swift:80-82 | the array becomes `keeping(at:)` of the old one |
| Arrays.ArrayVar.KeepFirst | Eltaso/Eltaso/Array.swift:84-86 | the array becomes `keepingFirst(_:)` of the old one |
| Arrays.ArrayVar.KeepLast | Eltaso/Eltaso/Array.swift:88-90 | the array becomes `keepingLast(_:)` of the old one |
| Arrays.Skipping | Eltaso/Eltaso/Array.swift:98-100 | the enumerated fold drops exactly the element at offset k |
| Arrays.Removing | Eltaso/Eltaso/Array.swift:96-101 | everything but the element at the clamped index, in order, one fewer |
| Arrays.RemovingFirst | Eltaso/Eltaso/Array.swift:103-106 | drops a prefix of length n (default 1) clamped into 0 ..< count |
| Arrays.RemovingLast | Eltaso/Eltaso/Array.swift:108-111 | drops a suffix of length n (default 1) clamped into 0 ..< count |
| Arrays.KeepingFirstThenRemovingFirst | Eltaso/Eltaso/Array.swift:66-106 | `keepingFirst(n) + removingFirst(n)` is the array |
| Arrays.RemovingLastThenKeepingLast | Eltaso/Eltaso/Array.swift:71-111 | `removingLast(n) + keepingLast(n)` is the array |
| Arrays.Group | Eltaso/Eltaso/Array.swift:126-148 | `[[]]` for an empty array; otherwise runs that flatten back to the array, are non-empty, satisfy `condition` inside and fail it across boundaries |
| Arrays.GroupingUnique | Eltaso/Eltaso/Array.swift:126-148 | only one sequence of runs meets that description, so it pins the result down |
| Arrays.KeepingFirstIntended | Eltaso/Eltaso/Array.swift:66-69 | corrected: the first n elements, n clamped into 0 ... count |
| Arrays.KeepingLastIntended | Eltaso/Eltaso/Array.swift:71-74 | corrected: the last n elements, n clamped into 0 ... count |
| Arrays.RemovingFirstIntended | Eltaso/Eltaso/Array.swift:103-106 | corrected: without the first n elements, n clamped into 0 ... count |
| Arrays.RemovingLastIntended | Eltaso/Eltaso/Array.swift:108-111 | corrected: without the last n elements, n clamped into 0 ... count |
| Arrays.IntendedSplits | Eltaso/Eltaso/Array.swift:66-111 | the corrected keep/remove pairs split the array at one point |
| Arrays.CountClampCounterexample | Eltaso/Eltaso/Array.swift:66-111 | on `[1, 2]` with n = 2 each helper keeps or drops one element too few; with the default count on `[1]`, `keepingFirst()` keeps nothing and `removingLast()` removes nothing |
| Dictionaries.FromPairs | Eltaso/Eltaso/Dictionary.swift:13-18 | the keys are exactly those in the sequence, each mapped to the value of its last occurrence |
| Dictionaries.BuiltUnique | Eltaso/Eltaso/Dictionary.swift:13-18 | that description determines the dictionary |
| Dictionaries.Dropping | Eltaso/Eltaso/Dictionary.swift:24-28 | the key is gone and every other entry is as it was |
| Dictionaries.DroppingAbsent | Eltaso/Eltaso/Dictionary.swift:24-28 | dropping an absent key changes nothing |
| Dictionaries.DroppingTwice | Eltaso/Eltaso/Dictionary.swift:24-28 | dropping a key twice is dropping it once |
| Dictionaries.DroppingCommutes | Eltaso/Eltaso/Dictionary.swift:24-28 | dropping two keys in either order gives the same dictionary |
| Dictionaries.DictionaryVar.Drop | Eltaso/Eltaso/Dictionary.swift:30-32 | the dictionary becomes `dropping(_:)` of the old one |
| TimeIntervals.LengthsInSeconds | Eltaso/Eltaso/TimeInterval.swift:13-16 | a minute, hour, day and week last 60, 3600, 86400 and 604800 seconds |
| TimeIntervals.Quot | Eltaso/Eltaso/TimeInterval.swift:26-32 | Swift's `/` truncates toward zero |
| TimeIntervals.Rem | Eltaso/Eltaso/TimeInterval.swift:27-33 | Swift's `%` leaves the remainder that completes the truncated quotient, with the sign of the dividend |
| TimeIntervals.Decompose | Eltaso/Eltaso/TimeInterval.swift:24-33 | days, hours, minutes and seconds recombine to the interval; each is in range (0 ..< 24, 0 ..< 60) with the interval's sign |
| TimeIntervals.Shown | Eltaso/Eltaso/TimeInterval.swift:35-46 | the days form exactly from one day, the hours form from one hour, the minutes form from one minute, the seconds form otherwise |
| TimeIntervals.ShownAddsUp | Eltaso/Eltaso/TimeInterval.swift:24-46 | the shown parts add up to a non-negative interval; a negative one shows only its seconds remainder |
| TimeIntervals.ShownInRange | Eltaso/Eltaso/TimeInterval.swift:24-46 | for a non-negative interval the leading part is positive and the others are below their unit's capacity |
| TimeIntervals.NatToString | Eltaso/Eltaso/TimeInterval.swift:36 | interpolating a natural number writes decimal digits with no leading zero |
| TimeIntervals.IntToString | Eltaso/Eltaso/TimeInterval.swift:36 | interpolating an integer starts with a minus sign exactly when it is negative |
| TimeIntervals.NatToStringRoundTrip | Eltaso/Eltaso/TimeInterval.swift:36 | reading the digits back gives the number |
| TimeIntervals.IntToStringRoundTrip | Eltaso/Eltaso/TimeInterval.swift:36 | reading an interpolated integer back gives the integer |
| TimeIntervals.TimeFormattedDescription | Eltaso/Eltaso/TimeInterval.swift:22-48 | the text renders exactly the shown parts, each value followed by its unit label |
| NSTimeIntervals.LegacyTimeFormattedDescription | Eltaso/Eltaso/NSTimeInterval.swift:13-38 | for every interval, the same text as the current formatter |
| ClosedRanges.Width | Eltaso/Eltaso/ClosedRange.swift:19-21 | advancing the lower bound by the width reaches the upper bound; the width is non-negative exactly for a well-formed range |
| ClosedRanges.Offset | Eltaso/Eltaso/ClosedRange.swift:23-25 | both bounds shift by n and the width is kept |
| ClosedRanges.AppendingUpperBound | Eltaso/Eltaso/ClosedRange.swift:27-29 | the lower bound is kept and the width grows by n |
| ClosedRanges.AppendingLowerBound | Eltaso/Eltaso/ClosedRange.swift:31-33 | the upper bound is kept and the width grows by n |
| ClosedRanges.OffsetRoundTrip | Eltaso/Eltaso/ClosedRange.swift:23-25 | shifting by n and then by -n restores the range |
| ClosedRanges.OffsetsCompose | Eltaso/Eltaso/ClosedRange.swift:23-25 | shifting by a and then by b is shifting by a + b |
| ClosedRanges.AppendingUpperBoundRoundTrip | Eltaso/Eltaso/ClosedRange.swift:27-29 | growing the upper bound by n and then by -n restores the range |
| ClosedRanges.AppendingLowerBoundRoundTrip | Eltaso/Eltaso/ClosedRange.swift:31-33 | growing the lower bound by n and then by -n restores the range |
| ClosedRanges.AppendingBothBounds | Eltaso/Eltaso/ClosedRange.swift:27-33 | growing both ends adds both amounts to the width, in either order |
| Collections.Second | Eltaso/Eltaso/Collection.swift:13-25 | present exactly when there are at least two elements, and then the element at offset 1 |

## Left out

- `shuffled`, `shuffle` and `randomElement` (Array.swift:13-33): these depend on a random-number source that is not part of this model.
- `description` (Matrix.swift:490-504) and the `print` calls inside matrix `*`: these only produce text for display or output.
- `estimatedTime(since:)` (NSTimeInterval.swift:45-47): it reads the clock.
- The `Int(self)` conversion of a floating-point `TimeInterval`. The formatter takes a whole number of seconds.
- The `eltaso` wrapper of `ClosedRange` (ClosedRange.swift:11-15): it only boxes the range.
  - Bounds are `int`. `increased(by:)` and `decreased(by:)` are taken to move a bound by `n`; the file defining them on `Strideable` is not part of this model.
- The `Matrix.indices` and `Index`/`Size` type aliases: they appear only through the ranges the loops run over.
- Overflow traps of Swift `Int` arithmetic: integers are unbounded here.
- MatrixCore.Matrix.Get: it requires in-range coordinates, while the source's getter reads any offset `i * columns + j` inside the buffer. That raw read, wrap-around included, is `MatrixCore.Subscript`; `Get` is the in-range view the rest of the model states cells with.
- MatrixCore.Filled: the sizes are `nat`, because the datatype's counts are. The source takes `Int` sizes and only needs `m * n >= 0`, so `(0, -1)` gives an empty buffer with `-1` columns and `(-2, -3)` gives six elements with `-2` rows. These negative-count matrices are not modelled.
- MatrixCore.Zeros: the same restriction to natural sizes as `Filled`, which it calls.
- Matrix operations other than `WithCell`, `Subscript`, `Size` and `IsSquare` require the storage invariant `Valid()`. The source checks no such invariant and goes on working on the invalid matrices that `removingFirstRows` and `removingLastRows` produce. What it then computes is not modelled.
- MatrixOps.ScalarTimesMatrix: for a non-square matrix, the contract states the shape and the unscaled last cell, not every cell.
  - For example, with `2 <= columns < rows` some offsets are scaled twice.
  - The exact multiplicities are not stated.
- MatrixOps.AreEqual: requires the swapped loops to stay in the buffer whenever the sizes agree.
  - The source can answer `false` at an earlier difference before it would read past the buffer.
  - Those early answers on otherwise-trapping inputs are not modelled.
- MatrixOps.AreNotEqual: it negates `AreEqual`, so it has the same precondition and leaves out the same early answers.
- MatrixEdits.RemovingColumn: requires every read of the shadowed loop to be in the buffer (`ColumnRemovalReadable`). The source traps on the other inputs.
- MatrixEdits.RemovingFirstRows and MatrixEdits.RemovingLastRows: they state the buffer and counts the code produces. Those break the storage invariant, so no cell-level statement is made.
- MatrixOps.MatrixTimesScalar: it calls scalar `*`, so it states only what `MatrixOps.ScalarTimesMatrix` states: the shape, every cell of a square matrix, and the unscaled last cell when `2 <= columns < rows`.
- MatrixVars.ScaleAssign: it inherits the square-only cell statement of scalar `*`.
- Swift's copy-on-write storage and value semantics are captured by using datatype values. No aliasing between matrix variables is modelled.
- Throwing closures passed to `group(condition:)` (it `rethrows`): the condition is a total function here.

## Findings

| source | as written | input that shows it | evidently intended | confidence | as-written member | corrected member |
|---|---|---|---|---|---|---|
| Eltaso/Eltaso/Matrix.swift:373-388 | `removingFirstRows(of:)` collects rows `rows - k ..< rows` (the last k) but records `rows - k` rows | `[[1, 1], [2, 2], [3, 3]]`, k = 1: buffer `[3, 3]` with 2 x 2 shape | the rows after the first k | high, not executed | MatrixEdits.RemovingFirstRows | MatrixFindings.RemovingFirstRowsIntended |
| Eltaso/Eltaso/Matrix.swift:390-405 | `removingLastRows(of:)` collects rows `0 ..< k` (the first k) but records `rows - k` rows | `[[1, 1], [2, 2], [3, 3]]`, k = 1: buffer `[1, 1]` with 2 x 2 shape | the rows before the last k | high, not executed | MatrixEdits.RemovingLastRows | MatrixFindings.RemovingLastRowsIntended |
| Eltaso/Eltaso/Matrix.swift:428-433 | the inner closure's parameter `i` shadows the row index, so it reads `matrix[(c, j)]` for column indices c | `[[1, 2], [3, 4]]`, column 0: `[[3], [3]]` | `[[2], [4]]` | high, not executed | MatrixEdits.RemovingColumn | MatrixFindings.RemovingColumnIntended |
| Eltaso/Eltaso/Matrix.swift:554-575 | the result is rebuilt through `Matrix(value)`, which takes its column count from the first row | a 0 x 2 matrix times a 2 x 3 matrix: 0 x 0 | 0 x 3 | medium, not executed | MatrixOps.Product | MatrixFindings.ProductIntended |
| Eltaso/Eltaso/Matrix.swift:582-585 | scalar `*` loops `j` over rows and `i` over columns and scales `matrix[i, j]` | a 3 x 2 matrix: the last cell is never scaled | every cell scaled once | high, not executed | MatrixOps.ScalarTimesMatrix | MatrixFindings.Scaled |
| Eltaso/Eltaso/Matrix.swift:609-615 | `==` loops `i` over columns and `j` over rows and compares `lhs[i, j]` with `rhs[i, j]` | two 3 x 2 matrices differing only in the last cell compare equal | equal exactly when every cell agrees | high, not executed | MatrixOps.AreEqual | MatrixFindings.Equals |
| Eltaso/Eltaso/Array.swift:66-69 | `keepingFirst(_:)` clamps the count into the index range `0 ..< count` | `[1, 2]`, n = 2: `[1]` | `[1, 2]` | medium, not executed | Arrays.KeepingFirst | Arrays.KeepingFirstIntended |
| Eltaso/Eltaso/Array.swift:71-74 | `keepingLast(_:)` clamps the count into `0 ..< count` | `[1, 2]`, n = 2: `[2]` | `[1, 2]` | medium, not executed | Arrays.KeepingLast | Arrays.KeepingLastIntended |
| Eltaso/Eltaso/Array.swift:103-106 | `removingFirst(_:)` clamps the count into `0 ..< count` | `[1, 2]`, n = 2: `[2]` | `[]` | medium, not executed | Arrays.RemovingFirst | Arrays.RemovingFirstIntended |
| Eltaso/Eltaso/Array.swift:108-111 | `removingLast(_:)` clamps the count into `0 ..< count` | `[1, 2]`, n = 2: `[1]` | `[]` | medium, not executed | Arrays.RemovingLast | Arrays.RemovingLastIntended |

The counterexamples are proved as lemmas: MatrixFindings.RowRemovalCounterexample, MatrixFindings.ColumnRemovalCounterexample, MatrixFindings.ProductCounterexample, MatrixFindings.EqualityCounterexample and Arrays.CountClampCounterexample. For scalar `*`, the counterexample is the last ensures of MatrixOps.ScalarTimesMatrix.

The mutating twins keep the as-written behaviour, since each reassigns `self` to its producing form. The corrected members stand beside them.
