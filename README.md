# Dense matrix library, modelled in Dafny

This project models the generic dense `Matrix<T>` class of `matrix.h` and the
free-function operators declared next to it. A matrix owns a flat buffer of
`rows * cols` elements in row-major order: element (i, j) lives at linear
index `i * cols + j`. The operations are:

- two constructors: all zeros, or filled from the first `rows * cols` values of a vector;
- `shape()`;
- the bounds-checked element accessor `operator()(i, j)`;
- in-place `transpose()`;
- scalar multiply-assign `*=`;
- elementwise `+` and `-`;
- the triple-loop matrix product `*`.

Every `assert` of the source is a `requires` of the matching Dafny member, since
a failing assert aborts the program.

The project has three modules:

- `RowMajor` (`rowmajor.dfy`): the index arithmetic of the layout. `Offset(i, j, rows, cols)`
  always falls inside the buffer. Division by `cols` recovers the (row, column)
  pair, so the mapping is one-to-one and onto.
- `Grids` (`grids.dfy`): the value a matrix holds, the datatype `Grid(rows, cols, elements)`
  with the shape invariant `WellFormed`. It also has one function per operation,
  stated element by element through `Entry(g, i, j)`, and the lemmas that relate
  the operations: transpose is an involution, subtraction undoes addition, the zero
  matrix is neutral for addition, the identity matrix is neutral for the product on
  either side, and the transpose of a product is the product of the transposes. It
  models the scalar loop exactly as written, including the abort.
- `Matrices` (`matrices.dfy`): the class `Matrix` with the fields `rows`, `cols`
  and `elements: array<int>`, and the operators as methods. Each constructor and
  operator loops as the source does, and each method is proved against the `Grids`
  function for its operation: `Value()` after the call equals that function of the
  values before it.

Elements are mathematical integers, so every sum and product is exact. Returning
a `Matrix` by value is modelled by `Matrix.Copy`, which makes a fresh matrix with
its own buffer. `transpose()` makes such a copy after mutating `*this`, as does
`*=` after updating its operand.

Where the code and its own comments disagree, the model follows the code:

- The constructor comments say both dimensions must be "greater than or equal to 0".
  The asserts demand `> 0`, and the model requires `> 0`.
- The doc comment of `transpose()` (matrix.h:102) says it returns the matrix's reference.
  The code's return type is `Matrix`, so it returns a *copy* by value. `Matrix.Transpose` mutates the matrix and
  returns a fresh matrix equal to it.
- The comment of the vector constructor says nothing about the length of `v`. The
  code reads `v[i]` for every `i < rows * cols`, so the model requires
  `|v| >= rows * cols` (not equality) and ignores any further values.

## Model

| member | source | states |
|---|---|---|
| RowMajor.Offset | matrix.h:77-96 | the linear index `i * cols + j` of an in-range (i, j) is below `rows * cols`, and dividing it by `cols` gives back row i and column j |
| RowMajor.OffsetOnto | matrix.h:80 | every buffer index `k < rows * cols` is the offset of the pair `(k / cols, k % cols)`, which is in range |
| RowMajor.OffsetInjective | matrix.h:95 | two in-range (row, column) pairs with the same offset are the same pair |
| Grids.Entry | matrix.h:92-96 | element (i, j) of an in-range pair is the buffer value at linear index `i * cols + j` |
| Grids.Zeros | matrix.h:23-27 | a `rows x cols` value with a buffer of `rows * cols` elements, every element 0 |
| Grids.FromValues | matrix.h:37-45 | a `rows x cols` value whose element (i, j) is `v[i * cols + j]`; only the first `rows * cols` values of `v` are used |
| Grids.Updated | matrix.h:77-81 | writing x through the reference for (i, j) changes element (i, j) to x, keeps the shape, and leaves every other element as it was |
| Grids.Transposed | matrix.h:105-121 | the transpose has shape `(cols, rows)` and its element (j, i) is the original element (i, j) |
| Grids.TransposeTwice | matrix.h:109-118 | transposing twice restores the original shape and every original element |
| Grids.Sum | matrix.h:175-192 | operands of one shape give a result of that shape with element (i, j) = a(i, j) + b(i, j) |
| Grids.Difference | matrix.h:203-220 | operands of one shape give a result of that shape with element (i, j) = a(i, j) - b(i, j) |
| Grids.DifferenceUndoesSum | matrix.h:175-220 | `(a + b) - b == a` for all operands of one shape |
| Grids.SumZerosLeft | matrix.h:23-27 | adding the zero matrix of a constructor `Matrix(r, c)` to an `r x c` matrix returns that matrix |
| Grids.Scaled | matrix.h:147-164 | the intended scalar product: same shape, every element (i, j) multiplied by num |
| Grids.ScaledByOne | matrix.h:147-164 | scaling by 1 leaves the matrix unchanged |
| Grids.ScaleLoop | matrix.h:158-161 | steps i .. rows*cols - 1 of the loop as written, each reading and writing (i, 0): the result is None (abort) exactly when some remaining step is at or past row `rows`, i.e. when `max(i, rows) < rows * cols`; a completed run keeps the shape |
| Grids.ScaleAsWritten | matrix.h:155-164 | the whole loop as written returns None exactly when some step breaks `i < rows`, which happens iff `rows < rows * cols`; a completed run keeps the shape |
| Grids.ScaleLoopColumn | matrix.h:158-161 | on a single-column matrix, the remaining steps of the loop as written, from a state where rows below i are scaled, finish the scaling |
| Grids.ScaleLoopAborts | matrix.h:158-161 | with more than one column the loop as written reaches step i = rows, where the accessor's assert fails |
| Grids.ScaleAsWrittenCompletesIffColumn | matrix.h:155-164 | the loop as written completes if and only if `cols == 1`, and then every element is multiplied by num |
| Grids.ScaleAsWrittenRowCounterexample | matrix.h:155-164 | for the 1 x 2 matrix [1 2] and num 3, the loop as written aborts, while the intended result is [3 6] |
| Grids.Product | matrix.h:232-254 | an `(n x m) * (m x p)` product has shape `(n, p)` and element (i, j) is the running sum `a(i,0)*b(0,j) + ... + a(i,m-1)*b(m-1,j)`, accumulated left to right from 0 |
| Grids.PartialDot | matrix.h:244-248 | the running `sum` after its first n steps: 0 for n = 0, then the previous sum plus `a(i, n-1) * b(n-1, j)` |
| Grids.PartialDotIdentityLeft | matrix.h:244-248 | the first n steps of the running sum with the identity on the left give a(i, j) if i < n, else 0 |
| Grids.PartialDotIdentityRight | matrix.h:244-248 | the first n steps of the running sum with the identity on the right give a(i, j) if j < n, else 0 |
| Grids.ProductIdentityLeft | matrix.h:232-254 | multiplying the identity of size rows by a matrix returns that matrix unchanged |
| Grids.ProductIdentityRight | matrix.h:232-254 | multiplying a matrix by the identity of size cols returns that matrix unchanged |
| Grids.PartialDotTransposed | matrix.h:244-248 | the running sum for (j, i) of `transpose(b) * transpose(a)` equals the running sum for (i, j) of `a * b`, step by step |
| Grids.TransposedProduct | matrix.h:105-254 | `transpose(a * b) == transpose(b) * transpose(a)` |
| Grids.DemoInputsLayout | src/matrix.cpp:10-11 | the 4 x 2 demonstration matrix built from {0,0,0,1,1,0,1,1} has 1 at (1, 1) and (2, 0) and 0 at (0, 1) |
| Grids.TwoByTwoSumAndProduct | matrix.h:175-254 | [1 2; 3 4] + [5 6; 7 8] == [6 8; 10 12] and [1 2; 3 4] * [5 6; 7 8] == [19 22; 43 50] |
| Matrices.Matrix.Valid | matrix.h:11-13 | the shape invariant over the fields: `rows > 0`, `cols > 0` and a buffer of exactly `rows * cols` elements |
| Matrices.Matrix.Value | matrix.h:11-13 | a valid matrix holds a well-formed value whose shape is its `(rows, cols)` |
| Matrices.Matrix.constructor | matrix.h:23-27 | `Matrix(r, c)` with `r > 0 && c > 0` is valid, owns a fresh buffer, and holds the zero `r x c` matrix |
| Matrices.Matrix.FromVector | matrix.h:37-45 | `Matrix(r, c, v)` with `r > 0 && c > 0` and at least `r * c` values in `v` fills its fresh buffer in a loop, and element (i, j) is `v[i * c + j]` |
| Matrices.Matrix.Shape | matrix.h:53-67 | both `shape()` overloads return `(rows, cols)`; for a valid matrix both are positive and their product is the buffer length |
| Matrices.Matrix.Get | matrix.h:92-96 | the const accessor requires `i < rows && j < cols`, returns element (i, j) and changes nothing |
| Matrices.Matrix.Set | matrix.h:77-81 | a write through the mutable accessor requires `i < rows && j < cols`, replaces element (i, j) and nothing else, and keeps the shape |
| Matrices.Matrix.Copy | matrix.h:120 | returning by value yields a fresh matrix with its own buffer and the same value |
| Matrices.Matrix.Transpose | matrix.h:105-121 | the matrix becomes its transpose, with a fresh buffer, swapped `rows`/`cols` and the shape invariant kept; the returned matrix is a fresh copy equal to the mutated one |
| Matrices.ScaleAssign | matrix.h:155-164 | the loop as written, safe only for `cols == 1` because of the accessor's `i < rows`: its final state is the one the as-written loop function computes, every element is multiplied by num, and it returns a copy of the updated matrix |
| Matrices.ScaleAssignCorrected | matrix.h:147-164 | the intended scalar multiply-assign: for any shape, every element (i, j) is multiplied by num, and it returns a copy |
| Matrices.Add | matrix.h:175-192 | with equal shapes, a fresh result of that shape holding the elementwise sum; neither operand changes |
| Matrices.Subtract | matrix.h:203-220 | with equal shapes, a fresh result of that shape holding the elementwise difference; neither operand changes |
| Matrices.Multiply | matrix.h:232-254 | with `a.cols == b.rows`, a fresh `(a.rows, b.cols)` result whose element (i, j) is the left-to-right running sum over k of `a(i, k) * b(k, j)`; neither operand changes |

## Left out

- `Matrix::print` (matrix.h:128-144) writes to the console. That is I/O, and it is not modelled.
- `random.h` is not modelled. It wraps the C++ random-number library: `std::random_device`, `std::seed_seq`, `std::mt19937` and `std::uniform_real_distribution`. These are foreign calls that produce nondeterministic floating-point values. `fillMatrixWithRand` is only a row-major loop of writes through the accessor; `Matrix.Set` models those writes.
- `src/matrix.cpp` is a demonstration `main` that builds and prints matrices. Only the layout of its 4 x 2 input is stated, by `Grids.DemoInputsLayout`.
- Floating point is not modelled: the `double` accumulator of `operator*`, the `double` scalar of `*=`, and the `double&` return type of both accessors whatever `T` is. Elements are exact integers, so there is no rounding and no overflow.
- The element type is fixed to `int` rather than a template parameter. The `std::vector<double>` buffer that `transpose()` move-assigns into `std::vector<T>` is therefore not an issue in the model.
- `+`, `-` and `*` declare their result as `Matrix c(...)` without a template argument (matrix.h:181, matrix.h:209, matrix.h:238), which class template argument deduction cannot resolve from two `std::size_t` arguments; the model reads these lines as `Matrix<T> c(...)`.
- `std::size_t` is modelled as `nat`, so a wrap-around of `rows * cols` or of `i * cols + j` is not modelled.
- The model assumes assertions are enabled, so a failing `assert` is an abort. With `NDEBUG` the scalar loop would silently index past the buffer; that undefined behaviour is not modelled.
- Matrices.ScaleAssign: requires `cols == 1`, because that is the only shape on which every accessor call of the loop as written meets its assert. For other shapes, `Grids.ScaleAsWritten` models the abort as `None`.

## Findings

| source | as written | input that shows it | evidently intended | confidence | as-written member | corrected member |
|---|---|---|---|---|---|---|
| matrix.h:158-161 | the loop runs `i` over `0 .. rows*cols - 1` and calls `a(i, 0)`, whose assert demands `i < rows` | the 1 x 2 matrix [1 2] times 3: step `i = 1` breaks `1 < rows = 1` and the program aborts | multiply every element (i, j) by `num` | not executed | Grids.ScaleAsWrittenRowCounterexample | Matrices.ScaleAssignCorrected |
