/**
 * Row-major layout of a rows x cols grid in a flat buffer: element (i, j)
 * lives at linear index i * cols + j.
 */
module RowMajor {

  /** The linear index of element (i, j); it always lies inside the buffer. */
  function Offset(i: nat, j: nat, rows: nat, cols: nat): (k: nat)
    requires i < rows && j < cols
    ensures k < rows * cols
    ensures k / cols == i && k % cols == j
  {
    OffsetBound(i, j, rows, cols);
    OffsetSplit(i, j, cols);
    i * cols + j
  }

  lemma OffsetBound(i: nat, j: nat, rows: nat, cols: nat)
    requires i < rows && j < cols
    ensures i * cols + j < rows * cols
  {
    calc {
      i * cols + j;
    <
      i * cols + cols;
    ==
      (i + 1) * cols;
    <= { MulMonotone(i + 1, rows, cols); }
      rows * cols;
    }
  }

  lemma MulMonotone(a: nat, b: nat, c: nat)
    requires a <= b
    ensures a * c <= b * c
  {
  }

  /** Division by cols recovers the row and the remainder the column. */
  lemma OffsetSplit(i: nat, j: nat, cols: nat)
    requires j < cols
    ensures (i * cols + j) / cols == i && (i * cols + j) % cols == j
  {
    var k := i * cols + j;
    var q, r := k / cols, k % cols;
    assert k == q * cols + r && 0 <= r < cols;
    if q < i {
      MulMonotone(q + 1, i, cols);
      assert false;
    } else if q > i {
      MulMonotone(i + 1, q, cols);
      assert false;
    }
  }

  /** Every index of the buffer is the offset of exactly one (row, column). */
  lemma {:induction false} OffsetOnto(k: nat, rows: nat, cols: nat)
    requires k < rows * cols
    ensures cols > 0 && k / cols < rows && k % cols < cols
    ensures Offset(k / cols, k % cols, rows, cols) == k
  {
    assert cols > 0;
    var q := k / cols;
    if q >= rows {
      MulMonotone(rows, q, cols);
      assert false;
    }
  }

  /** Distinct (row, column) pairs occupy distinct indices. */
  lemma OffsetInjective(i: nat, j: nat, i': nat, j': nat, rows: nat, cols: nat)
    requires i < rows && j < cols && i' < rows && j' < cols
    requires Offset(i, j, rows, cols) == Offset(i', j', rows, cols)
    ensures i == i' && j == j'
  {
  }
}
