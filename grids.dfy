/**
 * The value of a dense matrix: its shape and its row-major buffer, and the
 * meaning of every operation on matrices as a function of such values.
 * Elements are mathematical integers and sums are exact.
 */
module Grids {
  import opened RowMajor

  datatype Option<T> = None | Some(value: T)

  /** rows, cols and the flat buffer of one matrix. */
  datatype Grid = Grid(rows: nat, cols: nat, elements: seq<int>)

  /** The shape invariant every matrix keeps. */
  predicate WellFormed(g: Grid) {
    g.rows > 0 && g.cols > 0 && |g.elements| == g.rows * g.cols
  }

  predicate SameShape(g: Grid, h: Grid) {
    g.rows == h.rows && g.cols == h.cols
  }

  /** Element (i, j), read at its row-major offset. */
  function Entry(g: Grid, i: nat, j: nat): int
    requires WellFormed(g) && i < g.rows && j < g.cols
  {
    g.elements[Offset(i, j, g.rows, g.cols)]
  }

  /** Two well-formed grids of one shape are equal when all their entries are. */
  lemma Extensionality(g: Grid, h: Grid)
    requires WellFormed(g) && WellFormed(h) && SameShape(g, h)
    requires forall i: nat, j: nat :: i < g.rows && j < g.cols ==> Entry(g, i, j) == Entry(h, i, j)
    ensures g == h
  {
    forall k | 0 <= k < |g.elements|
      ensures g.elements[k] == h.elements[k]
    {
      OffsetOnto(k, g.rows, g.cols);
      assert Entry(g, k / g.cols, k % g.cols) == Entry(h, k / g.cols, k % g.cols);
    }
  }

  /** A rows x cols matrix whose elements are all zero. */
  function Zeros(rows: nat, cols: nat): (z: Grid)
    requires rows > 0 && cols > 0
    ensures WellFormed(z) && z.rows == rows && z.cols == cols
    ensures forall i: nat, j: nat :: i < rows && j < cols ==> Entry(z, i, j) == 0
  {
    Grid(rows, cols, seq(rows * cols, _ => 0))
  }

  /** A rows x cols matrix read in row-major order from the first rows * cols values of v. */
  function FromValues(rows: nat, cols: nat, v: seq<int>): (g: Grid)
    requires rows > 0 && cols > 0 && |v| >= rows * cols
    ensures WellFormed(g) && g.rows == rows && g.cols == cols
    ensures forall i: nat, j: nat :: i < rows && j < cols ==> Entry(g, i, j) == v[Offset(i, j, rows, cols)]
  {
    Grid(rows, cols, v[..rows * cols])
  }

  /** g with element (i, j) replaced by x. */
  function Updated(g: Grid, i: nat, j: nat, x: int): (u: Grid)
    requires WellFormed(g) && i < g.rows && j < g.cols
    ensures WellFormed(u) && SameShape(u, g)
    ensures Entry(u, i, j) == x
    ensures forall i': nat, j': nat :: i' < g.rows && j' < g.cols && (i', j') != (i, j) ==>
              Entry(u, i', j') == Entry(g, i', j')
  {
    var u := g.(elements := g.elements[Offset(i, j, g.rows, g.cols) := x]);
    forall i': nat, j': nat | i' < g.rows && j' < g.cols && (i', j') != (i, j)
      ensures Entry(u, i', j') == Entry(g, i', j')
    {
      if Offset(i', j', g.rows, g.cols) == Offset(i, j, g.rows, g.cols) {
        OffsetInjective(i', j', i, j, g.rows, g.cols);
      }
    }
    u
  }

  /** The transpose of g: a cols x rows matrix. */
  function Transposed(g: Grid): (t: Grid)
    requires WellFormed(g)
    ensures WellFormed(t) && t.rows == g.cols && t.cols == g.rows
    ensures forall i: nat, j: nat :: i < g.rows && j < g.cols ==> Entry(t, j, i) == Entry(g, i, j)
  {
    var n := g.rows * g.cols;
    assert n == g.cols * g.rows;
    var t := Grid(g.cols, g.rows, seq(n, k requires 0 <= k < n =>
      OffsetOnto(k, g.cols, g.rows);
      Entry(g, k % g.rows, k / g.rows)));
    forall i: nat, j: nat | i < g.rows && j < g.cols
      ensures Entry(t, j, i) == Entry(g, i, j)
    {
      var k := Offset(j, i, g.cols, g.rows);
      assert k / g.rows == j && k % g.rows == i;
    }
    t
  }

  /** Transposing twice gives back the original shape and every original element. */
  lemma TransposeTwice(g: Grid)
    requires WellFormed(g)
    ensures Transposed(Transposed(g)) == g
  {
    var t := Transposed(g);
    var tt := Transposed(t);
    forall i: nat, j: nat | i < g.rows && j < g.cols
      ensures Entry(tt, i, j) == Entry(g, i, j)
    {
      assert Entry(tt, i, j) == Entry(t, j, i);
    }
    Extensionality(tt, g);
  }

  /** Elementwise sum of two matrices of one shape. */
  function Sum(g: Grid, h: Grid): (s: Grid)
    requires WellFormed(g) && WellFormed(h) && SameShape(g, h)
    ensures WellFormed(s) && SameShape(s, g)
    ensures forall i: nat, j: nat :: i < g.rows && j < g.cols ==> Entry(s, i, j) == Entry(g, i, j) + Entry(h, i, j)
  {
    Grid(g.rows, g.cols, seq(|g.elements|, k requires 0 <= k < |g.elements| => g.elements[k] + h.elements[k]))
  }

  /** Elementwise difference of two matrices of one shape. */
  function Difference(g: Grid, h: Grid): (d: Grid)
    requires WellFormed(g) && WellFormed(h) && SameShape(g, h)
    ensures WellFormed(d) && SameShape(d, g)
    ensures forall i: nat, j: nat :: i < g.rows && j < g.cols ==> Entry(d, i, j) == Entry(g, i, j) - Entry(h, i, j)
  {
    Grid(g.rows, g.cols, seq(|g.elements|, k requires 0 <= k < |g.elements| => g.elements[k] - h.elements[k]))
  }

  /** Subtracting what was added gives back the first operand. */
  lemma DifferenceUndoesSum(g: Grid, h: Grid)
    requires WellFormed(g) && WellFormed(h) && SameShape(g, h)
    ensures Difference(Sum(g, h), h) == g
  {
    var s := Sum(g, h);
    var d := Difference(s, h);
    forall i: nat, j: nat | i < g.rows && j < g.cols
      ensures Entry(d, i, j) == Entry(g, i, j)
    {
      assert Entry(d, i, j) == Entry(s, i, j) - Entry(h, i, j);
    }
    Extensionality(d, g);
  }

  /** The zero matrix is neutral for the sum. */
  lemma SumZerosLeft(g: Grid)
    requires WellFormed(g)
    ensures Sum(Zeros(g.rows, g.cols), g) == g
  {
    var s := Sum(Zeros(g.rows, g.cols), g);
    forall i: nat, j: nat | i < g.rows && j < g.cols
      ensures Entry(s, i, j) == Entry(g, i, j)
    {
      assert Entry(s, i, j) == Entry(Zeros(g.rows, g.cols), i, j) + Entry(g, i, j);
    }
    Extensionality(s, g);
  }

  /** Every element multiplied by num. */
  function Scaled(g: Grid, num: int): (s: Grid)
    requires WellFormed(g)
    ensures WellFormed(s) && SameShape(s, g)
    ensures forall i: nat, j: nat :: i < g.rows && j < g.cols ==> Entry(s, i, j) == Entry(g, i, j) * num
  {
    Grid(g.rows, g.cols, seq(|g.elements|, k requires 0 <= k < |g.elements| => g.elements[k] * num))
  }

  /**
   * The scalar multiply-assign loop as the source writes it, from step i on:
   * step i reads and writes element (i, 0), whose accessor demands i < rows;
   * a step that breaks that demand aborts (None).
   */
  function ScaleLoop(g: Grid, num: int, i: nat): (r: Option<Grid>)
    requires WellFormed(g)
    ensures r.None? <==> (if i < g.rows then g.rows else i) < g.rows * g.cols
    ensures r.Some? ==> WellFormed(r.value) && SameShape(r.value, g)
    decreases g.rows * g.cols - i
  {
    if i >= g.rows * g.cols then Some(g)
    else if i < g.rows then ScaleLoop(Updated(g, i, 0, Entry(g, i, 0) * num), num, i + 1)
    else None
  }

  /**
   * The whole scalar multiply-assign loop as written: steps 0 .. rows * cols - 1.
   * It aborts exactly when some step i, namely i = rows, breaks i < rows.
   */
  function ScaleAsWritten(g: Grid, num: int): (r: Option<Grid>)
    requires WellFormed(g)
    ensures r.None? <==> g.rows < g.rows * g.cols
    ensures r.Some? ==> WellFormed(r.value) && SameShape(r.value, g)
  {
    ScaleLoop(g, num, 0)
  }

  /**
   * Steps i .. rows * cols - 1 of a single-column matrix whose rows before i
   * were already scaled finish the scaling.
   */
  lemma {:induction false} ScaleLoopColumn(g0: Grid, g: Grid, num: int, i: nat)
    requires WellFormed(g0) && WellFormed(g) && SameShape(g, g0) && g.cols == 1 && i <= g.rows
    requires forall k: nat :: k < i ==> Entry(g, k, 0) == Entry(g0, k, 0) * num
    requires forall k: nat :: i <= k < g.rows ==> Entry(g, k, 0) == Entry(g0, k, 0)
    ensures ScaleLoop(g, num, i) == Some(Scaled(g0, num))
    decreases g.rows - i
  {
    if i == g.rows {
      forall k: nat, j: nat | k < g.rows && j < g.cols
        ensures Entry(g, k, j) == Entry(Scaled(g0, num), k, j)
      {
      }
      Extensionality(g, Scaled(g0, num));
    } else {
      var g' := Updated(g, i, 0, Entry(g, i, 0) * num);
      ScaleLoopColumn(g0, g', num, i + 1);
    }
  }

  /** With several columns, the loop as written keeps going after it has visited every row. */
  lemma {:induction false} ScaleLoopAborts(g: Grid, num: int, i: nat)
    requires WellFormed(g) && g.cols > 1 && i <= g.rows
    ensures ScaleLoop(g, num, i) == None
    decreases g.rows - i
  {
    MulMonotone(2, g.cols, g.rows);
    if i < g.rows {
      ScaleLoopAborts(Updated(g, i, 0, Entry(g, i, 0) * num), num, i + 1);
    }
  }

  /**
   * The scalar multiply-assign as written runs to completion exactly when the
   * matrix has a single column, and then it multiplies every element by num.
   */
  lemma ScaleAsWrittenCompletesIffColumn(g: Grid, num: int)
    requires WellFormed(g)
    ensures ScaleAsWritten(g, num).Some? <==> g.cols == 1
    ensures g.cols == 1 ==> ScaleAsWritten(g, num) == Some(Scaled(g, num))
  {
    if g.cols == 1 {
      ScaleLoopColumn(g, g, num, 0);
    } else {
      ScaleLoopAborts(g, num, 0);
    }
  }

  /** A 1 x 2 matrix: the loop as written aborts where every element should have been scaled. */
  lemma ScaleAsWrittenRowCounterexample()
    ensures ScaleAsWritten(Grid(1, 2, [1, 2]), 3) == None
    ensures Scaled(Grid(1, 2, [1, 2]), 3) == Grid(1, 2, [3, 6])
  {
    var g := Grid(1, 2, [1, 2]);
    var g1 := Updated(g, 0, 0, 3);
    assert ScaleLoop(g1, 3, 1) == None;
    assert Scaled(g, 3).elements == [3, 6];
  }

  /** Scaling by one changes nothing. */
  lemma ScaledByOne(g: Grid)
    requires WellFormed(g)
    ensures Scaled(g, 1) == g
  {
    Extensionality(Scaled(g, 1), g);
  }

  /**
   * The running sum of the product loop after its first n steps:
   * ((0 + g(i,0) * h(0,j)) + g(i,1) * h(1,j)) + ... , accumulated left to right.
   */
  function PartialDot(g: Grid, h: Grid, i: nat, j: nat, n: nat): int
    requires WellFormed(g) && WellFormed(h) && g.cols == h.rows
    requires i < g.rows && j < h.cols && n <= g.cols
  {
    if n == 0 then 0
    else PartialDot(g, h, i, j, n - 1) + Entry(g, i, n - 1) * Entry(h, n - 1, j)
  }

  /** The matrix product of g (rows x n) and h (n x cols). */
  function Product(g: Grid, h: Grid): (p: Grid)
    requires WellFormed(g) && WellFormed(h) && g.cols == h.rows
    ensures WellFormed(p) && p.rows == g.rows && p.cols == h.cols
    ensures forall i: nat, j: nat :: i < g.rows && j < h.cols ==> Entry(p, i, j) == PartialDot(g, h, i, j, g.cols)
  {
    var n := g.rows * h.cols;
    var p := Grid(g.rows, h.cols, seq(n, k requires 0 <= k < n =>
      OffsetOnto(k, g.rows, h.cols);
      PartialDot(g, h, k / h.cols, k % h.cols, g.cols)));
    p
  }

  /** The n x n identity matrix. */
  function Identity(n: nat): (e: Grid)
    requires n > 0
    ensures WellFormed(e) && e.rows == n && e.cols == n
    ensures forall i: nat, j: nat :: i < n && j < n ==> Entry(e, i, j) == if i == j then 1 else 0
  {
    Grid(n, n, seq(n * n, k requires 0 <= k < n * n => if k / n == k % n then 1 else 0))
  }

  lemma {:induction false} PartialDotIdentityLeft(g: Grid, i: nat, j: nat, n: nat)
    requires WellFormed(g) && i < g.rows && j < g.cols && n <= g.rows
    ensures PartialDot(Identity(g.rows), g, i, j, n) == if i < n then Entry(g, i, j) else 0
  {
    if n > 0 {
      PartialDotIdentityLeft(g, i, j, n - 1);
    }
  }

  lemma {:induction false} PartialDotIdentityRight(g: Grid, i: nat, j: nat, n: nat)
    requires WellFormed(g) && i < g.rows && j < g.cols && n <= g.cols
    ensures PartialDot(g, Identity(g.cols), i, j, n) == if j < n then Entry(g, i, j) else 0
  {
    if n > 0 {
      PartialDotIdentityRight(g, i, j, n - 1);
    }
  }

  /** Multiplying by the identity on the left returns the other operand. */
  lemma ProductIdentityLeft(g: Grid)
    requires WellFormed(g)
    ensures Product(Identity(g.rows), g) == g
  {
    var p := Product(Identity(g.rows), g);
    forall i: nat, j: nat | i < g.rows && j < g.cols
      ensures Entry(p, i, j) == Entry(g, i, j)
    {
      PartialDotIdentityLeft(g, i, j, g.rows);
    }
    Extensionality(p, g);
  }

  /** Multiplying by the identity on the right returns the other operand. */
  lemma ProductIdentityRight(g: Grid)
    requires WellFormed(g)
    ensures Product(g, Identity(g.cols)) == g
  {
    var p := Product(g, Identity(g.cols));
    forall i: nat, j: nat | i < g.rows && j < g.cols
      ensures Entry(p, i, j) == Entry(g, i, j)
    {
      PartialDotIdentityRight(g, i, j, g.cols);
    }
    Extensionality(p, g);
  }

  lemma {:induction false} PartialDotTransposed(g: Grid, h: Grid, i: nat, j: nat, n: nat)
    requires WellFormed(g) && WellFormed(h) && g.cols == h.rows
    requires i < g.rows && j < h.cols && n <= g.cols
    ensures PartialDot(Transposed(h), Transposed(g), j, i, n) == PartialDot(g, h, i, j, n)
  {
    if n > 0 {
      PartialDotTransposed(g, h, i, j, n - 1);
      assert Entry(Transposed(h), j, n - 1) == Entry(h, n - 1, j);
      assert Entry(Transposed(g), n - 1, i) == Entry(g, i, n - 1);
    }
  }

  /** The transpose of a product is the product of the transposes in reverse order. */
  lemma TransposedProduct(g: Grid, h: Grid)
    requires WellFormed(g) && WellFormed(h) && g.cols == h.rows
    ensures Transposed(Product(g, h)) == Product(Transposed(h), Transposed(g))
  {
    var l := Transposed(Product(g, h));
    var r := Product(Transposed(h), Transposed(g));
    forall j: nat, i: nat | j < h.cols && i < g.rows
      ensures Entry(l, j, i) == Entry(r, j, i)
    {
      PartialDotTransposed(g, h, i, j, g.cols);
    }
    Extensionality(l, r);
  }

  /** The 4 x 2 input matrix of the demonstration program, read in row-major order. */
  lemma DemoInputsLayout()
    ensures var x := FromValues(4, 2, [0, 0, 0, 1, 1, 0, 1, 1]);
      Entry(x, 1, 1) == 1 && Entry(x, 2, 0) == 1 && Entry(x, 0, 1) == 0
  {
    var x := FromValues(4, 2, [0, 0, 0, 1, 1, 0, 1, 1]);
    assert Offset(1, 1, 4, 2) == 3 && Offset(2, 0, 4, 2) == 4 && Offset(0, 1, 4, 2) == 1;
  }

  /** A concrete 2 x 2 sum and product. */
  lemma TwoByTwoSumAndProduct()
    ensures Sum(FromValues(2, 2, [1, 2, 3, 4]), FromValues(2, 2, [5, 6, 7, 8])) == FromValues(2, 2, [6, 8, 10, 12])
    ensures Product(FromValues(2, 2, [1, 2, 3, 4]), FromValues(2, 2, [5, 6, 7, 8])) == FromValues(2, 2, [19, 22, 43, 50])
  {
    var a, b := FromValues(2, 2, [1, 2, 3, 4]), FromValues(2, 2, [5, 6, 7, 8]);
    var s, p := FromValues(2, 2, [6, 8, 10, 12]), FromValues(2, 2, [19, 22, 43, 50]);
    forall i: nat, j: nat | i < 2 && j < 2
      ensures Entry(Sum(a, b), i, j) == Entry(s, i, j)
      ensures Entry(Product(a, b), i, j) == Entry(p, i, j)
    {
      assert Offset(i, j, 2, 2) == 2 * i + j;
      assert Offset(i, 0, 2, 2) == 2 * i && Offset(i, 1, 2, 2) == 2 * i + 1;
      assert Offset(0, j, 2, 2) == j && Offset(1, j, 2, 2) == 2 + j;
    }
    Extensionality(Sum(a, b), s);
    Extensionality(Product(a, b), p);
  }
}
