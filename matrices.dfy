/**
 * The dense Matrix class: a flat, row-major buffer with its rows and cols,
 * updated in place, and the free-function operators over it (scalar
 * multiply-assign, elementwise add and subtract, matrix product).
 * Every method is stated against the value functions of module Grids.
 */
module Matrices {
  import opened RowMajor
  import opened Grids

  class Matrix {
    var rows: nat
    var cols: nat
    var elements: array<int>

    /** The shape invariant: both dimensions positive, one buffer slot per element. */
    ghost predicate Valid()
      reads this
    {
      rows > 0 && cols > 0 && elements.Length == rows * cols
    }

    /** The value the matrix currently holds. */
    ghost function Value(): (g: Grid)
      reads this, elements
      ensures Valid() ==> WellFormed(g) && g.rows == rows && g.cols == cols
    {
      Grid(rows, cols, elements[..])
    }

    /** A rows x cols matrix of zeros. */
    constructor (r: nat, c: nat)
      requires r > 0 && c > 0
      ensures Valid() && fresh(elements)
      ensures Value() == Zeros(r, c)
    {
      rows, cols := r, c;
      elements := new int[r * c](_ => 0);
      new;
      assert elements[..] == seq(r * c, _ => 0);
    }

    /** A rows x cols matrix filled, in row-major order, from the first r * c values of v. */
    constructor FromVector(r: nat, c: nat, v: seq<int>)
      requires r > 0 && c > 0 && |v| >= r * c
      ensures Valid() && fresh(elements)
      ensures Value() == FromValues(r, c, v)
    {
      var buffer := new int[r * c](_ => 0);
      for i := 0 to r * c
        invariant buffer[..i] == v[..i]
      {
        buffer[i] := v[i];
        assert buffer[..i + 1] == buffer[..i] + [v[i]];
      }
      assert buffer[..] == buffer[..r * c];
      rows, cols, elements := r, c, buffer;
    }

    /** The dimensions, as a (rows, cols) pair; they describe the whole buffer. */
    function Shape(): (s: (nat, nat))
      reads this
      ensures Valid() ==> s.0 > 0 && s.1 > 0 && s.0 * s.1 == elements.Length
    {
      (rows, cols)
    }

    /** Reads element (i, j) through the const accessor; the matrix does not change. */
    method Get(i: nat, j: nat) returns (x: int)
      requires Valid() && i < rows && j < cols
      ensures x == Entry(Value(), i, j)
    {
      x := elements[Offset(i, j, rows, cols)];
    }

    /** Writes element (i, j) through the reference the mutable accessor returns. */
    method Set(i: nat, j: nat, x: int)
      requires Valid() && i < rows && j < cols
      modifies elements
      ensures Valid() && Value() == Updated(old(Value()), i, j, x)
    {
      elements[Offset(i, j, rows, cols)] := x;
    }

    /** A copy with its own buffer: what returning a Matrix by value produces. */
    method Copy() returns (m: Matrix)
      requires Valid()
      ensures fresh(m) && fresh(m.elements)
      ensures m.Valid() && m.Value() == Value()
    {
      m := new Matrix.FromVector(rows, cols, elements[..]);
      assert elements[..] == elements[..rows * cols];
    }

    /**
     * Transposes the matrix in place (a new buffer, then rows and cols swapped)
     * and returns a copy of the transposed matrix.
     */
    method Transpose() returns (t: Matrix)
      requires Valid()
      modifies this
      ensures Valid() && fresh(elements)
      ensures Value() == Transposed(old(Value()))
      ensures fresh(t) && fresh(t.elements) && t.Valid() && t.Value() == Value()
    {
      ghost var g := Value();
      var newElements := new int[rows * cols];
      for i := 0 to rows
        modifies newElements
        invariant forall i': nat, j': nat :: i' < i && j' < cols ==>
                    newElements[Offset(j', i', cols, rows)] == Entry(g, i', j')
      {
        for j := 0 to cols
          modifies newElements
          invariant forall i': nat, j': nat :: i' < i && j' < cols ==>
                      newElements[Offset(j', i', cols, rows)] == Entry(g, i', j')
          invariant forall j': nat :: j' < j ==>
                      newElements[Offset(j', i, cols, rows)] == Entry(g, i, j')
        {
          newElements[Offset(j, i, cols, rows)] := elements[Offset(i, j, rows, cols)];
        }
      }
      elements := newElements;
      rows, cols := cols, rows;
      forall i': nat, j': nat | i' < rows && j' < cols
        ensures Entry(Value(), i', j') == Entry(Transposed(g), i', j')
      {
        assert Entry(Value(), i', j') == Entry(g, j', i');
      }
      Extensionality(Value(), Transposed(g));
      t := Copy();
    }
  }

  /**
   * Scalar multiply-assign as the source writes it: it visits the linear
   * positions 0 .. rows * cols - 1 through the accessor at (i, 0), so the
   * accessor's demand i < rows holds at every step only for a single column.
   * Returns a copy of the updated matrix.
   */
  method ScaleAssign(a: Matrix, num: int) returns (r: Matrix)
    requires a.Valid() && a.cols == 1
    modifies a.elements
    ensures a.Valid()
    ensures Some(a.Value()) == ScaleAsWritten(old(a.Value()), num)
    ensures a.Value() == Scaled(old(a.Value()), num)
    ensures fresh(r) && fresh(r.elements) && r.Valid() && r.Value() == a.Value()
  {
    ghost var g := a.Value();
    var (rows, cols) := a.Shape();
    for i := 0 to rows * cols
      invariant a.Valid() && SameShape(a.Value(), g)
      invariant ScaleLoop(a.Value(), num, i) == ScaleAsWritten(g, num)
    {
      var x := a.Get(i, 0);
      a.Set(i, 0, x * num);
    }
    ScaleAsWrittenCompletesIffColumn(g, num);
    r := a.Copy();
  }

  /**
   * Scalar multiply-assign as evidently intended: every element (i, j) is
   * multiplied by num, for any shape. Returns a copy of the updated matrix.
   */
  method ScaleAssignCorrected(a: Matrix, num: int) returns (r: Matrix)
    requires a.Valid()
    modifies a.elements
    ensures a.Valid() && a.Value() == Scaled(old(a.Value()), num)
    ensures fresh(r) && fresh(r.elements) && r.Valid() && r.Value() == a.Value()
  {
    ghost var g := a.Value();
    var (rows, cols) := a.Shape();
    for i := 0 to rows
      invariant a.Valid() && SameShape(a.Value(), g)
      invariant forall i': nat, j': nat :: i' < rows && j' < cols ==>
                  Entry(a.Value(), i', j') == if i' < i then Entry(g, i', j') * num else Entry(g, i', j')
    {
      for j := 0 to cols
        invariant a.Valid() && SameShape(a.Value(), g)
        invariant forall i': nat, j': nat :: i' < rows && j' < cols ==>
                    Entry(a.Value(), i', j') ==
                      if i' < i || (i' == i && j' < j) then Entry(g, i', j') * num else Entry(g, i', j')
      {
        var x := a.Get(i, j);
        a.Set(i, j, x * num);
      }
    }
    Extensionality(a.Value(), Scaled(g, num));
    r := a.Copy();
  }

  /** Elementwise sum of two matrices of one shape; neither operand changes. */
  method Add(a: Matrix, b: Matrix) returns (c: Matrix)
    requires a.Valid() && b.Valid() && a.Shape() == b.Shape()
    ensures fresh(c) && fresh(c.elements) && c.Valid()
    ensures c.Value() == Sum(a.Value(), b.Value())
  {
    var (rows, cols) := a.Shape();
    c := new Matrix(rows, cols);
    for i := 0 to rows
      modifies c.elements
      invariant forall i': nat, j': nat :: i' < i && j' < cols ==>
                  Entry(c.Value(), i', j') == Entry(a.Value(), i', j') + Entry(b.Value(), i', j')
    {
      for j := 0 to cols
        modifies c.elements
        invariant forall i': nat, j': nat :: (i' < i || (i' == i && j' < j)) && j' < cols ==>
                    Entry(c.Value(), i', j') == Entry(a.Value(), i', j') + Entry(b.Value(), i', j')
      {
        var x := a.Get(i, j);
        var y := b.Get(i, j);
        c.Set(i, j, x + y);
      }
    }
    Extensionality(c.Value(), Sum(a.Value(), b.Value()));
  }

  /** Elementwise difference of two matrices of one shape; neither operand changes. */
  method Subtract(a: Matrix, b: Matrix) returns (c: Matrix)
    requires a.Valid() && b.Valid() && a.Shape() == b.Shape()
    ensures fresh(c) && fresh(c.elements) && c.Valid()
    ensures c.Value() == Difference(a.Value(), b.Value())
  {
    var (rows, cols) := a.Shape();
    c := new Matrix(rows, cols);
    for i := 0 to rows
      modifies c.elements
      invariant forall i': nat, j': nat :: i' < i && j' < cols ==>
                  Entry(c.Value(), i', j') == Entry(a.Value(), i', j') - Entry(b.Value(), i', j')
    {
      for j := 0 to cols
        modifies c.elements
        invariant forall i': nat, j': nat :: (i' < i || (i' == i && j' < j)) && j' < cols ==>
                    Entry(c.Value(), i', j') == Entry(a.Value(), i', j') - Entry(b.Value(), i', j')
      {
        var x := a.Get(i, j);
        var y := b.Get(i, j);
        c.Set(i, j, x - y);
      }
    }
    Extensionality(c.Value(), Difference(a.Value(), b.Value()));
  }

  /**
   * Matrix product of an (n x m) and an (m x p) matrix by the triple loop:
   * each result element is a running sum over k, accumulated left to right.
   */
  method Multiply(a: Matrix, b: Matrix) returns (c: Matrix)
    requires a.Valid() && b.Valid() && a.cols == b.rows
    ensures fresh(c) && fresh(c.elements) && c.Valid()
    ensures c.Value() == Product(a.Value(), b.Value())
  {
    ghost var ga, gb := a.Value(), b.Value();
    var (aRows, aCols) := a.Shape();
    var (bRows, bCols) := b.Shape();
    c := new Matrix(aRows, bCols);
    var (rows, cols) := c.Shape();
    for i := 0 to rows
      modifies c.elements
      invariant forall i': nat, j': nat :: i' < i && j' < cols ==>
                  Entry(c.Value(), i', j') == PartialDot(ga, gb, i', j', aCols)
    {
      for j := 0 to cols
        modifies c.elements
        invariant forall i': nat, j': nat :: (i' < i || (i' == i && j' < j)) && j' < cols ==>
                    Entry(c.Value(), i', j') == PartialDot(ga, gb, i', j', aCols)
      {
        var sum := 0;
        for k := 0 to aCols
          modifies {}
          invariant sum == PartialDot(ga, gb, i, j, k)
        {
          var x := a.Get(i, k);
          var y := b.Get(k, j);
          sum := sum + x * y;
        }
        c.Set(i, j, sum);
      }
    }
    Extensionality(c.Value(), Product(ga, gb));
  }
}
