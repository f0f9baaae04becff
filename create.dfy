/**
 * `create` of `create.hpp` for dense matrices: fill a numRows x numCols
 * matrix from a flat list read row by row, whatever the storage order of the
 * matrix.
 */
module DenseCreate {
  import Arith

  /** Where element (r, c) lives in a flat buffer of the given storage order. */
  function StorageOffset(rows: nat, cols: nat, rowMajor: bool, r: int, c: int): (p: nat)
    requires 0 <= r < rows && 0 <= c < cols
    ensures p < rows * cols
  {
    if rowMajor then
      Arith.LinearBound(c, r, cols, rows);
      c + r * cols
    else
      Arith.LinearBound(r, c, rows, cols);
      r + c * rows
  }

  /** Distinct elements occupy distinct storage cells. */
  lemma StorageOffsetInjective(rows: nat, cols: nat, rowMajor: bool, r: int, c: int, r': int, c': int)
    requires 0 <= r < rows && 0 <= c < cols && 0 <= r' < rows && 0 <= c' < cols
    requires StorageOffset(rows, cols, rowMajor, r, c) == StorageOffset(rows, cols, rowMajor, r', c')
    ensures r == r' && c == c'
  {
    if rowMajor {
      Arith.DivModUnique(c + r * cols, cols, r, c);
      Arith.DivModUnique(c' + r' * cols, cols, r', c');
    } else {
      Arith.DivModUnique(r + c * rows, rows, c, r);
      Arith.DivModUnique(r' + c' * rows, rows, c', r');
    }
  }

  /** Element (r, c) of a flat row-major list with `cols` elements per row. */
  function ListAt(list: seq<real>, rows: nat, cols: nat, r: int, c: int): real
    requires |list| == rows * cols && 0 <= r < rows && 0 <= c < cols
  {
    list[StorageOffset(rows, cols, true, r, c)]
  }

  /** The matrix a flat row-major list describes, row by row. */
  function RowMajorMatrix(list: seq<real>, rows: nat, cols: nat): (g: seq<seq<real>>)
    requires |list| == rows * cols
    ensures |g| == rows && forall r :: 0 <= r < rows ==> |g[r]| == cols
  {
    seq(rows, r requires 0 <= r < rows =>
      seq(cols, c requires 0 <= c < cols => ListAt(list, rows, cols, r, c)))
  }

  /** The matrix held in a flat buffer of the given storage order. */
  function StoredMatrix(buffer: seq<real>, rows: nat, cols: nat, rowMajor: bool): (g: seq<seq<real>>)
    requires |buffer| == rows * cols
    ensures |g| == rows && forall r :: 0 <= r < rows ==> |g[r]| == cols
  {
    seq(rows, r requires 0 <= r < rows =>
      seq(cols, c requires 0 <= c < cols => buffer[StorageOffset(rows, cols, rowMajor, r, c)]))
  }

  /** A dense matrix (`Eigen::Matrix`): its dimensions, storage order and flat buffer. */
  class DenseMatrix {
    const rows: nat
    const cols: nat
    const rowMajor: bool
    const data: array<real>

    ghost predicate Valid()
      reads this
    {
      data.Length == rows * cols
    }

    constructor(rows: nat, cols: nat, rowMajor: bool)
      ensures Valid() && this.rows == rows && this.cols == cols && this.rowMajor == rowMajor
      ensures fresh(data)
    {
      this.rows := rows;
      this.cols := cols;
      this.rowMajor := rowMajor;
      data := new real[rows * cols];
    }

    /** `operator()(row, col)` read. */
    function At(r: int, c: int): real
      reads this, data
      requires Valid() && 0 <= r < rows && 0 <= c < cols
    {
      data[StorageOffset(rows, cols, rowMajor, r, c)]
    }

    ghost function Matrix(): (g: seq<seq<real>>)
      reads this, data
      requires Valid()
      ensures |g| == rows && forall r :: 0 <= r < rows ==> |g[r]| == cols
    {
      StoredMatrix(data[..], rows, cols, rowMajor)
    }

    /** `operator()(row, col) = v`: only element (r, c) changes. */
    method Set(r: int, c: int, v: real)
      requires Valid() && 0 <= r < rows && 0 <= c < cols
      modifies data
      ensures At(r, c) == v
      ensures forall r', c' :: 0 <= r' < rows && 0 <= c' < cols && (r', c') != (r, c) ==>
                At(r', c') == old(At(r', c'))
    {
      data[StorageOffset(rows, cols, rowMajor, r, c)] := v;
      forall r', c' | 0 <= r' < rows && 0 <= c' < cols && (r', c') != (r, c)
        ensures At(r', c') == old(At(r', c'))
      {
        if StorageOffset(rows, cols, rowMajor, r', c') == StorageOffset(rows, cols, rowMajor, r, c) {
          StorageOffsetInjective(rows, cols, rowMajor, r, c, r', c');
          assert false;
        }
      }
    }
  }

  /**
   * `Create<Eigen::Matrix>::create`: element (r, c) of the new matrix is list
   * element r * numCols + c, for either storage order.
   */
  method Create(numRows: nat, numCols: nat, list: seq<real>, rowMajor: bool) returns (m: DenseMatrix)
    requires |list| == numRows * numCols
    ensures fresh(m) && fresh(m.data) && m.Valid()
    ensures m.rows == numRows && m.cols == numCols && m.rowMajor == rowMajor
    ensures forall r, c :: 0 <= r < numRows && 0 <= c < numCols ==> m.At(r, c) == ListAt(list, numRows, numCols, r, c)
  {
    m := new DenseMatrix(numRows, numCols, rowMajor);
    var row := 0;
    while row < numRows
      invariant 0 <= row <= numRows && m.Valid()
      invariant forall r, c :: 0 <= r < row && 0 <= c < numCols ==> m.At(r, c) == ListAt(list, numRows, numCols, r, c)
    {
      FillRow(m, row, list);
      row := row + 1;
    }
  }

  /** The inner loop of the fill: row `row` gets its list elements; the other rows stay. */
  method FillRow(m: DenseMatrix, row: nat, list: seq<real>)
    requires m.Valid() && row < m.rows && |list| == m.rows * m.cols
    modifies m.data
    ensures forall c :: 0 <= c < m.cols ==> m.At(row, c) == ListAt(list, m.rows, m.cols, row, c)
    ensures forall r, c :: 0 <= r < m.rows && 0 <= c < m.cols && r != row ==> m.At(r, c) == old(m.At(r, c))
  {
    var col := 0;
    while col < m.cols
      invariant 0 <= col <= m.cols
      invariant forall c :: 0 <= c < col ==> m.At(row, c) == ListAt(list, m.rows, m.cols, row, c)
      invariant forall r, c :: 0 <= r < m.rows && 0 <= c < m.cols && r != row ==> m.At(r, c) == old(m.At(r, c))
    {
      m.Set(row, col, ListAt(list, m.rows, m.cols, row, col));
      col := col + 1;
    }
  }

  /**
   * The list is read in row-major order whatever the storage order: both
   * layouts hold the matrix the list describes.
   */
  method CreateInBothLayouts(numRows: nat, numCols: nat, list: seq<real>) returns (a: DenseMatrix, b: DenseMatrix)
    requires |list| == numRows * numCols
    ensures a.Valid() && b.Valid() && a.rowMajor && !b.rowMajor
    ensures a.Matrix() == b.Matrix() == RowMajorMatrix(list, numRows, numCols)
  {
    a := Create(numRows, numCols, list, true);
    b := Create(numRows, numCols, list, false);
    FilledMatrix(a.data[..], numRows, numCols, true, list);
    FilledMatrix(b.data[..], numRows, numCols, false, list);
  }

  /** A buffer holding list element r * cols + c at the cell of (r, c) stores the matrix of the list. */
  lemma FilledMatrix(buffer: seq<real>, rows: nat, cols: nat, rowMajor: bool, list: seq<real>)
    requires |buffer| == |list| == rows * cols
    requires forall r, c :: 0 <= r < rows && 0 <= c < cols ==>
               buffer[StorageOffset(rows, cols, rowMajor, r, c)] == ListAt(list, rows, cols, r, c)
    ensures StoredMatrix(buffer, rows, cols, rowMajor) == RowMajorMatrix(list, rows, cols)
  {
    var g, h := StoredMatrix(buffer, rows, cols, rowMajor), RowMajorMatrix(list, rows, cols);
    forall r | 0 <= r < rows
      ensures g[r] == h[r]
    {
      assert forall c :: 0 <= c < cols ==> g[r][c] == h[r][c];
    }
  }

  /** The reference matrix of the dense `create` unit test, read from its row-major buffer. */
  lemma UnitTestReference()
    ensures RowMajorMatrix([3.0, 0.0, 0.0, 1.0, 9.0, 4.0], 3, 2) == [[3.0, 0.0], [0.0, 1.0], [9.0, 4.0]]
  {
    var g := RowMajorMatrix([3.0, 0.0, 0.0, 1.0, 9.0, 4.0], 3, 2);
    assert g[0] == [3.0, 0.0] && g[1] == [0.0, 1.0] && g[2] == [9.0, 4.0];
  }
}
