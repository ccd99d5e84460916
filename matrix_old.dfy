/** The runtime-sized `Matrix<T>` of include/matrix_old.hpp with `T` taken to
    be `int`. A matrix owns a `rows` by `cols` block of cells that its
    methods fill and update in nested loops; `Cells()` is that block as a
    value, and every method is specified by a function of the grids in
    module `Grids`. */
module MatrixOld {
  import opened Ints
  import opened Grids
  import opened Determinants
  import opened Decimal
  import opened GridText

  /** A fresh `r` by `c` block with `v` in every cell: the allocation loop
      of `alloc`. */
  method NewFilled(r: nat, c: nat, v: int) returns (a: array2<int>)
    ensures fresh(a) && a.Length0 == r && a.Length1 == c
    ensures GridOf(a) == Filled(r, c, v)
  {
    a := new int[r, c];
    for i := 0 to r
      invariant forall i', j :: 0 <= i' < i && 0 <= j < c ==> a[i', j] == v
    {
      for j := 0 to c
        invariant forall i', j' :: 0 <= i' < i && 0 <= j' < c ==> a[i', j'] == v
        invariant forall j' :: 0 <= j' < j ==> a[i, j'] == v
      {
        a[i, j] := v;
      }
    }
    GridExt(GridOf(a), Filled(r, c, v), r, c);
  }

  /** Every cell divided by `s`, truncating as C++ `int` division does. */
  function DividedCells(g: Grid, r: nat, c: nat, s: int): (d: Grid)
    requires IsGrid(g, r, c) && s != 0
    ensures IsGrid(d, r, c)
  {
    seq(r, i requires 0 <= i < r => seq(c, j requires 0 <= j < c => TruncDiv(g[i][j], s)))
  }

  /** Row `row` after the first `k` steps of the innermost loop of `*=` for
      column `j`: each step adds `row[k] * h[k][j]` to `row[j]`, reading the
      row as already updated. */
  function CellSteps(row: seq<int>, h: Grid, r: nat, c: nat, j: nat, k: nat): (out: seq<int>)
    requires IsGrid(h, r, c) && c <= r && |row| == c && j < c && k <= c
    ensures |out| == c
  {
    if k == 0 then row
    else
      var prev := CellSteps(row, h, r, c, j, k - 1);
      prev[j := prev[j] + prev[k - 1] * h[k - 1][j]]
  }

  /** Row `row` after the loops of `*=` for the columns before `j`. */
  function RowSteps(row: seq<int>, h: Grid, r: nat, c: nat, j: nat): (out: seq<int>)
    requires IsGrid(h, r, c) && c <= r && |row| == c && j <= c
    ensures |out| == c
  {
    if j == 0 then row else CellSteps(RowSteps(row, h, r, c, j - 1), h, r, c, j - 1, c)
  }

  /** What `*=` leaves in a matrix with cells `g` when the operand, a
      different matrix, has cells `h`: every row is updated on its own. */
  function InPlaceProductAsWritten(g: Grid, h: Grid, r: nat, c: nat): (p: Grid)
    requires IsGrid(g, r, c) && IsGrid(h, r, c) && c <= r
    ensures IsGrid(p, r, c)
  {
    seq(r, i requires 0 <= i < r => RowSteps(g[i], h, r, c, c))
  }

  /** `[[1]] *= [[1]]` leaves `[[2]]`, but the product is `[[1]]`. */
  lemma InPlaceProductCounterexample()
    ensures InPlaceProductAsWritten([[1]], [[1]], 1, 1) == [[2]]
    ensures Multiplied([[1]], [[1]], 1, 1, 1) == [[1]]
  {
    assert CellSteps([1], [[1]], 1, 1, 0, 1) == [2];
    assert RowSteps([1], [[1]], 1, 1, 1) == [2];
    assert InPlaceProductAsWritten([[1]], [[1]], 1, 1)[0] == [2];
    assert Dot([[1]], [[1]], 1, 1, 1, 0, 0, 1) == 1;
    assert Multiplied([[1]], [[1]], 1, 1, 1)[0] == [1];
  }

  /** With `int` cells, `/= s` multiplies by `1 / s`, which truncates to 0
      for every `s` other than 1 and -1, so the matrix is cleared. */
  lemma DivisionClears(g: Grid, r: nat, c: nat, s: int)
    requires IsGrid(g, r, c) && (s >= 2 || s <= -2)
    ensures Scaled(g, r, c, TruncDiv(1, s)) == Filled(r, c, 0)
  {
    DivSmall(1, Abs(s));
    ScaledByZero(g, r, c);
  }

  /** `[[1]] * 2 / 2` comes back as `[[0]]` when dividing by way of `1 / 2`,
      and as `[[1]]` when dividing cell by cell. */
  lemma DivisionCounterexample()
    ensures Scaled(Scaled([[1]], 1, 1, 2), 1, 1, TruncDiv(1, 2)) == [[0]]
    ensures DividedCells(Scaled([[1]], 1, 1, 2), 1, 1, 2) == [[1]]
  {
    assert TruncDiv(1, 2) == 0;
    assert Scaled([[1]], 1, 1, 2)[0] == [2];
    assert Scaled([[1]], 1, 1, 2) == [[2]];
    assert Scaled([[2]], 1, 1, 0)[0] == [0];
    assert TruncDiv(2, 2) == 1;
    assert DividedCells([[2]], 1, 1, 2)[0] == [1];
  }

  /** Dividing each cell by `s` undoes multiplying it by `s`. */
  lemma DividedCellsUndoScaling(g: Grid, r: nat, c: nat, s: int)
    requires IsGrid(g, r, c) && s != 0
    ensures DividedCells(Scaled(g, r, c, s), r, c, s) == g
  {
    forall i, j | 0 <= i < r && 0 <= j < c
      ensures DividedCells(Scaled(g, r, c, s), r, c, s)[i][j] == g[i][j]
    {
      TruncDivCancel(g[i][j], s);
    }
    GridExt(DividedCells(Scaled(g, r, c, s), r, c, s), g, r, c);
  }

  class Matrix {
    var rows: nat
    var cols: nat
    var data: array2<int>

    predicate Valid()
      reads this
    {
      data.Length0 == rows && data.Length1 == cols
    }

    function Cells(): Grid
      reads this, data
    {
      GridOf(data)
    }

    /** `Matrix()`: no rows and no columns. */
    constructor Empty()
      ensures Valid() && rows == 0 && cols == 0 && Cells() == []
    {
      rows, cols := 0, 0;
      data := new int[0, 0];
    }

    /** `alloc`: a new block of `r` by `c` cells, all `v`. */
    method Alloc(r: nat, c: nat, v: int)
      modifies this
      ensures Valid() && rows == r && cols == c && fresh(data)
      ensures Cells() == Filled(r, c, v)
    {
      rows, cols := r, c;
      data := NewFilled(r, c, v);
    }

    /** `Matrix(r, c, v)`. */
    constructor (r: nat, c: nat, v: int)
      ensures Valid() && rows == r && cols == c && fresh(data)
      ensures Cells() == Filled(r, c, v)
    {
      rows, cols := r, c;
      data := new int[0, 0];
      new;
      Alloc(r, c, v);
    }

    /** Copies the cells of `g`, of this matrix's order, into place. */
    method Fill(g: Grid)
      requires Valid() && IsGrid(g, rows, cols)
      modifies data
      ensures Cells() == g
    {
      for i := 0 to rows
        invariant forall i', j :: 0 <= i' < i && 0 <= j < cols ==> data[i', j] == g[i'][j]
      {
        for j := 0 to cols
          invariant forall i', j' :: 0 <= i' < i && 0 <= j' < cols ==> data[i', j'] == g[i'][j']
          invariant forall j' :: 0 <= j' < j ==> data[i, j'] == g[i][j']
        {
          data[i, j] := g[i][j];
        }
      }
      GridExt(Cells(), g, rows, cols);
    }

    /** `Matrix(r, c, T** data)`: a matrix holding the cells of `g`. */
    constructor FromGrid(r: nat, c: nat, g: Grid)
      requires IsGrid(g, r, c)
      ensures Valid() && rows == r && cols == c && fresh(data) && Cells() == g
    {
      rows, cols := r, c;
      data := new int[0, 0];
      new;
      Alloc(r, c, 0);
      Fill(g);
    }

    /** The copy constructor: same order, same cells, its own storage. */
    constructor Copy(m: Matrix)
      requires m.Valid()
      ensures Valid() && rows == m.rows && cols == m.cols && fresh(data)
      ensures Cells() == m.Cells()
    {
      rows, cols := m.rows, m.cols;
      data := new int[0, 0];
      new;
      Alloc(m.rows, m.cols, 0);
      Fill(m.Cells());
    }

    /** `operator=`: requires the same order and copies the cells. */
    method Assign(m: Matrix)
      requires Valid() && m.Valid() && rows == m.rows && cols == m.cols
      modifies data
      ensures Cells() == old(m.Cells())
    {
      Fill(m.Cells());
    }

    /** `identity(o)`: `o` by `o`, 1 on the diagonal and 0 elsewhere. */
    static method Identity(o: nat) returns (m: Matrix)
      ensures fresh(m) && fresh(m.data) && m.Valid() && m.rows == o && m.cols == o
      ensures m.Cells() == IdentityGrid(o, o)
    {
      m := new Matrix(o, o, 0);
      for i := 0 to o
        invariant m.Valid() && m.rows == o && m.cols == o && fresh(m.data)
        invariant forall i', j :: 0 <= i' < o && 0 <= j < o ==>
          m.data[i', j] == if i' == j && i' < i then 1 else 0
      {
        m.data[i, i] := 1;
      }
      GridExt(m.Cells(), IdentityGrid(o, o), o, o);
    }

    /** `transpose`: a new `cols` by `rows` matrix with cell (j, i) taken
        from cell (i, j). */
    method Transpose() returns (m: Matrix)
      requires Valid()
      ensures fresh(m) && fresh(m.data) && m.Valid() && m.rows == cols && m.cols == rows
      ensures m.Cells() == Transposed(Cells(), rows, cols)
    {
      m := new Matrix(cols, rows, 0);
      for j := 0 to cols
        invariant m.Valid() && m.rows == cols && m.cols == rows && fresh(m.data)
        invariant forall j', i :: 0 <= j' < j && 0 <= i < rows ==> m.data[j', i] == data[i, j']
      {
        TransposeColumn(m.data, j);
      }
      GridExt(m.Cells(), Transposed(Cells(), rows, cols), cols, rows);
    }

    /** The inner loop of `transpose` for column `j`: row `j` of `t` becomes
        column `j` of this matrix, and the other rows of `t` stay as they
        were. */
    method TransposeColumn(t: array2<int>, j: nat)
      requires Valid() && t != data && t.Length0 == cols && t.Length1 == rows && j < cols
      modifies t
      ensures forall i :: 0 <= i < rows ==> t[j, i] == data[i, j]
      ensures forall x, i :: 0 <= x < cols && x != j && 0 <= i < rows ==> t[x, i] == old(t[x, i])
    {
      for i := 0 to rows
        invariant forall i' :: 0 <= i' < i ==> t[j, i'] == data[i', j]
        invariant forall x, i' :: 0 <= x < cols && x != j && 0 <= i' < rows ==> t[x, i'] == old(t[x, i'])
      {
        t[j, i] := data[i, j];
      }
    }

    /** `determinant`: the Laplace determinant of this matrix. */
    method Determinant() returns (d: int)
      requires Valid() && rows == cols
      ensures d == Det(Cells())
    {
      d := LaplaceDeterminant(this);
    }

    /** `operator==`: false for a different order, otherwise whether every
        cell agrees. */
    method Equals(m: Matrix) returns (b: bool)
      requires Valid() && m.Valid()
      ensures b <==> rows == m.rows && cols == m.cols && Cells() == m.Cells()
    {
      if rows != m.rows || cols != m.cols {
        return false;
      }
      for i := 0 to rows
        invariant forall i', j :: 0 <= i' < i && 0 <= j < cols ==> data[i', j] == m.data[i', j]
      {
        for j := 0 to cols
          invariant forall i', j' :: 0 <= i' < i && 0 <= j' < cols ==> data[i', j'] == m.data[i', j']
          invariant forall j' :: 0 <= j' < j ==> data[i, j'] == m.data[i, j']
        {
          if data[i, j] != m.data[i, j] {
            assert Cells()[i][j] != m.Cells()[i][j];
            return false;
          }
        }
      }
      GridExt(Cells(), m.Cells(), rows, cols);
      return true;
    }

    /** `operator+=`: requires the same order and adds cell by cell. */
    method AddAssign(m: Matrix)
      requires Valid() && m.Valid() && rows == m.rows && cols == m.cols
      modifies data
      ensures Cells() == Added(old(Cells()), old(m.Cells()), rows, cols)
    {
      ghost var a, b := Cells(), m.Cells();
      for i := 0 to rows
        invariant forall i', j :: 0 <= i' < i && 0 <= j < cols ==> data[i', j] == a[i'][j] + b[i'][j]
        invariant forall i', j :: i <= i' < rows && 0 <= j < cols ==> data[i', j] == a[i'][j]
      {
        for j := 0 to cols
          invariant forall i', j' :: 0 <= i' < i && 0 <= j' < cols ==> data[i', j'] == a[i'][j'] + b[i'][j']
          invariant forall j' :: 0 <= j' < j ==> data[i, j'] == a[i][j'] + b[i][j']
          invariant forall i', j' :: 0 <= i' < rows && 0 <= j' < cols && (i' > i || (i' == i && j' >= j)) ==>
            data[i', j'] == a[i'][j']
        {
          data[i, j] := data[i, j] + m.data[i, j];
        }
      }
      GridExt(Cells(), Added(a, b, rows, cols), rows, cols);
    }

    /** `operator-` (unary): a copy with every cell negated. */
    method Negate() returns (r: Matrix)
      requires Valid()
      ensures fresh(r) && fresh(r.data) && r.Valid() && r.rows == rows && r.cols == cols
      ensures r.Cells() == Negated(Cells(), rows, cols)
    {
      r := new Matrix.Copy(this);
      for i := 0 to rows
        invariant r.Valid() && r.rows == rows && r.cols == cols && fresh(r.data)
        invariant forall i', j :: 0 <= i' < i && 0 <= j < cols ==> r.data[i', j] == -data[i', j]
      {
        NegateRow(r.data, i);
      }
      GridExt(r.Cells(), Negated(Cells(), rows, cols), rows, cols);
    }

    /** The inner loop of unary `operator-` for row `i`: row `i` of `n`
        becomes row `i` of this matrix negated, and the other rows of `n`
        stay as they were. */
    method NegateRow(n: array2<int>, i: nat)
      requires Valid() && n != data && n.Length0 == rows && n.Length1 == cols && i < rows
      modifies n
      ensures forall j :: 0 <= j < cols ==> n[i, j] == -data[i, j]
      ensures forall x, j :: 0 <= x < rows && x != i && 0 <= j < cols ==> n[x, j] == old(n[x, j])
    {
      for j := 0 to cols
        invariant forall j' :: 0 <= j' < j ==> n[i, j'] == -data[i, j']
        invariant forall x, j' :: 0 <= x < rows && x != i && 0 <= j' < cols ==> n[x, j'] == old(n[x, j'])
      {
        n[i, j] := -data[i, j];
      }
    }

    /** `operator-=`: adds the negation of `m`. */
    method SubAssign(m: Matrix)
      requires Valid() && m.Valid() && rows == m.rows && cols == m.cols
      modifies data
      ensures Cells() == Added(old(Cells()), Negated(old(m.Cells()), rows, cols), rows, cols)
    {
      var n := m.Negate();
      AddAssign(n);
    }

    /** `operator+`: a copy of this matrix with `m` added; neither operand
        changes. */
    method Plus(m: Matrix) returns (r: Matrix)
      requires Valid() && m.Valid() && rows == m.rows && cols == m.cols
      ensures fresh(r) && fresh(r.data) && r.Valid() && r.rows == rows && r.cols == cols
      ensures r.Cells() == Added(Cells(), m.Cells(), rows, cols)
    {
      r := new Matrix.Copy(this);
      r.AddAssign(m);
    }

    /** `operator-` (binary): a copy of this matrix with `m` subtracted;
        neither operand changes. */
    method Minus(m: Matrix) returns (r: Matrix)
      requires Valid() && m.Valid() && rows == m.rows && cols == m.cols
      ensures fresh(r) && fresh(r.data) && r.Valid() && r.rows == rows && r.cols == cols
      ensures r.Cells() == Added(Cells(), Negated(m.Cells(), rows, cols), rows, cols)
    {
      r := new Matrix.Copy(this);
      r.SubAssign(m);
    }

    /** `operator*` (matrix): requires `cols == m.rows`; a new `rows` by
        `m.cols` matrix whose cell (i, j) sums `data[i][k] * m.data[k][j]`. */
    method Mul(m: Matrix) returns (r: Matrix)
      requires Valid() && m.Valid() && cols == m.rows
      ensures fresh(r) && fresh(r.data) && r.Valid() && r.rows == rows && r.cols == m.cols
      ensures r.Cells() == Multiplied(Cells(), m.Cells(), rows, cols, m.cols)
    {
      ghost var a, b := Cells(), m.Cells();
      r := new Matrix(rows, m.cols, 0);
      for i := 0 to rows
        invariant r.Valid() && r.rows == rows && r.cols == m.cols && fresh(r.data)
        invariant forall i', j :: 0 <= i' < i && 0 <= j < m.cols ==>
          r.data[i', j] == Dot(a, b, rows, cols, m.cols, i', j, cols)
        invariant forall i', j :: i <= i' < rows && 0 <= j < m.cols ==> r.data[i', j] == 0
      {
        MulRow(m, r.data, i);
      }
      GridExt(r.Cells(), Multiplied(a, b, rows, cols, m.cols), rows, m.cols);
    }

    /** The loop over the columns of `m` for row `i` of `operator*`: fills
        row `i` of `res`, which starts at 0, with the dot products and
        leaves the other rows alone. */
    method MulRow(m: Matrix, res: array2<int>, i: nat)
      requires Valid() && m.Valid() && cols == m.rows && i < rows
      requires res != data && res != m.data && res.Length0 == rows && res.Length1 == m.cols
      requires forall j :: 0 <= j < m.cols ==> res[i, j] == 0
      modifies res
      ensures forall j :: 0 <= j < m.cols ==> res[i, j] == Dot(Cells(), m.Cells(), rows, cols, m.cols, i, j, cols)
      ensures forall x, y :: 0 <= x < rows && x != i && 0 <= y < m.cols ==> res[x, y] == old(res[x, y])
    {
      for j := 0 to m.cols
        invariant forall j' :: 0 <= j' < j ==> res[i, j'] == Dot(Cells(), m.Cells(), rows, cols, m.cols, i, j', cols)
        invariant forall j' :: j <= j' < m.cols ==> res[i, j'] == 0
        invariant forall x, y :: 0 <= x < rows && x != i && 0 <= y < m.cols ==> res[x, y] == old(res[x, y])
      {
        AccumulateDot(m, res, i, j);
      }
    }

    /** The innermost loop of `operator*`: adds the terms of row `i` times
        column `j` of `m` into cell (i, j) of `res`, which is not an operand. */
    method AccumulateDot(m: Matrix, res: array2<int>, i: nat, j: nat)
      requires Valid() && m.Valid() && cols == m.rows && i < rows && j < m.cols
      requires res != data && res != m.data && res.Length0 == rows && res.Length1 == m.cols
      modifies res
      ensures res[i, j] == old(res[i, j]) + Dot(Cells(), m.Cells(), rows, cols, m.cols, i, j, cols)
      ensures forall x, y :: 0 <= x < rows && 0 <= y < m.cols && (x != i || y != j) ==> res[x, y] == old(res[x, y])
    {
      ghost var a, b := Cells(), m.Cells();
      for k := 0 to cols
        invariant res[i, j] == old(res[i, j]) + Dot(a, b, rows, cols, m.cols, i, j, k)
        invariant forall x, y :: 0 <= x < rows && 0 <= y < m.cols && (x != i || y != j) ==> res[x, y] == old(res[x, y])
      {
        res[i, j] := res[i, j] + data[i, k] * m.data[k, j];
      }
    }

    /** `operator*=` (matrix) as written: requires the same order (and, as
        it reads `m.data[k]` for every `k < cols`, no more columns than
        rows), then adds `data[i][k] * m.data[k][j]` into `data[i][j]` in
        place, so later steps read cells already changed. */
    method MulAssign(m: Matrix)
      requires Valid() && m.Valid() && rows == m.rows && cols == m.cols && cols <= rows
      modifies data
      ensures old(m.data) != data ==>
        Cells() == InPlaceProductAsWritten(old(Cells()), old(m.Cells()), rows, cols)
    {
      ghost var a, b := Cells(), m.Cells();
      ghost var apart := m.data != data;
      for i := 0 to rows
        invariant apart ==> forall i', t :: 0 <= i' < i && 0 <= t < cols ==>
          data[i', t] == RowSteps(a[i'], b, rows, cols, cols)[t]
        invariant forall i', t :: i <= i' < rows && 0 <= t < cols ==> data[i', t] == a[i'][t]
        invariant apart ==> m.Cells() == b
      {
        assert Cells()[i] == a[i];
        MulAssignRow(m, i);
      }
      if apart {
        GridExt(Cells(), InPlaceProductAsWritten(a, b, rows, cols), rows, cols);
      }
    }

    /** The loop over the columns for row `i` of `operator*=`: only row `i`
        changes, and, when `m` is another matrix, it goes through the steps
        of `RowSteps`. */
    method MulAssignRow(m: Matrix, i: nat)
      requires Valid() && m.Valid() && rows == m.rows && cols == m.cols && cols <= rows
      requires i < rows
      modifies data
      ensures forall x, t :: 0 <= x < rows && x != i && 0 <= t < cols ==> data[x, t] == old(data[x, t])
      ensures m.data != data ==> forall t :: 0 <= t < cols ==>
        data[i, t] == RowSteps(old(Cells())[i], old(m.Cells()), rows, cols, cols)[t]
    {
      ghost var row, b := Cells()[i], m.Cells();
      for j := 0 to m.cols
        invariant forall x, t :: 0 <= x < rows && x != i && 0 <= t < cols ==> data[x, t] == old(data[x, t])
        invariant m.data != data ==> forall t :: 0 <= t < cols ==> data[i, t] == RowSteps(row, b, rows, cols, j)[t]
        invariant m.data != data ==> m.Cells() == b
      {
        if m.data != data {
          assert Cells()[i] == RowSteps(row, b, rows, cols, j);
        }
        MulAssignColumn(m, i, j);
      }
    }

    /** The innermost loop of `operator*=`, for cell (i, j): only row `i`
        changes, and, when `m` is another matrix, it goes through the steps
        of `CellSteps`. */
    method MulAssignColumn(m: Matrix, i: nat, j: nat)
      requires Valid() && m.Valid() && rows == m.rows && cols == m.cols && cols <= rows
      requires i < rows && j < cols
      modifies data
      ensures forall x, t :: 0 <= x < rows && x != i && 0 <= t < cols ==> data[x, t] == old(data[x, t])
      ensures m.data != data ==> forall t :: 0 <= t < cols ==>
        data[i, t] == CellSteps(old(Cells())[i], old(m.Cells()), rows, cols, j, cols)[t]
    {
      ghost var row, b := Cells()[i], m.Cells();
      for k := 0 to cols
        invariant forall x, t :: 0 <= x < rows && x != i && 0 <= t < cols ==> data[x, t] == old(data[x, t])
        invariant m.data != data ==> forall t :: 0 <= t < cols ==>
          data[i, t] == CellSteps(row, b, rows, cols, j, k)[t]
      {
        data[i, j] := data[i, j] + data[i, k] * m.data[k, j];
      }
    }

    /** The product and assign the documentation describes: the product of
        this matrix and `m`, both square of the same order, replaces this
        matrix's cells. */
    method MulAssignCorrected(m: Matrix)
      requires Valid() && m.Valid() && rows == cols && m.rows == rows && m.cols == cols
      modifies this
      ensures Valid() && rows == old(rows) && cols == old(cols)
      ensures Cells() == Multiplied(old(Cells()), old(m.Cells()), rows, rows, rows)
    {
      var p := Mul(m);
      data := p.data;
    }

    /** `operator*=` (scalar): every cell multiplied by `s`. */
    method ScaleAssign(s: int)
      requires Valid()
      modifies data
      ensures Cells() == Scaled(old(Cells()), rows, cols, s)
    {
      ghost var a := Cells();
      for i := 0 to rows
        invariant forall i', j :: 0 <= i' < i && 0 <= j < cols ==> data[i', j] == a[i'][j] * s
        invariant forall i', j :: i <= i' < rows && 0 <= j < cols ==> data[i', j] == a[i'][j]
      {
        for j := 0 to cols
          invariant forall i', j' :: 0 <= i' < i && 0 <= j' < cols ==> data[i', j'] == a[i'][j'] * s
          invariant forall j' :: 0 <= j' < j ==> data[i, j'] == a[i][j'] * s
          invariant forall i', j' :: 0 <= i' < rows && 0 <= j' < cols && (i' > i || (i' == i && j' >= j)) ==>
            data[i', j'] == a[i'][j']
        {
          data[i, j] := data[i, j] * s;
        }
      }
      GridExt(Cells(), Scaled(a, rows, cols, s), rows, cols);
    }

    /** `operator*` (scalar): a scaled copy. */
    method Scale(s: int) returns (r: Matrix)
      requires Valid()
      ensures fresh(r) && fresh(r.data) && r.Valid() && r.rows == rows && r.cols == cols
      ensures r.Cells() == Scaled(Cells(), rows, cols, s)
    {
      r := new Matrix.Copy(this);
      r.ScaleAssign(s);
    }

    /** `operator/=` (scalar) as written: multiplies by `1 / s`. */
    method DivAssign(s: int)
      requires Valid() && s != 0
      modifies data
      ensures Cells() == Scaled(old(Cells()), rows, cols, TruncDiv(1, s))
    {
      ScaleAssign(TruncDiv(1, s));
    }

    /** Division by a scalar cell by cell, as `/=` is documented. */
    method DivAssignCorrected(s: int)
      requires Valid() && s != 0
      modifies data
      ensures Cells() == DividedCells(old(Cells()), rows, cols, s)
    {
      ghost var a := Cells();
      for i := 0 to rows
        invariant forall i', j :: 0 <= i' < i && 0 <= j < cols ==> data[i', j] == TruncDiv(a[i'][j], s)
        invariant forall i', j :: i <= i' < rows && 0 <= j < cols ==> data[i', j] == a[i'][j]
      {
        for j := 0 to cols
          invariant forall i', j' :: 0 <= i' < i && 0 <= j' < cols ==> data[i', j'] == TruncDiv(a[i'][j'], s)
          invariant forall j' :: 0 <= j' < j ==> data[i, j'] == TruncDiv(a[i][j'], s)
          invariant forall i', j' :: 0 <= i' < rows && 0 <= j' < cols && (i' > i || (i' == i && j' >= j)) ==>
            data[i', j'] == a[i'][j']
        {
          data[i, j] := TruncDiv(data[i, j], s);
        }
      }
      GridExt(Cells(), DividedCells(a, rows, cols, s), rows, cols);
    }

    /** `operator/` (scalar) as written: a copy divided by the as-written
        `/=`, that is, multiplied by `1 / s`. */
    method Over(s: int) returns (r: Matrix)
      requires Valid() && s != 0
      ensures fresh(r) && fresh(r.data) && r.Valid() && r.rows == rows && r.cols == cols
      ensures r.Cells() == Scaled(Cells(), rows, cols, TruncDiv(1, s))
    {
      r := new Matrix.Copy(this);
      r.DivAssign(s);
    }

    /** `operator/` (scalar) as documented: a copy divided cell by cell. */
    method OverCorrected(s: int) returns (r: Matrix)
      requires Valid() && s != 0
      ensures fresh(r) && fresh(r.data) && r.Valid() && r.rows == rows && r.cols == cols
      ensures r.Cells() == DividedCells(Cells(), rows, cols, s)
    {
      r := new Matrix.Copy(this);
      r.DivAssignCorrected(s);
    }
  }

  /** `s * m`: the same as `m * s`. */
  method ScalarTimes(s: int, m: Matrix) returns (r: Matrix)
    requires m.Valid()
    ensures fresh(r) && fresh(r.data) && r.Valid() && r.rows == m.rows && r.cols == m.cols
    ensures r.Cells() == Scaled(m.Cells(), m.rows, m.cols, s)
  {
    r := m.Scale(s);
  }

  /** `lapLaceDeterminant`: requires a square matrix; orders 0, 1 and 2 are
      computed directly, larger ones by expanding along the first row, where
      each minor is built in a new matrix and columns whose first-row cell
      is 0 are skipped. */
  method LaplaceDeterminant(m: Matrix) returns (det: int)
    requires m.Valid() && m.rows == m.cols
    ensures det == Det(m.Cells())
    decreases m.rows, 2
  {
    ghost var g := m.Cells();
    if m.rows == 0 {
      return 0;
    }
    if m.rows == 1 {
      return m.data[0, 0];
    }
    if m.rows == 2 {
      return m.data[0, 0] * m.data[1, 1] - m.data[0, 1] * m.data[1, 0];
    }
    det := Expand(m);
    ExpansionAgreesWithShortcut(g);
  }

  /** The loop of `lapLaceDeterminant` from order 3 up: adds the cofactor
      terms of the first row, skipping columns whose cell is 0. */
  method Expand(m: Matrix) returns (det: int)
    requires m.Valid() && m.rows == m.cols && m.rows >= 3
    ensures det == Cofactors(m.Cells(), m.rows)
    decreases m.rows, 1
  {
    ghost var g := m.Cells();
    det := 0;
    for i := 0 to m.rows
      invariant det == Cofactors(g, i)
    {
      CofactorsStep(g, i);
      if m.data[0, i] == 0 {
        continue;
      }
      var term := CofactorTerm(m, i, g);
      det := det + term;
    }
  }

  /** One term of the loop of `lapLaceDeterminant`: the sign of column `i`,
      times the first-row cell, times the determinant of the minor, which
      is built in a new matrix and expanded recursively. */
  method CofactorTerm(m: Matrix, i: nat, ghost g: Grid) returns (term: int)
    requires m.Valid() && m.rows == m.cols && i < m.rows && g == m.Cells()
    ensures term == Sign(i) * g[0][i] * Det(Minor(g, i))
    decreases m.rows, 0
  {
    var n := MinorOf(m, i);
    var d := LaplaceDeterminant(n);
    term := Sign(i) * m.data[0, i] * d;
  }

  /** The minor `lapLaceDeterminant` builds for column `i`: a new matrix of
      one order less, holding the rows after the first and every column but
      `i`. */
  method MinorOf(m: Matrix, i: nat) returns (n: Matrix)
    requires m.Valid() && m.rows == m.cols && i < m.rows
    ensures fresh(n) && fresh(n.data) && n.Valid() && n.rows == m.rows - 1 && n.cols == m.rows - 1
    ensures n.Cells() == Minor(m.Cells(), i)
  {
    n := new Matrix(m.rows - 1, m.rows - 1, 0);
    for j := 0 to n.rows
      invariant n.Valid() && n.rows == m.rows - 1 && n.cols == m.rows - 1 && fresh(n.data)
      invariant forall j', k :: 0 <= j' < j && 0 <= k < n.rows ==>
        n.data[j', k] == m.data[j' + 1, if k < i then k else k + 1]
    {
      MinorRow(m, n.data, i, j);
    }
    GridExt(n.Cells(), Minor(m.Cells(), i), n.rows, n.rows);
  }

  /** The loop over the columns of row `j` of the minor for column `i`:
      fills row `j` of `a` from row `j + 1` of `m`, skipping column `i`,
      and leaves the other rows alone. */
  method MinorRow(m: Matrix, a: array2<int>, i: nat, j: nat)
    requires m.Valid() && m.rows == m.cols && i < m.rows && a != m.data
    requires a.Length0 == m.rows - 1 && a.Length1 == m.rows - 1 && j < a.Length0
    modifies a
    ensures forall k :: 0 <= k < a.Length1 ==> a[j, k] == m.data[j + 1, if k < i then k else k + 1]
    ensures forall x, k :: 0 <= x < a.Length0 && x != j && 0 <= k < a.Length1 ==> a[x, k] == old(a[x, k])
  {
    for k := 0 to a.Length1
      invariant forall k' :: 0 <= k' < k ==> a[j, k'] == m.data[j + 1, if k' < i then k' else k' + 1]
      invariant forall x, k' :: 0 <= x < a.Length0 && x != j && 0 <= k' < a.Length1 ==> a[x, k'] == old(a[x, k'])
    {
      var col := if k < i then k else k + 1;
      a[j, k] := m.data[j + 1, col];
    }
  }

  /** `operator<<`: each row as "[", the cells separated by single spaces,
      "]", with a line break between rows and none after the last. */
  method Render(m: Matrix) returns (out: string)
    requires m.Valid()
    ensures out == Separated(m.Cells())
  {
    ghost var g := m.Cells();
    out := "";
    for i := 0 to m.rows
      invariant out == Separated(g[..i]) + (if 0 < i < m.rows then "\n" else "")
    {
      var row := RenderRow(m.data, i);
      SeparatedPrefix(g, i);
      assert out == (if i == 0 then "" else Separated(g[..i]) + "\n");
      out := out + row;
      if i != m.rows - 1 {
        out := out + "\n";
      }
    }
    assert g[..m.rows] == g;
  }
}
