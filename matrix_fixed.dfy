/** The compile-time-sized `Matrix<R, C, T>` of include/matrix.hpp with `T`
    taken to be `int`: the order is fixed when the matrix is made and the
    cells live in an `R` by `C` block. */
module MatrixFixed {
  import opened Grids
  import opened GridText

  class Matrix {
    const R: nat
    const C: nat
    const data: array2<int>

    predicate Valid() {
      data.Length0 == R && data.Length1 == C
    }

    function Cells(): Grid
      reads data
    {
      GridOf(data)
    }

    /** `rows()`: the number of rows of the block. */
    function Rows(): (r: nat)
      requires Valid()
      ensures r == data.Length0 && r == |Cells()|
    {
      R
    }

    /** `cols()`: the number of cells in every row of the block. */
    function Cols(): (c: nat)
      requires Valid()
      ensures c == data.Length1
      ensures forall i :: 0 <= i < |Cells()| ==> |Cells()[i]| == c
    {
      C
    }

    /** `Matrix()`: every cell 0 (the first set explicitly, the others
        value-initialised). */
    constructor (r: nat, c: nat)
      ensures R == r && C == c && Valid() && fresh(data)
      ensures Cells() == Filled(r, c, 0)
    {
      R, C := r, c;
      data := new int[r, c]((i, j) => 0);
      new;
      GridExt(GridOf(data), Filled(r, c, 0), r, c);
    }

    /** `identity()`: cell (i, j) is 1 exactly when `i == j`, for any
        `R` and `C`, square or not. */
    static method Identity(r: nat, c: nat) returns (m: Matrix)
      ensures fresh(m) && fresh(m.data) && m.Valid() && m.R == r && m.C == c
      ensures m.Cells() == IdentityGrid(r, c)
    {
      m := new Matrix(r, c);
      for i := 0 to r
        invariant forall i', j :: 0 <= i' < i && 0 <= j < c ==> m.data[i', j] == if i' == j then 1 else 0
      {
        for j := 0 to c
          invariant forall i', j' :: 0 <= i' < i && 0 <= j' < c ==> m.data[i', j'] == if i' == j' then 1 else 0
          invariant forall j' :: 0 <= j' < j ==> m.data[i, j'] == if i == j' then 1 else 0
        {
          if i == j {
            m.data[i, j] := 1;
          } else {
            m.data[i, j] := 0;
          }
        }
      }
      GridExt(m.Cells(), IdentityGrid(r, c), r, c);
    }
  }

  /** `operator<<`: every row as "[", the cells separated by single spaces,
      "]" and a line break. */
  method Render(m: Matrix) returns (out: string)
    requires m.Valid()
    ensures out == Terminated(m.Cells())
  {
    ghost var g := m.Cells();
    out := "";
    for i := 0 to m.R
      invariant out == Terminated(g[..i])
    {
      var row := RenderRow(m.data, i);
      TerminatedPrefix(g, i);
      out := out + row + "\n";
    }
    assert g[..m.R] == g;
  }
}
