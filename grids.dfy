/** Matrices as values: a grid of `int` cells, row by row.

    Both matrix templates store their cells in place (a `T**` in
    include/matrix_old.hpp, a `T[R][C]` in include/matrix.hpp); the classes
    that model them expose their contents as a `Grid`, and the functions here
    say what each operation leaves in it. The element type `T` is taken to be
    `int`. */
module Grids {

  type Grid = seq<seq<int>>

  /** `g` has `r` rows of `c` cells. */
  predicate IsGrid(g: Grid, r: nat, c: nat) {
    |g| == r && forall i :: 0 <= i < r ==> |g[i]| == c
  }

  /** Two grids of the same shape that agree cell by cell are equal. */
  lemma GridExt(a: Grid, b: Grid, r: nat, c: nat)
    requires IsGrid(a, r, c) && IsGrid(b, r, c)
    requires forall i, j :: 0 <= i < r && 0 <= j < c ==> a[i][j] == b[i][j]
    ensures a == b
  {
    forall i | 0 <= i < r
      ensures a[i] == b[i]
    {
    }
  }

  /** The cells of a two-dimensional array. */
  function GridOf(a: array2<int>): (g: Grid)
    reads a
    ensures IsGrid(g, a.Length0, a.Length1)
    ensures forall i, j :: 0 <= i < a.Length0 && 0 <= j < a.Length1 ==> g[i][j] == a[i, j]
  {
    seq(a.Length0, i requires 0 <= i < a.Length0 reads a =>
      seq(a.Length1, j requires 0 <= j < a.Length1 reads a => a[i, j]))
  }

  /** An `r` by `c` grid with `v` in every cell. */
  function Filled(r: nat, c: nat, v: int): (g: Grid)
    ensures IsGrid(g, r, c)
  {
    seq(r, i => seq(c, j => v))
  }

  /** 1 where the row and column indices agree, 0 elsewhere. */
  function IdentityGrid(r: nat, c: nat): (g: Grid)
    ensures IsGrid(g, r, c)
  {
    seq(r, i => seq(c, j => if i == j then 1 else 0))
  }

  /** The `c` by `r` grid whose cell (j, i) is cell (i, j) of `g`. */
  function Transposed(g: Grid, r: nat, c: nat): (t: Grid)
    requires IsGrid(g, r, c)
    ensures IsGrid(t, c, r)
  {
    seq(c, j requires 0 <= j < c => seq(r, i requires 0 <= i < r => g[i][j]))
  }

  /** Cell-by-cell sum. */
  function Added(a: Grid, b: Grid, r: nat, c: nat): (s: Grid)
    requires IsGrid(a, r, c) && IsGrid(b, r, c)
    ensures IsGrid(s, r, c)
  {
    seq(r, i requires 0 <= i < r => seq(c, j requires 0 <= j < c => a[i][j] + b[i][j]))
  }

  /** Every cell negated. */
  function Negated(a: Grid, r: nat, c: nat): (n: Grid)
    requires IsGrid(a, r, c)
    ensures IsGrid(n, r, c)
  {
    seq(r, i requires 0 <= i < r => seq(c, j requires 0 <= j < c => -a[i][j]))
  }

  /** Every cell multiplied by `s`. */
  function Scaled(a: Grid, r: nat, c: nat, s: int): (n: Grid)
    requires IsGrid(a, r, c)
    ensures IsGrid(n, r, c)
  {
    seq(r, i requires 0 <= i < r => seq(c, j requires 0 <= j < c => a[i][j] * s))
  }

  /** The first `k` terms of row `i` of `a` times column `j` of `b`, added in
      the order of the source's innermost loop. */
  function Dot(a: Grid, b: Grid, n: nat, m: nat, p: nat, i: nat, j: nat, k: nat): int
    requires IsGrid(a, n, m) && IsGrid(b, m, p) && i < n && j < p && k <= m
  {
    if k == 0 then 0 else Dot(a, b, n, m, p, i, j, k - 1) + a[i][k - 1] * b[k - 1][j]
  }

  /** The matrix product of an `n` by `m` and an `m` by `p` grid. */
  function Multiplied(a: Grid, b: Grid, n: nat, m: nat, p: nat): (g: Grid)
    requires IsGrid(a, n, m) && IsGrid(b, m, p)
    ensures IsGrid(g, n, p)
  {
    seq(n, i requires 0 <= i < n => seq(p, j requires 0 <= j < p => Dot(a, b, n, m, p, i, j, m)))
  }

  /** Transposing twice gives the grid back. */
  lemma TransposeInvolution(g: Grid, r: nat, c: nat)
    requires IsGrid(g, r, c)
    ensures Transposed(Transposed(g, r, c), c, r) == g
  {
    GridExt(Transposed(Transposed(g, r, c), c, r), g, r, c);
  }

  /** Subtracting (adding the negation) and adding back restores the grid;
      negating twice is the identity. */
  lemma SubtractThenAdd(a: Grid, b: Grid, r: nat, c: nat)
    requires IsGrid(a, r, c) && IsGrid(b, r, c)
    ensures Added(Added(a, Negated(b, r, c), r, c), b, r, c) == a
    ensures Negated(Negated(b, r, c), r, c) == b
  {
    GridExt(Added(Added(a, Negated(b, r, c), r, c), b, r, c), a, r, c);
    GridExt(Negated(Negated(b, r, c), r, c), b, r, c);
  }

  /** Matrix addition commutes. */
  lemma AddedCommutes(a: Grid, b: Grid, r: nat, c: nat)
    requires IsGrid(a, r, c) && IsGrid(b, r, c)
    ensures Added(a, b, r, c) == Added(b, a, r, c)
  {
    GridExt(Added(a, b, r, c), Added(b, a, r, c), r, c);
  }

  lemma {:induction false} DotRightIdentity(a: Grid, n: nat, m: nat, i: nat, j: nat, k: nat)
    requires IsGrid(a, n, m) && i < n && j < m && k <= m
    ensures Dot(a, IdentityGrid(m, m), n, m, m, i, j, k) == if j < k then a[i][j] else 0
  {
    if k > 0 {
      DotRightIdentity(a, n, m, i, j, k - 1);
    }
  }

  lemma {:induction false} DotLeftIdentity(b: Grid, n: nat, p: nat, i: nat, j: nat, k: nat)
    requires IsGrid(b, n, p) && i < n && j < p && k <= n
    ensures Dot(IdentityGrid(n, n), b, n, n, p, i, j, k) == if i < k then b[i][j] else 0
  {
    if k > 0 {
      DotLeftIdentity(b, n, p, i, j, k - 1);
    }
  }

  /** The identity grid is a two-sided unit of the matrix product. */
  lemma MultipliedByIdentity(a: Grid, n: nat, m: nat)
    requires IsGrid(a, n, m)
    ensures Multiplied(a, IdentityGrid(m, m), n, m, m) == a
    ensures Multiplied(IdentityGrid(n, n), a, n, n, m) == a
  {
    forall i, j | 0 <= i < n && 0 <= j < m
      ensures Multiplied(a, IdentityGrid(m, m), n, m, m)[i][j] == a[i][j]
      ensures Multiplied(IdentityGrid(n, n), a, n, n, m)[i][j] == a[i][j]
    {
      DotRightIdentity(a, n, m, i, j, m);
      DotLeftIdentity(a, n, m, i, j, n);
    }
    GridExt(Multiplied(a, IdentityGrid(m, m), n, m, m), a, n, m);
    GridExt(Multiplied(IdentityGrid(n, n), a, n, n, m), a, n, m);
  }

  lemma {:induction false} DotTransposed(a: Grid, b: Grid, n: nat, m: nat, p: nat, i: nat, j: nat, k: nat)
    requires IsGrid(a, n, m) && IsGrid(b, m, p) && i < n && j < p && k <= m
    ensures Dot(a, b, n, m, p, i, j, k)
         == Dot(Transposed(b, m, p), Transposed(a, n, m), p, m, n, j, i, k)
  {
    if k > 0 {
      DotTransposed(a, b, n, m, p, i, j, k - 1);
    }
  }

  /** The transpose of a product is the product of the transposes, swapped. */
  lemma TransposeOfProduct(a: Grid, b: Grid, n: nat, m: nat, p: nat)
    requires IsGrid(a, n, m) && IsGrid(b, m, p)
    ensures Transposed(Multiplied(a, b, n, m, p), n, p)
         == Multiplied(Transposed(b, m, p), Transposed(a, n, m), p, m, n)
  {
    var lhs := Transposed(Multiplied(a, b, n, m, p), n, p);
    var rhs := Multiplied(Transposed(b, m, p), Transposed(a, n, m), p, m, n);
    forall j, i | 0 <= j < p && 0 <= i < n
      ensures lhs[j][i] == rhs[j][i]
    {
      DotTransposed(a, b, n, m, p, i, j, m);
    }
    GridExt(lhs, rhs, p, n);
  }

  /** Scaling by 0 clears every cell. */
  lemma ScaledByZero(a: Grid, r: nat, c: nat)
    requires IsGrid(a, r, c)
    ensures Scaled(a, r, c, 0) == Filled(r, c, 0)
  {
    GridExt(Scaled(a, r, c, 0), Filled(r, c, 0), r, c);
  }
}
