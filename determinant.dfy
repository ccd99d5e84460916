/** The determinant that `lapLaceDeterminant` computes, as a function on
    square grids: order 0 gives 0, order 1 the single cell, order 2 the
    cross product, and from order 3 up the cofactor expansion along the
    first row. */
module Determinants {
  import opened Grids

  predicate IsSquare(g: Grid) {
    IsGrid(g, |g|, |g|)
  }

  /** The sign of the cofactor in column `i` of the first row. */
  function Sign(i: nat): (s: int)
    ensures s == 1 || s == -1
    ensures s == 1 <==> i % 2 == 0
  {
    if i % 2 == 1 then -1 else 1
  }

  /** `g` without its first row and without column `c`. */
  function Minor(g: Grid, c: nat): (n: Grid)
    requires IsSquare(g) && c < |g|
    ensures |n| == |g| - 1 && IsSquare(n)
    ensures forall j, k :: 0 <= j < |n| && 0 <= k < |n| ==>
      n[j][k] == g[j + 1][if k < c then k else k + 1]
  {
    var o := |g| - 1;
    seq(o, j requires 0 <= j < o => seq(o, k requires 0 <= k < o => g[j + 1][if k < c then k else k + 1]))
  }

  function Det(g: Grid): int
    requires IsSquare(g)
    decreases |g|, 1, 0
  {
    if |g| == 0 then 0
    else if |g| == 1 then g[0][0]
    else if |g| == 2 then g[0][0] * g[1][1] - g[0][1] * g[1][0]
    else Cofactors(g, |g|)
  }

  /** The first `k` terms of the expansion along the first row. */
  function Cofactors(g: Grid, k: nat): int
    requires IsSquare(g) && k <= |g|
    decreases |g|, 0, k
  {
    if k == 0 then 0
    else Cofactors(g, k - 1) + Sign(k - 1) * g[0][k - 1] * Det(Minor(g, k - 1))
  }

  /** One more term of the expansion. */
  lemma CofactorsStep(g: Grid, i: nat)
    requires IsSquare(g) && i < |g|
    ensures Cofactors(g, i + 1) == Cofactors(g, i) + Sign(i) * g[0][i] * Det(Minor(g, i))
    ensures g[0][i] == 0 ==> Cofactors(g, i + 1) == Cofactors(g, i)
  {
  }

  /** The order-2 shortcut is the cofactor expansion written out, so the
      expansion along the first row holds from order 2 up. */
  lemma ExpansionAgreesWithShortcut(g: Grid)
    requires IsSquare(g) && |g| >= 2
    ensures Det(g) == Cofactors(g, |g|)
  {
    if |g| == 2 {
      assert Det(Minor(g, 0)) == g[1][1];
      assert Det(Minor(g, 1)) == g[1][0];
      assert Cofactors(g, 1) == g[0][0] * g[1][1];
    }
  }

  /** Order 1 is not the expansion: the empty minor counts as 0, which is
      why the order-1 case is handled separately. */
  lemma OrderOneIsNotExpansion(x: int)
    requires x != 0
    ensures Det([[x]]) == x && Cofactors([[x]], 1) == 0
  {
    assert Minor([[x]], 0) == [];
  }

  lemma {:induction false} CofactorsZeroFirstRow(g: Grid, k: nat)
    requires IsSquare(g) && k <= |g| && |g| >= 1
    requires forall j :: 0 <= j < |g| ==> g[0][j] == 0
    ensures Cofactors(g, k) == 0
  {
    if k > 0 {
      CofactorsZeroFirstRow(g, k - 1);
      CofactorsStep(g, k - 1);
    }
  }

  lemma {:induction false} CofactorsZeroRow(g: Grid, r: nat, k: nat)
    requires IsSquare(g) && k <= |g| && 1 <= r < |g|
    requires forall j :: 0 <= j < |g| ==> g[r][j] == 0
    ensures Cofactors(g, k) == 0
    decreases |g|, k
  {
    if k > 0 {
      CofactorsZeroRow(g, r, k - 1);
      DetZeroRow(Minor(g, k - 1), r - 1);
    }
  }

  /** A row of zeros makes the determinant 0. */
  lemma {:induction false} DetZeroRow(g: Grid, r: nat)
    requires IsSquare(g) && r < |g|
    requires forall j :: 0 <= j < |g| ==> g[r][j] == 0
    ensures Det(g) == 0
    decreases |g|, |g| + 1
  {
    if |g| >= 3 {
      if r == 0 {
        CofactorsZeroFirstRow(g, |g|);
      } else {
        CofactorsZeroRow(g, r, |g|);
      }
    }
  }

  lemma {:induction false} CofactorsZeroColumn(g: Grid, c: nat, k: nat)
    requires IsSquare(g) && k <= |g| && c < |g|
    requires forall i :: 0 <= i < |g| ==> g[i][c] == 0
    ensures Cofactors(g, k) == 0
    decreases |g|, k
  {
    if k > 0 {
      var j := k - 1;
      CofactorsZeroColumn(g, c, j);
      CofactorsStep(g, j);
      if j != c {
        var n := Minor(g, j);
        var c' := if c < j then c else c - 1;
        assert forall i :: 0 <= i < |n| ==> n[i][c'] == g[i + 1][c];
        DetZeroColumn(n, c');
      }
    }
  }

  /** A column of zeros makes the determinant 0. */
  lemma {:induction false} DetZeroColumn(g: Grid, c: nat)
    requires IsSquare(g) && c < |g|
    requires forall i :: 0 <= i < |g| ==> g[i][c] == 0
    ensures Det(g) == 0
    decreases |g|, |g| + 1
  {
    if |g| == 2 {
      assert g[0][c] == 0 && g[1][c] == 0;
    } else if |g| >= 3 {
      CofactorsZeroColumn(g, c, |g|);
    }
  }

  /** The product of the diagonal cells from row `t` on. */
  function DiagonalFrom(g: Grid, t: nat): int
    requires IsSquare(g)
    decreases |g| - t
  {
    if t >= |g| then 1 else g[t][t] * DiagonalFrom(g, t + 1)
  }

  /** Nothing above the diagonal. */
  predicate LowerTriangular(g: Grid)
    requires IsSquare(g)
  {
    forall i, j :: 0 <= i < j < |g| ==> g[i][j] == 0
  }

  lemma {:induction false} MinorDiagonal(g: Grid, t: nat)
    requires IsSquare(g) && |g| >= 1
    ensures DiagonalFrom(Minor(g, 0), t) == DiagonalFrom(g, t + 1)
    decreases |g| - t
  {
    if t < |g| - 1 {
      MinorDiagonal(g, t + 1);
    }
  }

  lemma {:induction false} CofactorsLowerTriangular(g: Grid, k: nat)
    requires IsSquare(g) && 1 <= k <= |g| && LowerTriangular(g)
    ensures Cofactors(g, k) == g[0][0] * Det(Minor(g, 0))
  {
    if k > 1 {
      CofactorsLowerTriangular(g, k - 1);
      assert g[0][k - 1] == 0;
    }
  }

  /** A lower-triangular matrix has the product of its diagonal as
      determinant. */
  lemma {:induction false} DetLowerTriangular(g: Grid)
    requires IsSquare(g) && |g| >= 1 && LowerTriangular(g)
    ensures Det(g) == DiagonalFrom(g, 0)
    decreases |g|
  {
    if |g| == 1 {
    } else if |g| == 2 {
      assert g[0][1] == 0;
      assert DiagonalFrom(g, 1) == g[1][1] * DiagonalFrom(g, 2);
    } else {
      var m := Minor(g, 0);
      CofactorsLowerTriangular(g, |g|);
      DetLowerTriangular(m);
      MinorDiagonal(g, 0);
    }
  }

  lemma {:induction false} IdentityDiagonal(n: nat, t: nat)
    ensures DiagonalFrom(IdentityGrid(n, n), t) == 1
    decreases n - t
  {
    if t < n {
      IdentityDiagonal(n, t + 1);
    }
  }

  /** The identity of every order from 1 up has determinant 1. */
  lemma DetIdentity(n: nat)
    requires n >= 1
    ensures Det(IdentityGrid(n, n)) == 1
  {
    DetLowerTriangular(IdentityGrid(n, n));
    IdentityDiagonal(n, 0);
  }

  function Pow(s: int, n: nat): int {
    if n == 0 then 1 else s * Pow(s, n - 1)
  }

  lemma MinorScaled(g: Grid, s: int, c: nat)
    requires IsSquare(g) && c < |g|
    ensures Minor(Scaled(g, |g|, |g|, s), c) == Scaled(Minor(g, c), |g| - 1, |g| - 1, s)
  {
    GridExt(Minor(Scaled(g, |g|, |g|, s), c), Scaled(Minor(g, c), |g| - 1, |g| - 1, s), |g| - 1, |g| - 1);
  }

  lemma TermScaled(sg: int, a: int, s: int, p: int, d: int)
    ensures sg * (a * s) * (p * d) == (s * p) * (sg * a * d)
  {
  }

  lemma SumScaled(p: int, x: int, y: int)
    ensures p * x + p * y == p * (x + y)
  {
  }

  lemma {:induction false} CofactorsScaled(g: Grid, s: int, k: nat)
    requires IsSquare(g) && k <= |g| && |g| >= 1
    ensures Cofactors(Scaled(g, |g|, |g|, s), k) == Pow(s, |g|) * Cofactors(g, k)
    decreases |g|, k
  {
    if k > 0 {
      var n, c := |g|, k - 1;
      var h := Scaled(g, n, n, s);
      var p := Pow(s, n);
      var tg := Sign(c) * g[0][c] * Det(Minor(g, c));
      var th := Sign(c) * h[0][c] * Det(Minor(h, c));
      CofactorsStep(h, c);
      CofactorsStep(g, c);
      assert Cofactors(h, k) == Cofactors(h, c) + th;
      assert Cofactors(g, k) == Cofactors(g, c) + tg;
      CofactorsScaled(g, s, c);
      TermOfScaled(g, s, c);
      SumScaled(p, Cofactors(g, c), tg);
    }
  }

  /** One cofactor term of the scaled matrix is the term of the original
      times `s` to the power of the order. */
  lemma TermOfScaled(g: Grid, s: int, c: nat)
    requires IsSquare(g) && c < |g|
    ensures Sign(c) * Scaled(g, |g|, |g|, s)[0][c] * Det(Minor(Scaled(g, |g|, |g|, s), c))
         == Pow(s, |g|) * (Sign(c) * g[0][c] * Det(Minor(g, c)))
    decreases |g|, 0
  {
    MinorScaled(g, s, c);
    DetScaled(Minor(g, c), s);
    TermScaled(Sign(c), g[0][c], s, Pow(s, |g| - 1), Det(Minor(g, c)));
  }

  lemma TwoByTwoScaled(a: int, b: int, c: int, d: int, s: int)
    ensures (a * s) * (d * s) - (b * s) * (c * s) == s * (s * 1) * (a * d - b * c)
  {
  }

  /** Multiplying every cell by `s` multiplies the determinant by `s` to
      the power of the order. */
  lemma {:induction false} DetScaled(g: Grid, s: int)
    requires IsSquare(g)
    ensures Det(Scaled(g, |g|, |g|, s)) == Pow(s, |g|) * Det(g)
    decreases |g|, |g| + 1
  {
    var n := |g|;
    if n == 1 {
      assert Pow(s, 1) == s;
    } else if n == 2 {
      TwoByTwoScaled(g[0][0], g[0][1], g[1][0], g[1][1], s);
      assert Pow(s, 1) == s * 1;
    } else if n >= 3 {
      CofactorsScaled(g, s, n);
    }
  }
}
