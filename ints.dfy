/** Integer arithmetic as the C++ code sees it.

    C++ `/` on `int` truncates toward zero and `%` gives a remainder with the
    sign of the dividend, whereas Dafny's `/` and `%` are Euclidean. The
    functions here spell out the C++ operators, and `Divides` gives the
    divisibility relation that the gcd and reduction proofs are stated in.
    Integers are unbounded: 32-bit overflow is not modelled. */
module Ints {

  function Abs(x: int): (r: nat)
    ensures r == x || r == -x
  {
    if x < 0 then -x else x
  }

  /** C++ `a / b`: the quotient truncated toward zero. */
  function TruncDiv(a: int, b: int): (q: int)
    requires b != 0
    ensures Abs(q) == Abs(a) / Abs(b)
    ensures q > 0 ==> (a < 0) == (b < 0)
    ensures q < 0 ==> (a < 0) != (b < 0)
  {
    var n, d := Abs(a), Abs(b);
    DivNonneg(n, d);
    var q := n / d;
    if (a < 0) == (b < 0) then q else -q
  }

  lemma DivNonneg(n: nat, d: nat)
    requires d > 0
    ensures n / d >= 0
  {
  }

  /** C++ `a % b`: what is left after the truncated quotient; it takes the
      sign of the dividend and is smaller than the divisor in magnitude. */
  function TruncRem(a: int, b: int): (r: int)
    requires b != 0
    ensures a == b * TruncDiv(a, b) + r
    ensures Abs(r) < Abs(b)
    ensures r > 0 ==> a > 0
    ensures r < 0 ==> a < 0
  {
    var m := Abs(a) % Abs(b);
    RemIdentity(a, b, Abs(a) / Abs(b), m);
    if a < 0 then -m else m
  }

  /** Euclid's identity on magnitudes, carried over to the signs. */
  lemma RemIdentity(a: int, b: int, q: int, m: int)
    requires b != 0 && Abs(a) == Abs(b) * q + m
    ensures a == b * (if (a < 0) == (b < 0) then q else -q) + (if a < 0 then -m else m)
  {
    if b < 0 {
      assert Abs(b) * q == -(b * q);
      assert b * (-q) == -(b * q);
    } else {
      assert b * (-q) == -(b * q);
    }
  }

  /** `d` divides `n`: `n` is `d` times some integer (0 divides only 0). */
  predicate Divides(d: int, n: int) {
    if d == 0 then n == 0 else n % d == 0
  }

  lemma DividesElim(d: int, n: int) returns (k: int)
    requires Divides(d, n)
    ensures n == d * k
  {
    if d == 0 {
      k := 0;
    } else {
      k := n / d;
    }
  }

  lemma DividesIntro(d: int, k: int)
    ensures Divides(d, d * k)
  {
    if d != 0 {
      var n := d * k;
      var q, m := n / d, n % d;
      assert n == d * q + m && 0 <= m < Abs(d);
      assert m == d * (k - q);
      MulAbs(d, k - q);
      MulMono(Abs(d), Abs(k - q));
      assert Abs(k - q) == 0;
    }
  }

  /** Multiplying by a positive natural number never makes a natural smaller. */
  lemma {:induction false} MulMono(a: nat, b: nat)
    ensures b >= 1 ==> a * b >= a
  {
    if b >= 2 {
      MulMono(a, b - 1);
      assert a * b == a * (b - 1) + a;
    }
  }

  lemma MulAbs(x: int, y: int)
    ensures Abs(x * y) == Abs(x) * Abs(y)
  {
    if x < 0 && y < 0 {
      assert x * y == (-x) * (-y);
    } else if x < 0 {
      assert x * y == -((-x) * y);
    } else if y < 0 {
      assert x * y == -(x * (-y));
    }
  }

  /** A non-zero multiple of `d` is at least `d` in magnitude. */
  lemma AbsProductAtLeast(d: int, t: int)
    requires t != 0
    ensures Abs(d * t) >= Abs(d)
  {
    MulAbs(d, t);
    MulMono(Abs(d), Abs(t));
  }

  /** A common divisor of `x` and `y` divides every combination `p*x + q*y`. */
  lemma DividesCombination(d: int, x: int, y: int, p: int, q: int)
    requires Divides(d, x) && Divides(d, y)
    ensures Divides(d, p * x + q * y)
  {
    var kx := DividesElim(d, x);
    var ky := DividesElim(d, y);
    calc {
      p * x + q * y;
      p * (d * kx) + q * (d * ky);
      d * (p * kx + q * ky);
    }
    DividesIntro(d, p * kx + q * ky);
  }

  /** Scaling both sides keeps divisibility. */
  lemma DividesScale(e: int, x: int, g: int)
    requires Divides(e, x)
    ensures Divides(e * g, x * g)
  {
    var k := DividesElim(e, x);
    assert x * g == (e * g) * k;
    DividesIntro(e * g, k);
  }

  /** If `e * g` divides the non-zero `g` then `e` is a unit. */
  lemma UnitFactor(e: int, g: int)
    requires g != 0 && Divides(e * g, g)
    ensures e == 1 || e == -1
  {
    var k := DividesElim(e * g, g);
    assert g * (e * k) == g * 1;
    assert e * k == 1;
    MulAbs(e, k);
    MulMono(Abs(e), Abs(k));
  }

  lemma DividesNeg(d: int, n: int)
    ensures Divides(d, n) <==> Divides(d, -n)
  {
    if Divides(d, n) {
      var k := DividesElim(d, n);
      assert -n == d * -k;
      DividesIntro(d, -k);
    }
    if Divides(d, -n) {
      var k := DividesElim(d, -n);
      assert n == d * -k;
      DividesIntro(d, -k);
    }
  }

  /** Dividing an exact multiple truncates nothing. */
  lemma TruncDivExact(a: int, b: int)
    requires b != 0 && Divides(b, a)
    ensures a == b * TruncDiv(a, b)
  {
    var k := DividesElim(b, a);
    assert TruncRem(a, b) == 0 by {
      var r := TruncRem(a, b);
      assert r == b * (k - TruncDiv(a, b));
      MulAbs(b, k - TruncDiv(a, b));
      MulMono(Abs(b), Abs(k - TruncDiv(a, b)));
    }
  }

  /** Dividing a multiple of `s` by `s` truncates nothing and gives the
      factor back. */
  lemma TruncDivCancel(x: int, s: int)
    requires s != 0
    ensures TruncDiv(x * s, s) == x
  {
    DividesIntro(s, x);
    assert s * x == x * s;
    TruncDivExact(x * s, s);
    var q := TruncDiv(x * s, s);
    assert s * (q - x) == 0;
    MulAbs(s, q - x);
    MulMono(Abs(s), Abs(q - x));
  }

  lemma DivSmall(a: nat, n: nat)
    requires a < n
    ensures a / n == 0
  {
  }
}
