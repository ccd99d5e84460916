/** The values a `Fraction` holds and what the operations of
    src/fraction.cpp compute on them.

    A `Frac` is the pair of public `int` fields of a `Fraction` object. The
    functions below give the new pair each operator leaves behind (the class in
    module Fractions is proved to produce exactly these), and the lemmas say
    what those pairs mean: the rational number `Value`, the canonical form
    that `reduce` establishes, and the text that `operator<<` writes. */
module FractionMath {
  import opened Ints
  import opened Decimal

  /** The two fields of a `Fraction`. Nothing in the type keeps `den` non-zero:
      in the source that is left to the constructors and to `assert`s. */
  datatype Frac = Frac(num: int, den: int)

  // ---------------------------------------------------------------------
  // gcd
  // ---------------------------------------------------------------------

  /** The value `gcd(a, b)` returns: Euclid's algorithm with the C++
      truncating remainder. Its sign follows the operands, so it can be
      negative. */
  function GcdOf(a: int, b: int): int
    decreases Abs(b)
  {
    if b == 0 then a else GcdOf(b, TruncRem(a, b))
  }

  lemma {:induction false} GcdDividesBoth(a: int, b: int)
    ensures Divides(GcdOf(a, b), a) && Divides(GcdOf(a, b), b)
    decreases Abs(b)
  {
    if b == 0 {
      DividesIntro(a, 1);
      DividesIntro(a, 0);
    } else {
      var r := TruncRem(a, b);
      GcdDividesBoth(b, r);
      DividesCombination(GcdOf(b, r), b, r, TruncDiv(a, b), 1);
      assert TruncDiv(a, b) * b + 1 * r == a;
    }
  }

  /** Every common divisor of `a` and `b` divides `GcdOf(a, b)`: its magnitude
      is the greatest common divisor. */
  lemma {:induction false} GcdGreatest(a: int, b: int, d: int)
    requires Divides(d, a) && Divides(d, b)
    ensures Divides(d, GcdOf(a, b))
    decreases Abs(b)
  {
    if b != 0 {
      var r := TruncRem(a, b);
      DividesCombination(d, a, b, 1, -TruncDiv(a, b));
      assert 1 * a + (-TruncDiv(a, b)) * b == r;
      GcdGreatest(b, r, d);
    }
  }

  /** `gcd` returns 0 exactly when both arguments are 0. */
  lemma GcdZero(a: int, b: int)
    ensures GcdOf(a, b) == 0 <==> a == 0 && b == 0
  {
    GcdDividesBoth(a, b);
  }

  /** With the truncating remainder the result can be negative. */
  lemma GcdCanBeNegative()
    ensures GcdOf(-1, 2) == -1
  {
    assert TruncRem(-1, 2) == -1;
    assert TruncRem(2, -1) == 0;
  }

  /** The Bezout coefficients that Euclid's algorithm implicitly computes. */
  lemma {:induction false} GcdBezout(a: int, b: int) returns (p: int, q: int)
    ensures GcdOf(a, b) == p * a + q * b
    decreases Abs(b)
  {
    if b == 0 {
      p, q := 1, 0;
    } else {
      var t, r := TruncDiv(a, b), TruncRem(a, b);
      var p', q' := GcdBezout(b, r);
      BezoutStep(a, b, t, r, p', q');
      p, q := q', p' - q' * t;
    }
  }

  lemma BezoutStep(a: int, b: int, t: int, r: int, p: int, q: int)
    requires a == b * t + r
    ensures p * b + q * r == q * a + (p - q * t) * b
  {
  }

  // ---------------------------------------------------------------------
  // reduce
  // ---------------------------------------------------------------------

  /** Only 1 and -1 divide both `a` and `b`. */
  ghost predicate Coprime(a: int, b: int) {
    forall e :: Divides(e, a) && Divides(e, b) ==> e == 1 || e == -1
  }

  /** Lowest terms with the sign on the numerator: what `reduce` promises. */
  ghost predicate Canonical(v: Frac) {
    v.den > 0 && Coprime(v.num, v.den)
  }

  /** The fields `reduce` leaves: both divided by their gcd (unless it is 0,
      which only happens for 0/0 and leaves the fraction alone), then both
      negated if the denominator came out negative. */
  function Reduced(v: Frac): Frac {
    var s := GcdOf(v.num, v.den);
    if s == 0 then v else SignMoved(DividedBy(v, s))
  }

  /** Both fields divided by `s` with C++ integer division. */
  function DividedBy(v: Frac, s: int): Frac
    requires s != 0
  {
    Frac(TruncDiv(v.num, s), TruncDiv(v.den, s))
  }

  /** Both fields negated when the denominator is negative. */
  function SignMoved(v: Frac): Frac {
    if v.den < 0 then Frac(-v.num, -v.den) else v
  }

  /** Dividing by a common divisor leaves fields that multiply back. */
  lemma DividedByExact(v: Frac, s: int)
    requires s != 0 && Divides(s, v.num) && Divides(s, v.den)
    ensures v.num == s * DividedBy(v, s).num && v.den == s * DividedBy(v, s).den
  {
    TruncDivExact(v.num, s);
    TruncDivExact(v.den, s);
  }

  lemma CoprimeNeg(a: int, b: int)
    requires Coprime(a, b)
    ensures Coprime(-a, -b)
  {
    var na, nb := -a, -b;
    forall e | Divides(e, na) && Divides(e, nb)
      ensures e == 1 || e == -1
    {
      DividesNeg(e, a);
      DividesNeg(e, b);
    }
  }

  /** Dividing by the gcd leaves a coprime pair. */
  lemma DividedByGcdCoprime(v: Frac)
    requires v.den != 0
    ensures GcdOf(v.num, v.den) != 0
    ensures Coprime(DividedBy(v, GcdOf(v.num, v.den)).num, DividedBy(v, GcdOf(v.num, v.den)).den)
  {
    var s := GcdOf(v.num, v.den);
    GcdZero(v.num, v.den);
    GcdDividesBoth(v.num, v.den);
    var w := DividedBy(v, s);
    DividedByExact(v, s);
    forall e | Divides(e, w.num) && Divides(e, w.den)
      ensures e == 1 || e == -1
    {
      DividesScale(e, w.num, s);
      DividesScale(e, w.den, s);
      assert w.num * s == v.num && w.den * s == v.den;
      GcdGreatest(v.num, v.den, e * s);
      UnitFactor(e, s);
    }
  }

  /** After `reduce` on a fraction with a non-zero denominator, the
      denominator is positive and shares no divisor but 1 and -1 with the
      numerator. */
  lemma ReducedCanonical(v: Frac)
    requires v.den != 0
    ensures Canonical(Reduced(v))
  {
    var s := GcdOf(v.num, v.den);
    DividedByGcdCoprime(v);
    var w := DividedBy(v, s);
    GcdDividesBoth(v.num, v.den);
    DividedByExact(v, s);
    assert w.den != 0;
    if w.den < 0 {
      CoprimeNeg(w.num, w.den);
    }
  }

  /** `reduce` keeps the rational number: old_n * new_d == new_n * old_d. */
  lemma ReducedSameRatio(v: Frac)
    ensures Reduced(v).num * v.den == v.num * Reduced(v).den
  {
    var s := GcdOf(v.num, v.den);
    if s != 0 {
      GcdDividesBoth(v.num, v.den);
      var w := DividedBy(v, s);
      DividedByExact(v, s);
      SameRatio(w.num, w.den, s, SignMoved(w));
    }
  }

  /** `n/d`, with both fields possibly negated, has the ratio of
      `(s*n)/(s*d)`. */
  lemma SameRatio(n: int, d: int, s: int, u: Frac)
    requires u == Frac(n, d) || u == Frac(-n, -d)
    ensures u.num * (s * d) == (s * n) * u.den
  {
    if u == Frac(-n, -d) {
      assert (-n) * (s * d) == -(n * (s * d));
      assert (s * n) * (-d) == -((s * n) * d);
    }
    ScaledRatio(n, d, s);
  }

  lemma ScaledRatio(n: int, d: int, s: int)
    ensures n * (s * d) == (s * n) * d
  {
  }

  /** A zero numerator is reduced to 0/1. */
  lemma ReducedZero(d: int)
    requires d != 0
    ensures Reduced(Frac(0, d)) == Frac(0, 1)
  {
    assert TruncRem(0, d) == 0;
    assert GcdOf(0, d) == d;
    SelfQuotient(d);
  }

  /** `x / x` is 1 for non-zero `x`, with truncating division too. */
  lemma SelfQuotient(x: int)
    requires x != 0
    ensures TruncDiv(x, x) == 1 && TruncRem(x, x) == 0 && TruncDiv(0, x) == 0
  {
    DividesIntro(x, 1);
    TruncDivExact(x, x);
  }

  /** `reduce` changes nothing exactly when the fraction is already canonical;
      in particular reducing twice is reducing once. */
  lemma ReducedFixpoint(v: Frac)
    requires v.den != 0
    ensures Reduced(v) == v <==> Canonical(v)
  {
    ReducedCanonical(v);
    if Canonical(v) {
      var s := GcdOf(v.num, v.den);
      GcdDividesBoth(v.num, v.den);
      assert s == 1 || s == -1;
      DividedByExact(v, s);
    }
  }

  lemma ReduceIdempotent(v: Frac)
    requires v.den != 0
    ensures Reduced(Reduced(v)) == Reduced(v)
  {
    ReducedCanonical(v);
    ReducedFixpoint(Reduced(v));
  }

  // ---------------------------------------------------------------------
  // The rational number a fraction stands for
  // ---------------------------------------------------------------------

  /** The exact rational value `numerator / denominator`. */
  function Value(v: Frac): real
    requires v.den != 0
  {
    v.num as real / v.den as real
  }

  lemma RealProduct(x: int, y: int)
    ensures (x * y) as real == x as real * y as real
  {
  }

  /** Two fractions have the same value exactly when their cross products agree. */
  lemma ValueCross(a: Frac, b: Frac)
    requires a.den != 0 && b.den != 0
    ensures Value(a) == Value(b) <==> a.num * b.den == b.num * a.den
  {
    RealProduct(a.num, b.den);
    RealProduct(b.num, a.den);
    var x, y, z, w := a.num as real, a.den as real, b.num as real, b.den as real;
    assert Value(a) * y == x && Value(b) * w == z;
    assert Value(a) == Value(b) ==> x * w == z * y;
    assert x * w == z * y ==> Value(a) == Value(b) by {
      if x * w == z * y {
        assert Value(a) * y * w == Value(b) * w * y;
      }
    }
  }

  /** Reducing keeps the value (and the result is canonical). */
  lemma ReducedValue(v: Frac)
    requires v.den != 0
    ensures Reduced(v).den != 0 && Value(Reduced(v)) == Value(v)
  {
    ReducedCanonical(v);
    ReducedSameRatio(v);
    ValueCross(Reduced(v), v);
  }

  // ---------------------------------------------------------------------
  // Arithmetic: the fields each compound operator leaves behind
  // ---------------------------------------------------------------------

  /** `a += f`: cross-multiply, then reduce. */
  function Sum(a: Frac, f: Frac): Frac {
    Reduced(Frac(a.num * f.den + a.den * f.num, a.den * f.den))
  }

  /** `a += s` for an `int` s. */
  function SumInt(a: Frac, s: int): Frac {
    Reduced(Frac(a.num + a.den * s, a.den))
  }

  /** `a -= f`. */
  function Difference(a: Frac, f: Frac): Frac {
    Reduced(Frac(a.num * f.den - a.den * f.num, a.den * f.den))
  }

  /** `a -= s`. */
  function DifferenceInt(a: Frac, s: int): Frac {
    Reduced(Frac(a.num - a.den * s, a.den))
  }

  /** `a *= f`. */
  function Product(a: Frac, f: Frac): Frac {
    Reduced(Frac(a.num * f.num, a.den * f.den))
  }

  /** `a *= s`. */
  function ProductInt(a: Frac, s: int): Frac {
    Reduced(Frac(a.num * s, a.den))
  }

  /** `a /= f`, which asserts that `f` has a non-zero numerator. */
  function Quotient(a: Frac, f: Frac): Frac
    requires f.num != 0
  {
    Reduced(Frac(a.num * f.den, a.den * f.num))
  }

  /** `a /= s`, which asserts that `s` is not zero. */
  function QuotientInt(a: Frac, s: int): Frac
    requires s != 0
  {
    Reduced(Frac(a.num, a.den * s))
  }

  /** Unary minus: the numerator negated, the denominator kept, no reduction. */
  function Neg(v: Frac): Frac {
    Frac(-v.num, v.den)
  }

  /** `inverse()`: numerator and denominator swapped, no reduction. */
  function InverseOf(v: Frac): Frac
    requires v.num != 0
  {
    Frac(v.den, v.num)
  }

  /** Reducing a fraction with a non-zero denominator gives a canonical
      fraction with the same value. */
  lemma ReducedCorrect(v: Frac)
    requires v.den != 0
    ensures Canonical(Reduced(v)) && Value(Reduced(v)) == Value(v)
  {
    ReducedCanonical(v);
    ReducedValue(v);
  }

  lemma NonZeroProduct(x: int, y: int)
    requires x != 0 && y != 0
    ensures x * y != 0
  {
    MulAbs(x, y);
    MulMono(Abs(x), Abs(y));
  }

  // The cross-multiplied pairs, valued before reduction.

  lemma CrossSumValue(a: Frac, f: Frac)
    requires a.den != 0 && f.den != 0
    ensures a.den * f.den != 0
    ensures Value(Frac(a.num * f.den + a.den * f.num, a.den * f.den)) == Value(a) + Value(f)
  {
    NonZeroProduct(a.den, f.den);
    RealProduct(a.num, f.den);
    RealProduct(a.den, f.num);
    RealProduct(a.den, f.den);
    RealSumRule(a.num as real, a.den as real, f.num as real, f.den as real);
  }

  lemma CrossDifferenceValue(a: Frac, f: Frac)
    requires a.den != 0 && f.den != 0
    ensures a.den * f.den != 0
    ensures Value(Frac(a.num * f.den - a.den * f.num, a.den * f.den)) == Value(a) - Value(f)
  {
    NonZeroProduct(a.den, f.den);
    RealProduct(a.num, f.den);
    RealProduct(a.den, f.num);
    RealProduct(a.den, f.den);
    RealDifferenceRule(a.num as real, a.den as real, f.num as real, f.den as real);
  }

  lemma CrossProductValue(a: Frac, f: Frac)
    requires a.den != 0 && f.den != 0
    ensures a.den * f.den != 0
    ensures Value(Frac(a.num * f.num, a.den * f.den)) == Value(a) * Value(f)
  {
    NonZeroProduct(a.den, f.den);
    RealProduct(a.num, f.num);
    RealProduct(a.den, f.den);
    RealProductRule(a.num as real, a.den as real, f.num as real, f.den as real);
  }

  lemma CrossQuotientValue(a: Frac, f: Frac)
    requires a.den != 0 && f.den != 0 && f.num != 0
    ensures a.den * f.num != 0
    ensures Value(Frac(a.num * f.den, a.den * f.num)) == Value(a) / Value(f)
  {
    NonZeroProduct(a.den, f.num);
    RealProduct(a.num, f.den);
    RealProduct(a.den, f.num);
    RealQuotientRule(a.num as real, a.den as real, f.num as real, f.den as real);
  }

  lemma RealSumRule(x: real, y: real, z: real, w: real)
    requires y != 0.0 && w != 0.0
    ensures (x * w + y * z) / (y * w) == x / y + z / w
  {
  }

  lemma RealDifferenceRule(x: real, y: real, z: real, w: real)
    requires y != 0.0 && w != 0.0
    ensures (x * w - y * z) / (y * w) == x / y - z / w
  {
  }

  lemma RealProductRule(x: real, y: real, z: real, w: real)
    requires y != 0.0 && w != 0.0
    ensures (x * z) / (y * w) == (x / y) * (z / w)
  {
  }

  lemma RealQuotientRule(x: real, y: real, z: real, w: real)
    requires y != 0.0 && w != 0.0 && z != 0.0
    ensures (x * w) / (y * z) == (x / y) / (z / w)
  {
  }

  /** `a += f` leaves the canonical form of the rational sum. */
  lemma SumCorrect(a: Frac, f: Frac)
    requires a.den != 0 && f.den != 0
    ensures Canonical(Sum(a, f))
    ensures Value(Sum(a, f)) == Value(a) + Value(f)
  {
    CrossSumValue(a, f);
    ReducedCorrect(Frac(a.num * f.den + a.den * f.num, a.den * f.den));
  }

  /** `a += s` leaves the canonical form of `a + s`. */
  lemma SumIntCorrect(a: Frac, s: int)
    requires a.den != 0
    ensures Canonical(SumInt(a, s))
    ensures Value(SumInt(a, s)) == Value(a) + s as real
  {
    CrossSumValue(a, Frac(s, 1));
    ReducedCorrect(Frac(a.num + a.den * s, a.den));
    assert Frac(a.num * 1 + a.den * s, a.den * 1) == Frac(a.num + a.den * s, a.den);
  }

  /** `a -= f` leaves the canonical form of the rational difference. */
  lemma DifferenceCorrect(a: Frac, f: Frac)
    requires a.den != 0 && f.den != 0
    ensures Canonical(Difference(a, f))
    ensures Value(Difference(a, f)) == Value(a) - Value(f)
  {
    CrossDifferenceValue(a, f);
    ReducedCorrect(Frac(a.num * f.den - a.den * f.num, a.den * f.den));
  }

  /** `a -= s` leaves the canonical form of `a - s`. */
  lemma DifferenceIntCorrect(a: Frac, s: int)
    requires a.den != 0
    ensures Canonical(DifferenceInt(a, s))
    ensures Value(DifferenceInt(a, s)) == Value(a) - s as real
  {
    CrossDifferenceValue(a, Frac(s, 1));
    ReducedCorrect(Frac(a.num - a.den * s, a.den));
    assert Frac(a.num * 1 - a.den * s, a.den * 1) == Frac(a.num - a.den * s, a.den);
  }

  /** `a *= f` leaves the canonical form of the rational product. */
  lemma ProductCorrect(a: Frac, f: Frac)
    requires a.den != 0 && f.den != 0
    ensures Canonical(Product(a, f))
    ensures Value(Product(a, f)) == Value(a) * Value(f)
  {
    CrossProductValue(a, f);
    ReducedCorrect(Frac(a.num * f.num, a.den * f.den));
  }

  /** `a *= s` leaves the canonical form of `a * s`. */
  lemma ProductIntCorrect(a: Frac, s: int)
    requires a.den != 0
    ensures Canonical(ProductInt(a, s))
    ensures Value(ProductInt(a, s)) == Value(a) * s as real
  {
    CrossProductValue(a, Frac(s, 1));
    ReducedCorrect(Frac(a.num * s, a.den));
    assert Frac(a.num * s, a.den * 1) == Frac(a.num * s, a.den);
  }

  /** `a /= f` (for `f` with a non-zero numerator) leaves the canonical form
      of the rational quotient. */
  lemma QuotientCorrect(a: Frac, f: Frac)
    requires a.den != 0 && f.den != 0 && f.num != 0
    ensures Canonical(Quotient(a, f))
    ensures Value(Quotient(a, f)) == Value(a) / Value(f)
  {
    CrossQuotientValue(a, f);
    ReducedCorrect(Frac(a.num * f.den, a.den * f.num));
  }

  /** `a /= s` (for non-zero `s`) leaves the canonical form of `a / s`. */
  lemma QuotientIntCorrect(a: Frac, s: int)
    requires a.den != 0 && s != 0
    ensures Canonical(QuotientInt(a, s))
    ensures Value(QuotientInt(a, s)) == Value(a) / s as real
  {
    CrossQuotientValue(a, Frac(s, 1));
    ReducedCorrect(Frac(a.num, a.den * s));
    assert Frac(a.num * 1, a.den * s) == Frac(a.num, a.den * s);
  }

  /** Negation is exact and keeps a canonical fraction canonical. */
  lemma NegCorrect(v: Frac)
    requires v.den != 0
    ensures Value(Neg(v)) == -Value(v)
    ensures Neg(Neg(v)) == v
    ensures Canonical(v) ==> Canonical(Neg(v))
  {
    if Canonical(v) {
      forall e | Divides(e, -v.num) && Divides(e, v.den)
        ensures e == 1 || e == -1
      {
        DividesNeg(e, v.num);
      }
    }
  }

  /** `f * f.inverse()` is exactly 1/1, and inverting twice gives `f` back. */
  lemma InverseCorrect(v: Frac)
    requires v.den != 0 && v.num != 0
    ensures Product(v, InverseOf(v)) == Frac(1, 1)
    ensures Value(InverseOf(v)) == 1.0 / Value(v)
    ensures InverseOf(InverseOf(v)) == v
  {
    var k := v.num * v.den;
    NonZeroProduct(v.num, v.den);
    assert v.den * v.num == k;
    ReducedSelf(k);
  }

  /** k/k reduces to 1/1. */
  lemma ReducedSelf(k: int)
    requires k != 0
    ensures Reduced(Frac(k, k)) == Frac(1, 1)
  {
    SelfQuotient(k);
    assert GcdOf(k, k) == GcdOf(k, 0) == k;
  }

  // ---------------------------------------------------------------------
  // operator== is field-by-field
  // ---------------------------------------------------------------------

  /** Euclid's lemma: a number coprime to `y` that divides `y * z` divides `z`. */
  lemma EuclidLemma(x: int, y: int, z: int)
    requires Coprime(x, y) && Divides(x, y * z)
    ensures Divides(x, z)
  {
    var g := GcdOf(x, y);
    GcdDividesBoth(x, y);
    assert g == 1 || g == -1;
    var p, q := GcdBezout(x, y);
    DividesIntro(x, p * z);
    DividesCombination(x, x * (p * z), y * z, 1, q);
    BezoutTimes(x, y, z, p, q, g);
    DividesNeg(x, z);
  }

  lemma BezoutTimes(x: int, y: int, z: int, p: int, q: int, g: int)
    requires g == p * x + q * y
    ensures z * g == 1 * (x * (p * z)) + q * (y * z)
  {
  }

  lemma CoprimeSymmetric(a: int, b: int)
    requires Coprime(a, b)
    ensures Coprime(b, a)
  {
  }

  /** Two positive numbers that divide each other are equal. */
  lemma MutualDivision(a: int, b: int)
    requires a > 0 && b > 0 && Divides(a, b) && Divides(b, a)
    ensures a == b
  {
    var k := DividesElim(a, b);
    assert Divides(k * a, a);
    UnitFactor(k, a);
  }

  /** On canonical fractions, field equality (what `operator==` tests) is
      equality of the rational values. */
  lemma EqualsIsValueEqualityWhenCanonical(a: Frac, b: Frac)
    requires Canonical(a) && Canonical(b)
    ensures a == b <==> Value(a) == Value(b)
  {
    if Value(a) == Value(b) {
      ValueCross(a, b);
      assert a.num * b.den == b.num * a.den;
      DividesIntro(a.den, b.num);
      assert Divides(a.den, a.num * b.den);
      CoprimeSymmetric(a.num, a.den);
      EuclidLemma(a.den, a.num, b.den);
      DividesIntro(b.den, a.num);
      assert Divides(b.den, b.num * a.den);
      CoprimeSymmetric(b.num, b.den);
      EuclidLemma(b.den, b.num, a.den);
      MutualDivision(a.den, b.den);
      assert a.num * b.den == b.num * b.den;
    }
  }

  /** Off canonical form it is stricter: 2/4 and 1/2 are not `==`. */
  lemma EqualsIsStructural()
    ensures Frac(2, 4) != Frac(1, 2) && Value(Frac(2, 4)) == Value(Frac(1, 2))
  {
  }

  // ---------------------------------------------------------------------
  // operator<<
  // ---------------------------------------------------------------------

  /** What `os << f` writes: the numerator, followed by `/` and the
      denominator unless the numerator is 0 or the denominator is 1. */
  function Render(v: Frac): (r: string)
    ensures IntToString(v.num) <= r
  {
    IntToString(v.num) + (if v.num != 0 && v.den != 1 then "/" + IntToString(v.den) else "")
  }

  /** The numerator is written alone exactly when it is 0 or the
      denominator is 1; otherwise a '/' and the denominator follow it. */
  lemma RenderForms(v: Frac)
    ensures (v.num == 0 || v.den == 1) <==> Render(v) == IntToString(v.num)
    ensures (v.num == 0 || v.den == 1) <==> '/' !in Render(v)
  {
    var n := IntToString(v.num);
    assert '/' !in n by {
      forall k | 0 <= k < |n|
        ensures n[k] != '/'
      {
      }
    }
    if v.num != 0 && v.den != 1 {
      assert Render(v)[|n|] == '/';
    }
  }

  /** The position of the first `c` in `s`, or `|s|` when there is none. */
  function IndexOf(s: string, c: char): (k: nat)
    ensures k <= |s| && c !in s[..k]
    ensures k < |s| ==> s[k] == c
  {
    if |s| == 0 then 0
    else if s[0] == c then 0
    else
      assert s[1..][..IndexOf(s[1..], c)] == s[1..1 + IndexOf(s[1..], c)];
      1 + IndexOf(s[1..], c)
  }

  /** Reads `n` as n/1 and `n/d` as n/d. */
  function ParseFrac(s: string): Option<Frac> {
    var k := IndexOf(s, '/');
    if k == |s| then
      match ParseInt(s)
      case Some(n) => Some(Frac(n, 1))
      case None => None
    else
      match (ParseInt(s[..k]), ParseInt(s[k + 1..]))
      case (Some(n), Some(d)) => Some(Frac(n, d))
      case _ => None
  }

  /** Text without a '/' is read as a whole number. */
  lemma ParseFracWhole(ns: string, n: int)
    requires ParseInt(ns) == Some(n) && '/' !in ns
    ensures ParseFrac(ns) == Some(Frac(n, 1))
  {
  }

  /** A number without '/', a '/' and a second number are read as the
      numerator and the denominator. */
  lemma ParseFracSlash(ns: string, ds: string, n: int, d: int)
    requires ParseInt(ns) == Some(n) && '/' !in ns && ParseInt(ds) == Some(d)
    ensures ParseFrac(ns + "/" + ds) == Some(Frac(n, d))
  {
    var s := ns + "/" + ds;
    assert IndexOf(s, '/') == |ns| by {
      assert s[|ns|] == '/';
      assert s[..|ns|] == ns;
    }
    assert s[..|ns|] == ns;
    assert s[|ns| + 1..] == ds;
  }

  /** A canonical fraction with numerator 0 is 0/1. */
  lemma CanonicalZero(v: Frac)
    requires Canonical(v) && v.num == 0
    ensures v.den == 1
  {
    DividesIntro(v.den, 0);
    DividesIntro(v.den, 1);
  }

  /** A canonical fraction is written so that it can be read back. */
  lemma RenderRoundTrip(v: Frac)
    requires Canonical(v)
    ensures ParseFrac(Render(v)) == Some(v)
  {
    var ns := IntToString(v.num);
    IntToStringRoundTrip(v.num);
    assert '/' !in ns;
    if v.num == 0 || v.den == 1 {
      if v.num == 0 {
        CanonicalZero(v);
      }
      assert Render(v) == ns + "";
      assert ns + "" == ns;
      ParseFracWhole(ns, v.num);
    } else {
      IntToStringRoundTrip(v.den);
      assert Render(v) == ns + ("/" + IntToString(v.den));
      assert ns + ("/" + IntToString(v.den)) == ns + "/" + IntToString(v.den);
      ParseFracSlash(ns, IntToString(v.den), v.num, v.den);
    }
  }
}
