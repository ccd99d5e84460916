/** The `Fraction` class of include/fraction.hpp and src/fraction.cpp.

    A `Fraction` is an object with two public, mutable `int` fields. The
    compound operators (`+= -= *= /=`) overwrite the fields and then call
    `reduce`; the out-of-place operators copy the receiver and apply the
    compound operator to the copy. Each method's contract ties the new fields
    to the functions of module FractionMath, whose lemmas give their meaning. */
module Fractions {
  import opened Ints
  import opened FractionMath

  /** `gcd(a, b)`: Euclid's loop with the C++ remainder. */
  method Gcd(a0: int, b0: int) returns (g: int)
    ensures g == GcdOf(a0, b0)
    ensures Divides(g, a0) && Divides(g, b0)
    ensures forall d :: Divides(d, a0) && Divides(d, b0) ==> Divides(d, g)
    ensures g == 0 <==> a0 == 0 && b0 == 0
  {
    var a, b := a0, b0;
    var t := b;
    while b != 0
      invariant t == b
      invariant GcdOf(a, b) == GcdOf(a0, b0)
      decreases Abs(b)
    {
      b := TruncRem(a, b);
      a := t;
      t := b;
    }
    g := a;
    GcdDividesBoth(a0, b0);
    GcdZero(a0, b0);
    forall d | Divides(d, a0) && Divides(d, b0)
      ensures Divides(d, g)
    {
      GcdGreatest(a0, b0, d);
    }
  }

  class Fraction {
    var numerator: int
    var denominator: int

    /** The two fields as a value. */
    function Val(): Frac
      reads this
    {
      Frac(numerator, denominator)
    }

    /** A non-zero denominator: the constructors assert it and the operators
        keep it, but with public fields nothing else enforces it. */
    predicate Valid()
      reads this
    {
      denominator != 0
    }

    /** `Fraction()` is 1/1. */
    constructor Default()
      ensures Val() == Frac(1, 1)
    {
      numerator, denominator := 1, 1;
    }

    /** `Fraction(n)` is n/1. */
    constructor FromInt(n: int)
      ensures Val() == Frac(n, 1)
    {
      numerator, denominator := n, 1;
    }

    /** `Fraction(n, d)` stores both as given: no reduction, and a negative
        denominator is allowed. */
    constructor (n: int, d: int)
      requires d != 0
      ensures Val() == Frac(n, d)
    {
      numerator, denominator := n, d;
    }

    /** The copy constructor goes through `Fraction(n, d)` and so asserts a
        non-zero denominator too. */
    constructor Copy(f: Fraction)
      requires f.Valid()
      ensures Val() == f.Val()
    {
      numerator, denominator := f.numerator, f.denominator;
    }

    /** `inverse()`: a new fraction with the fields swapped, not reduced. */
    method Inverse() returns (r: Fraction)
      requires numerator != 0
      ensures fresh(r) && r.Val() == InverseOf(Val())
    {
      r := new Fraction(denominator, numerator);
    }

    /** `reduce()`: divide both fields by their gcd, then move the sign to the
        numerator. A zero gcd (only for 0/0) leaves the fields alone. */
    method Reduce()
      modifies this
      ensures Val() == Reduced(old(Val()))
      ensures old(Valid()) ==> Valid() && Canonical(Val())
    {
      ghost var v := Val();
      var s := Gcd(numerator, denominator);
      if s == 0 {
        return;
      }
      numerator := TruncDiv(numerator, s);
      denominator := TruncDiv(denominator, s);
      if denominator < 0 {
        numerator := numerator * -1;
        denominator := denominator * -1;
      }
      if v.den != 0 {
        ReducedCanonical(v);
      }
    }

    /** Copy assignment. */
    method Assign(f: Fraction)
      modifies this
      ensures Val() == old(f.Val())
    {
      numerator := f.numerator;
      denominator := f.denominator;
    }

    /** `operator==`: the fields compared one by one. */
    predicate Equals(f: Fraction)
      reads this, f
    {
      numerator == f.numerator && denominator == f.denominator
    }

    /** `+= f`; also right when `f` is this object. */
    method AddAssign(f: Fraction)
      modifies this
      ensures Val() == Sum(old(Val()), old(f.Val()))
      ensures old(Valid()) && old(f.Valid()) ==> Valid() && Canonical(Val())
    {
      ghost var a, b := Val(), f.Val();
      numerator := numerator * f.denominator + denominator * f.numerator;
      denominator := denominator * f.denominator;
      Reduce();
      if a.den != 0 && b.den != 0 {
        SumCorrect(a, b);
      }
    }

    /** `+ f`: a copy with `+= f` applied; neither operand changes. */
    method Plus(f: Fraction) returns (r: Fraction)
      requires Valid()
      ensures fresh(r) && r.Val() == Sum(Val(), f.Val())
    {
      r := new Fraction.Copy(this);
      r.AddAssign(f);
    }

    /** `+= s`. */
    method AddIntAssign(s: int)
      modifies this
      ensures Val() == SumInt(old(Val()), s)
      ensures old(Valid()) ==> Valid() && Canonical(Val())
    {
      ghost var a := Val();
      numerator := numerator + denominator * s;
      Reduce();
      if a.den != 0 {
        SumIntCorrect(a, s);
      }
    }

    /** `+ s`. */
    method PlusInt(s: int) returns (r: Fraction)
      requires Valid()
      ensures fresh(r) && r.Val() == SumInt(Val(), s)
    {
      r := new Fraction.Copy(this);
      r.AddIntAssign(s);
    }

    /** `-= f`; also right when `f` is this object. */
    method SubAssign(f: Fraction)
      modifies this
      ensures Val() == Difference(old(Val()), old(f.Val()))
      ensures old(Valid()) && old(f.Valid()) ==> Valid() && Canonical(Val())
    {
      ghost var a, b := Val(), f.Val();
      numerator := numerator * f.denominator - denominator * f.numerator;
      denominator := denominator * f.denominator;
      Reduce();
      if a.den != 0 && b.den != 0 {
        DifferenceCorrect(a, b);
      }
    }

    /** `- f`. */
    method Minus(f: Fraction) returns (r: Fraction)
      requires Valid()
      ensures fresh(r) && r.Val() == Difference(Val(), f.Val())
    {
      r := new Fraction.Copy(this);
      r.SubAssign(f);
    }

    /** `-= s`. */
    method SubIntAssign(s: int)
      modifies this
      ensures Val() == DifferenceInt(old(Val()), s)
      ensures old(Valid()) ==> Valid() && Canonical(Val())
    {
      ghost var a := Val();
      numerator := numerator - denominator * s;
      Reduce();
      if a.den != 0 {
        DifferenceIntCorrect(a, s);
      }
    }

    /** `- s`. */
    method MinusInt(s: int) returns (r: Fraction)
      requires Valid()
      ensures fresh(r) && r.Val() == DifferenceInt(Val(), s)
    {
      r := new Fraction.Copy(this);
      r.SubIntAssign(s);
    }

    /** Unary minus: a new fraction `-numerator/denominator`, not reduced. */
    method Negated() returns (r: Fraction)
      requires Valid()
      ensures fresh(r) && r.Val() == Neg(Val())
    {
      r := new Fraction(-numerator, denominator);
    }

    /** `*= f`; also right when `f` is this object. */
    method MulAssign(f: Fraction)
      modifies this
      ensures Val() == Product(old(Val()), old(f.Val()))
      ensures old(Valid()) && old(f.Valid()) ==> Valid() && Canonical(Val())
    {
      ghost var a, b := Val(), f.Val();
      numerator := numerator * f.numerator;
      denominator := denominator * f.denominator;
      Reduce();
      if a.den != 0 && b.den != 0 {
        ProductCorrect(a, b);
      }
    }

    /** `* f`. */
    method Times(f: Fraction) returns (r: Fraction)
      requires Valid()
      ensures fresh(r) && r.Val() == Product(Val(), f.Val())
    {
      r := new Fraction.Copy(this);
      r.MulAssign(f);
    }

    /** `*= s`. */
    method MulIntAssign(s: int)
      modifies this
      ensures Val() == ProductInt(old(Val()), s)
      ensures old(Valid()) ==> Valid() && Canonical(Val())
    {
      ghost var a := Val();
      numerator := numerator * s;
      Reduce();
      if a.den != 0 {
        ProductIntCorrect(a, s);
      }
    }

    /** `* s`. */
    method TimesInt(s: int) returns (r: Fraction)
      requires Valid()
      ensures fresh(r) && r.Val() == ProductInt(Val(), s)
    {
      r := new Fraction.Copy(this);
      r.MulIntAssign(s);
    }

    /** `/= f` as written: the numerator is overwritten before the divisor's
        numerator is read, so when `f` is this object the result is not the
        quotient. */
    method DivAssign(f: Fraction)
      requires f.numerator != 0
      modifies this
      ensures f != this ==> Val() == Quotient(old(Val()), old(f.Val()))
      ensures f != this && old(Valid()) && old(f.Valid()) ==> Valid() && Canonical(Val())
      ensures f == this ==> Val() == SelfQuotientAsWritten(old(Val()))
    {
      ghost var a, b := Val(), f.Val();
      numerator := numerator * f.denominator;
      denominator := denominator * f.numerator;
      Reduce();
      if f != this && a.den != 0 && b.den != 0 {
        QuotientCorrect(a, b);
      }
    }

    /** `/= f` with both fields of the divisor read before either field of the
        receiver is written: the quotient in every case, `x /= x` included. */
    method DivAssignCorrected(f: Fraction)
      requires f.numerator != 0
      modifies this
      ensures Val() == Quotient(old(Val()), old(f.Val()))
      ensures old(Valid()) && old(f.Valid()) ==> Valid() && Canonical(Val())
    {
      ghost var a, b := Val(), f.Val();
      var fn, fd := f.numerator, f.denominator;
      numerator := numerator * fd;
      denominator := denominator * fn;
      Reduce();
      if a.den != 0 && b.den != 0 {
        QuotientCorrect(a, b);
      }
    }

    /** `/ f`: a copy divided by `f`. */
    method Over(f: Fraction) returns (r: Fraction)
      requires Valid() && f.numerator != 0
      ensures fresh(r) && r.Val() == Quotient(Val(), f.Val())
    {
      r := new Fraction.Copy(this);
      r.DivAssign(f);
    }

    /** `/= s`, which asserts `s != 0`. */
    method DivIntAssign(s: int)
      requires s != 0
      modifies this
      ensures Val() == QuotientInt(old(Val()), s)
      ensures old(Valid()) ==> Valid() && Canonical(Val())
    {
      ghost var a := Val();
      denominator := denominator * s;
      Reduce();
      if a.den != 0 {
        QuotientIntCorrect(a, s);
      }
    }

    /** `/ s`. */
    method OverInt(s: int) returns (r: Fraction)
      requires Valid() && s != 0
      ensures fresh(r) && r.Val() == QuotientInt(Val(), s)
    {
      r := new Fraction.Copy(this);
      r.DivIntAssign(s);
    }
  }

  /** What `x /= x` leaves as written: numerator n*d, then denominator
      d*(n*d), then reduced. */
  function SelfQuotientAsWritten(v: Frac): Frac {
    Reduced(Frac(v.num * v.den, v.den * (v.num * v.den)))
  }

  /** `x /= x` on 2/3 leaves 1/3, where the quotient is 1/1. */
  lemma SelfQuotientCounterexample()
    ensures SelfQuotientAsWritten(Frac(2, 3)) == Frac(1, 3)
    ensures Quotient(Frac(2, 3), Frac(2, 3)) == Frac(1, 1)
  {
    assert TruncRem(6, 18) == 6;
    assert TruncRem(18, 6) == 0;
    assert GcdOf(6, 18) == 6;
    assert TruncDiv(6, 6) == 1 && TruncDiv(18, 6) == 3;
    ReducedSelf(6);
  }

  /** With the divisor read first, any non-zero fraction divided by itself
      is exactly 1/1. */
  lemma SelfQuotientIsOne(v: Frac)
    requires v.den != 0 && v.num != 0
    ensures Quotient(v, v) == Frac(1, 1)
  {
    NonZeroProduct(v.num, v.den);
    assert v.den * v.num == v.num * v.den;
    ReducedSelf(v.num * v.den);
  }

  // The operators with an `int` on the left.

  /** `s + f` returns `f + s`. */
  method IntPlus(s: int, f: Fraction) returns (r: Fraction)
    requires f.Valid()
    ensures fresh(r) && r.Val() == SumInt(f.Val(), s)
  {
    r := f.PlusInt(s);
  }

  /** `s * f` returns `f * s`. */
  method IntTimes(s: int, f: Fraction) returns (r: Fraction)
    requires f.Valid()
    ensures fresh(r) && r.Val() == ProductInt(f.Val(), s)
  {
    r := f.TimesInt(s);
  }

  /** `s - f` as written returns `f - s`. */
  method IntMinus(s: int, f: Fraction) returns (r: Fraction)
    requires f.Valid()
    ensures fresh(r) && r.Val() == DifferenceInt(f.Val(), s)
  {
    r := f.MinusInt(s);
  }

  /** `s - f` computing `s - f`. */
  method IntMinusCorrected(s: int, f: Fraction) returns (r: Fraction)
    requires f.Valid()
    ensures fresh(r) && r.Val() == Difference(Frac(s, 1), f.Val())
  {
    r := new Fraction.FromInt(s);
    r.SubAssign(f);
  }

  /** `s / f` as written returns `f / s`, and so asserts `s != 0`. */
  method IntOver(s: int, f: Fraction) returns (r: Fraction)
    requires f.Valid() && s != 0
    ensures fresh(r) && r.Val() == QuotientInt(f.Val(), s)
  {
    r := f.OverInt(s);
  }

  /** `s / f` computing `s / f`, for `f` with a non-zero numerator. */
  method IntOverCorrected(s: int, f: Fraction) returns (r: Fraction)
    requires f.Valid() && f.numerator != 0
    ensures fresh(r) && r.Val() == Quotient(Frac(s, 1), f.Val())
  {
    r := new Fraction.FromInt(s);
    r.DivAssignCorrected(f);
  }

  /** `s - f` as written gives the negation of `s - f`. */
  lemma IntMinusIsReversed(s: int, f: Frac)
    requires f.den != 0
    ensures DifferenceInt(f, s).den != 0 && Difference(Frac(s, 1), f).den != 0
    ensures Value(DifferenceInt(f, s)) == -Value(Difference(Frac(s, 1), f))
  {
    DifferenceIntCorrect(f, s);
    DifferenceCorrect(Frac(s, 1), f);
  }

  /** For 1 - 0/1 it gives -1 where 1 is meant. */
  lemma IntMinusCounterexample()
    ensures DifferenceInt(Frac(0, 1), 1) == Frac(-1, 1)
    ensures Difference(Frac(1, 1), Frac(0, 1)) == Frac(1, 1)
  {
    assert GcdOf(-1, 1) == GcdOf(1, 0) == 1 by {
      assert TruncRem(-1, 1) == 0;
    }
    assert GcdOf(1, 1) == GcdOf(1, 0) == 1 by {
      assert TruncRem(1, 1) == 0;
    }
  }

  /** The corrected `s - f` has the value `s - f`, in canonical form. */
  lemma IntMinusCorrectedValue(s: int, f: Frac)
    requires f.den != 0
    ensures Canonical(Difference(Frac(s, 1), f))
    ensures Value(Difference(Frac(s, 1), f)) == s as real - Value(f)
  {
    DifferenceCorrect(Frac(s, 1), f);
  }

  /** `s / f` as written gives the reciprocal of `s / f`. */
  lemma IntOverIsReversed(s: int, f: Frac)
    requires f.den != 0 && f.num != 0 && s != 0
    ensures QuotientInt(f, s).den != 0 && Quotient(Frac(s, 1), f).den != 0
    ensures Value(Quotient(Frac(s, 1), f)) != 0.0
    ensures Value(QuotientInt(f, s)) == 1.0 / Value(Quotient(Frac(s, 1), f))
  {
    QuotientIntCorrect(f, s);
    QuotientCorrect(Frac(s, 1), f);
    var written, meant := QuotientInt(f, s), Quotient(Frac(s, 1), f);
    var x, y := Value(f), Value(Frac(s, 1));
    assert Value(written) == x / y;
    assert Value(meant) == y / x;
    assert x != 0.0 by {
      ValueCross(f, Frac(0, 1));
    }
    ReciprocalRule(x, y);
    assert Value(meant) != 0.0;
  }

  /** For 2 / (1/1) it gives 1/2 where 2/1 is meant. */
  lemma IntOverCounterexample()
    ensures QuotientInt(Frac(1, 1), 2) == Frac(1, 2)
    ensures Quotient(Frac(2, 1), Frac(1, 1)) == Frac(2, 1)
  {
    assert GcdOf(1, 2) == 1 by {
      assert TruncRem(1, 2) == 1 && TruncRem(2, 1) == 0;
    }
    assert GcdOf(2, 1) == GcdOf(1, 0) == 1 by {
      assert TruncRem(2, 1) == 0;
    }
  }

  lemma ReciprocalRule(x: real, y: real)
    requires x != 0.0 && y != 0.0
    ensures y / x != 0.0 && x / y == 1.0 / (y / x)
  {
  }

  /** The corrected `s / f` has the value `s / f`, in canonical form. */
  lemma IntOverCorrectedValue(s: int, f: Frac)
    requires f.den != 0 && f.num != 0
    ensures Canonical(Quotient(Frac(s, 1), f))
    ensures Value(Quotient(Frac(s, 1), f)) == s as real / Value(f)
  {
    QuotientCorrect(Frac(s, 1), f);
  }
}
