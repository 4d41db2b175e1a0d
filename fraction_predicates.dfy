/**
  The single-fraction classification queries: zero, integer, proper and
  unit. Each is a test on the canonical fields, and each is proved to mean
  what its name says about the rational the fraction denotes.
 */
module FractionPredicates {
  import opened IntMath
  import opened Fractions

  /** `is_zero`: the numerator is 0 (the source tests `not self.numerator`). */
  function IsZero(f: Fraction): (r: bool)
    ensures r <==> AsReal(f) == 0.0
    ensures r <==> f == Frac(0, 1)
  {
    if f.num == 0 then ZeroIsCanonical(f); true else false
  }

  /** The only canonical fraction with a zero numerator is `0/1`. */
  lemma ZeroIsCanonical(f: Fraction)
    requires f.num == 0
    ensures f == Frac(0, 1)
  {
    WholeIsCanonical(0);
    Canonical(f, Frac(0, 1));
  }

  /** `is_integer`: the reduced denominator is 1. */
  function IsInteger(f: Fraction): (r: bool)
    ensures r <==> AsReal(f).Floor as real == AsReal(f)
    ensures r ==> AsReal(f) == f.num as real
  {
    WholeIffUnitDenominator(f);
    f.den == 1
  }

  /** A canonical fraction denotes a whole number exactly when its denominator is 1. */
  lemma WholeIffUnitDenominator(f: Fraction)
    ensures f.den == 1 <==> AsReal(f).Floor as real == AsReal(f)
  {
    var k := AsReal(f).Floor;
    if k as real == AsReal(f) {
      RealToCross(f.num, f.den, k, 1);
      var m := EuclidDivides(f.num, f.den, 1, k);
      DividesOne(f.den, m);
    }
  }

  /** `is_proper`: the absolute value is below 1, decided on the integers. */
  function IsProper(f: Fraction): (r: bool)
    ensures r <==> -1.0 < AsReal(f) < 1.0
  {
    ProperIffBelowOne(f);
    Abs(f.num) < f.den
  }

  /** `|num| < den` is the same as `|num / den| < 1` for a positive denominator. */
  lemma ProperIffBelowOne(f: Fraction)
    ensures Abs(f.num) < f.den <==> -1.0 < AsReal(f) < 1.0
  {
    QuotientBelowOne(f.num, f.den);
  }

  /** `-d < n < d` exactly when `-1 < n / d < 1`, for a positive `d`. */
  lemma QuotientBelowOne(n: int, d: int)
    requires d > 0
    ensures -d < n < d <==> -1.0 < n as real / d as real < 1.0
  {
    var x := n as real / d as real;
    assert n as real == x * d as real;
    ScaleLess(x, 1.0, d as real);
    ScaleLess(-1.0, x, d as real);
  }

  /** Multiplying by a positive number keeps a strict order. */
  lemma ScaleLess(x: real, y: real, d: real)
    requires d > 0.0
    ensures x < y <==> x * d < y * d
  {
    assert y * d - x * d == (y - x) * d;
  }

  /** `is_unit`: the reduced numerator is exactly 1 (so `-1/1` is not a unit). */
  function IsUnit(f: Fraction): (r: bool)
    ensures r ==> AsReal(f) == 1.0 / f.den as real
    ensures r <==> AsReal(f) > 0.0 && (1.0 / AsReal(f)).Floor as real == 1.0 / AsReal(f)
  {
    UnitIffReciprocalOfWhole(f);
    f.num == 1
  }

  /** A fraction has numerator 1 exactly when it is the reciprocal of a positive integer. */
  lemma UnitIffReciprocalOfWhole(f: Fraction)
    ensures f.num == 1 <==> AsReal(f) > 0.0 && (1.0 / AsReal(f)).Floor as real == 1.0 / AsReal(f)
  {
    var x := AsReal(f);
    if f.num == 1 {
      assert 1.0 / x == f.den as real;
    } else if x > 0.0 && (1.0 / x).Floor as real == 1.0 / x {
      var k := (1.0 / x).Floor;
      assert k > 0;
      assert x == 1.0 / k as real;
      CoprimeFromCombination(1, k, 1, 0);
      SameValueIsSame(f, Frac(1, k));
    }
  }
}
