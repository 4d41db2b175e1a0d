/**
  The fraction value type: an exact rational number kept in lowest terms
  with a positive denominator, built only through `Make` (the source's
  constructor), and the coercion of a right-hand operand into a fraction.
 */
module Fractions {
  import opened IntMath
  import opened Results

  /** The exceptions the fraction operations raise. */
  datatype Error =
    | ZeroDivisionError  // a zero denominator
    | ValueError         // a right-hand operand that is neither an int nor a fraction
    | TypeError          // `abs()` applied to a fraction, which defines no `__abs__`

  /** A numerator and a denominator, not necessarily in canonical form. */
  datatype Frac = Frac(num: int, den: int) {

    /** The invariant of every constructed fraction: reduced, sign in the numerator. */
    predicate Valid() {
      den > 0 && Coprime(num, den)
    }
  }

  /** A constructed fraction: every value of this type is canonical. */
  type Fraction = f: Frac | f.Valid() witness Frac(0, 1)

  /** The exact rational a fraction stands for (the source's `float(self)`, without rounding). */
  function AsReal(f: Frac): (r: real)
    requires f.den != 0
    ensures r * f.den as real == f.num as real
  {
    f.num as real / f.den as real
  }

  /** The integer quotient `num / den` is negative. */
  predicate QuotientNegative(num: int, den: int) {
    num != 0 && (num < 0) != (den < 0)
  }

  /** The integer test agrees with the sign of the exact quotient. */
  lemma QuotientNegativeIsSign(num: int, den: int)
    requires den != 0
    ensures QuotientNegative(num, den) <==> num as real / den as real < 0.0
  {
    if den < 0 {
      assert num as real / den as real == (-num) as real / (-den) as real;
    }
  }

  /**
    The constructor: rejects a zero denominator, moves the sign into the
    numerator and divides both parts by their gcd.
   */
  function Make(num: int, den: int): (r: Result<Fraction, Error>)
    ensures r.Err? <==> den == 0
    ensures r.Err? ==> r.error == ZeroDivisionError
    ensures r.Ok? ==> r.value.num * den == num * r.value.den
    ensures r.Ok? ==> AsReal(r.value) == num as real / den as real
    ensures r.Ok? ==> (r.value.num < 0 <==> num as real / den as real < 0.0)
    ensures r.Ok? ==> (r.value.num == 0 <==> num == 0)
    ensures num == 0 && den != 0 ==> r == Ok(Frac(0, 1))
  {
    if den == 0 then
      Err(ZeroDivisionError)
    else
      ReduceIsCanonical(num, den);
      Ok(Reduce(num, den))
  }

  /** The body of the constructor once the denominator is known to be non-zero. */
  function Reduce(num: int, den: int): Frac
    requires den != 0
  {
    var absNum := Abs(num);
    var signed := if QuotientNegative(num, den) then -absNum else absNum;
    var g := Gcd(Abs(signed), Abs(den));
    Frac(FloorDiv(signed, g), FloorDiv(Abs(den), g))
  }

  /** The reduced parts are canonical and denote the same rational as the inputs. */
  lemma ReduceIsCanonical(num: int, den: int)
    requires den != 0
    ensures Reduce(num, den).Valid()
    ensures Reduce(num, den).num * den == num * Reduce(num, den).den
    ensures AsReal(Reduce(num, den)) == num as real / den as real
    ensures Reduce(num, den).num < 0 <==> num as real / den as real < 0.0
    ensures Reduce(num, den).num == 0 <==> num == 0
    ensures num == 0 ==> Reduce(num, den) == Frac(0, 1)
  {
    var absNum := Abs(num);
    var signed := if QuotientNegative(num, den) then -absNum else absNum;
    var g := Gcd(Abs(signed), Abs(den));
    var f := Reduce(num, den);
    ReduceParts(signed, Abs(den), g, f);
    MakeSameValue(num, den, signed, g, f);
    if num == 0 {
      ReduceZero(den);
    }
  }

  /** A zero numerator always reduces to `0/1`, whatever the denominator. */
  lemma ReduceZero(den: int)
    requires den != 0
    ensures Reduce(0, den) == Frac(0, 1)
  {
    var g := Gcd(0, Abs(den));
    assert g == Gcd(Abs(den), 0) == Abs(den);
    ExactFloorDiv(0, g, 0);
    ExactFloorDiv(Abs(den), g, 1);
  }

  /** Dividing by the gcd leaves coprime parts that multiply back to the inputs. */
  lemma ReduceParts(signed: int, d: int, g: int, f: Frac)
    requires d > 0 && g == Gcd(Abs(signed), d)
    requires f == Frac(FloorDiv(signed, g), FloorDiv(d, g))
    ensures g > 0 && f.Valid()
    ensures f.num * g == signed && f.den * g == d
  {
    DivideByGcd(signed, d, g);
  }

  /** The reduced parts of `Make` denote the same rational as its arguments. */
  lemma MakeSameValue(num: int, den: int, signed: int, g: int, f: Frac)
    requires den != 0 && g > 0 && f.den > 0
    requires signed == (if QuotientNegative(num, den) then -Abs(num) else Abs(num))
    requires f.num * g == signed && f.den * g == Abs(den)
    ensures f.num * den == num * f.den
    ensures AsReal(f) == num as real / den as real
    ensures f.num < 0 <==> num as real / den as real < 0.0
    ensures f.num == 0 <==> num == 0
  {
    assert signed * den == num * Abs(den);
    assert g * (f.num * den) == g * (num * f.den);
    CancelLeft(g, f.num * den, num * f.den);
    CrossToReal(f.num, f.den, num, den);
    if f.num == 0 {
      assert signed == 0;
    }
  }

  /** Equal cross products mean equal quotients. */
  lemma CrossToReal(n1: int, d1: int, n2: int, d2: int)
    requires d1 != 0 && d2 != 0
    requires n1 * d2 == n2 * d1
    ensures n1 as real / d1 as real == n2 as real / d2 as real
  {
    assert (n1 * d2) as real == n1 as real * d2 as real;
    assert (n2 * d1) as real == n2 as real * d1 as real;
  }

  /** Equal quotients with non-zero denominators have equal cross products. */
  lemma RealToCross(n1: int, d1: int, n2: int, d2: int)
    requires d1 != 0 && d2 != 0
    requires n1 as real / d1 as real == n2 as real / d2 as real
    ensures n1 * d2 == n2 * d1
  {
    var x := n1 as real / d1 as real;
    assert n1 as real == x * d1 as real;
    assert n2 as real == x * d2 as real;
    assert (n1 * d2) as real == n1 as real * d2 as real == x * d1 as real * d2 as real;
    assert (n2 * d1) as real == n2 as real * d1 as real == x * d2 as real * d1 as real;
  }

  /**
    Canonicity: two constructed fractions with equal cross products have the
    same numerator and the same denominator.
   */
  lemma Canonical(f: Fraction, g: Fraction)
    requires f.num * g.den == g.num * f.den
    ensures f == g
  {
    var m1 := EuclidDivides(f.num, f.den, g.den, g.num);
    var m2 := EuclidDivides(g.num, g.den, f.den, f.num);
    SameDenominator(f.den, g.den, m1, m2);
    CancelLeft(f.den, f.num, g.num);
  }

  /** Two positive numbers that divide each other are equal. */
  lemma SameDenominator(d1: int, d2: int, m1: int, m2: int)
    requires d1 > 0 && d2 > 0
    requires d2 == d1 * m1 && d1 == d2 * m2
    ensures d1 == d2
  {
    assert d1 * 1 == d1 * (m1 * m2);
    CancelLeft(d1, 1, m1 * m2);
    PositiveFactor(d1, m1);
    DividesOne(m1, m2);
  }

  /** Two constructed fractions denoting the same rational are identical. */
  lemma SameValueIsSame(f: Fraction, g: Fraction)
    requires AsReal(f) == AsReal(g)
    ensures f == g
  {
    RealToCross(f.num, f.den, g.num, g.den);
    Canonical(f, g);
  }

  /**
    Two constructions from arguments denoting the same rational yield the
    same fraction (`Fraction(1, 2)` and `Fraction(2, 4)` are identical).
   */
  lemma MakeCanonical(n1: int, d1: int, n2: int, d2: int)
    requires d1 != 0 && d2 != 0
    requires n1 * d2 == n2 * d1
    ensures Make(n1, d1).Ok? && Make(n1, d1) == Make(n2, d2)
  {
    CrossToReal(n1, d1, n2, d2);
    SameValueIsSame(Make(n1, d1).value, Make(n2, d2).value);
  }

  /** An integer `n` over 1 is already canonical. */
  lemma WholeIsCanonical(n: int)
    ensures Frac(n, 1).Valid()
  {
    CoprimeFromCombination(n, 1, 0, 1);
  }

  /** Constructing `n/1` performs no reduction. */
  lemma MakeWhole(n: int)
    ensures Make(n, 1) == Ok(Frac(n, 1))
  {
    WholeIsCanonical(n);
    Canonical(Make(n, 1).value, Frac(n, 1));
  }

  /**
    Constructing from coprime parts performs no reduction: only the sign
    moves to the numerator.
   */
  lemma MakeCoprime(num: int, den: int)
    requires den != 0 && Coprime(num, den)
    ensures Make(num, den) == Ok(if den > 0 then Frac(num, den) else Frac(-num, -den))
  {
    if den < 0 {
      CoprimeNegateBoth(num, den);
    }
    var g: Fraction := if den > 0 then Frac(num, den) else Frac(-num, -den);
    Canonical(Make(num, den).value, g);
  }

  /** A right-hand operand of a binary operator: an int, a fraction or anything else. */
  datatype Operand = IntOperand(n: int) | FracOperand(f: Fraction) | OtherOperand

  /**
    The source's `__set_fraction_param`: an int `n` becomes `Fraction(n)`,
    a fraction is kept, anything else is rejected.
   */
  function Coerce(other: Operand): (r: Result<Fraction, Error>)
    ensures r.Err? <==> other.OtherOperand?
    ensures r.Err? ==> r.error == ValueError
    ensures other.IntOperand? ==> r == Ok(Frac(other.n, 1))
    ensures other.FracOperand? ==> r == Ok(other.f)
  {
    match other
    case IntOperand(n) => MakeWhole(n); Make(n, 1)
    case FracOperand(f) => Ok(f)
    case OtherOperand => Err(ValueError)
  }
}
