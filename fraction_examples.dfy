/**
  The cases of the repository's unit tests, each proved of the model. The
  source's `assertEqual` on fractions compares floating-point values; here
  the results are shown to be the expected canonical fractions themselves,
  which is stronger.
 */
module FractionExamples {
  import opened IntMath
  import opened Results
  import opened Fractions
  import opened FractionPredicates
  import opened FractionArith
  import opened FractionText
  import opened FractionAdjacency

  /**
    Constructing `n/d` yields `a/b` when the cross products agree and
    `a * x + b * y == 1` witnesses that `a/b` is in lowest terms.
   */
  lemma Builds(n: int, d: int, a: int, b: int, x: int, y: int)
    requires d != 0 && b > 0 && n * b == a * d && a * x + b * y == 1
    ensures Make(n, d) == Ok(Frac(a, b))
  {
    CoprimeFromCombination(a, b, x, y);
    MakeCanonical(n, d, a, b);
    MakeCoprime(a, b);
  }

  /** A fraction denoting `a / b`, with `a/b` in lowest terms as above, is `a/b`. */
  lemma Denotes(f: Fraction, a: int, b: int, x: int, y: int)
    requires b > 0 && a * x + b * y == 1
    requires AsReal(f) == a as real / b as real
    ensures f == Frac(a, b)
  {
    CoprimeFromCombination(a, b, x, y);
    SameValueIsSame(f, Frac(a, b));
  }

  /** The sum `a + b` is `n/d` when it denotes `n / d` and `n/d` is in lowest terms. */
  lemma AddIs(a: Fraction, b: Fraction, n: int, d: int, x: int, y: int)
    requires d > 0 && n * x + d * y == 1
    requires AsReal(a) + AsReal(b) == n as real / d as real
    ensures Add(a, FracOperand(b)) == Ok(Frac(n, d))
  {
    Denotes(AddFractions(a, b), n, d, x, y);
  }

  /** The difference `a - b` is `n/d` when it denotes `n / d` and `n/d` is in lowest terms. */
  lemma SubIs(a: Fraction, b: Fraction, n: int, d: int, x: int, y: int)
    requires d > 0 && n * x + d * y == 1
    requires AsReal(a) - AsReal(b) == n as real / d as real
    ensures Sub(a, FracOperand(b)) == Ok(Frac(n, d))
  {
    Denotes(SubFractions(a, b), n, d, x, y);
  }

  /** The product `a * b` is `n/d` when it denotes `n / d` and `n/d` is in lowest terms. */
  lemma MulIs(a: Fraction, b: Fraction, n: int, d: int, x: int, y: int)
    requires d > 0 && n * x + d * y == 1
    requires AsReal(a) * AsReal(b) == n as real / d as real
    ensures Mul(a, FracOperand(b)) == Ok(Frac(n, d))
  {
    Denotes(MulFractions(a, b), n, d, x, y);
  }

  /** The quotient `a / b` is `n/d` when it denotes `n / d` and `n/d` is in lowest terms. */
  lemma DivIs(a: Fraction, b: Fraction, n: int, d: int, x: int, y: int)
    requires b.num != 0 && d > 0 && n * x + d * y == 1
    requires AsReal(a) / AsReal(b) == n as real / d as real
    ensures Div(a, FracOperand(b)) == Ok(Frac(n, d))
  {
    Denotes(DivFractions(a, b).value, n, d, x, y);
  }

  /**
    Two fractions whose difference is `n/d` in lowest terms are adjacent
    exactly when `n` is 1 or -1.
   */
  lemma AdjacentIs(a: Fraction, b: Fraction, n: int, d: int, x: int, y: int)
    requires d > 0 && n * x + d * y == 1
    requires AsReal(a) - AsReal(b) == n as real / d as real
    ensures IsAdjacentTo(a, FracOperand(b)) == Ok(Abs(n) == 1)
  {
    Denotes(SubFractions(a, b), n, d, x, y);
  }

  lemma TestInit()
    ensures Make(10, 2) == Ok(Frac(5, 1))
    ensures Make(-8, 4) == Ok(Frac(-2, 1))
    ensures Make(6, -3) == Ok(Frac(-2, 1))
    ensures Make(-15, -5) == Ok(Frac(3, 1))
    ensures Make(0, 0) == Err(ZeroDivisionError)
    ensures Make(10, 0) == Err(ZeroDivisionError)
    ensures Make(1000000, 500000) == Ok(Frac(2, 1))
  {
    Builds(10, 2, 5, 1, 0, 1);
    Builds(-8, 4, -2, 1, 0, 1);
    Builds(6, -3, -2, 1, 0, 1);
    Builds(-15, -5, 3, 1, 0, 1);
    Builds(1000000, 500000, 2, 1, 0, 1);
  }

  lemma TestStrPositive()
    ensures Str(Make(3, 4).value) == "3/4"
    ensures Str(Make(1, 2).value) == "1/2"
  {
    Builds(3, 4, 3, 4, -1, 1);
    Builds(1, 2, 1, 2, 1, 0);
  }

  lemma TestStrNegative()
    ensures Str(Make(5, -2).value) == "-5/2"
    ensures Str(Make(-1, 3).value) == "-1/3"
  {
    Builds(5, -2, -5, 2, 1, 3);
    Builds(-1, 3, -1, 3, -1, 0);
  }

  lemma TestStrWhole()
    ensures Str(Make(-8, -4).value) == "2/1"
    ensures Str(Make(1000000, 500000).value) == "2/1"
  {
    Builds(-8, -4, 2, 1, 0, 1);
    Builds(1000000, 500000, 2, 1, 0, 1);
  }

  lemma TestMixedNumberHalves()
    ensures MixedNumber(Make(5, 2).value) == "2 + 1/2"
  {
    Builds(5, 2, 5, 2, 1, -2);
    var (q, r) := MixedParts(Frac(5, 2));
    assert q == 2 && r.num == 1 && r.den == 2;
  }

  lemma TestMixedNumberThirds()
    ensures MixedNumber(Make(7, 3).value) == "2 + 1/3"
  {
    Builds(7, 3, 7, 3, 1, -2);
    var (q, r) := MixedParts(Frac(7, 3));
    assert q == 2 && r.num == 1 && r.den == 3;
  }

  /** Python floors: the integer part of `-7/2` is `-4`, not `-3`. */
  lemma MixedNumberOfNegative()
    ensures MixedNumber(Make(-7, 2).value) == "-4 + 1/2"
  {
    Builds(-7, 2, -7, 2, 1, 4);
    var (q, r) := MixedParts(Frac(-7, 2));
    assert q == -4 && r.num == 1 && r.den == 2;
  }

  lemma TestAdditionPositive()
    ensures Add(Frac(1, 2), FracOperand(Frac(1, 4))) == Ok(Frac(3, 4))
  {
    AddIs(Frac(1, 2), Frac(1, 4), 3, 4, -1, 1);
  }

  lemma TestAdditionNegative()
    ensures Add(Frac(-1, 2), FracOperand(Frac(1, 4))) == Ok(Frac(-1, 4))
  {
    AddIs(Frac(-1, 2), Frac(1, 4), -1, 4, -1, 0);
  }

  lemma TestAdditionNeutral()
    ensures Add(Frac(3, 4), FracOperand(Frac(0, 1))) == Ok(Frac(3, 4))
  {
    AddIs(Frac(3, 4), Frac(0, 1), 3, 4, -1, 1);
  }

  lemma TestAdditionAbsorbing()
    ensures Add(Frac(1, 2), FracOperand(Frac(0, 1))) == Ok(Frac(1, 2))
  {
    AddIs(Frac(1, 2), Frac(0, 1), 1, 2, 1, 0);
  }

  lemma TestSubtractionPositive()
    ensures Sub(Frac(3, 4), FracOperand(Frac(1, 4))) == Ok(Frac(1, 2))
  {
    SubIs(Frac(3, 4), Frac(1, 4), 1, 2, 1, 0);
  }

  lemma TestSubtractionNegative()
    ensures Sub(Frac(-1, 2), FracOperand(Frac(1, 4))) == Ok(Frac(-3, 4))
  {
    SubIs(Frac(-1, 2), Frac(1, 4), -3, 4, 1, 1);
  }

  lemma TestSubtractionNeutral()
    ensures Sub(Frac(3, 4), FracOperand(Frac(0, 1))) == Ok(Frac(3, 4))
  {
    SubIs(Frac(3, 4), Frac(0, 1), 3, 4, -1, 1);
  }

  lemma TestSubtractionAbsorbing()
    ensures Sub(Frac(1, 2), FracOperand(Frac(0, 1))) == Ok(Frac(1, 2))
  {
    SubIs(Frac(1, 2), Frac(0, 1), 1, 2, 1, 0);
  }

  lemma TestMultiplicationPositive()
    ensures Mul(Frac(1, 2), FracOperand(Frac(2, 3))) == Ok(Frac(1, 3))
  {
    MulIs(Frac(1, 2), Frac(2, 3), 1, 3, 1, 0);
  }

  lemma TestMultiplicationNegative()
    ensures Mul(Frac(-1, 2), FracOperand(Frac(2, 3))) == Ok(Frac(-1, 3))
  {
    MulIs(Frac(-1, 2), Frac(2, 3), -1, 3, -1, 0);
  }

  lemma TestMultiplicationNeutral()
    ensures Mul(Frac(3, 4), FracOperand(Frac(1, 1))) == Ok(Frac(3, 4))
  {
    MulIs(Frac(3, 4), Frac(1, 1), 3, 4, -1, 1);
  }

  lemma TestMultiplicationAbsorbing()
    ensures Mul(Frac(1, 2), FracOperand(Frac(0, 1))) == Ok(Frac(0, 1))
  {
    MulIs(Frac(1, 2), Frac(0, 1), 0, 1, 0, 1);
  }

  lemma TestDivisionPositive()
    ensures Div(Frac(1, 2), FracOperand(Frac(2, 3))) == Ok(Frac(3, 4))
  {
    DivIs(Frac(1, 2), Frac(2, 3), 3, 4, -1, 1);
  }

  lemma TestDivisionNegative()
    ensures Div(Frac(-1, 2), FracOperand(Frac(2, 3))) == Ok(Frac(-3, 4))
  {
    DivIs(Frac(-1, 2), Frac(2, 3), -3, 4, 1, 1);
  }

  lemma TestDivisionNeutral()
    ensures Div(Frac(3, 4), FracOperand(Frac(1, 1))) == Ok(Frac(3, 4))
  {
    DivIs(Frac(3, 4), Frac(1, 1), 3, 4, -1, 1);
  }

  lemma TestDivisionByZero()
    ensures Div(Frac(1, 2), FracOperand(Frac(0, 1))) == Err(ZeroDivisionError)
  {
  }

  lemma TestPower()
    ensures Pow(Frac(2, 3), 2) == Frac(4, 9)
    ensures Pow(Frac(2, 3), -2) == Frac(9, 4)
    ensures Pow(Frac(2, 3), 0) == Frac(1, 1)
  {
    PowNeedsNoReduction(Frac(2, 3), 2);
    assert IntPow(2, 2) == 4 && IntPow(3, 2) == 9;
    PowNegativeSwapsParts(Frac(2, 3), -2);
  }

  lemma TestEquality()
    ensures Equals(Make(1, 2).value, Make(2, 4).value)
    ensures !Equals(Make(3, 4).value, Make(1, 2).value)
  {
    Builds(1, 2, 1, 2, 1, 0);
    Builds(2, 4, 1, 2, 1, 0);
    Builds(3, 4, 3, 4, -1, 1);
  }

  lemma TestFloatConversion()
    ensures AsReal(Make(1, 2).value) == 0.5
    ensures AsReal(Make(-3, 4).value) == -0.75
  {
  }

  lemma TestPredicates()
    ensures IsZero(Make(0, 5).value) && !IsZero(Make(-1, 3).value)
    ensures IsInteger(Make(5, 1).value) && !IsInteger(Make(-3, 4).value)
    ensures IsProper(Make(2, 3).value) && !IsProper(Make(-5, 4).value)
    ensures IsUnit(Make(1, 1).value) && !IsUnit(Make(-3, 4).value)
  {
    Builds(-3, 4, -3, 4, 1, 1);
  }

  /** `-1/1` has numerator `-1`, so it is not a unit fraction. */
  lemma MinusOneIsNotUnit()
    ensures !IsUnit(Make(-1, 1).value)
  {
    MakeWhole(-1);
  }

  /** `2/3` and `5/4` differ by `7/12`, which is not a unit fraction. */
  lemma TestNotAdjacentPositive()
    ensures IsAdjacentTo(Frac(2, 3), FracOperand(Frac(5, 4))) == Ok(false)
  {
    AdjacentIs(Frac(2, 3), Frac(5, 4), -7, 12, 5, 3);
  }

  /** `1/2` and `2/3` differ by `1/6`. */
  lemma TestAdjacentPositive()
    ensures IsAdjacentTo(Frac(1, 2), FracOperand(Frac(2, 3))) == Ok(true)
  {
    AdjacentIs(Frac(1, 2), Frac(2, 3), -1, 6, -1, 0);
  }

  /** `-2/3` and `-5/4` differ by `7/12`. */
  lemma TestNotAdjacentNegative()
    ensures IsAdjacentTo(Frac(-2, 3), FracOperand(Frac(-5, 4))) == Ok(false)
  {
    AdjacentIs(Frac(-2, 3), Frac(-5, 4), 7, 12, -5, 3);
  }

  /** `-1/2` and `-2/3` differ by `1/6`. */
  lemma TestAdjacentNegative()
    ensures IsAdjacentTo(Frac(-1, 2), FracOperand(Frac(-2, 3))) == Ok(true)
  {
    AdjacentIs(Frac(-1, 2), Frac(-2, 3), 1, 6, 1, 0);
  }

  /** Every one of the calls above raises `TypeError` in the code as written. */
  lemma TestIsAdjacentToAsWritten()
    ensures IsAdjacentToAsWritten(Frac(2, 3), FracOperand(Frac(5, 4))) == Err(TypeError)
    ensures IsAdjacentToAsWritten(Frac(1, 2), FracOperand(Frac(2, 3))) == Err(TypeError)
    ensures IsAdjacentToAsWritten(Frac(-2, 3), FracOperand(Frac(-5, 4))) == Err(TypeError)
    ensures IsAdjacentToAsWritten(Frac(-1, 2), FracOperand(Frac(-2, 3))) == Err(TypeError)
  {
  }
}
