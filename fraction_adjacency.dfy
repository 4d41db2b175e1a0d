/**
  Adjacency: two fractions are adjacent when the absolute value of their
  difference is a unit fraction. The source takes that absolute value with
  Python's `abs()`, which a fraction does not support, so the query as
  written always fails; both the written and the intended behaviour are
  modelled here.
 */
module FractionAdjacency {
  import opened Results
  import opened IntMath
  import opened Fractions
  import opened FractionPredicates
  import opened FractionArith

  /** The absolute value of a real number. */
  function RealAbs(x: real): (r: real)
    ensures r >= 0.0 && (r == x || r == -x)
  {
    if x < 0.0 then -x else x
  }

  /** The absolute value of a fraction: the numerator loses its sign, the denominator stays. */
  function AbsFraction(f: Fraction): (r: Fraction)
    ensures r.num >= 0 && r.den == f.den
    ensures AsReal(r) == RealAbs(AsReal(f))
  {
    CoprimeNegate(f.num, f.den);
    Frac(Abs(f.num), f.den)
  }

  /**
    `is_adjacent_to` as written: the subtraction runs first (and raises
    `ValueError` for an operand that is neither an int nor a fraction), then
    `abs()` of the fraction difference raises `TypeError`.
   */
  function IsAdjacentToAsWritten(a: Fraction, other: Operand): (r: Result<bool, Error>)
    ensures r.Err?
    ensures r.error == (if other.OtherOperand? then ValueError else TypeError)
  {
    var difference :- Sub(a, other);
    Err(TypeError)
  }

  /**
    Adjacency of two fractions as intended: the absolute difference has
    numerator 1 in lowest terms.
   */
  function Adjacent(a: Fraction, b: Fraction): (r: bool)
    ensures var d := RealAbs(AsReal(a) - AsReal(b));
      r <==> d > 0.0 && (1.0 / d).Floor as real == 1.0 / d
  {
    IsUnit(AbsFraction(SubFractions(a, b)))
  }

  /** `is_adjacent_to` as intended, coercing its operand as the operators do. */
  function IsAdjacentTo(a: Fraction, other: Operand): (r: Result<bool, Error>)
    ensures other.OtherOperand? ==> r == Err(ValueError)
    ensures other.IntOperand? ==> r == Ok(Adjacent(a, Frac(other.n, 1)))
    ensures other.FracOperand? ==> r == Ok(Adjacent(a, other.f))
  {
    var difference :- Sub(a, other);
    Ok(IsUnit(AbsFraction(difference)))
  }

  /** Adjacency is symmetric. */
  lemma AdjacentSymmetric(a: Fraction, b: Fraction)
    ensures Adjacent(a, b) == Adjacent(b, a)
  {
    assert RealAbs(AsReal(a) - AsReal(b)) == RealAbs(AsReal(b) - AsReal(a));
  }

  /** No fraction is adjacent to itself (the difference 0 is not a unit fraction). */
  lemma NotAdjacentToItself(a: Fraction)
    ensures !Adjacent(a, a)
  {
  }

  /**
    Adjacent fractions differ by exactly `1/k` for the denominator `k` of
    their reduced difference.
   */
  lemma AdjacentDifference(a: Fraction, b: Fraction)
    requires Adjacent(a, b)
    ensures var k := SubFractions(a, b).den;
      RealAbs(AsReal(a) - AsReal(b)) == 1.0 / k as real
  {
    var d := AbsFraction(SubFractions(a, b));
    assert IsUnit(d);
  }

  /**
    The two behaviours disagree on the source's own example: for `1/2` and
    `2/3` the intended answer is `True` (their difference is `1/6`), but the
    written code raises `TypeError`.
   */
  lemma AdjacencyCounterexample()
    ensures IsAdjacentToAsWritten(Frac(1, 2), FracOperand(Frac(2, 3))) == Err(TypeError)
    ensures IsAdjacentTo(Frac(1, 2), FracOperand(Frac(2, 3))) == Ok(true)
  {
    var a: Fraction := Frac(1, 2);
    var b: Fraction := Frac(2, 3);
    assert AsReal(a) - AsReal(b) == -1.0 / 6.0;
  }
}
