# Fraction: a verified model of an exact rational number type

This project models the `Fraction` class of `fraction.py`. The class is an
immutable rational number over unbounded integers. Its constructor rejects a
zero denominator, moves the sign into the numerator and divides both parts
by their greatest common divisor. The class also provides the operators
`+ - * / **` (a bare int operand is read as `n/1`), the text forms `num/den`
and `q + r/den`, and the queries `is_zero`, `is_integer`, `is_proper`,
`is_unit` and `is_adjacent_to`.

The model is made of values, as the class is:

- `Frac(num, den)` is a datatype.
- `Fraction` is the subset of canonical values: `den > 0` and
  `gcd(|num|, den) == 1`.
- Every operation is a function that returns a new value. A raised
  exception becomes a `Result` error: `ZeroDivisionError`, `ValueError` or
  `TypeError`.
- Each arithmetic operation and each predicate is specified against an
  independent reference, the exact rational `AsReal(f) == num / den` in
  Dafny's `real` arithmetic. The text forms are specified by reading them
  back (`ParseInt`), and the operand coercion by its three cases.
- Canonicity (`Canonical`, `SameValueIsSame`) turns "denotes the same
  rational" into "has the same fields". The algebraic laws and the unit
  tests are proved through it.

Modules:

| file | module | contents |
|---|---|---|
| results.dfy | `Results` | `Result` and `Option` wrappers |
| int_math.dfy | `IntMath` | absolute value; Python's flooring `//` and `%`; Euclid's gcd (`math.gcd`); Bezout; Euclid's lemma; coprimality facts; integer power |
| fractions.dfy | `Fractions` | the datatype, its invariant, the constructor, canonicity, operand coercion |
| fraction_predicates.dfy | `FractionPredicates` | `is_zero`, `is_integer`, `is_proper`, `is_unit` |
| fraction_arith.dfy | `FractionArith` | `+ - * / **`, exact equality, algebraic laws |
| int_text.dfy | `IntText` | Python's `str(int)`, its inverse parser, unique splitting at a separator |
| fraction_text.dfy | `FractionText` | `__str__`, `as_mixed_number` |
| fraction_adjacency.dfy | `FractionAdjacency` | `is_adjacent_to`, as written and as intended |
| fraction_examples.dfy | `FractionExamples` | the cases of `fractionTest.py` |

Python's `int` is unbounded, so there is no overflow to model. Python's `//`
and `%` round toward negative infinity. They are written out as
`IntMath.FloorDiv` and `IntMath.FloorMod` over Dafny's Euclidean operators.

Where the code and the class's documentation differ, the model follows the
code, except for the floating-point tests listed under "Left out"
(`__eq__`, `is_proper` and the constructor's sign test), which the model
decides exactly on the rational value. `is_adjacent_to` is documented as testing whether the absolute
difference is a unit fraction. The code instead raises `TypeError`, because
it calls `abs()` on a `Fraction`, which defines no `__abs__`. Both behaviours
are modelled; see "Findings".

## Model

| member | source | states |
|---|---|---|
| Fractions.Make | fraction.py:12-32 | Fails with `ZeroDivisionError` exactly when the denominator is 0, including `0/0`. Otherwise the result is canonical (by its type). It denotes the same rational as the inputs (`r.num * den == num * r.den`). Its numerator is negative exactly when the quotient `num / den` is. It is zero exactly when `num` is. A zero numerator gives exactly `0/1`. |
| Fractions.ReduceIsCanonical | fraction.py:24-32 | Sign fixing followed by division by `gcd` gives coprime parts with a positive denominator and the same value as the inputs. |
| Fractions.Reduce | fraction.py:24-32 | The constructor after its zero check: the sign fix, `math.gcd` and the two floor divisions. What it yields is stated by `ReduceIsCanonical`: coprime parts, a positive denominator and the value of the inputs. |
| Fractions.QuotientNegative | fraction.py:25 | The sign test `num / den < 0`, decided on the integers. `QuotientNegativeIsSign` proves that it agrees with the exact quotient. |
| Fractions.QuotientNegativeIsSign | fraction.py:25 | For a non-zero denominator, the integer test holds exactly when the exact quotient `num / den` is negative. |
| Fractions.AsReal | fraction.py:160-166 | The exact rational a fraction denotes, `r * den == num` (the value `__float__` approximates). |
| Fractions.Canonical | fraction.py:24-32 | Two canonical fractions with equal cross products are identical. |
| Fractions.SameValueIsSame | fraction.py:24-32 | Two canonical fractions denoting the same rational are identical. |
| Fractions.MakeCanonical | fraction.py:12-32 | Constructions from arguments with equal cross products yield the same fraction. |
| Fractions.MakeWhole | fraction.py:12-32 | `Fraction(n, 1)` performs no reduction: it is `n/1`. |
| Fractions.MakeCoprime | fraction.py:24-32 | Coprime arguments are not reduced; only the sign of a negative denominator moves to the numerator. |
| Fractions.Coerce | fraction.py:44-57 | An int `n` becomes `n/1`, a fraction is kept, and anything else fails with `ValueError`. |
| IntMath.Abs | fraction.py:24 | Python's `abs` on an int (also applied to the denominator at line 32): non-negative, and equal to the argument or its negation. |
| IntMath.Gcd | fraction.py:30 | `math.gcd` on absolute values: it is 0 only when both arguments are. |
| IntMath.GcdDivides | fraction.py:30-32 | The gcd divides both arguments, so the floor divisions of the constructor are exact. |
| IntMath.Bezout | fraction.py:30-32 | The gcd is an integer combination of the arguments; this makes the reduced parts coprime. |
| IntMath.EuclidDivides | fraction.py:24-32 | If `a` is coprime to `b` and `b` divides `a * c`, then `b` divides `c`; this is the core of canonicity. |
| IntMath.DivideByGcd | fraction.py:30-32 | Dividing both parts by their gcd leaves coprime parts that multiply back to the inputs. |
| IntMath.FloorDiv | fraction.py:31-32 | Python's `//` on ints (also used for the mixed number at line 77). Its floor property is stated by `FloorDivIsFloor`, and its pairing with `%` by `FloorMod`. |
| IntMath.FloorMod | fraction.py:77-78 | Python's `%` with the matching `//`: `(a // b) * b + a % b == a`, and the remainder takes the divisor's sign. |
| IntMath.FloorDivIsFloor | fraction.py:77 | Python's `//` rounds toward negative infinity. |
| IntMath.CoprimeShift | fraction.py:78 | `num - q * den` stays coprime to `den`, so the fraction part of a mixed number needs no reduction. |
| IntMath.IntPow | fraction.py:147-148 | Python's `**=` with a non-negative int exponent: non-zero for a non-zero base and positive for a positive base. Its value is stated by `FractionArith.IntPowAsReal`. |
| IntMath.CoprimePow | fraction.py:147-148 | Powers of coprime numbers are coprime. |
| FractionPredicates.IsZero | fraction.py:170-176 | True exactly when the value is 0, that is, when the fraction is `0/1`. |
| FractionPredicates.IsInteger | fraction.py:178-184 | The denominator is 1 exactly when the value is a whole number, and that number is then `num`. |
| FractionPredicates.IsProper | fraction.py:186-192 | True exactly when `-1 < value < 1`. |
| FractionPredicates.IsUnit | fraction.py:194-200 | True exactly when the value is positive and its reciprocal is a whole number; the value is then `1/den`. |
| FractionPredicates.WholeIffUnitDenominator | fraction.py:178-184 | A canonical fraction denotes a whole number exactly when its denominator is 1. |
| FractionPredicates.UnitIffReciprocalOfWhole | fraction.py:194-200 | A canonical fraction has numerator 1 exactly when it is `1/k` for a positive integer `k`. |
| FractionArith.AddFractions | fraction.py:89-93 | The reduced cross-multiplied sum denotes the sum of the values. |
| FractionArith.SubFractions | fraction.py:101-105 | The reduced cross-multiplied difference denotes the difference of the values. |
| FractionArith.MulFractions | fraction.py:113-117 | The reduced product denotes the product of the values. |
| FractionArith.DivFractions | fraction.py:125-129 | Fails with `ZeroDivisionError` exactly when the divisor is zero; otherwise it denotes the quotient of the values. |
| FractionArith.Add | fraction.py:83-93 | A fraction operand is added as such, an int `n` as `n/1`, and any other operand raises `ValueError`. |
| FractionArith.Sub | fraction.py:95-105 | The same coercion, then subtraction. |
| FractionArith.Mul | fraction.py:107-117 | The same coercion, then multiplication. |
| FractionArith.Div | fraction.py:119-129 | The same coercion; the coercion error comes before the division by zero. |
| FractionArith.Pow | fraction.py:131-149 | Exponent 0 gives `1/1` for every base, zero included. A zero base with a non-zero exponent gives `0/1`, with no error for a negative exponent. Otherwise the value is `x^e`, or `(1/x)^-e` for `e < 0`. |
| FractionArith.PowNeedsNoReduction | fraction.py:140-149 | For `e > 0` the result is exactly `num^e / den^e`. |
| FractionArith.PowNegativeSwapsParts | fraction.py:143-149 | For `e < 0` and a non-zero base the result is `den^-e / num^-e`, with the sign moved to the numerator. |
| FractionArith.Equals | fraction.py:151-158 | Equality of values holds exactly when the fractions are identical, and exactly when the cross products agree. |
| FractionArith.EqualValueIffSame | fraction.py:151-166 | For canonical fractions, equal value, identical fields and equal cross products coincide. |
| FractionArith.AddZero | fractionTest.py:73-79 | `f + 0/1 == f` and `f + 0 == f`. |
| FractionArith.SubZero | fractionTest.py:90-96 | `f - 0/1 == f` and `f - 0 == f`. |
| FractionArith.MulOne | fractionTest.py:107-109 | `f * 1/1 == f` and `f * 1 == f`. |
| FractionArith.MulZero | fractionTest.py:111-113 | `f * 0/1 == 0/1` and `f * 0 == 0/1`. |
| FractionArith.DivOne | fractionTest.py:124-126 | `f / 1/1 == f` and `f / 1 == f`. |
| FractionArith.DivZero | fractionTest.py:128-130 | `f / 0/1` and `f / 0` raise `ZeroDivisionError`. |
| FractionArith.AddCommutes | fraction.py:91-93 | `a + b == b + a`. |
| FractionArith.MulCommutes | fraction.py:115-117 | `a * b == b * a`. |
| FractionArith.SubUndoesAdd | fraction.py:83-105 | `(a + b) - b == a`. |
| FractionArith.DivUndoesMul | fraction.py:107-129 | `(a * b) / b == a` for a non-zero `b`. |
| FractionArith.PowQuotient | fraction.py:147-149 | Raising both parts to `k` raises the quotient to `k`. |
| FractionArith.IntPowAsReal | fraction.py:147-148 | The integer power `b ** e` equals the real power of `b`, for every int base and non-negative exponent. |
| IntText.IntToString | fraction.py:67 | Python's `str(int)`: non-empty, led by `-` exactly for a negative number, all other characters digits. |
| IntText.NatToString | fraction.py:67 | Decimal digits without a leading zero. |
| IntText.IntRoundTrip | fraction.py:67 | Parsing the text of `n` gives back `n`. |
| IntText.IntToStringInjective | fraction.py:67 | Different integers have different texts. |
| IntText.MinusOnlyAtHead | fraction.py:67 | In the text of an int, `-` can occur only as the first character. |
| FractionText.SlashTextShape | fraction.py:61-67 | In `num/den` with a positive denominator, the `/` follows the numerator's text and `-` can occur only as the first character. |
| FractionText.Str | fraction.py:61-67 | The text contains `/`. It starts with `-` exactly when the value is negative, and `-` occurs nowhere else. |
| FractionText.StrReadsBack | fraction.py:61-67 | The text before the first `/` reads back as the numerator and the text after it as the denominator, so `str` is `num/den`. |
| FractionText.StrInjective | fraction.py:61-67 | Different fractions have different texts. |
| FractionText.MixedParts | fraction.py:77-78 | The integer part is the floor of the value. The fraction part has the same denominator and a numerator in `[0, den)`, so it is proper and non-negative. `q * den + r == num`, and `value == q + r/den`. |
| FractionText.MixedNumber | fraction.py:69-79 | The text is the floor of the value, then ` + `, then the text of the proper remainder. |
| FractionText.MixedNumberInjective | fraction.py:69-79 | Different fractions have different mixed-number texts. |
| FractionText.FloorOfQuotient | fraction.py:77 | `q * d <= n < q * d + d` makes `q` the floor of `n / d`. |
| FractionAdjacency.AbsFraction | fraction.py:205-210 | The absolute value keeps the denominator, makes the numerator non-negative and denotes the absolute value. |
| FractionAdjacency.IsAdjacentToAsWritten | fraction.py:202-211 | As written, the query always fails: `ValueError` for a non-numeric operand, otherwise `TypeError` from `abs()`. |
| FractionAdjacency.Adjacent | fraction.py:202-211 | True exactly when the absolute difference `d` is positive and `1/d` is a whole number, that is, when `d` is a unit fraction. |
| FractionAdjacency.IsAdjacentTo | fraction.py:202-211 | The intended query, with the operators' coercion: `ValueError` for a non-numeric operand, otherwise adjacency to the coerced fraction. |
| FractionAdjacency.AdjacentSymmetric | fraction.py:202-211 | Adjacency is symmetric. |
| FractionAdjacency.NotAdjacentToItself | fraction.py:202-211 | No fraction is adjacent to itself. |
| FractionAdjacency.AdjacentDifference | fraction.py:202-211 | Adjacent fractions differ by exactly `1/k`, where `k` is the denominator of their reduced difference. |
| FractionAdjacency.AdjacencyCounterexample | fractionTest.py:174 | On `1/2` and `2/3` the intended query answers `True`, but the written code raises `TypeError`. |
| FractionExamples.TestInit | fractionTest.py:7-39 | `10/2`, `-8/4`, `6/-3`, `-15/-5` and `1000000/500000` reduce to `5/1`, `-2/1`, `-2/1`, `3/1` and `2/1`; `0/0` and `10/0` raise `ZeroDivisionError`. |
| FractionExamples.TestStrPositive | fractionTest.py:43-55 | `"3/4"` and `"1/2"`. |
| FractionExamples.TestStrNegative | fractionTest.py:46-49 | `Fraction(5, -2)` prints `"-5/2"` and `Fraction(-1, 3)` prints `"-1/3"`. |
| FractionExamples.TestStrWhole | fractionTest.py:52-58 | `Fraction(-8, -4)` and `Fraction(1000000, 500000)` print `"2/1"`. |
| FractionExamples.TestMixedNumberHalves | fractionTest.py:61 | `5/2` is `"2 + 1/2"`. |
| FractionExamples.TestMixedNumberThirds | fractionTest.py:62 | `7/3` is `"2 + 1/3"`. |
| FractionExamples.MixedNumberOfNegative | fraction.py:77-79 | `-7/2` is `"-4 + 1/2"`: the integer part is floored. |
| FractionExamples.TestAdditionPositive | fractionTest.py:66-67 | `1/2 + 1/4 == 3/4`. |
| FractionExamples.TestAdditionNegative | fractionTest.py:70-71 | `-1/2 + 1/4 == -1/4`. |
| FractionExamples.TestAdditionNeutral | fractionTest.py:74-75 | `3/4 + 0/1 == 3/4`. |
| FractionExamples.TestAdditionAbsorbing | fractionTest.py:78-79 | `1/2 + 0/1 == 1/2`. |
| FractionExamples.TestSubtractionPositive | fractionTest.py:83-84 | `3/4 - 1/4 == 1/2`. |
| FractionExamples.TestSubtractionNegative | fractionTest.py:87-88 | `-1/2 - 1/4 == -3/4`. |
| FractionExamples.TestSubtractionNeutral | fractionTest.py:91-92 | `3/4 - 0/1 == 3/4`. |
| FractionExamples.TestSubtractionAbsorbing | fractionTest.py:95-96 | `1/2 - 0/1 == 1/2`. |
| FractionExamples.TestMultiplicationPositive | fractionTest.py:100-101 | `1/2 * 2/3 == 1/3`. |
| FractionExamples.TestMultiplicationNegative | fractionTest.py:104-105 | `-1/2 * 2/3 == -1/3`. |
| FractionExamples.TestMultiplicationNeutral | fractionTest.py:108-109 | `3/4 * 1/1 == 3/4`. |
| FractionExamples.TestMultiplicationAbsorbing | fractionTest.py:112-113 | `1/2 * 0/1 == 0/1`. |
| FractionExamples.TestDivisionPositive | fractionTest.py:117-118 | `1/2 / 2/3 == 3/4`. |
| FractionExamples.TestDivisionNegative | fractionTest.py:121-122 | `-1/2 / 2/3 == -3/4`. |
| FractionExamples.TestDivisionNeutral | fractionTest.py:125-126 | `3/4 / 1/1 == 3/4`. |
| FractionExamples.TestDivisionByZero | fractionTest.py:129-130 | `1/2 / 0/1` raises `ZeroDivisionError`. |
| FractionExamples.TestPower | fractionTest.py:132-143 | `(2/3)**2 == 4/9`, `(2/3)**-2 == 9/4` and `(2/3)**0 == 1/1`. |
| FractionExamples.TestEquality | fractionTest.py:145-150 | `1/2 == 2/4` and `3/4 != 1/2`. |
| FractionExamples.TestFloatConversion | fractionTest.py:152-154 | `1/2` denotes `0.5` and `-3/4` denotes `-0.75`. |
| FractionExamples.TestPredicates | fractionTest.py:156-170 | The expectations of the `is_zero`, `is_integer`, `is_proper` and `is_unit` tests. |
| FractionExamples.MinusOneIsNotUnit | fraction.py:194-200 | `-1/1` is not a unit fraction. |
| FractionExamples.TestNotAdjacentPositive | fractionTest.py:173 | `2/3` and `5/4` are not adjacent. |
| FractionExamples.TestAdjacentPositive | fractionTest.py:174 | `1/2` and `2/3` are adjacent. |
| FractionExamples.TestNotAdjacentNegative | fractionTest.py:175 | `-2/3` and `-5/4` are not adjacent. |
| FractionExamples.TestAdjacentNegative | fractionTest.py:176 | `-1/2` and `-2/3` are adjacent. |
| FractionExamples.TestIsAdjacentToAsWritten | fractionTest.py:172-176 | Each of those four calls raises `TypeError` in the code as written. |

## Left out

- FractionArith.Equals: `__eq__` compares `float(self) == float(other)`. The model compares the exact rationals. Two distinct fractions whose floating-point values round to the same double are equal in the source but not in the model.
- `__eq__` against an int or a float operand (fraction.py:158) is not modelled. `Equals` compares two fractions.
- Fractions.AsReal: `__float__` rounds `num / den` to a double. The model keeps the exact rational.
- FractionPredicates.IsProper: `abs(float(self)) < 1` is decided on the exact value, as `|num| < den`. The two agree unless the float rounds to exactly 1.0, which a value very close to 1 can do.
- Fractions.Make: the sign test `num / den < 0` (fraction.py:25) is a floating-point test. The model decides it exactly. The two differ in two cases:
  - A quotient whose magnitude is below the smallest double rounds to `-0.0`. The source then keeps the numerator positive, so `Fraction(-1, 10**400)` gets the wrong sign.
  - A quotient above the largest double raises `OverflowError`. Neither case is modelled.
- FractionText.Str, FractionText.MixedNumber: Python (3.11 and later, and the security releases of 3.7 to 3.10) raises `ValueError` when it converts an int of more than 4300 decimal digits to text, so `__str__` and `as_mixed_number` (fraction.py:67, :79) fail for such parts. The model has no digit limit and always returns the text.
- `__pow__` with an exponent that is not an int (fraction.py:131) is not modelled. `Pow` takes an int.
- Run-time `isinstance` dispatch (fraction.py:51-55) becomes the `Operand` sum type. Python's `bool`, a subclass of `int`, is an `IntOperand`.
- The `numerator` and `denominator` properties (fraction.py:34-40) are the fields `num` and `den`.
- The console demonstration under `if __name__ == '__main__'` (fraction.py:213-245) is only I/O.
- The unittest scaffolding of fractionTest.py is not modelled. Its assertions are the lemmas of `FractionExamples`. They prove exact equality of canonical fractions, which is stronger than the floating-point `assertEqual` of the tests.

## Findings

| source | as written | input that shows it | evidently intended | confidence | as-written member | corrected member |
|---|---|---|---|---|---|---|
| fraction.py:210 | `abs(self - other)` applies `abs()` to a `Fraction`, which defines no `__abs__`, so every call raises `TypeError` | `Fraction(1, 2).is_adjacent_to(Fraction(2, 3))`, expected `True` by fractionTest.py:174 | the absolute value of the difference: numerator made non-negative, same denominator; then `is_unit` | high (not executed) | FractionAdjacency.IsAdjacentToAsWritten, FractionAdjacency.AdjacencyCounterexample | FractionAdjacency.IsAdjacentTo, FractionAdjacency.AbsFraction |
