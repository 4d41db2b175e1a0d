/**
  The arithmetic operators `+ - * / **` and exact equality. Each binary
  operator coerces its right-hand operand, cross-multiplies on the reduced
  parts and passes the result through the constructor. Each is specified
  against the exact rational arithmetic of Dafny's `real` type.
 */
module FractionArith {
  import opened IntMath
  import opened Results
  import opened Fractions
  import opened FractionPredicates

  /** The sum of two fractions: `(a.num * b.den + b.num * a.den) / (a.den * b.den)`, reduced. */
  function AddFractions(a: Fraction, b: Fraction): (r: Fraction)
    ensures AsReal(r) == AsReal(a) + AsReal(b)
  {
    var m := Make(a.num * b.den + b.num * a.den, a.den * b.den);
    SumValue(a, b, m.value);
    m.value
  }

  /** The difference of two fractions: `(a.num * b.den - b.num * a.den) / (a.den * b.den)`, reduced. */
  function SubFractions(a: Fraction, b: Fraction): (r: Fraction)
    ensures AsReal(r) == AsReal(a) - AsReal(b)
  {
    var m := Make(a.num * b.den - b.num * a.den, a.den * b.den);
    DifferenceValue(a, b, m.value);
    m.value
  }

  /** The product of two fractions: `(a.num * b.num) / (a.den * b.den)`, reduced. */
  function MulFractions(a: Fraction, b: Fraction): (r: Fraction)
    ensures AsReal(r) == AsReal(a) * AsReal(b)
  {
    var m := Make(a.num * b.num, a.den * b.den);
    ProductValue(a, b, m.value);
    m.value
  }

  /**
    The quotient of two fractions: `(a.num * b.den) / (a.den * b.num)`,
    reduced; the constructor raises the division by zero when `b` is zero.
   */
  function DivFractions(a: Fraction, b: Fraction): (r: Result<Fraction, Error>)
    ensures r.Err? <==> b.num == 0
    ensures r.Err? ==> r.error == ZeroDivisionError
    ensures r.Ok? ==> AsReal(b) != 0.0 && AsReal(r.value) == AsReal(a) / AsReal(b)
  {
    var m := Make(a.num * b.den, a.den * b.num);
    if m.Ok? then RatioValue(a, b, m.value); m else m
  }

  /** `__add__`: an int operand `n` is added as `n/1`; any other operand raises `ValueError`. */
  function Add(a: Fraction, other: Operand): (r: Result<Fraction, Error>)
    ensures other.OtherOperand? ==> r == Err(ValueError)
    ensures other.IntOperand? ==> r == Ok(AddFractions(a, Frac(other.n, 1)))
    ensures other.FracOperand? ==> r == Ok(AddFractions(a, other.f))
  {
    var b :- Coerce(other);
    Ok(AddFractions(a, b))
  }

  /** `__sub__`, coercing its operand as `__add__` does. */
  function Sub(a: Fraction, other: Operand): (r: Result<Fraction, Error>)
    ensures other.OtherOperand? ==> r == Err(ValueError)
    ensures other.IntOperand? ==> r == Ok(SubFractions(a, Frac(other.n, 1)))
    ensures other.FracOperand? ==> r == Ok(SubFractions(a, other.f))
  {
    var b :- Coerce(other);
    Ok(SubFractions(a, b))
  }

  /** `__mul__`, coercing its operand as `__add__` does. */
  function Mul(a: Fraction, other: Operand): (r: Result<Fraction, Error>)
    ensures other.OtherOperand? ==> r == Err(ValueError)
    ensures other.IntOperand? ==> r == Ok(MulFractions(a, Frac(other.n, 1)))
    ensures other.FracOperand? ==> r == Ok(MulFractions(a, other.f))
  {
    var b :- Coerce(other);
    Ok(MulFractions(a, b))
  }

  /**
    `__truediv__`, coercing its operand as `__add__` does; the coercion
    error comes first, then the division by zero.
   */
  function Div(a: Fraction, other: Operand): (r: Result<Fraction, Error>)
    ensures other.OtherOperand? ==> r == Err(ValueError)
    ensures other.IntOperand? ==> r == DivFractions(a, Frac(other.n, 1))
    ensures other.FracOperand? ==> r == DivFractions(a, other.f)
  {
    var b :- Coerce(other);
    DivFractions(a, b)
  }

  /**
    `__pow__` with an int exponent: anything to the 0 is `1/1`; zero to a
    non-zero power is `0/1` (also for a negative exponent); a negative
    exponent swaps numerator and denominator; both are raised to `|e|`.
   */
  function Pow(a: Fraction, e: int): (r: Fraction)
    ensures e == 0 ==> r == Frac(1, 1)
    ensures e != 0 && a.num == 0 ==> r == Frac(0, 1)
    ensures e > 0 ==> AsReal(r) == RealPow(AsReal(a), e)
    ensures e < 0 && a.num != 0 ==> AsReal(r) == RealPow(1.0 / AsReal(a), -e)
  {
    if e != 0 && IsZero(a) then
      Make(0, 1).value
    else
      var (n, d) := if e < 0 then (a.den, a.num) else (a.num, a.den);
      var k := Abs(e);
      PowOfParts(a, e);
      Make(IntPow(n, k), IntPow(d, k)).value
  }

  /** What the constructor makes of the (possibly swapped) parts raised to `|e|`. */
  lemma PowOfParts(a: Fraction, e: int)
    requires e == 0 || a.num != 0
    ensures var (n, d) := if e < 0 then (a.den, a.num) else (a.num, a.den);
      && IntPow(d, Abs(e)) != 0
      && (e == 0 ==> Make(IntPow(n, Abs(e)), IntPow(d, Abs(e))) == Ok(Frac(1, 1)))
      && (e > 0 ==> AsReal(Make(IntPow(n, Abs(e)), IntPow(d, Abs(e))).value) == RealPow(AsReal(a), e))
      && (e < 0 ==> AsReal(Make(IntPow(n, Abs(e)), IntPow(d, Abs(e))).value) == RealPow(1.0 / AsReal(a), -e))
  {
    var (n, d) := if e < 0 then (a.den, a.num) else (a.num, a.den);
    PowQuotient(n, d, Abs(e));
    if e == 0 {
      MakeWhole(1);
    } else if e < 0 {
      Reciprocal(a.num, a.den);
    }
  }

  /** `x` to the `k`-th power in exact arithmetic. */
  ghost function RealPow(x: real, k: nat): real {
    if k == 0 then 1.0 else x * RealPow(x, k - 1)
  }

  /**
    `__eq__` decided exactly: equal rationals. The source compares the two
    floating-point values instead.
   */
  function Equals(a: Fraction, b: Fraction): (r: bool)
    ensures r <==> a == b
    ensures r <==> a.num * b.den == b.num * a.den
  {
    EqualValueIffSame(a, b);
    AsReal(a) == AsReal(b)
  }

  /** For canonical fractions, equal value, equal cross products and identity coincide. */
  lemma EqualValueIffSame(a: Fraction, b: Fraction)
    ensures AsReal(a) == AsReal(b) <==> a == b
    ensures a == b <==> a.num * b.den == b.num * a.den
  {
    if AsReal(a) == AsReal(b) {
      SameValueIsSame(a, b);
    }
    if a.num * b.den == b.num * a.den {
      Canonical(a, b);
    }
  }

  // ---------------- Laws of the operators ----------------

  /** `0/1` (or the int 0) is neutral for addition. */
  lemma AddZero(f: Fraction)
    ensures Add(f, FracOperand(Frac(0, 1))) == Ok(f)
    ensures Add(f, IntOperand(0)) == Ok(f)
  {
    SameValueIsSame(AddFractions(f, Frac(0, 1)), f);
  }

  /** Subtracting `0/1` (or the int 0) changes nothing. */
  lemma SubZero(f: Fraction)
    ensures Sub(f, FracOperand(Frac(0, 1))) == Ok(f)
    ensures Sub(f, IntOperand(0)) == Ok(f)
  {
    SameValueIsSame(SubFractions(f, Frac(0, 1)), f);
  }

  /** `1/1` (or the int 1) is neutral for multiplication. */
  lemma MulOne(f: Fraction)
    ensures Mul(f, FracOperand(Frac(1, 1))) == Ok(f)
    ensures Mul(f, IntOperand(1)) == Ok(f)
  {
    SameValueIsSame(MulFractions(f, Frac(1, 1)), f);
  }

  /** `0/1` (or the int 0) absorbs multiplication. */
  lemma MulZero(f: Fraction)
    ensures Mul(f, FracOperand(Frac(0, 1))) == Ok(Frac(0, 1))
    ensures Mul(f, IntOperand(0)) == Ok(Frac(0, 1))
  {
    SameValueIsSame(MulFractions(f, Frac(0, 1)), Frac(0, 1));
  }

  /** Dividing by `1/1` (or the int 1) changes nothing. */
  lemma DivOne(f: Fraction)
    ensures Div(f, FracOperand(Frac(1, 1))) == Ok(f)
    ensures Div(f, IntOperand(1)) == Ok(f)
  {
    SameValueIsSame(DivFractions(f, Frac(1, 1)).value, f);
  }

  /** Dividing by `0/1` (or the int 0) raises the division by zero. */
  lemma DivZero(f: Fraction)
    ensures Div(f, FracOperand(Frac(0, 1))) == Err(ZeroDivisionError)
    ensures Div(f, IntOperand(0)) == Err(ZeroDivisionError)
  {
  }

  /** Addition of fractions is commutative. */
  lemma AddCommutes(a: Fraction, b: Fraction)
    ensures Add(a, FracOperand(b)) == Add(b, FracOperand(a))
  {
    SameValueIsSame(AddFractions(a, b), AddFractions(b, a));
  }

  /** Multiplication of fractions is commutative. */
  lemma MulCommutes(a: Fraction, b: Fraction)
    ensures Mul(a, FracOperand(b)) == Mul(b, FracOperand(a))
  {
    SameValueIsSame(MulFractions(a, b), MulFractions(b, a));
  }

  /** Subtraction undoes addition. */
  lemma SubUndoesAdd(a: Fraction, b: Fraction)
    ensures Sub(Add(a, FracOperand(b)).value, FracOperand(b)) == Ok(a)
  {
    SameValueIsSame(SubFractions(AddFractions(a, b), b), a);
  }

  /** Division by a non-zero fraction undoes multiplication by it. */
  lemma DivUndoesMul(a: Fraction, b: Fraction)
    requires b.num != 0
    ensures Div(Mul(a, FracOperand(b)).value, FracOperand(b)) == Ok(a)
  {
    var p := MulFractions(a, b);
    var r := DivFractions(p, b);
    assert r.Ok?;
    Cancel(a, b, p, r.value);
    assert Mul(a, FracOperand(b)) == Ok(p);
  }

  /**
    A positive power of a canonical fraction needs no reduction: the result
    is the parts raised to the power (coprime parts have coprime powers).
   */
  lemma PowNeedsNoReduction(a: Fraction, e: int)
    requires e > 0
    ensures Pow(a, e) == Frac(IntPow(a.num, e), IntPow(a.den, e))
  {
    if a.num == 0 {
      assert IntPow(a.num, e) == 0 * IntPow(a.num, e - 1) == 0;
      assert Frac(IntPow(a.num, e), IntPow(a.den, e)) == Frac(0, IntPow(a.den, e));
      CoprimePow(a.num, a.den, e);
      ZeroIsCanonical(Frac(0, IntPow(a.den, e)));
    } else {
      CoprimePow(a.num, a.den, e);
      MakeCoprime(IntPow(a.num, e), IntPow(a.den, e));
    }
  }

  /**
    A negative power of a non-zero fraction is the swapped parts raised to
    `|e|`, with the sign moved to the numerator and no further reduction.
   */
  lemma PowNegativeSwapsParts(a: Fraction, e: int)
    requires e < 0 && a.num != 0
    ensures var n, d := IntPow(a.den, -e), IntPow(a.num, -e);
      Pow(a, e) == if d > 0 then Frac(n, d) else Frac(-n, -d)
  {
    CoprimeSymmetric(a.num, a.den);
    CoprimePow(a.den, a.num, -e);
    MakeCoprime(IntPow(a.den, -e), IntPow(a.num, -e));
  }

  // ---------------- Exact arithmetic on quotients ----------------

  /** The constructed sum denotes the sum of the operands. */
  lemma SumValue(a: Fraction, b: Fraction, m: Fraction)
    requires AsReal(m) == (a.num * b.den + b.num * a.den) as real / (a.den * b.den) as real
    ensures AsReal(m) == AsReal(a) + AsReal(b)
  {
    QuotientSum(a.num, a.den, b.num, b.den);
  }

  /** The constructed difference denotes the difference of the operands. */
  lemma DifferenceValue(a: Fraction, b: Fraction, m: Fraction)
    requires AsReal(m) == (a.num * b.den - b.num * a.den) as real / (a.den * b.den) as real
    ensures AsReal(m) == AsReal(a) - AsReal(b)
  {
    QuotientDifference(a.num, a.den, b.num, b.den);
  }

  /** The constructed product denotes the product of the operands. */
  lemma ProductValue(a: Fraction, b: Fraction, m: Fraction)
    requires AsReal(m) == (a.num * b.num) as real / (a.den * b.den) as real
    ensures AsReal(m) == AsReal(a) * AsReal(b)
  {
    QuotientProduct(a.num, a.den, b.num, b.den);
  }

  /** The constructed quotient denotes the quotient of the operands. */
  lemma RatioValue(a: Fraction, b: Fraction, m: Fraction)
    requires a.den * b.num != 0
    requires AsReal(m) == (a.num * b.den) as real / (a.den * b.num) as real
    ensures AsReal(b) != 0.0 && AsReal(m) == AsReal(a) / AsReal(b)
  {
    QuotientRatio(a.num, a.den, b.num, b.den);
  }

  /** The cross-multiplied sum over the product of the denominators is the sum of the quotients. */
  lemma QuotientSum(an: int, ad: int, bn: int, bd: int)
    requires ad > 0 && bd > 0
    ensures ad * bd > 0
    ensures (an * bd + bn * ad) as real / (ad * bd) as real
         == an as real / ad as real + bn as real / bd as real
  {
    ProductAsReal(ad, bd);
    ProductAsReal(an, bd);
    ProductAsReal(bn, ad);
  }

  /** The cross-multiplied difference over the product of the denominators is the difference of the quotients. */
  lemma QuotientDifference(an: int, ad: int, bn: int, bd: int)
    requires ad > 0 && bd > 0
    ensures ad * bd > 0
    ensures (an * bd - bn * ad) as real / (ad * bd) as real
         == an as real / ad as real - bn as real / bd as real
  {
    ProductAsReal(ad, bd);
    ProductAsReal(an, bd);
    ProductAsReal(bn, ad);
  }

  /** The product of the numerators over the product of the denominators is the product of the quotients. */
  lemma QuotientProduct(an: int, ad: int, bn: int, bd: int)
    requires ad > 0 && bd > 0
    ensures ad * bd > 0
    ensures (an * bn) as real / (ad * bd) as real
         == (an as real / ad as real) * (bn as real / bd as real)
  {
    ProductAsReal(ad, bd);
    ProductAsReal(an, bn);
  }

  /** The cross products `an * bd` over `ad * bn` form the quotient of the two quotients. */
  lemma QuotientRatio(an: int, ad: int, bn: int, bd: int)
    requires ad > 0 && bd > 0 && bn != 0
    ensures ad * bn != 0
    ensures (an * bd) as real / (ad * bn) as real
         == (an as real / ad as real) / (bn as real / bd as real)
  {
    ProductAsReal(ad, bn);
    ProductAsReal(an, bd);
  }

  /** A product divided again by its non-zero factor is the other factor. */
  lemma Cancel(a: Fraction, b: Fraction, p: Fraction, q: Fraction)
    requires AsReal(p) == AsReal(a) * AsReal(b)
    requires AsReal(b) != 0.0 && AsReal(q) == AsReal(p) / AsReal(b)
    ensures q == a
  {
    MulThenDiv(AsReal(a), AsReal(b), AsReal(p), AsReal(q));
    SameValueIsSame(q, a);
  }

  /** Multiplying by a non-zero `y` and dividing by it again gives `x` back. */
  lemma MulThenDiv(x: real, y: real, p: real, q: real)
    requires y != 0.0 && p == x * y && q == p / y
    ensures q == x
  {
  }

  /** Conversion to `real` commutes with multiplication. */
  lemma ProductAsReal(x: int, y: int)
    ensures (x * y) as real == x as real * y as real
  {
  }

  /** The reciprocal of `n / d` is `d / n`. */
  lemma Reciprocal(n: int, d: int)
    requires n != 0 && d != 0
    ensures 1.0 / (n as real / d as real) == d as real / n as real
  {
  }

  /** Python's integer `**` agrees with the real power. */
  lemma {:induction false} IntPowAsReal(n: int, k: nat)
    ensures IntPow(n, k) as real == RealPow(n as real, k)
  {
    if k > 0 {
      IntPowAsReal(n, k - 1);
      ProductAsReal(n, IntPow(n, k - 1));
    }
  }

  /** The power of a quotient is the quotient of the powers. */
  lemma {:induction false} RealPowOfQuotient(x: real, y: real, k: nat)
    requires y != 0.0
    ensures RealPow(y, k) != 0.0
    ensures RealPow(x / y, k) == RealPow(x, k) / RealPow(y, k)
  {
    if k > 0 {
      RealPowOfQuotient(x, y, k - 1);
    }
  }

  /** Raising both parts of `n / d` to the `k`-th power raises the quotient. */
  lemma PowQuotient(n: int, d: int, k: nat)
    requires d != 0
    ensures IntPow(d, k) != 0
    ensures IntPow(n, k) as real / IntPow(d, k) as real == RealPow(n as real / d as real, k)
  {
    IntPowAsReal(n, k);
    IntPowAsReal(d, k);
    RealPowOfQuotient(n as real, d as real, k);
  }
}
