/**
  Integer helpers the fraction type relies on: Python's `abs`, floor
  division `//` and modulo `%`, `math.gcd` (as Euclid's algorithm) and
  integer `**` with a non-negative exponent, together with the facts about
  divisibility and coprimality that make reduced fractions canonical.
 */
module IntMath {

  /** Python's `abs` on an int. */
  function Abs(x: int): (r: int)
    ensures r >= 0 && (r == x || r == -x)
  {
    if x < 0 then -x else x
  }

  /** Python's floor division `a // b`: rounds toward negative infinity. */
  function FloorDiv(a: int, b: int): int
    requires b != 0
  {
    if b > 0 then a / b else (-a) / (-b)
  }

  /** `FloorDiv` is the floor of the exact quotient. */
  lemma FloorDivIsFloor(a: int, b: int)
    requires b != 0
    ensures b > 0 ==> FloorDiv(a, b) * b <= a < FloorDiv(a, b) * b + b
    ensures b < 0 ==> FloorDiv(a, b) * b + b < a <= FloorDiv(a, b) * b
  {
  }

  /** Python's modulo `a % b`: the remainder takes the sign of the divisor. */
  function FloorMod(a: int, b: int): (r: int)
    requires b != 0
    ensures FloorDiv(a, b) * b + r == a
    ensures b > 0 ==> 0 <= r < b
    ensures b < 0 ==> b < r <= 0
  {
    a - FloorDiv(a, b) * b
  }

  /** Floor division by an exact divisor gives the exact quotient. */
  lemma ExactFloorDiv(a: int, g: int, p: int)
    requires g > 0 && a == g * p
    ensures FloorDiv(a, g) == p
  {
    var q := FloorDiv(a, g);
    FloorDivIsFloor(a, g);
    // q * g <= g * p < q * g + g, so g * (p - q) lies in [0, g)
    assert g * (p - q) == a - q * g;
    if p - q >= 1 {
      MulMonotone(g, p - q);
    } else if p - q <= -1 {
      MulMonotone(g, q - p);
    }
  }

  /** A positive factor times a positive factor is at least the first one. */
  lemma MulMonotone(g: int, k: int)
    requires g > 0 && k >= 1
    ensures g * k >= g
  {
    assert g * k == g + g * (k - 1);
  }

  /** A natural number that divides 1 is 1. */
  lemma DividesOne(g: nat, m: int)
    requires g * m == 1
    ensures g == 1 && m == 1
  {
    if m > 0 {
      MulMonotone(g, m);
      MulMonotone(m, g);
    }
  }

  /** `math.gcd` on non-negative arguments, computed by Euclid's algorithm. */
  function Gcd(a: nat, b: nat): (g: nat)
    ensures g == 0 <==> a == 0 && b == 0
    decreases b
  {
    if b == 0 then a else Gcd(b, a % b)
  }

  /** The gcd divides both arguments; the lemma returns the two cofactors. */
  lemma {:induction false} GcdDivides(a: nat, b: nat) returns (p: nat, q: nat)
    ensures a == Gcd(a, b) * p && b == Gcd(a, b) * q
    decreases b
  {
    if b == 0 {
      p, q := 1, 0;
    } else {
      var p', q' := GcdDivides(b, a % b);
      var k, r := a / b, a % b;
      assert a == b * k + r;
      p, q := p' * k + q', p';
      Recombine(a, b, Gcd(b, r), p', q', k, r);
    }
  }

  /** A common factor of the divisor and the remainder divides the dividend. */
  lemma Recombine(a: int, b: int, g: int, p': int, q': int, k: int, r: int)
    requires a == b * k + r && b == g * p' && r == g * q'
    ensures a == g * (p' * k + q')
  {
    assert b * k == g * (p' * k);
  }

  /** Bezout's identity: the gcd is an integer combination of the arguments. */
  lemma {:induction false} Bezout(a: nat, b: nat) returns (x: int, y: int)
    ensures a * x + b * y == Gcd(a, b)
    decreases b
  {
    if b == 0 {
      x, y := 1, 0;
    } else {
      var x', y' := Bezout(b, a % b);
      x, y := y', x' - (a / b) * y';
      BezoutStep(a, b, Gcd(b, a % b), a / b, a % b, x', y');
    }
  }

  /** A combination for the divisor and the remainder gives one for the dividend. */
  lemma BezoutStep(a: int, b: int, g: int, k: int, r: int, x': int, y': int)
    requires a == b * k + r && b * x' + r * y' == g
    ensures a * y' + b * (x' - k * y') == g
  {
    assert r * y' == a * y' - b * k * y';
  }

  /** Two integers are coprime when the gcd of their absolute values is 1. */
  predicate Coprime(a: int, b: int) {
    Gcd(Abs(a), Abs(b)) == 1
  }

  /** A combination of two naturals equal to 1 makes their gcd 1. */
  lemma GcdOneFromCombination(a: nat, b: nat, x: int, y: int)
    requires a * x + b * y == 1
    ensures Gcd(a, b) == 1
  {
    var p, q := GcdDivides(a, b);
    CommonFactorOfOne(a, b, Gcd(a, b), p, q, x, y);
  }

  /** A common factor of two numbers with a combination equal to 1 is 1. */
  lemma CommonFactorOfOne(a: int, b: int, g: nat, p: int, q: int, x: int, y: int)
    requires a == g * p && b == g * q
    requires a * x + b * y == 1
    ensures g == 1
  {
    assert a * x == g * (p * x);
    assert b * y == g * (q * y);
    assert g * (p * x) + g * (q * y) == g * (p * x + q * y);
    DividesOne(g, p * x + q * y);
  }

  /** An integer combination equal to 1 witnesses coprimality. */
  lemma CoprimeFromCombination(a: int, b: int, x: int, y: int)
    requires a * x + b * y == 1
    ensures Coprime(a, b)
  {
    var x' := if a < 0 then -x else x;
    var y' := if b < 0 then -y else y;
    assert Abs(a) * x' == a * x;
    assert Abs(b) * y' == b * y;
    GcdOneFromCombination(Abs(a), Abs(b), x', y');
  }

  /** Coprime integers have an integer combination equal to 1. */
  lemma CombinationFromCoprime(a: int, b: int) returns (x: int, y: int)
    requires Coprime(a, b)
    ensures a * x + b * y == 1
  {
    var x', y' := Bezout(Abs(a), Abs(b));
    x := if a < 0 then -x' else x';
    y := if b < 0 then -y' else y';
  }

  /**
    Euclid's lemma: when `b` divides `a * c` and `a` is coprime to `b`,
    `b` divides `c`; the lemma returns the cofactor.
   */
  lemma EuclidDivides(a: int, b: int, c: int, k: int) returns (m: int)
    requires Coprime(a, b)
    requires a * c == b * k
    ensures c == b * m
  {
    var x, y := CombinationFromCoprime(a, b);
    m := k * x + c * y;
    FactorThroughCombination(a, b, c, k, x, y);
  }

  /** Multiplying a combination equal to 1 by `c` exposes `b` as a factor of `c`. */
  lemma FactorThroughCombination(a: int, b: int, c: int, k: int, x: int, y: int)
    requires a * x + b * y == 1 && a * c == b * k
    ensures c == b * (k * x + c * y)
  {
    assert c == c * (a * x + b * y);
    assert c * (a * x + b * y) == (a * c) * x + (b * c) * y;
    assert (a * c) * x == b * (k * x);
  }

  /** The cofactors left after dividing two numbers by their gcd are coprime. */
  lemma CoprimeCofactors(a: nat, b: nat) returns (p: nat, q: nat)
    requires a != 0 || b != 0
    ensures a == Gcd(a, b) * p && b == Gcd(a, b) * q
    ensures Coprime(p, q)
  {
    var g := Gcd(a, b);
    p, q := GcdDivides(a, b);
    var x, y := Bezout(a, b);
    assert a * x == g * (p * x);
    assert b * y == g * (q * y);
    assert g * (p * x) + g * (q * y) == g * (p * x + q * y);
    CancelLeft(g, 1, p * x + q * y);
    CoprimeFromCombination(p, q, x, y);
  }

  /** Coprimality ignores signs. */
  lemma CoprimeNegate(a: int, b: int)
    requires Coprime(a, b)
    ensures Coprime(-a, b)
  {
    assert Abs(-a) == Abs(a);
  }

  /**
    Dividing a (signed) numerator and a positive denominator by their gcd
    gives exact quotients that are coprime, with a positive denominator.
   */
  lemma DivideByGcd(s: int, d: int, g: int)
    requires d > 0 && g == Gcd(Abs(s), d)
    ensures g > 0
    ensures FloorDiv(s, g) * g == s && FloorDiv(d, g) * g == d
    ensures FloorDiv(d, g) > 0
    ensures Coprime(FloorDiv(s, g), FloorDiv(d, g))
  {
    var p, q := CoprimeCofactors(Abs(s), d);
    var sp := SignedCofactor(s, g, p);
    ExactFloorDiv(d, g, q);
    PositiveFactor(g, q);
    if s < 0 {
      CoprimeNegate(p, q);
    }
  }

  /** Floor division of a signed number by a divisor of its absolute value. */
  lemma SignedCofactor(s: int, g: int, p: int) returns (sp: int)
    requires g > 0 && Abs(s) == g * p
    ensures sp == (if s < 0 then -p else p)
    ensures FloorDiv(s, g) == sp && sp * g == s
  {
    sp := if s < 0 then -p else p;
    assert s == g * sp;
    ExactFloorDiv(s, g, sp);
  }

  /** A factor of a positive product with a positive cofactor is positive. */
  lemma PositiveFactor(g: int, q: int)
    requires g > 0 && g * q > 0
    ensures q > 0
  {
    if q < 0 {
      MulMonotone(g, -q);
    }
  }

  /** A positive factor can be cancelled from both sides of an equation. */
  lemma CancelLeft(g: int, u: int, v: int)
    requires g > 0 && g * u == g * v
    ensures u == v
  {
    if u < v {
      MulMonotone(g, v - u);
    } else if v < u {
      MulMonotone(g, u - v);
    }
  }

  /** Python's `b ** e` for a non-negative exponent (`0 ** 0 == 1`). */
  function IntPow(b: int, e: nat): (r: int)
    ensures b != 0 ==> r != 0
    ensures b > 0 ==> r > 0
  {
    if e == 0 then 1 else b * IntPow(b, e - 1)
  }

  /** Coprimality is kept when one side is multiplied by another number coprime to the first. */
  lemma CoprimeMul(a: int, b: int, c: int)
    requires Coprime(a, b) && Coprime(a, c)
    ensures Coprime(a, b * c)
  {
    var x1, y1 := CombinationFromCoprime(a, b);
    var x2, y2 := CombinationFromCoprime(a, c);
    ProductCombination(a, b, c, x1, y1, x2, y2);
    CoprimeFromCombination(a, b * c, x1 + b * y1 * x2, y1 * y2);
  }

  /** Multiplying two combinations equal to 1 gives one for the product. */
  lemma ProductCombination(a: int, b: int, c: int, x1: int, y1: int, x2: int, y2: int)
    requires a * x1 + b * y1 == 1 && a * x2 + c * y2 == 1
    ensures a * (x1 + b * y1 * x2) + (b * c) * (y1 * y2) == 1
  {
    assert b * y1 == b * y1 * (a * x2 + c * y2);
    assert b * y1 * (a * x2 + c * y2) == a * (b * y1 * x2) + (b * c) * (y1 * y2);
  }

  /** Coprimality is symmetric. */
  lemma CoprimeSymmetric(a: int, b: int)
    requires Coprime(a, b)
    ensures Coprime(b, a)
  {
    var x, y := CombinationFromCoprime(a, b);
    CoprimeFromCombination(b, a, y, x);
  }

  /** Raising the right side of a coprime pair to a power keeps it coprime. */
  lemma {:induction false} CoprimePowRight(a: int, b: int, e: nat)
    requires Coprime(a, b)
    ensures Coprime(a, IntPow(b, e))
  {
    if e == 0 {
      CoprimeFromCombination(a, 1, 0, 1);
    } else {
      CoprimePowRight(a, b, e - 1);
      CoprimeMul(a, b, IntPow(b, e - 1));
    }
  }

  /** Powers of coprime integers are coprime. */
  lemma CoprimePow(a: int, b: int, e: nat)
    requires Coprime(a, b)
    ensures Coprime(IntPow(a, e), IntPow(b, e))
  {
    CoprimePowRight(a, b, e);
    CoprimeSymmetric(a, IntPow(b, e));
    CoprimePowRight(IntPow(b, e), a, e);
    CoprimeSymmetric(IntPow(b, e), IntPow(a, e));
  }

  /** Subtracting a multiple of `b` from `a` keeps `a` coprime to `b`. */
  lemma CoprimeShift(a: int, b: int, q: int)
    requires Coprime(a, b)
    ensures Coprime(a - q * b, b)
  {
    var x, y := CombinationFromCoprime(a, b);
    assert (a - q * b) * x + b * (y + q * x) == a * x + b * y;
    CoprimeFromCombination(a - q * b, b, x, y + q * x);
  }

  /** Coprimality depends only on the absolute values. */
  lemma CoprimeNegateBoth(a: int, b: int)
    requires Coprime(a, b)
    ensures Coprime(-a, -b)
  {
    assert Abs(-a) == Abs(a) && Abs(-b) == Abs(b);
  }
}
