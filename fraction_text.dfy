/**
  The two text forms of a fraction: `num/den`, and the mixed number
  `q + r/den` whose integer part `q` is the floor of the value and whose
  fraction part is the non-negative remainder.
 */
module FractionText {
  import opened IntMath
  import opened Results
  import opened IntText
  import opened Fractions
  import opened FractionPredicates

  /**
    In `num/den` with `den > 0`, the `/` follows the numerator's text and a
    `-` can only be the first character.
   */
  lemma SlashTextShape(num: int, den: int)
    requires den > 0
    ensures var n, s := IntToString(num), IntToString(num) + "/" + IntToString(den);
      s[|n|] == '/' && forall i :: 0 < i < |s| ==> s[i] != '-'
  {
    var n, d := IntToString(num), IntToString(den);
    var s := n + "/" + d;
    MinusOnlyAtHead(num);
    assert s[|n|] == '/';
    forall i | 0 < i < |s|
      ensures s[i] != '-'
    {
      if i < |n| {
        assert s[i] == n[i];
      } else if i > |n| {
        assert s[i] == d[i - |n| - 1];
      }
    }
  }

  /** `__str__`: the reduced numerator and denominator separated by `/`. */
  function Str(f: Fraction): (s: string)
    ensures |s| > 0 && (s[0] == '-' <==> AsReal(f) < 0.0)
    ensures '/' in s
    ensures forall i :: 0 < i < |s| ==> s[i] != '-'
  {
    SlashTextShape(f.num, f.den);
    IntToString(f.num) + "/" + IntToString(f.den)
  }

  /**
    The text reads back as the fraction: the part before the first `/` is the
    numerator's text and the part after it the denominator's.
   */
  lemma StrReadsBack(f: Fraction)
    ensures var k := |IntToString(f.num)|;
      k < |Str(f)| && Str(f)[k] == '/' &&
      ParseInt(Str(f)[..k]) == Some(f.num) && ParseInt(Str(f)[k + 1..]) == Some(f.den)
  {
    var n, d := IntToString(f.num), IntToString(f.den);
    var s := Str(f);
    assert s == n + "/" + d;
    assert s[..|n|] == n;
    assert s[|n| + 1..] == d;
    IntRoundTrip(f.num);
    IntRoundTrip(f.den);
  }

  /** Different fractions have different texts. */
  lemma StrInjective(f: Fraction, g: Fraction)
    requires Str(f) == Str(g)
    ensures f == g
  {
    NotInIntText(f.num, '/');
    NotInIntText(g.num, '/');
    SplitUnique(IntToString(f.num), IntToString(f.den), IntToString(g.num), IntToString(g.den), "/");
    IntToStringInjective(f.num, g.num);
    IntToStringInjective(f.den, g.den);
  }

  /**
    The parts of `as_mixed_number`: the integer part `num // den` and the
    fraction `(num % den) / den`, with Python's flooring `//` and `%`.
   */
  function MixedParts(f: Fraction): (r: (int, Fraction))
    ensures r.0 == AsReal(f).Floor
    ensures r.1.den == f.den && 0 <= r.1.num < f.den
    ensures r.0 * f.den + r.1.num == f.num
    ensures AsReal(f) == r.0 as real + AsReal(r.1)
    ensures IsProper(r.1) && AsReal(r.1) >= 0.0
  {
    var q := FloorDiv(f.num, f.den);
    var m := FloorMod(f.num, f.den);
    CoprimeShift(f.num, f.den, q);
    assert m == f.num - q * f.den;
    MakeCoprime(m, f.den);
    FloorDivIsFloor(f.num, f.den);
    FloorOfQuotient(f.num, f.den, q);
    var rem := Make(m, f.den).value;
    MixedValue(f.num, f.den, q, m);
    (q, rem)
  }

  /** If `q * d <= n < q * d + d` then `q` is the floor of `n / d`. */
  lemma FloorOfQuotient(n: int, d: int, q: int)
    requires d > 0 && q * d <= n < q * d + d
    ensures (n as real / d as real).Floor == q
  {
    QuotientBetween(n, d, q);
  }

  /** If `q * d <= n < q * d + d` then `q <= n / d < q + 1`. */
  lemma QuotientBetween(n: int, d: int, q: int)
    requires d > 0 && q * d <= n < q * d + d
    ensures q as real <= n as real / d as real < q as real + 1.0
  {
    var x := n as real / d as real;
    assert n as real == x * d as real;
    assert q as real * d as real <= n as real by {
      assert (q * d) as real == q as real * d as real;
    }
    assert n as real < (q as real + 1.0) * d as real by {
      assert (q * d + d) as real == (q as real + 1.0) * d as real;
    }
    ScaleLess(x, q as real, d as real);
    ScaleLess(x, q as real + 1.0, d as real);
  }

  /** `n / d` is the integer part `q` plus the remainder `m / d`. */
  lemma MixedValue(n: int, d: int, q: int, m: int)
    requires d > 0 && q * d + m == n
    ensures n as real / d as real == q as real + m as real / d as real
  {
    assert (q * d) as real == q as real * d as real;
  }

  /** `as_mixed_number`: the integer part, ` + `, then the text of the fraction part. */
  function MixedNumber(f: Fraction): (s: string)
    ensures var (q, rem) := MixedParts(f);
      s == IntToString(AsReal(f).Floor) + " + " + Str(rem)
  {
    var (q, rem) := MixedParts(f);
    IntToString(q) + " + " + Str(rem)
  }

  /** Different fractions have different mixed-number texts. */
  lemma MixedNumberInjective(f: Fraction, g: Fraction)
    requires MixedNumber(f) == MixedNumber(g)
    ensures f == g
  {
    var (q1, r1) := MixedParts(f);
    var (q2, r2) := MixedParts(g);
    NotInIntText(q1, ' ');
    NotInIntText(q2, ' ');
    SplitUnique(IntToString(q1), Str(r1), IntToString(q2), Str(r2), " + ");
    IntToStringInjective(q1, q2);
    StrInjective(r1, r2);
  }
}
