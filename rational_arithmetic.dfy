/**
 * Rational: a fraction num / den on 64-bit integers, normalised on construction
 * (gcd 1, sign on the numerator), with + - * / built by cross-multiplication and
 * renormalisation, and == comparing the two fields.
 */
module RationalArithmetic {
  import opened NumberTheory

  datatype Rational = Rational(num: int, den: int)

  /** The value a fraction with a non-zero denominator stands for. */
  ghost function Value(r: Rational): real
    requires r.den != 0
  {
    r.num as real / r.den as real
  }

  /** In lowest terms with a positive denominator. */
  ghost predicate Normalised(r: Rational)
  {
    r.den > 0 && Gcd(Abs(r.num), r.den) == 1
  }

  /** The default constructor: both fields zero. */
  function Zero(): (r: Rational)
    ensures r.num == 0 && r.den == 0
  {
    Rational(0, 0)
  }

  /**
   * Rational(x, y): divides both by std::gcd(x, y) (1 when both are zero), takes the
   * absolute value of the denominator and moves its sign to the numerator.
   */
  function Make(x: int, y: int): (r: Rational)
    ensures r.den >= 0
    ensures y != 0 ==> Normalised(r) && Value(r) == x as real / y as real
    ensures y != 0 && x == 0 ==> r == Rational(0, 1)
    ensures y == 0 ==> r.den == 0 && (x == 0 ==> r.num == 0) && (x != 0 ==> Abs(r.num) == 1)
  {
    var g0 := GcdInt(x, y);
    var g := if g0 == 0 then 1 else g0;
    var n := CppDiv(x, g);
    var d := Abs(CppDiv(y, g));
    var r := Rational(if y < 0 then -n else n, d);
    MakeFacts(x, y, g0, g, n, d, r);
    r
  }

  /** The proof obligations of Make, with its intermediate values named. */
  lemma MakeFacts(x: int, y: int, g0: nat, g: int, n: int, d: nat, r: Rational)
    requires g0 == GcdInt(x, y) && g == (if g0 == 0 then 1 else g0)
    requires n == CppDiv(x, g) && d == Abs(CppDiv(y, g))
    requires r == Rational(if y < 0 then -n else n, d)
    ensures y != 0 ==> Normalised(r) && Value(r) == x as real / y as real
    ensures y != 0 && x == 0 ==> r == Rational(0, 1)
    ensures y == 0 ==> r.den == 0 && (x == 0 ==> r.num == 0) && (x != 0 ==> Abs(r.num) == 1)
  {
    if x == 0 && y == 0 {
      GcdZero(0);
    } else {
      GcdDivides(Abs(x), Abs(y));
      var kx := SignedQuotient(x, g0);
      var ky := SignedQuotient(y, g0);
      CppDivExact(x, g, kx);
      CppDivExact(y, g, ky);
      if y == 0 {
        GcdZero(Abs(x));
        assert g0 == Abs(x);
        assert x == g0 * kx;
        UnitQuotient(x, kx);
      } else {
        CoprimeQuotients(x, y, g0, kx, ky);
        var num := if y < 0 then -kx else kx;
        assert Abs(num) == Abs(kx) && d == Abs(ky);
        assert num * y == x * d by {
          SignedCross(x, y, g0, kx, ky);
        }
        CrossValue(num, d, x, y);
        if x == 0 {
          GcdZero(Abs(y));
          assert g0 == Abs(y);
          UnitQuotient(y, ky);
        }
      }
    }
  }

  /** x == g * k for the exact quotient k of x by one of its positive divisors g. */
  lemma SignedQuotient(x: int, g: nat) returns (k: int)
    requires g > 0 && Abs(x) % g == 0
    ensures x == g * k
  {
    var a := Abs(x) / g;
    assert Abs(x) == g * a;
    k := if x < 0 then -a else a;
  }

  lemma UnitQuotient(x: int, k: int)
    requires x != 0 && x == Abs(x) * k
    ensures Abs(k) == 1
  {
    if x > 0 {
      CancelPositive(k, 1, x);
    } else {
      CancelPositive(-k, 1, -x);
    }
  }

  /** Dividing out the gcd leaves coprime quotients. */
  lemma CoprimeQuotients(x: int, y: int, g: nat, kx: int, ky: int)
    requires y != 0 && g == GcdInt(x, y) && g > 0
    requires x == g * kx && y == g * ky
    ensures Gcd(Abs(kx), Abs(ky)) == 1
  {
    var s, t := Bezout(Abs(x), Abs(y));
    AbsMul(g, kx);
    AbsMul(g, ky);
    var u, v := Abs(kx), Abs(ky);
    // g * (s * u + t * v) == g, so s * u + t * v == 1
    Factor(g, s, u, t, v);
    CancelPositive(s * u + t * v, 1, g);
    GcdDivides(u, v);
    DividesOne(Gcd(Abs(kx), Abs(ky)), Abs(kx), Abs(ky), s, t);
  }

  lemma Factor(g: int, s: int, u: int, t: int, v: int)
    ensures s * (g * u) + t * (g * v) == (s * u + t * v) * g
  {
  }

  /** A common positive divisor of u and v with s * u + t * v == 1 is 1. */
  lemma DividesOne(c: int, u: int, v: int, s: int, t: int)
    requires c > 0 && u % c == 0 && v % c == 0 && s * u + t * v == 1
    ensures c == 1
  {
    var a, b := u / c, v / c;
    assert u == c * a && v == c * b;
    assert c * (s * a + t * b) == 1;
    if s * a + t * b > 0 {
      MulMonotone(c, s * a + t * b);
    }
  }

  lemma SignedCross(x: int, y: int, g: int, kx: int, ky: int)
    requires g > 0 && y != 0 && x == g * kx && y == g * ky
    ensures (if y < 0 then -kx else kx) * y == x * Abs(ky)
  {
    assert kx * y == x * ky by {
      assert kx * (g * ky) == (g * kx) * ky;
    }
    assert y < 0 <==> ky < 0;
  }

  /** Equal cross products give equal values. */
  lemma CrossValue(a: int, b: int, c: int, d: int)
    requires b != 0 && d != 0 && a * d == c * b
    ensures a as real / b as real == c as real / d as real
  {
    assert (a * d) as real == a as real * d as real;
    assert (c * b) as real == c as real * b as real;
  }

  /** +: (a/b) + (c/d) is (a*d + c*b) / (b*d), renormalised. */
  function Add(p: Rational, q: Rational): (r: Rational)
    ensures p.den != 0 && q.den != 0 ==> Normalised(r) && Value(r) == Value(p) + Value(q)
  {
    var d := p.den * q.den;
    var r := Make(p.num * q.den + q.num * p.den, d);
    AddValue(p.num, p.den, q.num, q.den);
    r
  }

  /** -: (a/b) - (c/d) is (a*d - c*b) / (b*d), renormalised. */
  function Sub(p: Rational, q: Rational): (r: Rational)
    ensures p.den != 0 && q.den != 0 ==> Normalised(r) && Value(r) == Value(p) - Value(q)
  {
    var d := p.den * q.den;
    var r := Make(p.num * q.den - q.num * p.den, d);
    SubValue(p.num, p.den, q.num, q.den);
    r
  }

  /** *: (a/b) * (c/d) is (a*c) / (b*d), renormalised. */
  function Mul(p: Rational, q: Rational): (r: Rational)
    ensures p.den != 0 && q.den != 0 ==> Normalised(r) && Value(r) == Value(p) * Value(q)
  {
    var r := Make(p.num * q.num, p.den * q.den);
    MulValue(p.num, p.den, q.num, q.den);
    r
  }

  /**
   * /: (a/b) / (c/d) is (a*d) / (b*c), renormalised. A zero divisor gives a
   * zero denominator.
   */
  function Div(p: Rational, q: Rational): (r: Rational)
    ensures p.den != 0 && q.den != 0 && q.num != 0 ==> Normalised(r) && Value(r) == Value(p) / Value(q)
    ensures q.num == 0 ==> r.den == 0
  {
    var r := Make(p.num * q.den, p.den * q.num);
    DivValue(p.num, p.den, q.num, q.den);
    r
  }

  lemma AddValue(a: int, b: int, c: int, d: int)
    ensures b != 0 && d != 0 ==>
      (a * d + c * b) as real / (b * d) as real == a as real / b as real + c as real / d as real
  {
    if b != 0 && d != 0 {
      var B, D := b as real, d as real;
      assert (b * d) as real == B * D;
      assert (a * d + c * b) as real == a as real * D + c as real * B;
      assert (a as real * D + c as real * B) / (B * D) == a as real / B + c as real / D;
    }
  }

  lemma SubValue(a: int, b: int, c: int, d: int)
    ensures b != 0 && d != 0 ==>
      (a * d - c * b) as real / (b * d) as real == a as real / b as real - c as real / d as real
  {
    if b != 0 && d != 0 {
      var B, D := b as real, d as real;
      assert (b * d) as real == B * D;
      assert (a * d - c * b) as real == a as real * D - c as real * B;
      assert (a as real * D - c as real * B) / (B * D) == a as real / B - c as real / D;
    }
  }

  lemma MulValue(a: int, b: int, c: int, d: int)
    ensures b != 0 && d != 0 ==>
      (a * c) as real / (b * d) as real == (a as real / b as real) * (c as real / d as real)
  {
    if b != 0 && d != 0 {
      assert (b * d) as real == b as real * d as real;
      assert (a * c) as real == a as real * c as real;
    }
  }

  lemma DivValue(a: int, b: int, c: int, d: int)
    ensures b != 0 && d != 0 && c != 0 ==>
      (a * d) as real / (b * c) as real == (a as real / b as real) / (c as real / d as real)
  {
    if b != 0 && d != 0 && c != 0 {
      assert (b * c) as real == b as real * c as real;
      assert (a * d) as real == a as real * d as real;
    }
  }

  /** ==: field-wise equality. */
  predicate Equal(p: Rational, q: Rational)
  {
    p.num == q.num && p.den == q.den
  }

  /** !=: the negation of ==. */
  predicate NotEqual(p: Rational, q: Rational)
  {
    !Equal(p, q)
  }

  /** On normalised operands, == is equality of values and != its negation. */
  lemma EqualIsValueEquality(p: Rational, q: Rational)
    requires Normalised(p) && Normalised(q)
    ensures Equal(p, q) <==> Value(p) == Value(q)
    ensures NotEqual(p, q) <==> Value(p) != Value(q)
  {
    if Value(p) == Value(q) {
      SameValueCross(p.num, p.den, q.num, q.den);
      NormalisedUnique(p, q);
    }
  }

  lemma SameValueCross(a: int, b: int, c: int, d: int)
    requires b > 0 && d > 0 && a as real / b as real == c as real / d as real
    ensures a * d == c * b
  {
    var B, D := b as real, d as real;
    assert a as real == (c as real / D) * B;
    assert a as real * D == c as real * B;
    assert (a * d) as real == a as real * D;
    assert (c * b) as real == c as real * B;
  }

  /** Two normalised fractions with equal cross products are the same fraction. */
  lemma NormalisedUnique(p: Rational, q: Rational)
    requires Normalised(p) && Normalised(q) && p.num * q.den == q.num * p.den
    ensures p == q
  {
    // p.den divides p.num * q.den and is coprime to p.num, so it divides q.den; and conversely
    MulCommutes(q.num, p.den);
    DividesProduct(p.den, p.num, q.den);
    GcdSymmetric(Abs(p.num), p.den);
    CoprimeDividesFactor(p.den, p.num, q.den);
    MulCommutes(p.num, q.den);
    DividesProduct(q.den, q.num, p.den);
    GcdSymmetric(Abs(q.num), q.den);
    CoprimeDividesFactor(q.den, q.num, p.den);
    MutualDivisors(p.den, q.den);
    assert p.num * p.den == q.num * p.den;
    CancelPositive(p.num, q.num, p.den);
  }

  lemma MulCommutes(a: int, b: int)
    ensures a * b == b * a
  {
  }

  /** d divides x * y when x * y is y' * d for some y'. */
  lemma DividesProduct(d: int, x: int, y: int)
    requires d > 0 && exists k :: x * y == k * d
    ensures (x * y) % d == 0
  {
    var k :| x * y == k * d;
    MultipleMod(d, k);
    assert d * k == k * d;
  }

  lemma MutualDivisors(a: int, b: int)
    requires a > 0 && b > 0 && b % a == 0 && a % b == 0
    ensures a == b
  {
    var i, j := b / a, a / b;
    assert b == a * i && a == b * j;
    if i > 0 { MulMonotone(a, i); }
    if j > 0 { MulMonotone(b, j); }
  }

  lemma CancelPositive(a: int, b: int, c: int)
    requires c > 0 && a * c == b * c
    ensures a == b
  {
    assert (a - b) * c == 0;
  }
}
