/** Integer facts shared by the number-theory programs: C++ remainder, gcd, primality. */
module NumberTheory {

  /** n is prime: at least 2 and no divisor strictly between 1 and n. */
  ghost predicate Prime(n: int)
  {
    n >= 2 && forall d :: 2 <= d < n ==> n % d != 0
  }

  function Abs(x: int): nat
  {
    if x < 0 then -x else x
  }

  /**
   * The C++ `%` operator on 64-bit integers (without the width): the remainder of
   * division truncated toward zero, so it takes the sign of the dividend.
   */
  function CppRem(a: int, b: int): (r: int)
    requires b != 0
    ensures Abs(r) < Abs(b)
    ensures a >= 0 ==> r == a % Abs(b)
    ensures a >= 0 ==> r >= 0
    ensures a < 0 ==> r <= 0
    ensures (a - r) % b == 0
  {
    var m := Abs(a) % Abs(b);
    var r := if a >= 0 then m else -m;
    assert Abs(a) == Abs(b) * (Abs(a) / Abs(b)) + m;
    assert (a - r) % b == 0 by {
      var q := Abs(a) / Abs(b);
      var k := (if a >= 0 then q else -q) * (if b >= 0 then 1 else -1);
      assert a - r == b * k;
      MultipleMod(b, k);
    }
    r
  }

  /** The C++ `/` operator (without the width): division truncated toward zero. */
  function CppDiv(a: int, b: int): int
    requires b != 0
  {
    var q := Abs(a) / Abs(b);
    if (a >= 0) == (b > 0) then q else -q
  }

  /** When b divides a, the truncated quotient is the exact one. */
  lemma CppDivExact(a: int, b: int, k: int)
    requires b != 0 && a == b * k
    ensures CppDiv(a, b) == k
  {
    AbsMul(b, k);
    ExactQuotient(Abs(b), Abs(k));
  }

  lemma MultipleMod(b: int, k: int)
    requires b != 0
    ensures (b * k) % b == 0
  {
    var m := (b * k) % b;
    var d := k - (b * k) / b;
    assert b * d == m;
    if d > 0 {
      MulMonotone(Abs(b), d);
      AbsMul(b, d);
    } else if d < 0 {
      MulMonotone(Abs(b), -d);
      AbsMul(b, -d);
    }
  }

  lemma MulMonotone(a: nat, d: nat)
    requires d >= 1
    ensures a * d >= a
  {
    assert a * d == a + a * (d - 1);
  }

  lemma AbsMul(a: int, b: int)
    ensures Abs(a * b) == Abs(a) * Abs(b)
  {
  }

  /** Greatest common divisor of two naturals; Gcd(0, 0) == 0. */
  function Gcd(a: nat, b: nat): nat
    decreases b
  {
    if b == 0 then a else Gcd(b, a % b)
  }

  /** std::gcd: the gcd of the absolute values. */
  function GcdInt(a: int, b: int): nat
  {
    Gcd(Abs(a), Abs(b))
  }

  /** Bezout: the gcd is an integer combination of its arguments. */
  lemma {:induction false} Bezout(a: nat, b: nat) returns (s: int, t: int)
    ensures s * a + t * b == Gcd(a, b)
    decreases b
  {
    if b == 0 {
      s, t := 1, 0;
    } else {
      var q, r := a / b, a % b;
      var s', t' := Bezout(b, r);
      // s' * b + t' * r == Gcd(b, r) == Gcd(a, b), and r == a - q * b
      assert r == a - q * b;
      s, t := t', s' - t' * q;
      calc {
        s * a + t * b;
        t' * a + s' * b - t' * q * b;
        s' * b + t' * (a - q * b);
        s' * b + t' * r;
      }
    }
  }

  /** Gcd divides both of its arguments. */
  lemma {:induction false} GcdDivides(a: nat, b: nat)
    requires a != 0 || b != 0
    ensures Gcd(a, b) > 0 && a % Gcd(a, b) == 0 && b % Gcd(a, b) == 0
    decreases b
  {
    if b != 0 {
      var q, r := a / b, a % b;
      if r == 0 {
        assert Gcd(b, 0) == b;
        assert a == b * q;
        MultipleMod(b, q);
      } else {
        GcdDivides(b, r);
        var g := Gcd(b, r);
        var kb, kr := b / g, r / g;
        assert b == g * kb && r == g * kr;
        assert a == g * (kb * q + kr);
        MultipleMod(g, kb * q + kr);
      }
    }
  }

  /** Euclid's lemma: a divisor d of x * y that is coprime to x divides y. */
  lemma CoprimeDividesFactor(d: nat, x: int, y: int)
    requires d > 0 && Gcd(d, Abs(x)) == 1 && (x * y) % d == 0
    ensures y % d == 0
  {
    var s, t := Bezout(d, Abs(x));
    // y == s * d * y + t * |x| * y
    var k := (x * y) / d;
    assert x * y == d * k;
    var sx := if x < 0 then -t else t;
    assert t * Abs(x) == sx * x;
    assert y == d * (s * y) + sx * (x * y) by {
      assert s * d + sx * x == 1;
      calc {
        d * (s * y) + sx * (x * y);
        (s * d + sx * x) * y;
        y;
      }
    }
    assert y == d * (s * y + sx * k);
    MultipleMod(d, s * y + sx * k);
  }

  // ---------------------------------------------------------------------------
  // Congruence modulo a positive m.

  /** a and b leave the same remainder modulo m. */
  ghost predicate Congruent(a: int, b: int, m: int)
  {
    m > 0 && (a - b) % m == 0
  }

  /** Congruence is a multiple of m in both directions. */
  lemma CongruentWitness(a: int, b: int, m: int) returns (k: int)
    requires Congruent(a, b, m)
    ensures a - b == m * k
  {
    k := (a - b) / m;
  }

  lemma WitnessCongruent(a: int, b: int, m: int, k: int)
    requires m > 0 && a - b == m * k
    ensures Congruent(a, b, m)
  {
    MultipleMod(m, k);
  }

  lemma CongruentSymmetric(a: int, b: int, m: int)
    requires Congruent(a, b, m)
    ensures Congruent(b, a, m)
  {
    var k := CongruentWitness(a, b, m);
    WitnessCongruent(b, a, m, -k);
  }

  lemma CongruentTransitive(a: int, b: int, c: int, m: int)
    requires Congruent(a, b, m) && Congruent(b, c, m)
    ensures Congruent(a, c, m)
  {
    var k1 := CongruentWitness(a, b, m);
    var k2 := CongruentWitness(b, c, m);
    WitnessCongruent(a, c, m, k1 + k2);
  }

  lemma CongruentAdd(a: int, b: int, c: int, d: int, m: int)
    requires Congruent(a, b, m) && Congruent(c, d, m)
    ensures Congruent(a + c, b + d, m)
  {
    var k1 := CongruentWitness(a, b, m);
    var k2 := CongruentWitness(c, d, m);
    WitnessCongruent(a + c, b + d, m, k1 + k2);
  }

  lemma CongruentMul(a: int, b: int, c: int, d: int, m: int)
    requires Congruent(a, b, m) && Congruent(c, d, m)
    ensures Congruent(a * c, b * d, m)
  {
    var k1 := CongruentWitness(a, b, m);
    var k2 := CongruentWitness(c, d, m);
    // a * c - b * d == (a - b) * c + b * (c - d)
    assert a * c - b * d == (a - b) * c + b * (c - d);
    assert (a - b) * c == m * (k1 * c);
    assert b * (c - d) == m * (b * k2);
    WitnessCongruent(a * c, b * d, m, k1 * c + b * k2);
  }

  /** The C++ remainder is congruent to its dividend. */
  lemma CppRemCongruent(a: int, m: int)
    requires m > 0
    ensures Congruent(CppRem(a, m), a, m)
  {
    CongruentSymmetric(a, CppRem(a, m), m);
  }

  /** A value in [0, m) congruent to b is b's Euclidean remainder. */
  lemma CongruentRemainder(r: int, b: int, m: int)
    requires Congruent(r, b, m) && 0 <= r < m
    ensures r == b % m
  {
    var k := CongruentWitness(r, b, m);
    var d := b / m;
    assert b == m * d + b % m;
    // r - b % m == m * (k + d) and |r - b % m| < m
    assert r - b % m == m * (k + d);
    if k + d > 0 {
      MulMonotone(m, k + d);
    } else if k + d < 0 {
      MulMonotone(m, -(k + d));
    }
  }

  /** Gcd does not depend on the order of its arguments. */
  lemma GcdSymmetric(a: nat, b: nat)
    ensures Gcd(a, b) == Gcd(b, a)
  {
    if a == 0 {
      GcdZero(b);
    } else if b == 0 {
      GcdZero(a);
    } else if a < b {
      GcdSwap(a, b);
    } else if b < a {
      GcdSwap(b, a);
    }
  }

  lemma GcdZero(a: nat)
    ensures Gcd(0, a) == a && Gcd(a, 0) == a
  {
    if a != 0 {
      assert 0 % a == 0;
      assert Gcd(0, a) == Gcd(a, 0);
    }
  }

  lemma GcdSwap(a: nat, b: nat)
    requires 0 < a < b
    ensures Gcd(a, b) == Gcd(b, a)
  {
    assert a % b == a;
    assert Gcd(a, b) == Gcd(b, a % b);
  }

  /** A remainder that is already in range is the value itself. */
  lemma SmallRemainder(x: int, K: int)
    requires 0 <= x < K
    ensures x % K == x
  {
  }

  /** Congruence modulo a product implies congruence modulo each factor. */
  lemma CongruentFactor(x: int, y: int, n: int, m: int)
    requires n > 0 && m > 0 && Congruent(x, y, n * m)
    ensures Congruent(x, y, n)
  {
    var k := CongruentWitness(x, y, n * m);
    WitnessCongruent(x, y, n, m * k);
  }

  /**
   * Coprime moduli: congruence modulo each gives congruence modulo the product
   * (the uniqueness half of the Chinese remainder theorem).
   */
  lemma CongruentCoprimeProduct(x: int, y: int, n: int, m: int)
    requires n > 0 && m > 0 && Gcd(n, m) == 1
    requires Congruent(x, y, n) && Congruent(x, y, m)
    ensures Congruent(x, y, n * m)
  {
    var k := CongruentWitness(x, y, n);
    // m divides x - y == n * k, and m is coprime to n, so m divides k
    var d := x - y;
    assert d % m == 0 && d == n * k;
    GcdSymmetric(n, m);
    assert Gcd(m, Abs(n)) == 1;
    CoprimeDividesFactor(m, n, k);
    var j := CongruentWitness(k, 0, m);
    MulAssociates(n, m, j);
    WitnessCongruent(x, y, n * m, j);
  }

  lemma MulAssociates(n: int, m: int, j: int)
    ensures n * (m * j) == (n * m) * j
  {
  }

  /** An exact quotient: n * m divided by n is m. */
  lemma ExactQuotient(n: int, m: int)
    requires n >= 1
    ensures (n * m) / n == m
  {
    var K := n * m;
    var d := K / n;
    assert K == n * d + K % n;
    MultipleMod(n, m);
    // n * (m - d) == 0 with n >= 1
    assert n * (m - d) == 0;
    if m - d > 0 {
      MulMonotone(n, m - d);
    }
  }
}
