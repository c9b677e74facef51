/**
 * ModularOP: arithmetic modulo n on 64-bit integers, with division through the
 * modular inverse that the extended Euclidean algorithm computes.
 */
module ModularArithmetic {
  import opened NumberTheory

  /**
   * exteuclid(y, n): for y coprime to n, the inverse of y modulo n in [0, n).
   * The loop runs Euclid on (y, n) carrying the coefficient of y in each remainder;
   * for n == 1, and whenever y <= 1 so that the loop never runs, the answer is 1.
   */
  method ExtEuclid(y0: int, n0: int) returns (r: int)
    requires n0 >= 1 && (y0 > 1 ==> Gcd(y0, n0) == 1)
    ensures y0 <= 1 || n0 == 1 ==> r == 1
    ensures n0 > 1 && y0 >= 0 && Gcd(y0, n0) == 1 ==> 0 <= r < n0 && Congruent(r * y0, 1, n0)
  {
    if n0 == 1 {
      return 1;
    }
    var y, n := y0, n0;
    var a, b := 0, 1;
    // y - b * y0 == ky * n0 and n - a * y0 == kn * n0: each remainder is its
    // coefficient times y0, modulo n0
    ghost var ky, kn := 0, 1;
    while y > 1
      invariant y0 <= 1 ==> y == y0 && b == 1
      invariant EuclidState(y0, n0, y, n, a, b, ky, kn)
      decreases n
    {
      EuclidDivisor(y0, n0, y, n, a, b, ky, kn);
      var q := y / n;
      EuclidStep(y0, n0, y, n, a, b, ky, kn, q);
      // (y, n) := (n, y % n) and (a, b) := (b - q * a, a), through the temporary t
      var t := n;
      n := y % n;
      y := t;
      t := a;
      a := b - q * a;
      b := t;
      ky, kn := kn, ky - q * kn;
    }
    r := if b < 0 then b + n0 else b;
    ExitState(y0, n0, y, n, a, b, ky, kn);
  }

  /** The state in which the loop stops yields the promised inverse. */
  lemma ExitState(y0: int, n0: int, y: int, n: int, a: int, b: int, ky: int, kn: int)
    requires n0 > 1 && (y0 > 1 ==> Gcd(y0, n0) == 1)
    requires y <= 1 && (y0 <= 1 ==> y == y0 && b == 1)
    requires EuclidState(y0, n0, y, n, a, b, ky, kn)
    ensures var r := if b < 0 then b + n0 else b;
      && (y0 <= 1 ==> r == 1)
      && (y0 >= 0 && Gcd(y0, n0) == 1 ==> 0 <= r < n0 && Congruent(r * y0, 1, n0))
  {
    if y0 > 1 {
      assert y == 1;
      InverseInRange(y0, n0, b, ky);
    } else if y0 == 1 {
      WitnessCongruent(1 * y0, 1, n0, 0);
    } else if y0 == 0 {
      assert Gcd(y0, n0) == n0;
    }
  }

  /**
   * The loop state of exteuclid: each remainder is its coefficient times y0 modulo n0
   * (with witnesses ky, kn), and once the loop can run the remainders stay coprime,
   * their cross sum with the coefficients' magnitudes is n0, and the coefficients have
   * opposite signs with |b| < n0.
   */
  ghost predicate EuclidState(y0: int, n0: int, y: int, n: int, a: int, b: int, ky: int, kn: int)
  {
    && y - b * y0 == ky * n0 && n - a * y0 == kn * n0
    && (y0 > 1 ==>
          && y >= 1 && n >= 0 && Gcd(y, n) == 1
          && Abs(a) * y + Abs(b) * n == n0 && a * b <= 0 && Abs(b) < n0)
  }

  /** In the loop, Gcd(y, 0) == y > 1 rules out a zero divisor. */
  lemma EuclidDivisor(y0: int, n0: int, y: int, n: int, a: int, b: int, ky: int, kn: int)
    requires y > 1 && (y0 <= 1 ==> y == y0)
    requires EuclidState(y0, n0, y, n, a, b, ky, kn)
    ensures n > 0
  {
  }

  /** One pass of the loop body keeps the loop state, and its divisor is not zero. */
  lemma EuclidStep(y0: int, n0: int, y: int, n: int, a: int, b: int, ky: int, kn: int, q: int)
    requires n0 > 1 && y > 1 && (y0 <= 1 ==> y == y0) && n > 0 && q == y / n
    requires EuclidState(y0, n0, y, n, a, b, ky, kn)
    ensures y % n < n
    ensures EuclidState(y0, n0, n, y % n, b - q * a, a, kn, ky - q * kn)
  {
    assert y % n == y - q * n;
    StepInvariant(n0, q, a, b, b - q * a, n, y % n);
    WitnessStep(y0, n0, q, y, n, a, b, ky, kn);
  }

  /** The coefficient b of the final remainder 1, shifted into [0, n0), is the inverse. */
  lemma InverseInRange(y0: int, n0: int, b: int, ky: int)
    requires n0 > 1 && 1 - b * y0 == ky * n0 && Abs(b) < n0
    ensures var r := if b < 0 then b + n0 else b; 0 <= r < n0 && Congruent(r * y0, 1, n0)
  {
    var r := if b < 0 then b + n0 else b;
    if b < 0 {
      assert r * y0 - 1 == n0 * (y0 - ky);
      WitnessCongruent(r * y0, 1, n0, y0 - ky);
    } else {
      assert r * y0 - 1 == n0 * (-ky);
      WitnessCongruent(r * y0, 1, n0, -ky);
    }
  }

  /**
   * One Euclid step from (y, n) with coefficients (b, a) to (n, y - q * n) with
   * coefficients (a, b - q * a) keeps the cross sum and the sign pattern.
   */
  lemma StepInvariant(n0: int, q: int, aOld: int, bOld: int, aNew: int, yNew: int, nNew: int)
    requires n0 > 1 && q >= 0 && yNew >= 1 && nNew >= 0
    requires Abs(aOld) * (q * yNew + nNew) + Abs(bOld) * yNew == n0 && aOld * bOld <= 0
    requires q * yNew + nNew > 1
    requires aNew == bOld - q * aOld
    ensures Abs(aNew) * yNew + Abs(aOld) * nNew == n0 && aNew * aOld <= 0 && Abs(aOld) < n0
  {
    var A, B := Abs(aOld), Abs(bOld);
    var yOld := q * yNew + nNew;
    OppositeSignsSum(aOld, bOld, q);
    Distribute(A, B, q, yNew, nNew);
    SignStep(aOld, bOld, q);
    NonNegMul(B, yNew);
    AtLeastTwice(A, yOld);
  }

  /** The same step keeps each remainder congruent to its coefficient times y0. */
  lemma WitnessStep(y0: int, n0: int, q: int, y: int, n: int, a: int, b: int, ky: int, kn: int)
    requires y - b * y0 == ky * n0 && n - a * y0 == kn * n0
    ensures (y - q * n) - (b - q * a) * y0 == (ky - q * kn) * n0
  {
    assert (y - q * n) - (b - q * a) * y0 == (y - b * y0) - q * (n - a * y0);
    assert q * (kn * n0) == (q * kn) * n0;
  }

  lemma OppositeSignsSum(a: int, b: int, q: int)
    requires q >= 0 && a * b <= 0
    ensures Abs(b - q * a) == Abs(b) + q * Abs(a)
  {
    if a > 0 {
      assert b <= 0;
      NonNegMul(q, a);
    } else if a < 0 {
      assert b >= 0;
      NonNegMul(q, -a);
    }
  }

  lemma Distribute(A: int, B: int, q: int, y: int, n: int)
    ensures (B + q * A) * y + A * n == A * (q * y + n) + B * y
  {
  }

  lemma SignStep(a: int, b: int, q: int)
    requires q >= 0 && a * b <= 0
    ensures (b - q * a) * a <= 0
  {
    NonNegMul(q, a * a);
  }

  lemma NonNegMul(x: int, y: int)
    requires x >= 0 && y >= 0
    ensures x * y >= 0
  {
  }

  lemma AtLeastTwice(A: int, y: int)
    requires A >= 0 && y >= 2
    ensures A * y >= 2 * A
  {
    NonNegMul(A, y - 2);
  }

  /**
   * A ModularOP object: the modulus n, fixed at construction. Its operations are the
   * C++ expressions on int64_t, with `%` truncating toward zero (`CppRem`).
   */
  datatype ModularOp = ModularOp(n: int)
  {
    /** add: (x % n + y % n) % n, congruent to x + y, and in [0, n) for non-negative operands. */
    function Add(x: int, y: int): (r: int)
      requires n >= 1
      ensures Congruent(r, x + y, n)
      ensures x >= 0 && y >= 0 ==> 0 <= r < n
    {
      var s := CppRem(x, n) + CppRem(y, n);
      CppRemCongruent(x, n);
      CppRemCongruent(y, n);
      CongruentAdd(CppRem(x, n), x, CppRem(y, n), y, n);
      CppRemCongruent(s, n);
      CongruentTransitive(CppRem(s, n), s, x + y, n);
      CppRem(s, n)
    }

    /** sub: x - y, with n added once when that is negative; in [0, n) when 0 <= x, y < n. */
    function Sub(x: int, y: int): (r: int)
      requires n >= 1
      ensures Congruent(r, x - y, n)
      ensures 0 <= x < n && 0 <= y < n ==> 0 <= r < n
    {
      var a := x - y;
      if a < 0 then
        WitnessCongruent(a + n, a, n, 1);
        a + n
      else
        WitnessCongruent(a, a, n, 0);
        a
    }

    /** mul: ((x % n) * y % n) % n, congruent to x * y, and in [0, n) for non-negative operands. */
    function Mul(x: int, y: int): (r: int)
      requires n >= 1
      ensures Congruent(r, x * y, n)
      ensures x >= 0 && y >= 0 ==> 0 <= r < n
    {
      var p := CppRem(x, n) * y;
      CppRemCongruent(x, n);
      WitnessCongruent(y, y, n, 0);
      CongruentMul(CppRem(x, n), x, y, y, n);
      CppRemCongruent(p, n);
      CongruentTransitive(CppRem(p, n), p, x * y, n);
      CppRemCongruent(CppRem(p, n), n);
      CongruentTransitive(CppRem(CppRem(p, n), n), CppRem(p, n), x * y, n);
      CppRem(CppRem(p, n), n)
    }

    /**
     * div: -1 when y and n are not coprime; otherwise x times the inverse of y,
     * which for non-negative operands is the r in [0, n) with r * y congruent to x.
     */
    method Div(x: int, y: int) returns (r: int)
      requires n >= 1
      ensures GcdInt(y, n) != 1 ==> r == -1
      ensures GcdInt(y, n) == 1 && x >= 0 && y >= 0 ==> 0 <= r < n && Congruent(r * y, x, n)
    {
      if GcdInt(y, n) != 1 {
        return -1;
      }
      var inv := ExtEuclid(y, n);
      r := Mul(x, inv);
      if x >= 0 && y >= 0 {
        if n == 1 {
          WitnessCongruent(r * y, x, n, r * y - x);
        } else {
          // r * y == x * inv * y == x modulo n
          assert Congruent(r, x * inv, n);
          WitnessCongruent(y, y, n, 0);
          CongruentMul(r, x * inv, y, y, n);
          WitnessCongruent(x, x, n, 0);
          CongruentMul(x, x, inv * y, 1, n);
          assert x * inv * y == x * (inv * y);
          CongruentTransitive(r * y, x * (inv * y), x * 1, n);
        }
      }
    }
  }
}
