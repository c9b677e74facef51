/**
 * chineseremainder: the solution x of x == a (mod n), x == b (mod m) for coprime
 * n and m, built from the two inverses that exteuclid computes. The source carries its
 * own copy of exteuclid, identical to ModularOP's; the model reuses
 * `ModularArithmetic.ExtEuclid`.
 */
module ChineseRemainder {
  import opened NumberTheory
  import ModularArithmetic

  /**
   * Returns (x, K) with K == n * m and x congruent to a modulo n and to b modulo m;
   * for non-negative a and b, x lies in [0, K).
   */
  method Solve(a: int, n: int, b: int, m: int) returns (x: int, K: int)
    requires n >= 1 && m >= 1 && Gcd(n, m) == 1
    ensures K == n * m
    ensures Congruent(x, a, n) && Congruent(x, b, m)
    ensures a >= 0 && b >= 0 ==> 0 <= x < K
  {
    K := n * m;
    var M1 := K / n;
    var M2 := K / m;
    Cofactors(n, m, K);
    GcdSymmetric(n, m);
    var y1 := ModularArithmetic.ExtEuclid(M1, n);
    var y2 := ModularArithmetic.ExtEuclid(M2, m);
    x := CppRem(a * y1 * M1 + b * y2 * M2, K);
    Combination(a, n, b, m, y1, y2, x);
  }

  /** K / n and K / m are the other modulus. */
  lemma Cofactors(n: int, m: int, K: int)
    requires n >= 1 && m >= 1 && K == n * m
    ensures K / n == m && K / m == n
  {
    ExactQuotient(n, m);
    ExactQuotient(m, n);
    assert K == m * n;
  }

  /** The combination that chineseremainder reduces solves both congruences. */
  lemma Combination(a: int, n: int, b: int, m: int, y1: int, y2: int, x: int)
    requires n >= 1 && m >= 1
    requires n > 1 ==> Congruent(y1 * m, 1, n)
    requires m > 1 ==> Congruent(y2 * n, 1, m)
    requires y1 >= 0 && y2 >= 0
    requires x == CppRem(a * y1 * m + b * y2 * n, n * m)
    ensures Congruent(x, a, n) && Congruent(x, b, m)
    ensures a >= 0 && b >= 0 ==> 0 <= x < n * m
  {
    SolutionCongruent(a, n, b, m, y1, y2, x);
    SolutionCongruent(b, m, a, n, y2, y1, x);
    if a >= 0 && b >= 0 {
      Nonnegative(a, y1, m);
      Nonnegative(b, y2, n);
    }
  }

  /**
   * With y1 the inverse of m modulo n, the C++ remainder of a * y1 * m + b * y2 * n
   * modulo n * m is congruent to a modulo n.
   */
  lemma SolutionCongruent(a: int, n: int, b: int, m: int, y1: int, y2: int, x: int)
    requires n >= 1 && m >= 1
    requires n > 1 ==> Congruent(y1 * m, 1, n)
    requires x == CppRem(a * y1 * m + b * y2 * n, n * m)
      || x == CppRem(b * y2 * n + a * y1 * m, m * n)
    ensures Congruent(x, a, n)
  {
    var s := a * y1 * m + b * y2 * n;
    assert b * y2 * n + a * y1 * m == s && m * n == n * m;
    if n == 1 {
      WitnessCongruent(x, a, n, x - a);
    } else {
      CppRemCongruent(s, n * m);
      CongruentFactor(x, s, n, m);
      // s == a * (y1 * m) + n * (b * y2), and y1 * m == 1 modulo n
      WitnessCongruent(a, a, n, 0);
      CongruentMul(a, a, y1 * m, 1, n);
      WitnessCongruent(n * (b * y2), 0, n, b * y2);
      CongruentAdd(a * (y1 * m), a * 1, n * (b * y2), 0, n);
      assert s == a * (y1 * m) + n * (b * y2);
      CongruentTransitive(x, s, a, n);
    }
  }

  lemma Nonnegative(a: int, y: int, M: int)
    requires a >= 0 && y >= 0 && M >= 0
    ensures a * y * M >= 0
  {
    assert a * y >= 0;
  }

  /** Two solutions of the same pair of congruences agree modulo n * m. */
  lemma SolutionUnique(a: int, n: int, b: int, m: int, x: int, x': int)
    requires n >= 1 && m >= 1 && Gcd(n, m) == 1
    requires Congruent(x, a, n) && Congruent(x, b, m)
    requires Congruent(x', a, n) && Congruent(x', b, m)
    ensures Congruent(x, x', n * m)
  {
    CongruentSymmetric(x', a, n);
    CongruentTransitive(x, a, x', n);
    CongruentSymmetric(x', b, m);
    CongruentTransitive(x, b, x', m);
    CongruentCoprimeProduct(x, x', n, m);
  }

  /** Hence the solution in [0, n * m) is the only one there. */
  lemma SolutionUniqueInRange(a: int, n: int, b: int, m: int, x: int, x': int)
    requires n >= 1 && m >= 1 && Gcd(n, m) == 1
    requires Congruent(x, a, n) && Congruent(x, b, m) && 0 <= x < n * m
    requires Congruent(x', a, n) && Congruent(x', b, m) && 0 <= x' < n * m
    ensures x == x'
  {
    SolutionUnique(a, n, b, m, x, x');
    var K := n * m;
    CongruentRemainder(x, x', K);
    SmallRemainder(x', K);
  }
}
