/**
 * Primes: the sieve of Eratosthenes over [0, n], with a count of the primes and a
 * constant-time lookup.
 */
module PrimeSieve {
  import opened NumberTheory

  /** j has a divisor d with 2 <= d < bound and d * d <= j. */
  ghost predicate HasSmallDivisor(j: int, bound: int)
  {
    exists d :: 2 <= d < bound && d * d <= j && j % d == 0
  }

  /** The number of primes in [0, n]. */
  ghost function PrimesUpTo(n: int): nat
    decreases n
  {
    if n < 0 then 0 else PrimesUpTo(n - 1) + (if Prime(n) then 1 else 0)
  }

  /** The number of true entries of s. */
  function CountTrue(s: seq<bool>): nat
  {
    if s == [] then 0 else CountTrue(s[..|s| - 1]) + (if s[|s| - 1] then 1 else 0)
  }

  class Primes {
    const n: int
    const prime: array<bool>

    /** prime has n + 1 entries and prime[i] says whether i is prime. */
    ghost predicate Valid()
      reads this, prime
    {
      n >= 1 && prime.Length == n + 1 && forall i :: 0 <= i <= n ==> (prime[i] <==> Prime(i))
    }

    /**
     * The sieve: every entry starts true, 0 and 1 are cleared, and each i with
     * i * i <= n that is still marked clears i*i, i*i + i, ... up to n.
     */
    constructor (n: int)
      requires n >= 1
      ensures this.n == n && Valid()
    {
      var p := Sieve(n);
      this.n := n;
      prime := p;
    }

    /** count(): the number of primes in [0, n]. */
    function Count(): (c: nat)
      reads this, prime
      requires Valid()
      ensures c == PrimesUpTo(n)
    {
      CountPrimes(prime[..], n);
      CountTrue(prime[..])
    }

    /** operator[](i): 1 if i is prime, 0 if not. */
    function Lookup(i: int): (r: int)
      reads this, prime
      requires Valid() && 0 <= i <= n
      ensures r == 1 <==> Prime(i)
      ensures r == 0 || r == 1
    {
      if prime[i] then 1 else 0
    }
  }

  /** The constructor's loops: returns the table that `Primes` keeps. */
  method Sieve(n: int) returns (p: array<bool>)
    requires n >= 1
    ensures fresh(p) && p.Length == n + 1
    ensures forall k :: 0 <= k <= n ==> (p[k] <==> Prime(k))
  {
    p := new bool[n + 1](_ => true);
    p[0], p[1] := false, false;
    var i := 2;
    while i * i <= n
      invariant 2 <= i && (i - 1) * (i - 1) <= n
      invariant !p[0] && !p[1]
      invariant forall k :: 2 <= k <= n ==> (p[k] <==> !HasSmallDivisor(k, i))
    {
      if p[i] {
        ClearMultiples(p, n, i);
      } else {
        forall k | 2 <= k <= n
          ensures p[k] <==> !HasSmallDivisor(k, i + 1)
        {
          CompositeSkipped(i, k);
          SmallDivisorStep(k, i);
        }
      }
      i := i + 1;
    }
    forall k | 0 <= k <= n
      ensures p[k] <==> Prime(k)
    {
      if k >= 2 {
        SieveComplete(k, i);
      }
    }
  }

  /** The inner loop for a prime i: clears i * i, i * i + i, ... up to n. */
  method ClearMultiples(p: array<bool>, n: int, i: int)
    modifies p
    requires p.Length == n + 1 && 2 <= i && i * i <= n
    requires !p[0] && !p[1]
    requires forall k :: 2 <= k <= n ==> (p[k] <==> !HasSmallDivisor(k, i))
    ensures !p[0] && !p[1]
    ensures forall k :: 2 <= k <= n ==> (p[k] <==> !HasSmallDivisor(k, i + 1))
  {
    var j := i * i;
    while j <= n
      invariant i * i <= j && (j - i * i) % i == 0
      invariant !p[0] && !p[1]
      invariant forall k :: 2 <= k <= n ==>
        (p[k] <==> !(HasSmallDivisor(k, i) || (k % i == 0 && i * i <= k < j)))
    {
      p[j] := false;
      ClearedStep(i, j);
      MultipleShape(i, j);
      j := j + i;
    }
    forall k | 2 <= k <= n
      ensures p[k] <==> !HasSmallDivisor(k, i + 1)
    {
      MultipleCovered(i, j, k);
      SmallDivisorStep(k, i);
    }
  }

  /** The marks left in a sieve table count exactly the primes. */
  lemma {:induction false} CountPrimes(s: seq<bool>, m: int)
    requires |s| == m + 1 && forall i :: 0 <= i <= m ==> (s[i] <==> Prime(i))
    ensures CountTrue(s) == PrimesUpTo(m)
    decreases |s|
  {
    if m >= 0 {
      assert s[..|s| - 1][..] == s[..m];
      CountPrimes(s[..m], m - 1);
    }
  }

  /** The next multiple j + i of i still has the shape i * i + t * i. */
  lemma ClearedStep(i: int, j: int)
    requires i >= 2 && (j - i * i) % i == 0
    ensures (j + i - i * i) % i == 0
  {
    var t := (j - i * i) / i;
    assert j - i * i == i * t;
    WitnessMultiple(j + i - i * i, i, t + 1);
  }

  /** j == i * i + t * i is itself a multiple of i, and the entries between j and j + i are not. */
  lemma MultipleShape(i: int, j: int)
    requires i >= 2 && i * i <= j && (j - i * i) % i == 0
    ensures j % i == 0
    ensures forall k :: j < k < j + i ==> k % i != 0
  {
    var t := (j - i * i) / i;
    assert j == i * (i + t);
    MultipleMod(i, i + t);
    forall k | j < k < j + i
      ensures k % i != 0
    {
      assert k == i * (i + t) + (k - j);
      ModUnique(k, i, i + t, k - j);
    }
  }

  lemma ModUnique(a: int, n: int, q: int, r: int)
    requires n > 0 && 0 <= r < n && a == n * q + r
    ensures a % n == r
  {
    WitnessCongruent(r, a, n, -q);
    CongruentRemainder(r, a, n);
  }

  lemma WitnessMultiple(x: int, i: int, t: int)
    requires i >= 1 && x == i * t
    ensures x % i == 0
  {
    MultipleMod(i, t);
  }

  /**
   * When the inner loop stops at j > n, every multiple k of i with i * i <= k <= n
   * lies below j.
   */
  lemma MultipleCovered(i: int, j: int, k: int)
    requires i >= 2 && j > k
    ensures (k % i == 0 && i * i <= k < j) <==> (k % i == 0 && i * i <= k)
  {
  }

  /** Allowing the divisor i as well turns "< i" into "< i + 1". */
  lemma SmallDivisorStep(k: int, i: int)
    requires i >= 2
    ensures HasSmallDivisor(k, i + 1) <==> HasSmallDivisor(k, i) || (k % i == 0 && i * i <= k)
  {
    if HasSmallDivisor(k, i + 1) && !HasSmallDivisor(k, i) {
      var d :| 2 <= d < i + 1 && d * d <= k && k % d == 0;
      assert d == i;
    }
  }

  /**
   * A cleared i < k has a small divisor d, which also divides every multiple k of i
   * with i * i <= k, so skipping i changes nothing.
   */
  lemma CompositeSkipped(i: int, k: int)
    requires i >= 2 && HasSmallDivisor(i, i)
    ensures HasSmallDivisor(k, i) || (k % i == 0 && i * i <= k) <==> HasSmallDivisor(k, i)
  {
    if k % i == 0 && i * i <= k {
      var d :| 2 <= d < i && d * d <= i && i % d == 0;
      DividesTransitive(d, i, k);
      assert i <= i * i by {
        MulMonotone(i, i);
      }
      assert HasSmallDivisor(k, i) by {
        assert 2 <= d < i && d * d <= k && k % d == 0;
      }
    }
  }

  lemma DividesTransitive(d: int, i: int, k: int)
    requires d >= 1 && i >= 1 && i % d == 0 && k % i == 0
    ensures k % d == 0
  {
    var a, b := i / d, k / i;
    assert i == d * a && k == i * b;
    assert k == d * (a * b);
    MultipleMod(d, a * b);
  }

  /** Once i * i > n, a small divisor below i is any divisor at all: k is composite. */
  lemma SieveComplete(k: int, i: int)
    requires 2 <= k && i >= 2 && k < i * i
    ensures !HasSmallDivisor(k, i) <==> Prime(k)
  {
    if !Prime(k) {
      CompositeSmallDivisor(k, i);
    }
    if HasSmallDivisor(k, i) {
      SmallDivisorComposite(k, i);
    }
  }

  /** A composite k < i * i has a divisor below i: the smaller of two complementary factors. */
  lemma CompositeSmallDivisor(k: int, i: int)
    requires 2 <= k && i >= 2 && k < i * i && !Prime(k)
    ensures HasSmallDivisor(k, i)
  {
    var d :| 2 <= d < k && k % d == 0;
    var e := Cofactor(k, d);
    var s := if d <= e then d else e;
    SmallerFactor(k, d, e);
    if s >= i {
      MulLe(i, s);
    }
    assert 2 <= s < i && s * s <= k && k % s == 0;
  }

  /** A divisor d of k is paired with e, k == d * e. */
  lemma Cofactor(k: int, d: int) returns (e: int)
    requires 2 <= d && k % d == 0
    ensures k == d * e
  {
    e := k / d;
  }

  /** A small divisor is a proper divisor, so k is not prime. */
  lemma SmallDivisorComposite(k: int, i: int)
    requires HasSmallDivisor(k, i)
    ensures !Prime(k)
  {
    var d :| 2 <= d < i && d * d <= k && k % d == 0;
    MulMonotone(d, d);
    assert d * d >= 2 * d;
    assert 2 <= d < k;
  }

  /** Of the two factors of k == d * e, the smaller is at least 2 and its square at most k. */
  lemma SmallerFactor(k: int, d: int, e: int)
    requires 2 <= d < k && k == d * e
    ensures e >= 2 && k % d == 0 && k % e == 0
    ensures var s := if d <= e then d else e; s * s <= k
  {
    MultipleMod(d, e);
    MultipleMod(e, d);
    assert k == e * d;
    if d <= e {
      assert d * d <= d * e;
    } else {
      assert e * e <= e * d;
    }
  }

  lemma MulLe(i: int, s: int)
    requires 2 <= i <= s
    ensures i * i <= s * s
  {
    assert i * i <= i * s <= s * s;
  }
}
