/**
 * Happy primes: `isHappyPrime` iterates "sum of the squares of the decimal digits"
 * until it reaches 1 or repeats a value; `isPrime` is trial division.
 */
module HappyPrime {
  import opened NumberTheory

  /** The decimal text of m, as std::to_string writes it (a leading '-' for negatives). */
  function ToDecimal(m: int): string
  {
    if m < 0 then ['-'] + NatDecimal(-m) else NatDecimal(m)
  }

  function NatDecimal(m: nat): string
  {
    if m < 10 then [Digit(m)] else NatDecimal(m / 10) + [Digit(m % 10)]
  }

  function Digit(d: nat): char
    requires d < 10
    ensures Digit(d) as int == '0' as int + d
  {
    ('0' as int + d) as char
  }

  /** The value that one pass of the inner loop adds for character c: (c - '0')^2. */
  function Square(c: char): int
  {
    (c as int - '0' as int) * (c as int - '0' as int)
  }

  function SquareSum(s: string): int
  {
    if s == [] then 0 else SquareSum(s[..|s| - 1]) + Square(s[|s| - 1])
  }

  /** The sum of the squares of the decimal digits of m. */
  function DigitSquares(m: nat): nat
  {
    if m < 10 then m * m else DigitSquares(m / 10) + (m % 10) * (m % 10)
  }

  /**
   * One step of the happy-number iteration on m. For a negative m the '-' of its
   * decimal text also contributes ('-' - '0')^2 == 9.
   */
  function Step(m: int): int
  {
    if m < 0 then 9 + DigitSquares(-m) else DigitSquares(m)
  }

  /** The value after k applications of f to m. */
  function Iterate(f: int -> int, m: int, k: nat): int
  {
    if k == 0 then m else f(Iterate(f, m, k - 1))
  }

  /** m is happy: some step (at least one) from m yields 1. */
  ghost predicate Happy(m: int)
  {
    exists k: nat :: k >= 1 && Iterate(Step, m, k) == 1
  }

  // ---------------------------------------------------------------------------
  // The digit loop over std::to_string(m) computes Step(m).

  lemma {:induction false} NatDecimalSquareSum(m: nat)
    ensures SquareSum(NatDecimal(m)) == DigitSquares(m)
  {
    var t := NatDecimal(m);
    if m < 10 {
      assert t == [Digit(m)];
      assert t[..0] == [];
      assert Square(Digit(m)) == m * m;
    } else {
      assert t == NatDecimal(m / 10) + [Digit(m % 10)];
      assert t[..|t| - 1] == NatDecimal(m / 10);
      assert Square(Digit(m % 10)) == (m % 10) * (m % 10);
      NatDecimalSquareSum(m / 10);
    }
  }

  /** Summing the squared digits of the decimal text of m, sign included, gives Step(m). */
  lemma DecimalSquareSum(m: int)
    ensures SquareSum(ToDecimal(m)) == Step(m)
  {
    if m < 0 {
      SquareSumAfterPrefix('-', NatDecimal(-m));
      assert Square('-') == 9;
      NatDecimalSquareSum(-m);
    } else {
      NatDecimalSquareSum(m);
    }
  }

  lemma {:induction false} SquareSumAfterPrefix(c: char, s: string)
    ensures SquareSum([c] + s) == Square(c) + SquareSum(s)
    decreases |s|
  {
    if s != [] {
      assert ([c] + s)[..|[c] + s| - 1] == [c] + s[..|s| - 1];
      SquareSumAfterPrefix(c, s[..|s| - 1]);
    } else {
      assert ([c] + s) == [c];
      assert [c][..0] == [];
    }
  }

  // ---------------------------------------------------------------------------
  // Facts about Step that bound the iteration.

  lemma DigitSquareBound(d: nat)
    requires d < 10
    ensures d * d <= 81
  {
    assert d * (9 - d) >= 0;
    assert 9 * (9 - d) >= 0;
  }

  /** Below 1000 a step stays at most 243 (three digits of at most 81 each). */
  lemma StepSmall(m: nat)
    requires m < 1000
    ensures Step(m) <= 243
  {
    DigitSquareBound(m % 10);
    if m >= 10 {
      var q := m / 10;
      DigitSquareBound(q % 10);
      if q >= 10 {
        assert q / 10 < 10;
        assert DigitSquares(q) == DigitSquares(q / 10) + (q % 10) * (q % 10);
        assert DigitSquares(q / 10) == (q / 10) * (q / 10);
        DigitSquareBound(q / 10);
      } else {
        DigitSquareBound(q);
      }
    } else {
      DigitSquareBound(m);
    }
  }

  /** From 1000 upward a step strictly decreases the value. */
  lemma {:induction false} StepLarge(m: nat)
    requires m >= 1000
    ensures Step(m) < m
    decreases m
  {
    DigitSquareBound(m % 10);
    var q := m / 10;
    if q >= 1000 {
      StepLarge(q);
    } else {
      StepSmall(q);
    }
  }

  /** The two bounds together: a step from a non-negative value stays below 1000 or decreases. */
  lemma StepBound(m: int)
    ensures m >= 0 ==> ((m < 1000 ==> Step(m) < 1000) && (m >= 1000 ==> Step(m) < m))
  {
    if m >= 0 {
      if m < 1000 { StepSmall(m); } else { StepLarge(m); }
    }
  }

  /** Once an iteration repeats a value, every later value is one it has already seen. */
  lemma {:induction false} IterateShift(f: int -> int, m: int, i: nat, p: nat, d: nat)
    requires Iterate(f, m, i) == Iterate(f, m, p)
    ensures Iterate(f, m, i + d) == Iterate(f, m, p + d)
  {
    if d > 0 {
      IterateShift(f, m, i, p, d - 1);
    }
  }

  lemma {:induction false} IteratePeriodic(f: int -> int, m: int, i: nat, p: nat, k: nat)
    requires i < p && Iterate(f, m, i) == Iterate(f, m, p) && k >= i
    ensures exists j :: i <= j < p && Iterate(f, m, k) == Iterate(f, m, j)
    decreases k
  {
    if k >= p {
      IterateShift(f, m, i, p, k - p);
      IteratePeriodic(f, m, i, p, i + (k - p));
    } else {
      assert i <= k < p && Iterate(f, m, k) == Iterate(f, m, k);
    }
  }

  lemma {:induction false} SmallSetBound(s: set<int>, n: nat)
    requires forall x :: x in s ==> 0 <= x < n
    ensures |s| <= n
  {
    if n > 0 {
      SmallSetBound(s - {n - 1}, n - 1);
    } else {
      forall x ensures x !in s { }
      assert s == {};
    }
  }

  function SmallValues(prev: seq<int>): set<int>
  {
    set x | x in prev && 0 <= x < 1000
  }

  // ---------------------------------------------------------------------------
  // The two tests.

  /** The loop over the characters of std::to_string(m) that sums the squared digits. */
  method DigitSquareSum(m: int) returns (r: int)
    ensures r == Step(m)
  {
    DecimalSquareSum(m);
    var str := ToDecimal(m);
    r := 0;
    var i := 0;
    while i < |str|
      invariant 0 <= i <= |str|
      invariant r == SquareSum(str[..i])
    {
      assert str[..i + 1][..i] == str[..i];
      r := r + Square(str[i]);
      i := i + 1;
    }
    assert str[..|str|] == str;
  }

  /**
   * A repeat before any application of f has yielded 1 means none ever does; `trace`
   * holds the first t + 1 values of the iteration.
   */
  lemma NoOneAfterRepeat(f: int -> int, m0: int, trace: seq<int>, i: nat, t: nat)
    requires f(1) == 1
    requires |trace| == t + 1 && forall j :: 0 <= j <= t ==> trace[j] == Iterate(f, m0, j)
    requires i < t && trace[i] == trace[t]
    requires forall j :: 1 <= j <= t ==> trace[j] != 1
    ensures forall k: nat :: k >= 1 ==> Iterate(f, m0, k) != 1
  {
    forall k: nat | k >= 1
      ensures Iterate(f, m0, k) != 1
    {
      if k > t {
        IteratePeriodic(f, m0, i, t, k);
        var j :| i <= j < t && Iterate(f, m0, k) == Iterate(f, m0, j);
        if j == 0 {
          // m0 == 1 would have made the first application yield 1
          assert Iterate(f, m0, 1) == f(m0);
          assert trace[1] == Iterate(f, m0, 1);
        } else {
          assert trace[j] == Iterate(f, m0, j);
        }
      } else {
        assert trace[k] == Iterate(f, m0, k);
      }
    }
  }

  /** Appending the current value to a trace of the iteration keeps it a trace. */
  lemma TraceExtend(m0: int, prev: seq<int>, m: int)
    requires forall j :: 0 <= j < |prev| ==> prev[j] == Iterate(Step, m0, j)
    requires m == Iterate(Step, m0, |prev|)
    ensures forall j :: 0 <= j < |prev| + 1 ==> (prev + [m])[j] == Iterate(Step, m0, j)
    ensures Step(m) == Iterate(Step, m0, |prev| + 1)
  {
  }

  /**
   * The state of isHappyPrime's loop after t steps: `prev` holds the first t values, none
   * of the values after the first is 1, and the current value m is new.
   */
  ghost predicate HappyLoop(m0: int, prev: seq<int>, m: int, t: nat)
  {
    && m == Iterate(Step, m0, t)
    && |prev| == t && (forall j :: 0 <= j < t ==> prev[j] == Iterate(Step, m0, j))
    && (forall j :: 1 <= j < t ==> prev[j] != 1)
    && (t >= 1 ==> m != 1 && m >= 0)
    && m !in prev
  }

  /** The two-level measure of the loop: negative, then large, then small values. */
  function Phase(m: int): nat
  {
    if m < 0 then 2 else if m >= 1000 then 1 else 0
  }

  ghost function Remaining(m: int, prev: seq<int>): int
  {
    if m >= 1000 then m else 1000 - |SmallValues(prev)|
  }

  /** One pass of the loop that neither yields 1 nor repeats keeps the state. */
  lemma HappyAdvance(m0: int, prev: seq<int>, m: int, t: nat)
    requires HappyLoop(m0, prev, m, t)
    requires Step(m) != 1 && Step(m) !in prev + [m]
    ensures HappyLoop(m0, prev + [m], Step(m), t + 1)
  {
    TraceExtend(m0, prev, m);
  }

  /** ... and lowers the measure, since no value is visited twice. */
  lemma MeasureDrops(prev: seq<int>, m: int)
    requires m !in prev
    ensures Phase(Step(m)) < Phase(m)
      || (Phase(Step(m)) == Phase(m) && 0 <= Remaining(Step(m), prev + [m]) < Remaining(m, prev))
  {
    StepBound(m);
    if 0 <= m < 1000 {
      assert SmallValues(prev + [m]) == SmallValues(prev) + {m};
      SmallSetBound(SmallValues(prev + [m]), 1000);
    }
  }

  /**
   * isHappyPrime: records every visited value in `prev`, returns true as soon as a step
   * yields 1 and false as soon as a step yields a recorded value. It answers exactly
   * whether m is happy.
   */
  method IsHappyPrime(m0: int) returns (r: bool)
    ensures r <==> Happy(m0)
  {
    var prev: seq<int> := [];
    var m := m0;
    ghost var t: nat := 0;
    while true
      invariant HappyLoop(m0, prev, m, t)
      decreases Phase(m), Remaining(m, prev)
    {
      var next := DigitSquareSum(m);
      TraceExtend(m0, prev, m);
      if next == 1 {
        assert Iterate(Step, m0, t + 1) == 1;
        return true;
      }
      if next in prev + [m] {
        var i :| 0 <= i < |prev| + 1 && (prev + [m])[i] == next;
        assert Step(1) == 1;
        NoOneAfterRepeat(Step, m0, prev + [m] + [next], i, t + 1);
        return false;
      }
      HappyAdvance(m0, prev, m, t);
      MeasureDrops(prev, m);
      prev, m, t := prev + [m], next, t + 1;
    }
  }

  /** The trial-division verdict of `isPrime`, as written. */
  predicate TrialDivisionVerdict(m: int)
  {
    m != 1 && m != 2 && forall i :: 2 <= i < m ==> m % i != 0
  }

  /** isPrime as written: false for 1 and 2, otherwise a search for a divisor in [2, m). */
  method IsPrime(m: int) returns (r: bool)
    ensures r == TrialDivisionVerdict(m)
    ensures m >= 3 ==> (r <==> Prime(m))
  {
    if m == 1 || m == 2 {
      return false;
    }
    var i := 2;
    while i < m
      invariant 2 <= i
      invariant forall d :: 2 <= d < i && d < m ==> m % d != 0
    {
      if m % i == 0 {
        return false;
      }
      i := i + 1;
    }
    return true;
  }

  /** As written, isPrime rejects the prime 2. */
  lemma IsPrimeRejectsTwo()
    ensures Prime(2) && !TrialDivisionVerdict(2)
  {
  }

  /** The evident intent of isPrime: exactly the primes (2 accepted, nothing below 2). */
  method IsPrimeCorrected(m: int) returns (r: bool)
    ensures r <==> Prime(m)
  {
    if m < 2 {
      return false;
    }
    var i := 2;
    while i < m
      invariant 2 <= i
      invariant forall d :: 2 <= d < i && d < m ==> m % d != 0
    {
      if m % i == 0 {
        return false;
      }
      i := i + 1;
    }
    return true;
  }

  /** 2 is not happy: its iteration enters the cycle 4, 16, 37, 58, 89, 145, 42, 20. */
  lemma TwoIsNotHappy()
    ensures !Happy(2)
  {
    var trace := [2, 4, 16, 37, 58, 89, 145, 42, 20, 4];
    forall j | 0 <= j <= 9
      ensures trace[j] == Iterate(Step, 2, j)
    {
      TwoTrace(j);
    }
    assert Step(1) == 1;
    NoOneAfterRepeat(Step, 2, trace, 1, 9);
  }

  lemma TwoTrace(j: nat)
    requires j <= 9
    ensures Iterate(Step, 2, j) == [2, 4, 16, 37, 58, 89, 145, 42, 20, 4][j]
  {
    if j > 0 {
      TwoTrace(j - 1);
    }
  }

  /**
   * The program answers YES exactly when both tests pass. Because 2 is not happy, the
   * answer for every positive m is the one a correct primality test would give.
   */
  method Verdict(m: int) returns (yes: bool)
    ensures yes <==> TrialDivisionVerdict(m) && Happy(m)
    ensures m >= 1 ==> (yes <==> Prime(m) && Happy(m))
  {
    var p := IsPrime(m);
    yes := false;
    if p {
      yes := IsHappyPrime(m);
    }
    if m == 2 {
      TwoIsNotHappy();
    }
  }
}
