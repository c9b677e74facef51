/**
 * Evil straw warts live: a word can be rearranged into a palindrome exactly when at
 * most one letter occurs an odd number of times; the palindrome is then reached by
 * moving, for each position from the left, the matching letter from the right half
 * into the mirrored position with adjacent swaps. The string is changed in place.
 */
module EvilStraw {

  // ---------------------------------------------------------------------------
  // Letter counts.

  /** The letters with an odd count in m. */
  function OddIn(m: multiset<char>): set<char>
  {
    set a | a in m && m[a] % 2 == 1
  }

  predicate AtMostOneOdd(m: multiset<char>)
  {
    |OddIn(m)| <= 1
  }

  /** The test palindromeExists makes on the count map: no two keys have odd counts. */
  predicate OneOdd(chars: map<char, int>)
  {
    forall a, b :: a in chars && b in chars && chars[a] % 2 != 0 && chars[b] % 2 != 0 ==> a == b
  }

  /** The map main builds: each letter of s with its number of occurrences. */
  function Counts(s: string): map<char, int>
  {
    map a | a in multiset(s) :: multiset(s)[a]
  }

  /** On the map main builds, the test is that at most one letter has an odd count. */
  lemma OneOddCounts(s: string)
    ensures OneOdd(Counts(s)) <==> AtMostOneOdd(multiset(s))
  {
    var m := multiset(s);
    var odd := OddIn(m);
    if OneOdd(Counts(s)) {
      if odd != {} {
        var a :| a in odd;
        forall b | b in odd
          ensures b == a
        {
          assert Counts(s)[a] % 2 != 0 && Counts(s)[b] % 2 != 0;
        }
        SubsetCard(odd, {a});
      }
    } else {
      var a, b :| a in Counts(s) && b in Counts(s) && Counts(s)[a] % 2 != 0 && Counts(s)[b] % 2 != 0 && a != b;
      assert {a, b} <= odd;
      assert |{a, b}| == 2;
      SubsetCard({a, b}, odd);
    }
  }

  lemma SubsetCard(a: set<char>, b: set<char>)
    requires a <= b
    ensures |a| <= |b|
  {
    assert b == a + (b - a);
  }

  /** One more letter c: the count map after characters[c]++. */
  lemma CountsAppend(x: string, c: char)
    ensures Counts(x + [c]) == Counts(x)[c := (if c in Counts(x) then Counts(x)[c] else 0) + 1]
  {
    assert multiset(x + [c]) == multiset(x) + multiset{c};
  }

  /** main's counting loop: characters[c]++ for every letter of s. */
  method CountLetters(s: string) returns (chars: map<char, int>)
    ensures chars == Counts(s)
  {
    chars := map[];
    for k := 0 to |s|
      invariant chars == Counts(s[..k])
    {
      var c := s[k];
      CountsAppend(s[..k], c);
      assert s[..k + 1] == s[..k] + [c];
      chars := chars[c := (if c in chars then chars[c] else 0) + 1];
    }
    assert s[..|s|] == s;
  }

  /**
   * palindromeExists: walks the map in whatever order it holds its keys and stops at
   * the second key with an odd count.
   */
  method PalindromeExists(chars: map<char, int>) returns (r: bool)
    ensures r <==> OneOdd(chars)
  {
    var odd := false;
    ghost var oddKey: char := '0';
    var remaining := chars.Keys;
    while remaining != {}
      invariant remaining <= chars.Keys
      invariant odd ==> oddKey in chars && oddKey !in remaining && chars[oddKey] % 2 != 0
      invariant forall a :: a in chars && a !in remaining && chars[a] % 2 != 0 ==> odd && a == oddKey
      decreases |remaining|
    {
      var c :| c in remaining;
      if chars[c] % 2 != 0 {
        if odd {
          return false;
        }
        odd := true;
        oddKey := c;
      }
      remaining := remaining - {c};
    }
    return true;
  }

  // ---------------------------------------------------------------------------
  // Palindromes.

  /** The letter mirroring position j. */
  function Mirror(s: seq<char>, j: int): char
    requires 0 <= j < |s|
  {
    s[|s| - 1 - j]
  }

  /** The pairs (j, |s| - 1 - j) for lo <= j < hi hold equal letters. */
  predicate Mirrored(s: seq<char>, lo: int, hi: int)
  {
    forall j {:trigger Mirror(s, j)} :: lo <= j < hi && 0 <= j < |s| ==> s[j] == Mirror(s, j)
  }

  predicate Palindrome(s: seq<char>)
  {
    forall j :: 0 <= j < |s| ==> s[j] == s[|s| - 1 - j]
  }

  lemma MirroredPalindrome(s: seq<char>)
    requires Mirrored(s, 0, |s| / 2)
    ensures Palindrome(s)
  {
    forall j | 0 <= j < |s|
      ensures s[j] == s[|s| - 1 - j]
    {
      var j' := |s| - 1 - j;
      if j < |s| / 2 {
        assert s[j] == Mirror(s, j);
      } else if j' < |s| / 2 {
        assert s[j'] == Mirror(s, j');
      }
    }
  }

  /** Taking a pair of one letter away changes no letter's parity. */
  lemma RemovePair(m: multiset<char>, m': multiset<char>, d: char)
    requires m[d] >= 2 && m'[d] == m[d] - 2 && forall a :: a != d ==> m'[a] == m[a]
    ensures OddIn(m') == OddIn(m)
  {
    forall a
      ensures a in OddIn(m') <==> a in OddIn(m)
    {
      if a == d {
        assert m'[a] == m[a] - 2;
      } else {
        assert m'[a] == m[a];
      }
    }
  }

  /** The same, counted. */
  lemma RemovePairCard(m: multiset<char>, m': multiset<char>, d: char)
    requires m[d] >= 2 && m'[d] == m[d] - 2 && forall a :: a != d ==> m'[a] == m[a]
    ensures |OddIn(m')| == |OddIn(m)|
  {
    RemovePair(m, m', d);
  }

  /** So "Impossible" is right: the letters of a palindrome have at most one odd count. */
  lemma {:induction false} PalindromeOneOdd(p: seq<char>)
    requires Palindrome(p)
    ensures AtMostOneOdd(multiset(p))
    decreases |p|
  {
    if |p| <= 1 {
      ShortOneOdd(p);
    } else {
      var q := p[1..|p| - 1];
      InnerPalindrome(p);
      PalindromeOneOdd(q);
      PeelPair(p);
    }
  }

  lemma ShortOneOdd(p: seq<char>)
    requires |p| <= 1
    ensures AtMostOneOdd(multiset(p))
  {
    assert multiset(p) == if p == [] then multiset{} else multiset{p[0]};
    assert OddIn(multiset(p)) <= if p == [] then {} else {p[0]};
    SubsetCard(OddIn(multiset(p)), if p == [] then {} else {p[0]});
  }

  lemma InnerPalindrome(p: seq<char>)
    requires Palindrome(p) && |p| >= 2
    ensures Palindrome(p[1..|p| - 1])
  {
    var q := p[1..|p| - 1];
    forall j | 0 <= j < |q|
      ensures q[j] == q[|q| - 1 - j]
    {
      assert q[j] == p[j + 1] && q[|q| - 1 - j] == p[|p| - 1 - (j + 1)];
    }
  }

  /** Peeling the two equal ends off a palindrome keeps every parity. */
  lemma PeelPair(p: seq<char>)
    requires Palindrome(p) && |p| >= 2
    ensures OddIn(multiset(p[1..|p| - 1])) == OddIn(multiset(p))
  {
    var a, q := p[0], p[1..|p| - 1];
    assert p == [a] + q + [p[|p| - 1]];
    assert p[|p| - 1] == a;
    var m := multiset(p);
    assert m == multiset(q) + multiset{a, a};
    RemovePair(m, multiset(q), a);
  }

  // ---------------------------------------------------------------------------
  // findMatch and swap.

  /** The result of findMatch from the right: the last c in (start, |s| - 1 - start], or -1. */
  predicate RightMatch(s: seq<char>, c: char, start: int, r: int)
  {
    || (r == -1 && forall i :: start < i <= |s| - 1 - start && 0 <= i < |s| ==> s[i] != c)
    || (start < r <= |s| - 1 - start && 0 <= r < |s| && s[r] == c
        && forall i :: r < i <= |s| - 1 - start && 0 <= i < |s| ==> s[i] != c)
  }

  /** The result of findMatch from the left: the first c in [start, |s| - start), or -1. */
  predicate LeftMatch(s: seq<char>, c: char, start: int, r: int)
  {
    || (r == -1 && forall i :: start <= i < |s| - start && 0 <= i < |s| ==> s[i] != c)
    || (start <= r < |s| - start && 0 <= r < |s| && s[r] == c
        && forall i :: start <= i < r && 0 <= i < |s| ==> s[i] != c)
  }

  /** findMatch(c, str, fromRight, start). */
  method FindMatch(c: char, str: seq<char>, fromRight: bool, start: int) returns (r: int)
    requires 0 <= start <= |str|
    ensures fromRight ==> RightMatch(str, c, start, r)
    ensures !fromRight ==> LeftMatch(str, c, start, r)
  {
    if fromRight {
      var i := |str| - 1 - start;
      while i > start
        invariant i <= |str| - 1 - start
        invariant i == |str| - 1 - start || start <= i
        invariant forall k :: i < k <= |str| - 1 - start ==> str[k] != c
      {
        if str[i] == c {
          return i;
        }
        i := i - 1;
      }
    } else {
      var i := start;
      while i < |str| - start
        invariant start <= i
        invariant forall k :: start <= k < i && k < |str| - start ==> str[k] != c
      {
        if str[i] == c {
          return i;
        }
        i := i + 1;
      }
    }
    return -1;
  }

  /** s with its element at `from` taken out and put back in at `to`. */
  function Moved(s: seq<char>, from: int, to: int): (t: seq<char>)
    requires 0 <= from < |s| && 0 <= to < |s|
    ensures |t| == |s|
  {
    seq(|s|, k requires 0 <= k < |s| =>
      if k == to then s[from]
      else if from <= k < to then s[k + 1]
      else if to < k <= from then s[k - 1]
      else s[k])
  }

  /** Where each letter of s ends up in t when the one at `from` moves to `to`. */
  predicate Shifted(s: seq<char>, t: seq<char>, from: int, to: int)
  {
    && |t| == |s| && 0 <= from < |s| && 0 <= to < |s| && t[to] == s[from]
    && (forall k :: 0 <= k < |s| && k < from && k < to ==> t[k] == s[k])
    && (forall k :: 0 <= k < |s| && k > from && k > to ==> t[k] == s[k])
    && (forall k :: from <= k < to ==> t[k] == s[k + 1])
    && (forall k :: to < k <= from ==> t[k] == s[k - 1])
  }

  lemma MovedFacts(s: seq<char>, from: int, to: int)
    requires 0 <= from < |s| && 0 <= to < |s|
    ensures Shifted(s, Moved(s, from, to), from, to)
  {
  }

  /** One adjacent swap carries the moved element one place further. */
  lemma MovedStep(s: seq<char>, from: int, i: int, step: int)
    requires 0 <= from < |s| && 0 <= i < |s| && 0 <= i + step < |s|
    requires (step == 1 && from <= i) || (step == -1 && i <= from)
    ensures var t := Moved(s, from, i);
      t[i := t[i + step]][i + step := t[i]] == Moved(s, from, i + step)
  {
  }

  // ---------------------------------------------------------------------------
  // Traces of adjacent swaps.

  /** s with the letters at j and j + 1 exchanged; s itself when j + 1 is past the end. */
  function SwapAdjacent(s: seq<char>, j: int): (t: seq<char>)
    ensures |t| == |s|
  {
    if 0 <= j < |s| - 1 then s[j := s[j + 1]][j + 1 := s[j]] else s
  }

  /** The adjacent swaps at the positions listed in moves, made in that order. */
  function Apply(s: seq<char>, moves: seq<int>): (t: seq<char>)
    ensures |t| == |s|
    decreases |moves|
  {
    if moves == [] then s else SwapAdjacent(Apply(s, moves[..|moves| - 1]), moves[|moves| - 1])
  }

  /** Every move exchanges two neighbouring letters of a word of length n. */
  predicate Adjacent(moves: seq<int>, n: int)
  {
    forall m :: m in moves ==> 0 <= m < n - 1
  }

  lemma ApplySnoc(s: seq<char>, moves: seq<int>, j: int)
    ensures Apply(s, moves + [j]) == SwapAdjacent(Apply(s, moves), j)
  {
    assert (moves + [j])[..|moves|] == moves;
  }

  /** Two traces made one after the other are their concatenation. */
  lemma {:induction false} ApplyConcat(s: seq<char>, a: seq<int>, b: seq<int>)
    ensures Apply(s, a + b) == Apply(Apply(s, a), b)
    decreases |b|
  {
    if b == [] {
      assert a + b == a;
    } else {
      var b', j := b[..|b| - 1], b[|b| - 1];
      assert b == b' + [j];
      assert a + b == (a + b') + [j];
      ApplySnoc(s, a + b', j);
      ApplyConcat(s, a, b');
      ApplySnoc(Apply(s, a), b', j);
    }
  }

  /** Adjacent swaps only rearrange the letters. */
  lemma {:induction false} ApplyPermutes(s: seq<char>, moves: seq<int>)
    ensures multiset(Apply(s, moves)) == multiset(s)
    decreases |moves|
  {
    if moves != [] {
      var t: seq<char>, j: int := Apply(s, moves[..|moves| - 1]), moves[|moves| - 1];
      ApplyPermutes(s, moves[..|moves| - 1]);
      if 0 <= j < |t| - 1 {
        assert multiset(t[j := t[j + 1]][j + 1 := t[j]]) == multiset(t);
      }
    }
  }

  /**
   * The exchange in swap's loop, between i and i + step, is one more adjacent swap at
   * the lower of the two positions.
   */
  lemma SwapTrace(s0: seq<char>, moves: seq<int>, t: seq<char>, t': seq<char>, i: int, step: int, j: int)
    requires t == Apply(s0, moves) && Adjacent(moves, |s0|)
    requires 0 <= i < |t| && 0 <= i + step < |t| && (step == 1 || step == -1)
    requires t' == t[i := t[i + step]][i + step := t[i]] && j == (if step == 1 then i else i - 1)
    ensures t' == Apply(s0, moves + [j]) && Adjacent(moves + [j], |s0|)
  {
    ApplySnoc(s0, moves, j);
    ExchangeAdjacent(t, t', i, step, j);
  }

  lemma ExchangeAdjacent(t: seq<char>, t': seq<char>, i: int, step: int, j: int)
    requires 0 <= i < |t| && 0 <= i + step < |t| && (step == 1 || step == -1)
    requires t' == t[i := t[i + step]][i + step := t[i]] && j == (if step == 1 then i else i - 1)
    ensures t' == SwapAdjacent(t, j) && 0 <= j < |t| - 1
  {
    if step == -1 {
      assert t' == t[j := t[j + 1]][j + 1 := t[j]];
    }
  }

  /** A trace of a word, followed by a trace of its result, is a trace of the word. */
  lemma Chain(s0: seq<char>, a: seq<int>, t: seq<char>, b: seq<int>, u: seq<char>)
    requires t == Apply(s0, a) && Adjacent(a, |s0|)
    requires u == Apply(t, b) && Adjacent(b, |t|)
    ensures u == Apply(s0, a + b) && Adjacent(a + b, |s0|)
  {
    ApplyConcat(s0, a, b);
    forall m | m in a + b
      ensures 0 <= m < |s0| - 1
    {
      if m !in a {
        assert m in b;
      }
    }
  }

  /** The state of swap's loop: the element first at index has been carried to i. */
  predicate SwapState(s0: seq<char>, index: int, goal: int, step: int, i: int, t: seq<char>, counter: int)
  {
    && 0 <= index < |s0| && 0 <= i < |s0| && 0 <= goal < |s0|
    && ((step == 1 && index <= i <= goal) || (step == -1 && goal <= i <= index))
    && t == Moved(s0, index, i) && multiset(t) == multiset(s0)
    && counter == (if step == 1 then i - index else index - i)
  }

  /** One pass of swap's loop. */
  lemma SwapStep(s0: seq<char>, index: int, goal: int, step: int, i: int, t: seq<char>, counter: int,
                  i': int, t': seq<char>, counter': int)
    requires SwapState(s0, index, goal, step, i, t, counter) && i != goal
    requires 0 <= i + step < |t| && i' == i + step && counter' == counter + 1
    requires t' == t[i := t[i + step]][i + step := t[i]]
    ensures SwapState(s0, index, goal, step, i', t', counter')
  {
    MovedStep(s0, index, i, step);
    assert multiset(t') == multiset(t);
  }

  /**
   * swap(str, index, goal, step): moves str[index] to goal by adjacent transpositions,
   * one place per step, and returns how many it made.
   */
  method Swap(str: array<char>, index: int, goal: int, step: int) returns (counter: int, ghost moves: seq<int>)
    modifies str
    requires 0 <= index < str.Length && 0 <= goal < str.Length
    requires (step == 1 && index <= goal) || (step == -1 && goal <= index)
    ensures Shifted(old(str[..]), str[..], index, goal)
    ensures multiset(str[..]) == multiset(old(str[..]))
    ensures counter == (if step == 1 then goal - index else index - goal)
    ensures str[..] == Apply(old(str[..]), moves) && |moves| == counter && Adjacent(moves, str.Length)
  {
    ghost var s0 := str[..];
    counter, moves := 0, [];
    var i := index;
    while i != goal
      invariant SwapState(s0, index, goal, step, i, str[..], counter)
      invariant str[..] == Apply(s0, moves) && |moves| == counter && Adjacent(moves, |s0|)
      decreases if step == 1 then goal - i else i - goal
    {
      ghost var t, i0, counter0, moves0 := str[..], i, counter, moves;
      var tmp := str[i];
      str[i] := str[i + step];
      str[i + step] := tmp;
      i := i + step;
      counter := counter + 1;
      moves := moves + [if step == 1 then i0 else i0 - 1];
      SwapStep(s0, index, goal, step, i0, t, counter0, i, str[..], counter);
      SwapTrace(s0, moves0, t, str[..], i0, step, if step == 1 then i0 else i0 - 1);
    }
    MovedFacts(s0, index, goal);
  }

  // ---------------------------------------------------------------------------
  // Blocks of letters.

  /** A block of at least two letters is its ends around its inside. */
  lemma BlockEnds(s: seq<char>, L: int, R: int)
    requires 0 <= L < R < |s|
    ensures multiset(s[L..R + 1]) == multiset(s[L + 1..R]) + multiset{s[L], s[R]}
  {
    assert s[L..R + 1] == [s[L]] + s[L + 1..R] + [s[R]];
  }

  /** A permutation that keeps the letters outside s[L..R] keeps the block's letters. */
  lemma BlockKept(s: seq<char>, t: seq<char>, L: int, R: int)
    requires 0 <= L <= R < |s| && |t| == |s| && multiset(t) == multiset(s)
    requires forall k :: 0 <= k < |s| && !(L <= k <= R) ==> t[k] == s[k]
    ensures multiset(t[L..R + 1]) == multiset(s[L..R + 1])
  {
    var a, b := s[..L], s[R + 1..];
    assert t[..L] == a;
    assert t[R + 1..] == b;
    assert s == a + s[L..R + 1] + b;
    assert t == a + t[L..R + 1] + b;
    assert multiset(s) == multiset(a) + multiset(s[L..R + 1]) + multiset(b);
    assert multiset(t) == multiset(a) + multiset(t[L..R + 1]) + multiset(b);
    assert multiset(s[L..R + 1]) == multiset(s) - multiset(a) - multiset(b);
    assert multiset(t[L..R + 1]) == multiset(t) - multiset(a) - multiset(b);
  }

  /**
   * A permutation that keeps the letters outside s[lo..hi) and puts one letter at both
   * ends of that block leaves inside t[lo'..hi') the block less that pair, so with the
   * same parities.
   */
  lemma PairRemoved(s: seq<char>, t: seq<char>, lo: int, hi: int, lo': int, hi': int)
    requires 0 <= lo && lo' == lo + 1 && hi' == hi - 1 && lo' <= hi' && hi <= |s|
    requires |t| == |s| && multiset(t) == multiset(s) && t[lo] == t[hi']
    requires forall k :: 0 <= k < |s| && !(lo <= k < hi) ==> t[k] == s[k]
    ensures multiset(t[lo'..hi']) == multiset(s[lo..hi]) - multiset{t[lo], t[lo]}
    ensures OddIn(multiset(t[lo'..hi'])) == OddIn(multiset(s[lo..hi]))
  {
    BlockKept(s, t, lo, hi');
    BlockEnds(t, lo, hi');
    RemovePair(multiset(s[lo..hi]), multiset(t[lo'..hi']), t[lo]);
  }

  /** The same, counted. */
  lemma PairRemovedCard(s: seq<char>, t: seq<char>, lo: int, hi: int, lo': int, hi': int)
    requires 0 <= lo && lo' == lo + 1 && hi' == hi - 1 && lo' <= hi' && hi <= |s|
    requires |t| == |s| && multiset(t) == multiset(s) && t[lo] == t[hi']
    requires forall k :: 0 <= k < |s| && !(lo <= k < hi) ==> t[k] == s[k]
    ensures |OddIn(multiset(t[lo'..hi']))| == |OddIn(multiset(s[lo..hi]))|
  {
    BlockKept(s, t, lo, hi');
    BlockEnds(t, lo, hi');
    RemovePairCard(multiset(s[lo..hi]), multiset(t[lo'..hi']), t[lo]);
  }

  /** Adding one letter a flips whether a is odd and leaves the other letters alone. */
  lemma AddOneOdd(m: multiset<char>, a: char)
    ensures OddIn(m + multiset{a}) == if a in OddIn(m) then OddIn(m) - {a} else OddIn(m) + {a}
  {
    var m', o := m + multiset{a}, OddIn(m);
    var o' := if a in o then o - {a} else o + {a};
    forall b
      ensures b in OddIn(m') <==> b in o'
    {
      if b == a {
        assert m'[b] == m[b] + 1;
      } else {
        assert m'[b] == m[b];
      }
    }
  }

  /** Adding one letter changes the number of odd letters by one. */
  lemma AddOne(m: multiset<char>, a: char)
    ensures |OddIn(m + multiset{a})| % 2 != |OddIn(m)| % 2
  {
    AddOneOdd(m, a);
    var o := OddIn(m);
    if a in o {
      assert |o - {a}| == |o| - 1;
    } else {
      assert |o + {a}| == |o| + 1;
    }
  }

  /** A word's length and its number of odd letters have the same parity. */
  lemma {:induction false} OddParity(x: seq<char>)
    ensures |x| % 2 == |OddIn(multiset(x))| % 2
  {
    if x == [] {
      assert OddIn(multiset(x)) == {};
    } else {
      var y, a := x[..|x| - 1], x[|x| - 1];
      assert x == y + [a];
      OddParity(y);
      assert multiset(x) == multiset(y) + multiset{a};
      AddOne(multiset(y), a);
    }
  }

  /**
   * The state palindromeSwapsReverse needs on the block s[L..R]: its only odd letter is
   * s[L], and that letter occurs there once.
   */
  ghost predicate ReadyRev(s: seq<char>, L: int, R: int)
  {
    0 <= L <= R < |s| && OddIn(multiset(s[L..R + 1])) == {s[L]} && multiset(s[L..R + 1])[s[L]] == 1
  }

  /** In a ready block of two or more letters the right end is another letter, present twice or more. */
  lemma ReadyRight(s: seq<char>, L: int, R: int)
    requires ReadyRev(s, L, R) && L < R
    ensures s[R] != s[L] && multiset(s[L..R + 1])[s[R]] >= 2
  {
    BlockEnds(s, L, R);
    var m := multiset(s[L..R + 1]);
    assert s[R] in m;
    assert s[R] !in OddIn(m);
  }

  // ---------------------------------------------------------------------------
  // The forward pass.

  /** The state of palindromeSwaps' loop at position i. */
  ghost predicate FwdState(s0: seq<char>, s: seq<char>, i: int)
  {
    && |s| == |s0| && 0 <= i <= |s| / 2 && multiset(s) == multiset(s0)
    && Mirrored(s, 0, i) && AtMostOneOdd(multiset(s[i..|s| - i]))
  }

  /** Without a partner for s[i], that letter is the block's only odd one: ready for the reverse pass. */
  lemma ReadyForReverse(s: seq<char>, i: int)
    requires 0 <= i < |s| / 2 && AtMostOneOdd(multiset(s[i..|s| - i]))
    requires RightMatch(s, s[i], i, -1)
    ensures ReadyRev(s, i, |s| - 1 - i)
  {
    var n := |s|;
    var c := s[i];
    var inner := s[i + 1..n - i];
    assert s[i..n - i] == [c] + inner;
    assert c !in inner by {
      forall k | 0 <= k < |inner|
        ensures inner[k] != c
      {
        assert inner[k] == s[i + 1 + k];
      }
    }
    assert multiset(s[i..n - i])[c] == 1;
    assert c in OddIn(multiset(s[i..n - i]));
    assert n - 1 - i + 1 == n - i;
    var odd := OddIn(multiset(s[i..n - i]));
    assert odd == {c} by {
      forall b | b in odd
        ensures b == c
      {
        if b != c {
          assert {b, c} <= odd;
          SubsetCard({b, c}, odd);
        }
      }
    }
  }

  /** Moving the partner of s[i] to the mirrored place matches one more pair and keeps the outer ones. */
  lemma ForwardMirror(s: seq<char>, t: seq<char>, i: int, ind: int)
    requires 0 <= i < |s| / 2 && i < ind <= |s| - 1 - i && s[ind] == s[i]
    requires Shifted(s, t, ind, |s| - 1 - i) && Mirrored(s, 0, i)
    ensures Mirrored(t, 0, i + 1)
  {
    var n := |s|;
    forall j | 0 <= j < i + 1
      ensures t[j] == Mirror(t, j)
    {
      if j < i {
        assert t[j] == s[j] && t[n - 1 - j] == s[n - 1 - j] && s[j] == Mirror(s, j);
      }
    }
  }

  /** The same move takes one pair of s[i] out of the block and keeps its parities. */
  lemma ForwardBlock(s: seq<char>, t: seq<char>, i: int, i': int)
    requires 0 <= i < |s| / 2 && i' == i + 1 && |t| == |s| && multiset(t) == multiset(s)
    requires t[i] == t[|s| - 1 - i] && forall k :: 0 <= k < |s| && !(i <= k < |s| - i) ==> t[k] == s[k]
    requires AtMostOneOdd(multiset(s[i..|s| - i]))
    ensures AtMostOneOdd(multiset(t[i'..|s| - i']))
  {
    PairRemovedCard(s, t, i, |s| - i, i', |s| - i');
  }

  /** One pass of palindromeSwaps with a partner at ind. */
  lemma ForwardStep(s0: seq<char>, s: seq<char>, t: seq<char>, i: int, i': int, ind: int)
    requires FwdState(s0, s, i) && i < |s| / 2 && i' == i + 1 && ind != -1 && RightMatch(s, s[i], i, ind)
    requires Shifted(s, t, ind, |s| - 1 - i) && multiset(t) == multiset(s)
    ensures FwdState(s0, t, i')
  {
    ForwardMirror(s, t, i, ind);
    ForwardBlock(s, t, i, i');
  }

  /** When the reverse pass took over at i, the result is a palindrome. */
  lemma Delegated(s: seq<char>, t: seq<char>, i: int, lo: int, hi: int)
    requires 0 <= i < |s| / 2 && lo == i && hi == |s| - 1 - i && Mirrored(s, 0, i)
    requires KeptOutside(t, s, lo, hi) && Mirrored(t, i, |t| / 2)
    ensures Palindrome(t)
  {
    var n := |s|;
    forall j | 0 <= j < i
      ensures t[j] == Mirror(t, j)
    {
      assert t[j] == s[j] && t[n - 1 - j] == s[n - 1 - j] && s[j] == Mirror(s, j);
    }
    MirroredPalindrome(t);
  }

  // ---------------------------------------------------------------------------
  // The reverse pass.

  /** Outside s[lo..hi], s and s0 agree. */
  predicate KeptOutside(s: seq<char>, s0: seq<char>, lo: int, hi: int)
  {
    |s| == |s0| && forall k :: 0 <= k < |s| && !(lo <= k <= hi) ==> s[k] == s0[k]
  }

  /** The state of palindromeSwapsReverse's loop at position i. */
  ghost predicate RevState(s0: seq<char>, s: seq<char>, start: int, i: int)
  {
    && |s| == |s0| && start < |s0| && i <= start
    && ReadyRev(s, |s| - 1 - i, i) && multiset(s) == multiset(s0)
    && KeptOutside(s, s0, |s| - 1 - start, start)
    && Mirrored(s, |s| - 1 - start, |s| - 1 - i)
  }

  /** In a ready block the first match of the right end lies strictly inside. */
  lemma ReverseMatch(s: seq<char>, L: int, R: int, ind: int)
    requires ReadyRev(s, L, R) && L < R && R == |s| - 1 - L && LeftMatch(s, s[R], L, ind)
    ensures L < ind < R && s[ind] == s[R]
  {
    var d := s[R];
    ReadyRight(s, L, R);
    assert s[L..R + 1] == s[L..R] + [d];
    assert multiset(s[L..R])[d] >= 1;
    var p :| 0 <= p < R - L && s[L..R][p] == d;
    assert s[L + p] == d;
  }

  /** Moving that match to L matches the pair at the ends and leaves the inside ready. */
  lemma ReverseInner(s: seq<char>, t: seq<char>, L: int, R: int, ind: int)
    requires ReadyRev(s, L, R) && L < ind < R && s[ind] == s[R]
    requires Shifted(s, t, ind, L) && multiset(t) == multiset(s)
    ensures ReadyRev(t, L + 1, R - 1)
  {
    var c, d := s[L], s[R];
    var m := multiset(s[L..R + 1]);
    ReadyRight(s, L, R);
    assert t[L] == d && t[R] == d && t[L + 1] == c;
    PairRemoved(s, t, L, R + 1, L + 1, R);
    var inner := multiset(t[L + 1..R]);
    assert R - 1 + 1 == R;
    assert inner[c] == m[c];
  }

  /** One pass of palindromeSwapsReverse. */
  lemma ReverseStep(s0: seq<char>, s: seq<char>, t: seq<char>, start: int, i: int, i': int, ind: int)
    requires RevState(s0, s, start, i) && i > |s| / 2 && i' == i - 1
    requires |s| - 1 - i < ind < i && s[ind] == s[i]
    requires Shifted(s, t, ind, |s| - 1 - i) && multiset(t) == multiset(s)
    ensures RevState(s0, t, start, i')
  {
    var n := |s|;
    var L := n - 1 - i;
    ReverseInner(s, t, L, i, ind);
    assert n - 1 - (i - 1) == L + 1;
    forall j | n - 1 - start <= j < L + 1
      ensures t[j] == Mirror(t, j)
    {
      if j < L {
        assert t[j] == s[j] && t[n - 1 - j] == s[n - 1 - j] && s[j] == Mirror(s, j);
      }
    }
  }

  /** When the loop stops, the ready block is the middle letter alone and every pair is matched. */
  lemma ReverseDone(s0: seq<char>, s: seq<char>, start: int, i: int)
    requires RevState(s0, s, start, i) && i <= |s| / 2
    ensures Mirrored(s, |s| - 1 - start, |s| / 2)
  {
    var L := |s| - 1 - i;
    OddParity(s[L..i + 1]);
    assert |s| % 2 == 1;
  }

  /**
   * The body of palindromeSwapsReverse's loop at i: find the first match of str[i] from
   * |str| - 1 - i on and swap it there, returning the number of swaps.
   */
  method ReversePass(str: array<char>, ghost s0: seq<char>, start: int, i: int) returns (k: int, i': int, ghost m: seq<int>)
    modifies str
    requires RevState(s0, str[..], start, i) && i > str.Length / 2
    ensures i' == i - 1 && RevState(s0, str[..], start, i') && k >= 0
    ensures str[..] == Apply(old(str[..]), m) && |m| == k && Adjacent(m, str.Length)
  {
    i' := i - 1;
    ghost var s := str[..];
    var goal := str.Length - 1 - i;
    var ind := FindMatch(str[i], str[..], false, goal);
    ReverseMatch(s, goal, i, ind);
    k, m := Swap(str, ind, goal, -1);
    ghost var t := str[..];
    ReverseStep(s0, s, t, start, i, i', ind);
  }

  /**
   * palindromeSwapsReverse(str, start): for each position i from start down to just past
   * the middle, moves the first match of str[i] at or after |str| - 1 - i to that
   * mirrored position. Called on a ready block, it matches every remaining pair.
   */
  method PalindromeSwapsReverse(str: array<char>, start: int) returns (swaps: int, ghost moves: seq<int>)
    modifies str
    requires ReadyRev(str[..], str.Length - 1 - start, start)
    ensures multiset(str[..]) == multiset(old(str[..])) && swaps >= 0
    ensures str[..] == Apply(old(str[..]), moves) && |moves| == swaps && Adjacent(moves, str.Length)
    ensures KeptOutside(str[..], old(str[..]), str.Length - 1 - start, start)
    ensures Mirrored(str[..], str.Length - 1 - start, str.Length / 2)
  {
    ghost var s0 := str[..];
    var n := str.Length;
    swaps, moves := 0, [];
    var i := start;
    while i > n / 2
      invariant RevState(s0, str[..], start, i) && swaps >= 0
      invariant str[..] == Apply(s0, moves) && |moves| == swaps && Adjacent(moves, n)
      decreases i
    {
      var k;
      ghost var m;
      ghost var t := str[..];
      k, i, m := ReversePass(str, s0, start, i);
      Chain(s0, moves, t, m, str[..]);
      swaps, moves := swaps + k, moves + m;
    }
    ReverseDone(s0, str[..], start, i);
  }

  /** The rest of palindromeSwaps' loop body once a partner ind of str[i] was found: swap it to the mirrored place. */
  method ForwardPass(str: array<char>, ghost s0: seq<char>, i: int, ind: int) returns (k: int, i': int, ghost m: seq<int>)
    modifies str
    requires FwdState(s0, str[..], i) && i < str.Length / 2 && ind != -1 && RightMatch(str[..], str[i], i, ind)
    ensures i' == i + 1 && FwdState(s0, str[..], i') && k >= 0
    ensures str[..] == Apply(old(str[..]), m) && |m| == k && Adjacent(m, str.Length)
  {
    ghost var s := str[..];
    i' := i + 1;
    k, m := Swap(str, ind, str.Length - 1 - i, 1);
    ghost var t := str[..];
    ForwardStep(s0, s, t, i, i', ind);
  }

  /** The branch of palindromeSwaps' loop body where str[i] has no partner: hand the block to the reverse pass. */
  method Delegate(str: array<char>, ghost s0: seq<char>, i: int) returns (rest: int, ghost m: seq<int>)
    modifies str
    requires FwdState(s0, str[..], i) && i < str.Length / 2 && RightMatch(str[..], str[i], i, -1)
    ensures multiset(str[..]) == multiset(s0) && Palindrome(str[..]) && rest >= 0
    ensures str[..] == Apply(old(str[..]), m) && |m| == rest && Adjacent(m, str.Length)
  {
    ghost var s := str[..];
    var n := str.Length;
    ReadyForReverse(s, i);
    var start := n - 1 - i;
    rest, m := PalindromeSwapsReverse(str, start);
    ghost var t := str[..];
    Delegated(s, t, i, n - 1 - start, start);
  }

  /**
   * palindromeSwaps(str), called when at most one letter has an odd count: for each
   * position i of the left half, moves the last match of str[i] in the right part to
   * the mirrored position; without a match the rest is left to palindromeSwapsReverse.
   * The letters are only permuted and the string ends as a palindrome.
   */
  method PalindromeSwaps(str: array<char>) returns (swaps: int, ghost moves: seq<int>)
    modifies str
    requires AtMostOneOdd(multiset(str[..]))
    ensures multiset(str[..]) == multiset(old(str[..])) && swaps >= 0
    ensures str[..] == Apply(old(str[..]), moves) && |moves| == swaps && Adjacent(moves, str.Length)
    ensures Palindrome(str[..])
  {
    ghost var s0 := str[..];
    var n := str.Length;
    swaps, moves := 0, [];
    assert str[0..n] == s0;
    var i := 0;
    while i < n / 2
      invariant FwdState(s0, str[..], i) && swaps >= 0
      invariant str[..] == Apply(s0, moves) && |moves| == swaps && Adjacent(moves, n)
    {
      ghost var s := str[..];
      var ind := FindMatch(str[i], str[..], true, i);
      if ind == -1 {
        var rest;
        ghost var m;
        rest, m := Delegate(str, s0, i);
        Chain(s0, moves, s, m, str[..]);
        swaps, moves := swaps + rest, moves + m;
        return;
      }
      var k;
      ghost var m;
      k, i, m := ForwardPass(str, s0, i, ind);
      Chain(s0, moves, s, m, str[..]);
      swaps, moves := swaps + k, moves + m;
    }
    MirroredPalindrome(str[..]);
  }

  // ---------------------------------------------------------------------------
  // One word.

  /** What main prints for one word. */
  datatype Answer = Impossible | Swaps(count: int)

  /**
   * main, for one word s: count its letters; print "Impossible" when palindromeExists
   * fails, else the number of swaps palindromeSwaps makes on a copy of s. The ghost p is
   * the palindrome the swaps end in, and moves lists each adjacent exchange they make.
   */
  method Solve(s: string) returns (r: Answer, ghost p: string, ghost moves: seq<int>)
    ensures r == Impossible <==> !AtMostOneOdd(multiset(s))
    ensures r.Swaps? ==> r.count >= 0 && multiset(p) == multiset(s) && Palindrome(p)
    ensures r.Swaps? ==> p == Apply(s, moves) && r.count == |moves| && Adjacent(moves, |s|)
  {
    var chars := CountLetters(s);
    var ok := PalindromeExists(chars);
    OneOddCounts(s);
    if !ok {
      return Impossible, s, [];
    }
    var str := new char[|s|](k requires 0 <= k < |s| => s[k]);
    assert str[..] == s;
    var swaps;
    ghost var m;
    swaps, m := PalindromeSwaps(str);
    return Swaps(swaps), str[..], m;
  }
}
