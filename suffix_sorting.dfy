/**
 * Suffix arrays by prefix doubling (SuffixSorting/suffixsorting.cpp). The text gets a
 * sentinel 0x1f, lower than every character of the text, appended; the N cyclic shifts
 * of the result are then sorted by their first 1, 2, 4, ... characters. Each pass sorts
 * by the class of the second half first (a shift of the previous order) and then
 * stably by the class of the first half (counting sort), and numbers the new classes.
 * Once 2^h >= N all shifts are distinct, the order of the shifts is the order of the
 * suffixes, and dropping the sentinel's own shift leaves the suffix array.
 *
 * The vectors of the source are sequences here; the count buffer is a fresh sequence
 * of the size each pass reads.
 */
module SuffixSorting {
  import opened Lexicographic
  import opened CountingSort

  /** The size of the count table cSort works on. */
  const ALPB := 256

  /** The character appended to the text; it must be below every character of the text. */
  const Sentinel: char := 0x1f as char

  /**
   * The texts the construction handles: every character is above the sentinel and is
   * an ASCII character, so that it indexes the count table as a signed char does.
   */
  predicate Text(str: string)
  {
    forall k :: 0 <= k < |str| ==> Sentinel < str[k] < 0x80 as char
  }

  /** Character codes, indexed by offset: the key of offset e in cSort. */
  function Codes(s: string): (c: seq<int>)
    ensures |c| == |s| && forall e :: 0 <= e < |s| ==> c[e] == s[e] as int
  {
    seq(|s|, e requires 0 <= e < |s| => s[e] as int)
  }

  // ---------------------------------------------------------------------------
  // Arithmetic modulo the length
  // ---------------------------------------------------------------------------

  /** A non-zero multiple of n is at least n away from zero. */
  lemma MulAway(n: int, e: int)
    requires n >= 0
    ensures e >= 1 ==> e * n >= n
    ensures e <= -1 ==> e * n <= -n
  {
    if e >= 1 {
      assert e * n == n + (e - 1) * n;
    } else if e <= -1 {
      assert e * n == -n + (e + 1) * n;
    }
  }

  lemma ModUnique(y: int, n: int, q: int, r: int)
    requires n > 0 && 0 <= r < n && y == q * n + r
    ensures y % n == r
  {
    var e := q - y / n;
    assert e * n == y % n - r;
    MulAway(n, e);
  }

  lemma ModAdd(x: int, b: int, n: int)
    requires n > 0
    ensures (x % n + b) % n == (x + b) % n
  {
    var y := x % n + b;
    var q, r := y / n, y % n;
    assert y == q * n + r;
    assert x + b == (q + x / n) * n + r;
    ModUnique(x + b, n, q + x / n, r);
  }

  // ---------------------------------------------------------------------------
  // Cyclic substrings and their classes
  // ---------------------------------------------------------------------------

  /** The len characters of s read cyclically from offset i. */
  ghost function Cyc(s: string, i: int, len: nat): (c: string)
    requires |s| > 0
    ensures |c| == len
  {
    seq(len, k => s[(i + k) % |s|])
  }

  lemma ShiftedIndex(s: string, i: int, a: nat, j: nat)
    requires |s| > 0
    ensures (i + (a + j)) % |s| == ((i + a) % |s| + j) % |s|
  {
    ModAdd(i + a, j, |s|);
  }

  /** A cyclic substring of length a + b is the one of length a followed by the one of length b. */
  lemma CycSplit(s: string, i: int, a: nat, b: nat)
    requires |s| > 0
    ensures Cyc(s, i, a + b) == Cyc(s, i, a) + Cyc(s, (i + a) % |s|, b)
  {
    var whole, right := Cyc(s, i, a + b), Cyc(s, (i + a) % |s|, b);
    assert whole[..a] == Cyc(s, i, a);
    forall j | 0 <= j < b
      ensures whole[a..][j] == right[j]
    {
      ShiftedIndex(s, i, a, j);
    }
    assert whole == whole[..a] + whole[a..];
  }

  /**
   * cls numbers the cyclic substrings of length len in their order: classes compare as
   * the substrings do, and are equal exactly for equal substrings.
   */
  ghost predicate Ranked(s: string, cls: seq<int>, len: nat)
    requires |s| > 0
  {
    |cls| == |s| &&
    forall x, y :: 0 <= x < |s| && 0 <= y < |s| ==>
      (cls[x] < cls[y] <==> Less(Cyc(s, x, len), Cyc(s, y, len))) &&
      (cls[x] == cls[y] <==> Cyc(s, x, len) == Cyc(s, y, len))
  }

  /** Every class is in [0, cl). */
  ghost predicate Bounded(cls: seq<int>, cl: int)
  {
    forall x :: 0 <= x < |cls| ==> 0 <= cls[x] < cl
  }

  /**
   * The state after each pass with substrings of length len: the shifts in order, the
   * classes that rank them, and cl classes in use.
   */
  ghost predicate Stage(s: string, order: seq<int>, cls: seq<int>, cl: int, len: nat)
    requires |s| > 0
  {
    Permutation(order, |s|) && Ranked(s, cls, len) && Mono(order, cls) &&
    Bounded(cls, cl) && 1 <= cl <= |s|
  }

  // ---------------------------------------------------------------------------
  // cSort: offsets by first character
  // ---------------------------------------------------------------------------

  ghost function Iota(n: nat): (r: seq<int>)
    ensures |r| == n && forall e :: 0 <= e < n ==> r[e] == e
  {
    seq(n, e => e)
  }

  /**
   * The offsets in the order cSort's placement sees them, from the right: N-1 down to 1,
   * so that 1, 2, ..., N-1 are placed in turn, and offset 0 last (it is never written,
   * and is left in the zero-initialised first slot of its bucket).
   */
  ghost function CInput(n: nat): (r: seq<int>)
    ensures |r| == n && forall k :: 0 <= k < n ==> r[k] == if k == 0 then 0 else n - k
  {
    seq(n, k => if k == 0 then 0 else n - k)
  }

  lemma CInputPermutation(n: nat)
    ensures Permutation(CInput(n), n)
  {
    var c := CInput(n);
    forall v | 0 <= v < n
      ensures v in c
    {
      if v == 0 {
        assert c[0] == v;
      } else {
        assert c[n - v] == v;
      }
    }
  }

  /** Counting offsets in text order gives the counts of the placement order. */
  lemma {:induction false} SameCount(n: nat, key: seq<int>, x: int)
    requires n >= 1
    ensures |Filter(Iota(n), key, x)| == |Filter(CInput(n), key, x)|
  {
    if n == 1 {
      assert Iota(1) == CInput(1);
    } else {
      SameCount(n - 1, key, x);
      assert Iota(n) == Iota(n - 1) + [n - 1];
      FilterAppend(Iota(n - 1), [n - 1], key, x);
      var c, d := CInput(n), CInput(n - 1);
      assert c == [0] + [n - 1] + d[1..];
      assert d == [0] + d[1..];
      FilterAppend([0] + [n - 1], d[1..], key, x);
      FilterAppend([0], [n - 1], key, x);
      FilterAppend([0], d[1..], key, x);
    }
  }

  /** Slots lo .. hi - 1 of o hold zero. */
  ghost predicate Blank(o: seq<int>, lo: int, hi: int)
  {
    forall p :: lo <= p < hi && 0 <= p < |o| ==> o[p] == 0
  }

  /** Placing one offset keeps the unwritten slots of every bucket zero. */
  lemma PlaceBlank(xs: seq<int>, key: seq<int>, k: int, i: int, count: seq<int>, o: seq<int>, x: int, c: seq<int>, o': seq<int>, y: int)
    requires Keyed(xs, key, k) && 0 < i && Placing(xs, key, k, i, count, o) && 0 <= y < k
    requires x == KeyOf(key, xs[i - 1]) && 0 <= x < k
    requires c == count[x := count[x] - 1] && 0 <= c[x] < |o| && o' == o[c[x] := xs[i - 1]]
    requires Blank(o, Start(xs, key, y), count[y])
    ensures Blank(o', Start(xs, key, y), c[y])
  {
    if x != y {
      SlotOutside(xs, key, i, x, y, count[x], count[y]);
    }
  }

  /** The slot below count[x] lies outside the unwritten slots of any other bucket y. */
  lemma SlotOutside(xs: seq<int>, key: seq<int>, i: int, x: int, y: int, cx: int, cy: int)
    requires 0 < i <= |xs| && x == KeyOf(key, xs[i - 1]) && 0 <= x && 0 <= y && x != y
    requires Slot(xs, key, i, cx, x) && Slot(xs, key, i, cy, y)
    ensures cx - 1 < Start(xs, key, y) || cy <= cx - 1
  {
    Split(xs, key, i, x);
    Split(xs, key, i, y);
    StartMono(xs, key, x + 1, y);
    StartMono(xs, key, y + 1, x);
  }

  /** One placement step of cSort keeps the placement state and the zero slots. */
  lemma CStep(xs: seq<int>, key: seq<int>, k: int, i: int, count: seq<int>, o: seq<int>, x: int, c: seq<int>, o': seq<int>)
    requires Keyed(xs, key, k) && 0 < i && Placing(xs, key, k, i, count, o)
    requires forall y :: 0 <= y < k ==> Blank(o, Start(xs, key, y), count[y])
    requires x == KeyOf(key, xs[i - 1]) && 0 <= x < k
    requires c == count[x := count[x] - 1] && 0 <= c[x] < |o| && o' == o[c[x] := xs[i - 1]]
    ensures Placing(xs, key, k, i - 1, c, o')
    ensures forall y :: 0 <= y < k ==> Blank(o', Start(xs, key, y), c[y])
  {
    Place(xs, key, k, i, count, o, x, c, o');
    forall y | 0 <= y < k
      ensures Blank(o', Start(xs, key, y), c[y])
    {
      PlaceBlank(xs, key, k, i, count, o, x, c, o', y);
    }
  }

  /** All bucket-bottom slots are still zero before anything is placed. */
  lemma Unplaced(xs: seq<int>, key: seq<int>, k: int, count: seq<int>, o: seq<int>)
    requires Keyed(xs, key, k) && Placing(xs, key, k, |xs|, count, o)
    requires forall p :: 0 <= p < |o| ==> o[p] == 0
    ensures forall y :: 0 <= y < k ==> Blank(o, Start(xs, key, y), count[y])
  {
  }

  /** The last step, for offset 0, writes the zero that is already in its slot. */
  lemma LastSlot(xs: seq<int>, key: seq<int>, k: int, count: seq<int>, o: seq<int>, x: int)
    requires Keyed(xs, key, k) && |xs| >= 1 && xs[0] == 0 && Placing(xs, key, k, 1, count, o)
    requires forall y :: 0 <= y < k ==> Blank(o, Start(xs, key, y), count[y])
    requires x == KeyOf(key, xs[0]) && 0 <= x < k
    ensures 0 <= count[x] - 1 < |o| && o[count[x] - 1 := xs[0]] == o
  {
    assert Slot(xs, key, 1, count[x], x) && Blank(o, Start(xs, key, x), count[x]);
    assert Span(o, count[x], Start(xs, key, x + 1), Filter(xs[1..], key, x));
    assert xs[..1] == [xs[0]];
  }

  /**
   * The first two loops of cSort: the count of every character of s, then the running
   * sums, so that entry x is where the bucket of character x ends.
   */
  method BucketEnds(s: string) returns (c: seq<int>)
    requires |s| >= 1 && forall k :: 0 <= k < |s| ==> s[k] as int < ALPB
    ensures |c| == ALPB && forall x :: 0 <= x < ALPB ==> c[x] == Start(CInput(|s|), Codes(s), x + 1)
  {
    var n := |s|;
    ghost var key, xs := Codes(s), CInput(n);
    c := Zeros(ALPB);
    for i := 0 to n
      invariant |c| == ALPB
      invariant forall x :: 0 <= x < ALPB ==> c[x] == |Filter(Iota(i), key, x)|
    {
      assert Iota(i + 1) == Iota(i) + [i];
      forall x | 0 <= x < ALPB
        ensures |Filter(Iota(i + 1), key, x)| == |Filter(Iota(i), key, x)| + (if key[i] == x then 1 else 0)
      {
        FilterAppend(Iota(i), [i], key, x);
      }
      c := c[s[i] as int := c[s[i] as int] + 1];
    }
    forall x | 0 <= x < ALPB
      ensures c[x] == |Filter(xs, key, x)|
    {
      SameCount(n, key, x);
    }
    for i := 1 to ALPB
      invariant |c| == ALPB
      invariant forall x :: 0 <= x < i ==> c[x] == Start(xs, key, x + 1)
      invariant forall x :: i <= x < ALPB ==> c[x] == |Filter(xs, key, x)|
    {
      c := c[i := c[i] + c[i - 1]];
    }
  }

  /**
   * The placement loop of cSort: offsets 1 .. N-1 in turn, each into the slot below its
   * character's counter, leaving the bottom slots of the buckets zero.
   */
  method CPlace(s: string, c0: seq<int>, o0: seq<int>) returns (c: seq<int>, o: seq<int>)
    requires |s| >= 1 && forall k :: 0 <= k < |s| ==> s[k] as int < ALPB
    requires Placing(CInput(|s|), Codes(s), ALPB, |s|, c0, o0)
    requires forall y :: 0 <= y < ALPB ==> Blank(o0, Start(CInput(|s|), Codes(s), y), c0[y])
    ensures Placing(CInput(|s|), Codes(s), ALPB, 1, c, o)
    ensures forall y :: 0 <= y < ALPB ==> Blank(o, Start(CInput(|s|), Codes(s), y), c[y])
  {
    var n := |s|;
    ghost var key, xs := Codes(s), CInput(n);
    assert Keyed(xs, key, ALPB);
    c, o := c0, o0;
    for i := 1 to n
      invariant Placing(xs, key, ALPB, n - i + 1, c, o)
      invariant forall y :: 0 <= y < ALPB ==> Blank(o, Start(xs, key, y), c[y])
    {
      assert xs[n - i] == i;
      SlotAbove(xs, key, ALPB, n - i + 1, c, o);
      var x := s[i] as int;
      var c' := c[x := c[x] - 1];
      var o' := o[c'[x] := i];
      CStep(xs, key, ALPB, n - i + 1, c, o, x, c', o');
      c, o := c', o';
    }
  }

  /**
   * cSort: counting sort of all offsets of s by their character, over a zero-initialised
   * order vector; the placement loop starts at offset 1.
   */
  method CSort(s: string) returns (o: seq<int>)
    requires |s| >= 1 && forall k :: 0 <= k < |s| ==> s[k] as int < ALPB
    ensures o == Blocks(CInput(|s|), Codes(s), ALPB)
  {
    ghost var key, xs := Codes(s), CInput(|s|);
    var c := BucketEnds(s);
    o := Zeros(|s|);
    assert Keyed(xs, key, ALPB);
    Spans(xs, key, ALPB, c, o);
    Unplaced(xs, key, ALPB, c, o);
    c, o := CPlace(s, c, o);
    var x := s[0] as int;
    LastSlot(xs, key, ALPB, c, o, x);
    Place(xs, key, ALPB, 1, c, o, x, c[x := c[x] - 1], o);
    Placed(xs, key, ALPB, c[x := c[x] - 1], o);
  }

  // ---------------------------------------------------------------------------
  // Numbering the classes along the sorted order
  // ---------------------------------------------------------------------------

  /**
   * The first i entries of o have their classes numbered: the class goes up by one at
   * each change of key along o, so classes are equal exactly where keys are.
   */
  ghost predicate Numbered(o: seq<int>, key: seq<int>, c: seq<int>, cl: int, i: int)
  {
    1 <= i <= |o| && 1 <= cl <= i && KeyOf(c, o[i - 1]) == cl - 1 &&
    (forall p :: 0 <= p < i ==> 0 <= KeyOf(c, o[p]) < cl) &&
    forall p, q :: 0 <= p <= q < i ==>
      KeyOf(c, o[p]) <= KeyOf(c, o[q]) &&
      (KeyOf(c, o[p]) == KeyOf(c, o[q]) <==> KeyOf(key, o[p]) == KeyOf(key, o[q]))
  }

  /** Numbering the next entry: a new class when its key differs from the previous one. */
  lemma NumberStep(o: seq<int>, key: seq<int>, c: seq<int>, cl: int, i: int, cl': int)
    requires Distinct(o) && Mono(o, key) && Numbered(o, key, c, cl, i) && i < |o| && 0 <= o[i] < |c|
    requires cl' == if KeyOf(key, o[i]) != KeyOf(key, o[i - 1]) then cl + 1 else cl
    ensures Numbered(o, key, c[o[i] := cl' - 1], cl', i + 1)
  {
    var c' := c[o[i] := cl' - 1];
    forall p | 0 <= p < i
      ensures KeyOf(c', o[p]) == KeyOf(c, o[p])
      ensures KeyOf(key, o[p]) <= KeyOf(key, o[i - 1]) <= KeyOf(key, o[i])
    {
      assert o[p] != o[i];
    }
  }

  /**
   * Once every entry of the permutation o is numbered, classes compare as the keys do,
   * lie in [0, cl), and are non-decreasing along o.
   */
  lemma NumberedRank(o: seq<int>, key: seq<int>, c: seq<int>, cl: int, n: int)
    requires Permutation(o, n) && |c| == n && Mono(o, key) && Numbered(o, key, c, cl, n)
    ensures Bounded(c, cl) && Mono(o, c) && cl <= n
    ensures forall x, y :: 0 <= x < n && 0 <= y < n ==>
      (c[x] < c[y] <==> KeyOf(key, x) < KeyOf(key, y)) && (c[x] == c[y] <==> KeyOf(key, x) == KeyOf(key, y))
  {
    forall x | 0 <= x < n
      ensures 0 <= c[x] < cl
    {
      assert x in o;
      var p :| 0 <= p < n && o[p] == x;
    }
    forall x, y | 0 <= x < n && 0 <= y < n
      ensures (c[x] < c[y] <==> KeyOf(key, x) < KeyOf(key, y)) && (c[x] == c[y] <==> KeyOf(key, x) == KeyOf(key, y))
    {
      assert x in o && y in o;
      var p :| 0 <= p < n && o[p] == x;
      var q :| 0 <= q < n && o[q] == y;
      if p <= q {
        assert KeyOf(key, x) <= KeyOf(key, y) by { if p < q { assert KeyOf(key, o[p]) <= KeyOf(key, o[q]); } }
      } else {
        assert KeyOf(key, y) <= KeyOf(key, x) by { assert KeyOf(key, o[q]) <= KeyOf(key, o[p]); }
      }
    }
  }

  /** A cyclic substring of length 1 is the character at its offset. */
  lemma CycOne(s: string, x: int)
    requires 0 <= x < |s|
    ensures Cyc(s, x, 1) == [s[x]]
  {
    ModUnique(x, |s|, 0, x);
  }

  /** Cyclic substrings of length 1 compare as their characters. */
  lemma OnePair(s: string, x: int, y: int)
    requires 0 <= x < |s| && 0 <= y < |s|
    ensures Less(Cyc(s, x, 1), Cyc(s, y, 1)) <==> s[x] < s[y]
    ensures Cyc(s, x, 1) == Cyc(s, y, 1) <==> s[x] == s[y]
  {
    CycOne(s, x);
    CycOne(s, y);
    Single(s[x], s[y]);
  }

  /** Classes that compare as the characters do rank the substrings of length 1. */
  lemma RankedOne(s: string, cls: seq<int>)
    requires |s| > 0 && |cls| == |s|
    requires forall x, y :: 0 <= x < |s| && 0 <= y < |s| ==>
      (cls[x] < cls[y] <==> KeyOf(Codes(s), x) < KeyOf(Codes(s), y)) &&
      (cls[x] == cls[y] <==> KeyOf(Codes(s), x) == KeyOf(Codes(s), y))
    ensures Ranked(s, cls, 1)
  {
    forall x, y | 0 <= x < |s| && 0 <= y < |s|
      ensures (cls[x] < cls[y] <==> Less(Cyc(s, x, 1), Cyc(s, y, 1))) &&
        (cls[x] == cls[y] <==> Cyc(s, x, 1) == Cyc(s, y, 1))
    {
      OnePair(s, x, y);
    }
  }

  /** Numbering the whole order by character gives the state for length 1. */
  lemma FirstStage(s: string, order: seq<int>, cls: seq<int>, cl: int)
    requires |s| >= 1 && Permutation(order, |s|) && Mono(order, Codes(s))
    requires |cls| == |s| && Numbered(order, Codes(s), cls, cl, |s|)
    ensures Stage(s, order, cls, cl, 1)
  {
    NumberedRank(order, Codes(s), cls, cl, |s|);
    RankedOne(s, cls);
  }

  /**
   * The classes for length 1: along the order cSort produced, a new class starts at
   * every change of character (the first offset in the order keeps the initial 0).
   */
  method InitClasses(s: string, order: seq<int>) returns (cls: seq<int>, cl: int)
    requires |s| >= 1 && Permutation(order, |s|) && Mono(order, Codes(s))
    ensures Stage(s, order, cls, cl, 1)
  {
    var n := |s|;
    ghost var key := Codes(s);
    cls := Zeros(n);
    cl := 1;
    for i := 1 to n
      invariant |cls| == n && Numbered(order, key, cls, cl, i)
    {
      ghost var cl0 := cl;
      if s[order[i]] != s[order[i - 1]] {
        cl := cl + 1;
      }
      NumberStep(order, key, cls, cl0, i, cl);
      cls := cls[order[i] := cl - 1];
    }
    FirstStage(s, order, cls, cl);
  }

  // ---------------------------------------------------------------------------
  // One doubling pass
  // ---------------------------------------------------------------------------

  /** Adding len < n to an offset below n wraps around at most once. */
  lemma WrapAdd(a: int, len: int, n: int)
    requires 0 <= a < n && 0 < len < n
    ensures (a + len) % n == if a + len < n then a + len else a + len - n
  {
    if a + len < n {
      ModUnique(a + len, n, 0, a + len);
    } else {
      ModUnique(a + len, n, 1, a + len - n);
    }
  }

  /** The class of the second half of each cyclic substring of length 2 len: it starts len further on. */
  ghost function Sec(cls: seq<int>, len: int): (r: seq<int>)
    requires |cls| > 0
    ensures |r| == |cls|
  {
    seq(|cls|, x requires 0 <= x < |cls| => cls[(x + len) % |cls|])
  }

  /**
   * The pair (class of the first half, class of the second half) as one number, with
   * classes below n: pairs compare, as pairs, the way these numbers do.
   */
  ghost function PairKey(cls: seq<int>, len: int): (r: seq<int>)
    requires |cls| > 0
    ensures |r| == |cls|
  {
    seq(|cls|, x requires 0 <= x < |cls| => cls[x] * |cls| + cls[(x + len) % |cls|])
  }

  lemma PairKeyOrder(a1: int, a2: int, b1: int, b2: int, n: int)
    requires 0 <= a2 < n && 0 <= b2 < n
    ensures a1 * n + a2 < b1 * n + b2 <==> a1 < b1 || (a1 == b1 && a2 < b2)
    ensures a1 * n + a2 == b1 * n + b2 <==> a1 == b1 && a2 == b2
  {
    var e := b1 - a1;
    assert b1 * n + b2 - (a1 * n + a2) == e * n + b2 - a2;
    MulAway(n, e);
  }

  /** Two offsets have the same pair of classes exactly when their pair keys agree. */
  lemma PairSame(cls: seq<int>, cl: int, len: int, x: int, y: int)
    requires |cls| > 0 && Bounded(cls, cl) && cl <= |cls| && 0 <= x < |cls| && 0 <= y < |cls|
    ensures var n := |cls|;
      ((cls[x], cls[(x + len) % n]) == (cls[y], cls[(y + len) % n])) ==
      (KeyOf(PairKey(cls, len), x) == KeyOf(PairKey(cls, len), y))
  {
    var n := |cls|;
    PairKeyOrder(cls[x], cls[(x + len) % n], cls[y], cls[(y + len) % n], n);
  }

  /**
   * After the shift, ordern lists the same offsets as order, each moved back by len, so
   * that it is in order of the class of the second half.
   */
  lemma Shifted(order: seq<int>, cls: seq<int>, cl: int, len: int, ordern: seq<int>)
    requires |cls| > 0 && 0 < len < |cls| && Permutation(order, |cls|) && Mono(order, cls) && Bounded(cls, cl)
    requires |ordern| == |cls|
    requires forall p :: 0 <= p < |cls| ==> 0 <= ordern[p] < |cls| && (ordern[p] + len) % |cls| == order[p]
    ensures Permutation(ordern, |cls|) && Keyed(ordern, cls, cl) && Mono(ordern, Sec(cls, len))
  {
    var n := |cls|;
    forall p, q | 0 <= p < q < n
      ensures ordern[p] != ordern[q]
    {
      assert order[p] != order[q];
    }
    forall v | 0 <= v < n
      ensures v in ordern
    {
      WrapAdd(v, len, n);
      var w := (v + len) % n;
      assert w in order;
      var p :| 0 <= p < n && order[p] == w;
      WrapAdd(ordern[p], len, n);
      assert ordern[p] == v;
    }
    forall p | 0 <= p < n
      ensures KeyOf(Sec(cls, len), ordern[p]) == KeyOf(cls, order[p])
    {
    }
  }

  /**
   * Sorting the shifted order stably by the class of the first half leaves the offsets
   * in order of their pair of classes.
   */
  lemma PairsSorted(ordern: seq<int>, cls: seq<int>, cl: int, len: int)
    requires |cls| > 0 && Permutation(ordern, |cls|) && Keyed(ordern, cls, cl) && Mono(ordern, Sec(cls, len))
    requires Bounded(cls, cl) && cl <= |cls|
    ensures Permutation(Blocks(ordern, cls, cl), |cls|) && Mono(Blocks(ordern, cls, cl), PairKey(cls, len))
  {
    var n, b, sec, key := |cls|, Blocks(ordern, cls, cl), Sec(cls, len), PairKey(cls, len);
    BlocksPermutation(ordern, cls, cl, n);
    forall p, q | 0 <= p < q < |b|
      ensures KeyOf(key, b[p]) <= KeyOf(key, b[q])
    {
      BlocksOrdered(ordern, cls, cl, p, q);
      if KeyOf(cls, b[p]) == KeyOf(cls, b[q]) {
        BlocksStable(ordern, cls, cl, sec, p, q);
      }
      PairKeyOrder(cls[b[p]], sec[b[p]], cls[b[q]], sec[b[q]], n);
    }
  }

  /**
   * Pair keys that rank the halves rank the whole: a cyclic substring of length 2 len is
   * its first half followed by the half starting len further on.
   */
  lemma DoubledPair(s: string, cls: seq<int>, len: nat, x: int, y: int)
    requires |s| > 0 && |cls| == |s| && 0 <= x < |s| && 0 <= y < |s|
    requires forall z :: 0 <= z < |s| ==> 0 <= cls[z] < |s|
    requires var x', y' := (x + len) % |s|, (y + len) % |s|;
      (cls[x] < cls[y] <==> Less(Cyc(s, x, len), Cyc(s, y, len))) &&
      (cls[x] == cls[y] <==> Cyc(s, x, len) == Cyc(s, y, len)) &&
      (cls[x'] < cls[y'] <==> Less(Cyc(s, x', len), Cyc(s, y', len))) &&
      (cls[x'] == cls[y'] <==> Cyc(s, x', len) == Cyc(s, y', len))
    ensures var key := PairKey(cls, len);
      (KeyOf(key, x) < KeyOf(key, y) <==> Less(Cyc(s, x, 2 * len), Cyc(s, y, 2 * len))) &&
      (KeyOf(key, x) == KeyOf(key, y) <==> Cyc(s, x, 2 * len) == Cyc(s, y, 2 * len))
  {
    var n, key := |s|, PairKey(cls, len);
    var x', y' := (x + len) % n, (y + len) % n;
    var a, a', b, b' := Cyc(s, x, len), Cyc(s, x', len), Cyc(s, y, len), Cyc(s, y', len);
    PairKeyOrder(cls[x], cls[x'], cls[y], cls[y'], n);
    assert KeyOf(key, x) == cls[x] * n + cls[x'] && KeyOf(key, y) == cls[y] * n + cls[y'];
    assert Cyc(s, x, 2 * len) == a + a' by { CycSplit(s, x, len, len); }
    assert Cyc(s, y, 2 * len) == b + b' by { CycSplit(s, y, len, len); }
    Concat(a, a', b, b');
  }

  lemma Doubled(s: string, cls: seq<int>, cl: int, len: nat, c: seq<int>)
    requires |s| > 0 && Ranked(s, cls, len) && Bounded(cls, cl) && cl <= |s| && |c| == |s|
    requires forall x, y :: 0 <= x < |s| && 0 <= y < |s| ==>
      (c[x] < c[y] <==> KeyOf(PairKey(cls, len), x) < KeyOf(PairKey(cls, len), y)) &&
      (c[x] == c[y] <==> KeyOf(PairKey(cls, len), x) == KeyOf(PairKey(cls, len), y))
    ensures Ranked(s, c, 2 * len)
  {
    forall x, y | 0 <= x < |s| && 0 <= y < |s|
      ensures (c[x] < c[y] <==> Less(Cyc(s, x, 2 * len), Cyc(s, y, 2 * len))) &&
        (c[x] == c[y] <==> Cyc(s, x, 2 * len) == Cyc(s, y, 2 * len))
    {
      var x', y' := (x + len) % |s|, (y + len) % |s|;
      assert (cls[x'] < cls[y'] <==> Less(Cyc(s, x', len), Cyc(s, y', len))) &&
        (cls[x'] == cls[y'] <==> Cyc(s, x', len) == Cyc(s, y', len));
      DoubledPair(s, cls, len, x, y);
    }
  }

  /** The shift loop: every offset of order moved back by len, wrapping around below 0. */
  method ShiftOrder(order: seq<int>, len: int, n: int) returns (ordern: seq<int>)
    requires 0 < len < n && |order| == n && forall p :: 0 <= p < n ==> 0 <= order[p] < n
    ensures |ordern| == n
    ensures forall p :: 0 <= p < n ==> 0 <= ordern[p] < n && (ordern[p] + len) % n == order[p]
  {
    ordern := Zeros(n);
    for i := 0 to n
      invariant |ordern| == n
      invariant forall p :: 0 <= p < i ==> 0 <= ordern[p] < n && (ordern[p] + len) % n == order[p]
    {
      ordern := ordern[i := order[i] - len];
      if ordern[i] < 0 {
        ordern := ordern[i := ordern[i] + n];
      }
      WrapAdd(ordern[i], len, n);
    }
  }

  /**
   * The equivalence-class loop of a pass: along the new order, a new class starts
   * wherever the pair (class of the offset, class of the offset len further on) changes.
   */
  method NumberPairs(order: seq<int>, cls: seq<int>, cl: int, len: int) returns (cls': seq<int>, cl': int)
    requires |cls| > 0 && Permutation(order, |cls|) && Mono(order, PairKey(cls, len))
    requires Bounded(cls, cl) && cl <= |cls|
    ensures |cls'| == |cls| && Bounded(cls', cl') && Mono(order, cls') && 1 <= cl' <= |cls|
    ensures forall x, y :: 0 <= x < |cls| && 0 <= y < |cls| ==>
      (cls'[x] < cls'[y] <==> KeyOf(PairKey(cls, len), x) < KeyOf(PairKey(cls, len), y)) &&
      (cls'[x] == cls'[y] <==> KeyOf(PairKey(cls, len), x) == KeyOf(PairKey(cls, len), y))
  {
    var n := |cls|;
    ghost var key := PairKey(cls, len);
    cls' := Zeros(n);
    cls' := cls'[order[0] := 0];
    cl' := 1;
    for i := 1 to n
      invariant |cls'| == n && Numbered(order, key, cls', cl', i)
    {
      var cur := (cls[order[i]], cls[(order[i] + len) % n]);
      var prev := (cls[order[i - 1]], cls[(order[i - 1] + len) % n]);
      PairSame(cls, cl, len, order[i], order[i - 1]);
      ghost var cl0 := cl';
      if cur != prev {
        cl' := cl' + 1;
      }
      NumberStep(order, key, cls', cl0, i, cl');
      cls' := cls'[order[i] := cl' - 1];
    }
    NumberedRank(order, key, cls', cl', n);
  }

  /**
   * One pass of the doubling loop: from the state for length len to the state for
   * length 2 len. The shift, the counting sort by the class of the first half, and the
   * numbering of the pairs of classes along the new order.
   */
  method Round(s: string, order: seq<int>, cls: seq<int>, cl: int, len: int) returns (order': seq<int>, cls': seq<int>, cl': int)
    requires 0 < len < |s| && Stage(s, order, cls, cl, len)
    ensures Stage(s, order', cls', cl', 2 * len)
  {
    var ordern := ShiftOrder(order, len, |s|);
    Shifted(order, cls, cl, len, ordern);
    order' := StableSort(ordern, cls, cl, order);
    PairsSorted(ordern, cls, cl, len);
    cls', cl' := NumberPairs(order', cls, cl, len);
    Doubled(s, cls, cl, len, cls');
  }

  // ---------------------------------------------------------------------------
  // The suffix array
  // ---------------------------------------------------------------------------

  /** 1 << h. */
  function Pow2(h: nat): (p: nat)
    ensures p >= 1
  {
    if h == 0 then 1 else 2 * Pow2(h - 1)
  }

  /** suf lists every suffix start of str once, in increasing order of the suffixes. */
  ghost predicate SuffixSorted(str: string, suf: seq<int>)
  {
    Permutation(suf, |str|) &&
    forall p, q {:trigger Less(str[suf[p]..], str[suf[q]..])} :: 0 <= p < q < |suf| ==> Less(str[suf[p]..], str[suf[q]..])
  }

  lemma SmallMod(x: int, n: int)
    requires 0 <= x < n
    ensures x % n == x
  {
    ModUnique(x, n, 0, x);
  }

  /** The order cSort leaves: every offset once, in order of character. */
  lemma CSortOrder(s: string)
    requires |s| >= 1 && forall k :: 0 <= k < |s| ==> s[k] as int < ALPB
    ensures Permutation(Blocks(CInput(|s|), Codes(s), ALPB), |s|)
    ensures Mono(Blocks(CInput(|s|), Codes(s), ALPB), Codes(s))
  {
    var xs, key := CInput(|s|), Codes(s);
    var b := Blocks(xs, key, ALPB);
    CInputPermutation(|s|);
    assert Keyed(xs, key, ALPB);
    BlocksPermutation(xs, key, ALPB, |s|);
    forall p, q | 0 <= p < q < |b|
      ensures KeyOf(key, b[p]) <= KeyOf(key, b[q])
    {
      BlocksOrdered(xs, key, ALPB, p, q);
    }
  }

  /** Before the end of s, a cyclic substring reads s straight on. */
  lemma CycNoWrap(s: string, i: int, len: nat, k: int)
    requires 0 <= i && 0 <= k < len && i + k < |s|
    ensures Cyc(s, i, len)[k] == s[i + k]
  {
    SmallMod(i + k, |s|);
  }

  /**
   * Cyclic substrings longer than the text, read from two different offsets of the text,
   * differ, and compare as the suffixes from those offsets: they agree up to where the
   * shorter suffix ends and the sentinel then comes first.
   */
  lemma LongCyc(str: string, x: int, y: int, len: int)
    requires Text(str) && 0 <= x < |str| && 0 <= y < |str| && x != y && len > |str|
    ensures var s := str + [Sentinel];
      Cyc(s, x, len) != Cyc(s, y, len) &&
      (Less(Cyc(s, x, len), Cyc(s, y, len)) <==> Less(str[x..], str[y..]))
  {
    var s := str + [Sentinel];
    var a, b := str[x..], str[y..];
    var c, d := Cyc(s, x, len), Cyc(s, y, len);
    var m := Lcp(a, b);
    forall k | 0 <= k <= m
      ensures c[k] == s[x + k] && d[k] == s[y + k]
    {
      CycNoWrap(s, x, len, k);
      CycNoWrap(s, y, len, k);
    }
    forall k | 0 <= k < m
      ensures c[k] == d[k]
    {
      assert c[k] == a[k] && d[k] == b[k];
    }
    if m < |a| && m < |b| {
      assert c[m] == a[m] && d[m] == b[m];
    } else if m == |a| {
      assert c[m] == Sentinel && d[m] == str[y + m];
    } else {
      assert d[m] == Sentinel && c[m] == str[x + m];
    }
    LcpUnique(c, d, m);
  }

  /** The shift at the sentinel comes before every other shift. */
  lemma SentinelFirst(str: string, x: int, len: int)
    requires Text(str) && 0 <= x < |str| && len >= 1
    ensures var s := str + [Sentinel]; Less(Cyc(s, |str|, len), Cyc(s, x, len))
  {
    var s := str + [Sentinel];
    SmallMod(|str|, |s|);
    SmallMod(x, |s|);
    LcpUnique(Cyc(s, |str|, len), Cyc(s, x, len), 0);
  }

  /** Once the substrings are longer than the text, the sentinel's shift is first in the order. */
  lemma SentinelAtFront(str: string, order: seq<int>, cls: seq<int>, cl: int, len: int)
    requires Text(str) && len > |str| && Stage(str + [Sentinel], order, cls, cl, len)
    ensures order[0] == |str|
  {
    var n := |str|;
    forall x | 0 <= x < n
      ensures cls[n] < cls[x]
    {
      SentinelFirst(str, x, len);
    }
    assert n in order;
    var q :| 0 <= q < n + 1 && order[q] == n;
    assert KeyOf(cls, order[0]) <= KeyOf(cls, order[q]) by {
      if 0 < q {
        assert KeyOf(cls, order[0]) <= KeyOf(cls, order[q]);
      }
    }
  }

  /** The final state: dropping the sentinel's shift leaves the suffix array of the text. */
  lemma Final(str: string, order: seq<int>, cls: seq<int>, cl: int, len: int)
    requires Text(str) && len > |str| && Stage(str + [Sentinel], order, cls, cl, len)
    ensures SuffixSorted(str, order[1..])
  {
    var s, n, suf := str + [Sentinel], |str|, order[1..];
    SentinelAtFront(str, order, cls, cl, len);
    forall p | 0 <= p < n
      ensures 0 <= suf[p] < n
    {
      assert order[p + 1] != order[0];
    }
    forall v | 0 <= v < n
      ensures v in suf
    {
      assert v in order;
      var p :| 0 <= p < n + 1 && order[p] == v;
      assert suf[p - 1] == v;
    }
    forall p, q | 0 <= p < q < n
      ensures Less(str[suf[p]..], str[suf[q]..])
    {
      var x, y := suf[p], suf[q];
      assert x == order[p + 1] && y == order[q + 1];
      assert KeyOf(cls, order[p + 1]) <= KeyOf(cls, order[q + 1]);
      LongCyc(str, x, y, len);
    }
  }

  /**
   * suffixArray: append the sentinel, sort by first character, number the classes, and
   * double the length of the compared substrings until it reaches the length of the
   * text with its sentinel; then drop the first shift, which is the sentinel's.
   */
  method SuffixArray(str: string) returns (suf: seq<int>)
    requires Text(str)
    ensures SuffixSorted(str, suf)
  {
    var s := str + [Sentinel];
    var n := |s|;
    var order := CSort(s);
    CSortOrder(s);
    var cls, cl := InitClasses(s, order);
    var h := 0;
    while Pow2(h) < n
      invariant Stage(s, order, cls, cl, Pow2(h))
      decreases n - Pow2(h)
    {
      order, cls, cl := Round(s, order, cls, cl, Pow2(h));
      h := h + 1;
    }
    Final(str, order, cls, cl, Pow2(h));
    suf := order[1..];
  }

  /** The Suffix class: the suffix array of the string it is built from. */
  class Suffix {
    const suf: seq<int>
    ghost const text: string

    ghost predicate Valid()
    {
      SuffixSorted(text, suf)
    }

    constructor(str: string)
      requires Text(str)
      ensures text == str && Valid()
    {
      text := str;
      var sorted := SuffixArray(str);
      suf := sorted;
    }

    /** getSuffix: where the i-th smallest suffix of the text starts. */
    function GetSuffix(i: int): (r: int)
      requires Valid() && 0 <= i < |suf|
      ensures 0 <= r < |text|
      ensures forall j :: 0 <= j < |suf| && j < i ==> Less(text[suf[j]..], text[r..])
      ensures forall j :: 0 <= j < |suf| && i < j ==> Less(text[r..], text[suf[j]..])
    {
      suf[i]
    }
  }
}
