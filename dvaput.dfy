/**
 * Longest repeated substring through the suffix and LCP arrays (Dvaput/dvaput.cpp). The
 * suffix array is built by the same prefix doubling as SuffixSorting/suffixsorting.cpp
 * (the code of suffixArray is the same up to the name of the vector it fills), so this
 * module reuses SuffixSorting.SuffixArray. The LCP array is built by Kasai's algorithm,
 * and getLRS is its maximum.
 *
 * As written, the constructor gives LCPArray the string with the sentinel appended, so
 * its first loop reads one entry past the end of the suffix array (InverseAsWritten,
 * ConstructorAsWritten); the model's LCPArray runs over the text itself.
 */
module Dvaput {
  import opened Lexicographic
  import opened CountingSort
  import SuffixSorting

  // ---------------------------------------------------------------------------
  // The LCP array
  // ---------------------------------------------------------------------------

  /**
   * lcp[r] is the longest common prefix of the suffixes ranked r and r + 1; the entry of
   * the last rank is never written and keeps the 0 the vector was sized with.
   */
  ghost predicate IsLcpArray(str: string, suf: seq<int>, lcp: seq<int>)
  {
    |suf| == |str| && |lcp| == |str| &&
    (forall p :: 0 <= p < |suf| ==> 0 <= suf[p] < |str|) &&
    (forall r {:trigger lcp[r]} :: 0 <= r < |str| - 1 ==> lcp[r] == Lcp(str[suf[r]..], str[suf[r + 1]..])) &&
    (|str| >= 1 ==> lcp[|str| - 1] == 0)
  }

  /** inv is the inverse of the permutation suf: the rank of every offset. */
  ghost predicate Inverse(suf: seq<int>, inv: seq<int>, n: int)
  {
    |suf| == n && |inv| == n &&
    (forall x :: 0 <= x < n ==> 0 <= inv[x] < n && suf[inv[x]] == x) &&
    (forall p :: 0 <= p < n ==> 0 <= suf[p] < n && inv[suf[p]] == p)
  }

  /** The first loop of LCPArray: inverseSuf[suff[i]] = i for every rank i. */
  method InverseOf(suf: seq<int>, n: int) returns (inv: seq<int>)
    requires Permutation(suf, n)
    ensures Inverse(suf, inv, n)
  {
    inv := Zeros(n);
    for i := 0 to n
      invariant |inv| == n
      invariant forall p :: 0 <= p < i ==> inv[suf[p]] == p
    {
      forall p | 0 <= p < i
        ensures suf[p] != suf[i]
      {
      }
      inv := inv[suf[i] := i];
    }
    forall x | 0 <= x < n
      ensures 0 <= inv[x] < n && suf[inv[x]] == x
    {
      assert x in suf;
      var p :| 0 <= p < n && suf[p] == x;
    }
  }

  /** In a sorted suffix array, a suffix that comes before another has the smaller rank. */
  lemma Ranks(str: string, suf: seq<int>, p: int, q: int)
    requires SuffixSorting.SuffixSorted(str, suf) && 0 <= p < |suf| && 0 <= q < |suf|
    ensures Less(str[suf[p]..], str[suf[q]..]) ==> p < q
  {
    if q < p {
      assert Less(str[suf[q]..], str[suf[p]..]);
      Asymmetric(str[suf[p]..], str[suf[q]..]);
    }
    Asymmetric(str[suf[p]..], str[suf[p]..]);
  }

  /** Dropping one more character of a suffix gives the next suffix. */
  lemma DropOne(str: string, i: int)
    requires 0 <= i < |str|
    ensures str[i..][1..] == str[i + 1..]
  {
  }

  /** The suffix at i comes before the suffix ranked just after it. */
  lemma BeforeNext(str: string, suf: seq<int>, inv: seq<int>, i: int)
    requires SuffixSorting.SuffixSorted(str, suf) && Inverse(suf, inv, |str|)
    requires 0 <= i < |str| && inv[i] < |str| - 1
    ensures Less(str[i..], str[suf[inv[i] + 1]..])
  {
    assert Less(str[suf[inv[i]]..], str[suf[inv[i] + 1]..]);
  }

  /** The suffix ranked just after rank p < q is the one ranked q or lies between the two. */
  lemma Between(str: string, suf: seq<int>, p: int, q: int)
    requires SuffixSorting.SuffixSorted(str, suf) && 0 <= p < q < |suf|
    ensures p + 1 == q || (Less(str[suf[p]..], str[suf[p + 1]..]) && Less(str[suf[p + 1]..], str[suf[q]..]))
  {
    if p + 1 < q {
      assert Less(str[suf[p]..], str[suf[p + 1]..]);
      assert Less(str[suf[p + 1]..], str[suf[q]..]);
    }
  }

  /** Dropping the shared first character keeps the suffix at i before its successor at j. */
  lemma TailOrder(str: string, suf: seq<int>, inv: seq<int>, i: int)
    requires SuffixSorting.SuffixSorted(str, suf) && Inverse(suf, inv, |str|)
    requires 0 <= i && i + 1 < |str| && inv[i] < |str| - 1
    requires Lcp(str[i..], str[suf[inv[i] + 1]..]) >= 1
    ensures var j := suf[inv[i] + 1];
      Less(str[i..], str[j..]) && j + 1 < |str| && Less(str[i + 1..], str[j + 1..])
  {
    var j := suf[inv[i] + 1];
    BeforeNext(str, suf, inv, i);
    LessTail(str[i..], str[j..]);
    DropOne(str, i);
    DropOne(str, j);
  }

  /** The successor of the suffix at x is the suffix at y or lies between them, when x's comes before y's. */
  lemma NextBefore(str: string, suf: seq<int>, inv: seq<int>, x: int, y: int)
    requires SuffixSorting.SuffixSorted(str, suf) && Inverse(suf, inv, |str|)
    requires 0 <= x < |str| && 0 <= y < |str| && Less(str[x..], str[y..])
    ensures inv[x] < |str| - 1 &&
      var c := str[suf[inv[x] + 1]..];
      c == str[y..] || (Less(str[x..], c) && Less(c, str[y..]))
  {
    var rx, ry := inv[x], inv[y];
    Ranks(str, suf, rx, ry);
    Between(str, suf, rx, ry);
  }

  /**
   * When the suffix at i shares a first character with its successor at j, the suffix at
   * i + 1 is not the last one, and its successor is the suffix at j + 1 or lies between
   * the suffixes at i + 1 and j + 1.
   */
  lemma Successor(str: string, suf: seq<int>, inv: seq<int>, i: int)
    requires SuffixSorting.SuffixSorted(str, suf) && Inverse(suf, inv, |str|)
    requires 0 <= i && i + 1 < |str| && inv[i] < |str| - 1
    requires Lcp(str[i..], str[suf[inv[i] + 1]..]) >= 1
    ensures var j := suf[inv[i] + 1];
      Less(str[i..], str[j..]) && j + 1 < |str| && inv[i + 1] < |str| - 1 &&
      var c := str[suf[inv[i + 1] + 1]..];
      c == str[j + 1..] || (Less(str[i + 1..], c) && Less(c, str[j + 1..]))
  {
    TailOrder(str, suf, inv, i);
    NextBefore(str, suf, inv, i + 1, suf[inv[i] + 1] + 1);
  }

  /**
   * Kasai's step: if the suffix at i shares h >= 1 characters with its successor in the
   * order, the suffix at i + 1 is not the last one and shares at least h - 1 characters
   * with its own successor. This is why k may be carried over, less one.
   */
  lemma KasaiStep(str: string, suf: seq<int>, inv: seq<int>, i: int)
    requires SuffixSorting.SuffixSorted(str, suf) && Inverse(suf, inv, |str|)
    requires 0 <= i && i + 1 < |str| && inv[i] < |str| - 1
    requires Lcp(str[i..], str[suf[inv[i] + 1]..]) >= 1
    ensures inv[i + 1] < |str| - 1
    ensures Lcp(str[i..], str[suf[inv[i] + 1]..]) - 1 <= Lcp(str[i + 1..], str[suf[inv[i + 1] + 1]..])
  {
    var j := suf[inv[i] + 1];
    Successor(str, suf, inv, i);
    DropOne(str, i);
    DropOne(str, j);
    TailLcp(str[i..], str[j..], str[suf[inv[i + 1] + 1]..]);
  }

  /** The inner while loop of Kasai's algorithm stops exactly at the common prefix length. */
  method Extend(str: string, i: int, j: int, k0: int) returns (k: int)
    requires 0 <= i < |str| && 0 <= j < |str| && 0 <= k0 <= Lcp(str[i..], str[j..])
    ensures k == Lcp(str[i..], str[j..])
  {
    k := k0;
    while i + k < |str| && j + k < |str| && str[i + k] == str[j + k]
      invariant k0 <= k <= Lcp(str[i..], str[j..])
      decreases |str| - k
    {
      assert str[i..][k] == str[i + k] && str[j..][k] == str[j + k];
      k := k + 1;
    }
  }

  /** The entries of the ranks of offsets below i are written, and the last one is still 0. */
  ghost predicate Filled(str: string, suf: seq<int>, lcp: seq<int>, i: int)
  {
    |suf| == |str| && |lcp| == |str| &&
    (forall p :: 0 <= p < |suf| ==> 0 <= suf[p] < |str|) &&
    (forall r {:trigger lcp[r]} :: 0 <= r < |str| - 1 && suf[r] < i ==> lcp[r] == Lcp(str[suf[r]..], str[suf[r + 1]..])) &&
    (|str| >= 1 ==> lcp[|str| - 1] == 0)
  }

  /** The carried k is at most what the suffix at i shares with its successor. */
  ghost predicate Carried(str: string, suf: seq<int>, inv: seq<int>, i: int, k: int)
    requires Inverse(suf, inv, |str|)
  {
    0 <= k && (0 <= i < |str| && inv[i] < |str| - 1 ==> k <= Lcp(str[i..], str[suf[inv[i] + 1]..]))
  }

  /** The offset of the last rank: nothing is written. */
  lemma Skip(str: string, suf: seq<int>, inv: seq<int>, lcp: seq<int>, i: int)
    requires Inverse(suf, inv, |str|) && 0 <= i < |str| && inv[i] == |str| - 1 && Filled(str, suf, lcp, i)
    ensures Filled(str, suf, lcp, i + 1) && Carried(str, suf, inv, i + 1, 0)
  {
    forall r | 0 <= r < |str| - 1 && suf[r] <= i
      ensures suf[r] < i
    {
      assert inv[suf[r]] == r;
    }
  }

  /** Writing the entry of the rank of i keeps the written entries right. */
  lemma Record(str: string, suf: seq<int>, inv: seq<int>, lcp: seq<int>, i: int, h: int)
    requires Inverse(suf, inv, |str|) && 0 <= i < |str| && inv[i] < |str| - 1 && Filled(str, suf, lcp, i)
    requires h == Lcp(str[i..], str[suf[inv[i] + 1]..])
    ensures Filled(str, suf, lcp[inv[i] := h], i + 1)
  {
    forall r | 0 <= r < |str| - 1 && suf[r] == i
      ensures r == inv[i]
    {
      assert inv[suf[r]] == r;
    }
  }

  /** After the entry of the rank of i is written, the carried k holds for i + 1. */
  lemma Carry(str: string, suf: seq<int>, inv: seq<int>, i: int, h: int, k: int)
    requires SuffixSorting.SuffixSorted(str, suf) && Inverse(suf, inv, |str|)
    requires 0 <= i < |str| && inv[i] < |str| - 1
    requires h == Lcp(str[i..], str[suf[inv[i] + 1]..]) && k == (if h > 0 then h - 1 else 0)
    ensures Carried(str, suf, inv, i + 1, k)
  {
    if h >= 1 && i + 1 < |str| {
      KasaiStep(str, suf, inv, i);
    }
  }

  /**
   * LCPArray over the text: the ranks of the offsets, then the offsets from left to right,
   * each compared with its successor in the order starting from the carried-over k.
   */
  method LCPArray(str: string, suf: seq<int>) returns (lcp: seq<int>)
    requires SuffixSorting.SuffixSorted(str, suf)
    ensures IsLcpArray(str, suf, lcp)
  {
    var n := |str|;
    var inv := InverseOf(suf, n);
    lcp := Zeros(n);
    var k := 0;
    for i := 0 to n
      invariant Filled(str, suf, lcp, i) && Carried(str, suf, inv, i, k)
    {
      if inv[i] == n - 1 {
        Skip(str, suf, inv, lcp, i);
        k := 0;
      } else {
        var j := suf[inv[i] + 1];
        k := Extend(str, i, j, k);
        Record(str, suf, inv, lcp, i, k);
        lcp := lcp[inv[i] := k];
        ghost var h := k;
        if k > 0 {
          k := k - 1;
        }
        Carry(str, suf, inv, i, h, k);
      }
    }
  }

  // ---------------------------------------------------------------------------
  // The constructor as written
  // ---------------------------------------------------------------------------

  /**
   * The first loop of LCPArray as written, over a string of the given size: it reads
   * suff[i] for every i below the size. Returns the ranks it could fill and the first i
   * at which suff has no entry, or -1 if there is none.
   */
  method InverseAsWritten(size: int, suf: seq<int>) returns (inv: seq<int>, overrun: int)
    requires size >= 0 && forall p :: 0 <= p < |suf| ==> 0 <= suf[p] < size
    ensures overrun == (if size <= |suf| then -1 else |suf|)
  {
    inv := Zeros(size);
    overrun := -1;
    var i := 0;
    while i < size
      invariant 0 <= i <= size && |inv| == size
      invariant overrun == -1 && i <= |suf|
    {
      if i >= |suf| {
        overrun := i;
        return;
      }
      inv := inv[suf[i] := i];
      i := i + 1;
    }
  }

  /**
   * The constructor as written: suffixArray appends the sentinel to the constructor's own
   * copy of the string, and that longer copy is what LCPArray gets. The suffix array has
   * one entry per character of the text, so the first loop of LCPArray always reads
   * suff[N], one past its end.
   */
  method ConstructorAsWritten(str: string) returns (overrun: int)
    requires SuffixSorting.Text(str)
    ensures overrun == |str|
  {
    var suf := SuffixSorting.SuffixArray(str);
    var withSentinel := str + [SuffixSorting.Sentinel];
    var _, o := InverseAsWritten(|withSentinel|, suf);
    overrun := o;
  }

  // ---------------------------------------------------------------------------
  // Longest repeated substring
  // ---------------------------------------------------------------------------

  /** std::max_element: the position of the first largest element. */
  function MaxElement(s: seq<int>): (i: int)
    requires |s| >= 1
    ensures 0 <= i < |s|
    ensures forall j :: 0 <= j < |s| ==> s[j] <= s[i]
    ensures forall j :: 0 <= j < i ==> s[j] < s[i]
  {
    if |s| == 1 then 0
    else
      var i := MaxElement(s[..|s| - 1]);
      if s[|s| - 1] > s[i] then |s| - 1 else i
  }

  /** The substring of length l occurs at two different offsets x and y. */
  ghost predicate RepeatedAt(str: string, x: int, y: int, l: int)
  {
    0 <= x < |str| && 0 <= y < |str| && x != y && 0 <= l &&
    x + l <= |str| && y + l <= |str| && str[x..x + l] == str[y..y + l]
  }

  lemma PrefixOfSuffix(str: string, x: int, l: int)
    requires 0 <= x && 0 <= l && x + l <= |str|
    ensures str[x..][..l] == str[x..x + l]
  {
  }

  /** Two suffixes that start with the same l characters are at least l apart from differing. */
  lemma RepeatedLcp(str: string, x: int, y: int, l: int)
    requires RepeatedAt(str, x, y, l)
    ensures l <= Lcp(str[x..], str[y..])
  {
    PrefixOfSuffix(str, x, l);
    PrefixOfSuffix(str, y, l);
    LcpAtLeast(str[x..], str[y..], l);
  }

  /** Every offset has a rank in a permutation. */
  lemma RankOf(suf: seq<int>, n: int, x: int) returns (p: int)
    requires Permutation(suf, n) && 0 <= x < n
    ensures 0 <= p < n && suf[p] == x
  {
    assert x in suf;
    p :| 0 <= p < n && suf[p] == x;
  }

  /** Two suffixes share no longer a prefix than the first of them and its successor. */
  lemma AdjacentBound(str: string, suf: seq<int>, lcp: seq<int>, p: int, q: int)
    requires SuffixSorting.SuffixSorted(str, suf) && IsLcpArray(str, suf, lcp)
    requires 0 <= p < q < |str|
    ensures Lcp(str[suf[p]..], str[suf[q]..]) <= lcp[p]
  {
    var a, b, c := str[suf[p]..], str[suf[p + 1]..], str[suf[q]..];
    if p + 1 < q {
      assert Less(a, b) && Less(b, c);
      Sandwich(a, b, c);
    }
    assert lcp[p] == Lcp(a, b);
  }

  /** No repeated substring is longer than the largest LCP entry. */
  lemma LrsComplete(str: string, suf: seq<int>, lcp: seq<int>, x: int, y: int, l: int)
    requires SuffixSorting.SuffixSorted(str, suf) && IsLcpArray(str, suf, lcp)
    requires RepeatedAt(str, x, y, l)
    ensures l <= lcp[MaxElement(lcp)]
  {
    var p := RankOf(suf, |str|, x);
    var q := RankOf(suf, |str|, y);
    RepeatedLcp(str, x, y, l);
    LcpSymmetric(str[x..], str[y..]);
    if p < q {
      AdjacentBound(str, suf, lcp, p, q);
      assert lcp[p] <= lcp[MaxElement(lcp)];
    } else {
      AdjacentBound(str, suf, lcp, q, p);
      assert lcp[q] <= lcp[MaxElement(lcp)];
    }
  }

  /** Every LCP entry but the last is the length of a repeated substring, at adjacent ranks. */
  lemma AdjacentRepeat(str: string, suf: seq<int>, lcp: seq<int>, r: int) returns (x: int, y: int)
    requires SuffixSorting.SuffixSorted(str, suf) && IsLcpArray(str, suf, lcp)
    requires 0 <= r < |str| - 1
    ensures RepeatedAt(str, x, y, lcp[r])
  {
    x, y := suf[r], suf[r + 1];
    assert x != y;
    var a, b, m := str[x..], str[y..], lcp[r];
    assert m == Lcp(a, b);
    PrefixOfSuffix(str, x, m);
    PrefixOfSuffix(str, y, m);
  }

  /** For a text of two or more characters, the largest LCP entry is the length of a repeated substring. */
  lemma LrsSound(str: string, suf: seq<int>, lcp: seq<int>) returns (x: int, y: int)
    requires SuffixSorting.SuffixSorted(str, suf) && IsLcpArray(str, suf, lcp) && |str| >= 2
    ensures RepeatedAt(str, x, y, lcp[MaxElement(lcp)])
  {
    var r := MaxElement(lcp);
    if r == |str| - 1 {
      assert lcp[0] <= lcp[r] == 0;
      x, y := AdjacentRepeat(str, suf, lcp, 0);
    } else {
      x, y := AdjacentRepeat(str, suf, lcp, r);
    }
  }

  // ---------------------------------------------------------------------------
  // The Suffix class
  // ---------------------------------------------------------------------------

  class Suffix {
    var suff: seq<int>
    var lcp: seq<int>
    ghost var text: string

    ghost predicate Valid()
      reads this
    {
      SuffixSorting.SuffixSorted(text, suff) && IsLcpArray(text, suff, lcp)
    }

    /** Builds the suffix array, then the LCP array over the text. */
    constructor(str: string)
      requires SuffixSorting.Text(str)
      ensures text == str && Valid()
    {
      var sorted := SuffixSorting.SuffixArray(str);
      var l := LCPArray(str, sorted);
      text, suff, lcp := str, sorted, l;
    }

    /** getSuffix: where the i-th smallest suffix of the text starts. */
    function GetSuffix(i: int): (r: int)
      reads this
      requires Valid() && 0 <= i < |suff|
      ensures 0 <= r < |text|
      ensures forall j :: 0 <= j < |suff| && j < i ==> Less(text[suff[j]..], text[r..])
      ensures forall j :: 0 <= j < |suff| && i < j ==> Less(text[r..], text[suff[j]..])
    {
      suff[i]
    }

    /**
     * getLRS: the length of the longest substring that occurs at two different offsets
     * (0 when the text has a single character). max_element needs a non-empty text.
     */
    function GetLRS(): (r: int)
      reads this
      requires Valid() && |text| >= 1
      ensures forall x, y, l :: RepeatedAt(text, x, y, l) ==> l <= r
      ensures |text| >= 2 ==> exists x, y :: RepeatedAt(text, x, y, r)
      ensures |text| == 1 ==> r == 0
    {
      LrsBounds(text, suff, lcp);
      lcp[MaxElement(lcp)]
    }
  }

  /** The two halves of getLRS's contract, for every text. */
  lemma LrsBounds(str: string, suf: seq<int>, lcp: seq<int>)
    requires SuffixSorting.SuffixSorted(str, suf) && IsLcpArray(str, suf, lcp) && |str| >= 1
    ensures forall x, y, l :: RepeatedAt(str, x, y, l) ==> l <= lcp[MaxElement(lcp)]
    ensures |str| >= 2 ==> exists x, y :: RepeatedAt(str, x, y, lcp[MaxElement(lcp)])
    ensures |str| == 1 ==> lcp[MaxElement(lcp)] == 0
  {
    forall x, y, l | RepeatedAt(str, x, y, l)
      ensures l <= lcp[MaxElement(lcp)]
    {
      LrsComplete(str, suf, lcp, x, y, l);
    }
    if |str| >= 2 {
      var x, y := LrsSound(str, suf, lcp);
    }
  }
}
