/**
 * Knuth-Morris-Pratt matching: the failure table `LPS` of a pattern, and `find`,
 * which reports every position of the text where the pattern occurs.
 */
module StringMatching {

  /** p[..k] is a suffix of t[..i], compared from the last character backwards. */
  ghost predicate Ends(t: string, i: int, p: string, k: int)
    decreases k
  {
    0 <= k <= i <= |t| && k <= |p| && (k == 0 || (t[i - 1] == p[k - 1] && Ends(t, i - 1, p, k - 1)))
  }

  /** Ends says that the slices t[i - k..i] and p[..k] are equal. */
  lemma {:induction false} EndsSlices(t: string, i: int, p: string, k: int)
    ensures Ends(t, i, p, k) <==> 0 <= k <= i <= |t| && k <= |p| && t[i - k..i] == p[..k]
    decreases k
  {
    if 0 < k <= i <= |t| && k <= |p| {
      EndsSlices(t, i - 1, p, k - 1);
      assert t[i - k..i] == t[i - k..i - 1] + [t[i - 1]];
      assert p[..k] == p[..k - 1] + [p[k - 1]];
    }
  }

  /** No prefix of p of length in (j, bound) is a suffix of t[..i]. */
  ghost predicate NoLonger(t: string, i: int, p: string, j: int, bound: int)
  {
    forall k :: j < k < bound ==> !Ends(t, i, p, k)
  }

  /**
   * Every prefix of p longer than j (and shorter than bound) that is a suffix of t[..i]
   * cannot be extended by t[i].
   */
  ghost predicate Unextendable(t: string, i: int, p: string, j: int, bound: int)
  {
    forall k :: j < k < bound && Ends(t, i, p, k) ==> i < |t| && k < |p| && p[k] != t[i]
  }

  /** k is the length of the longest proper prefix of p[..n] that is also a suffix of it. */
  ghost predicate Longest(p: string, n: int, k: int)
  {
    0 <= k < n && Ends(p, n, p, k) && NoLonger(p, n, p, k, n)
  }

  /** lps[i] is the longest proper border of p[0..i] for every i. */
  ghost predicate IsFailureTable(p: string, lps: seq<int>)
  {
    |lps| == |p| && forall i :: 0 <= i < |p| ==> Longest(p, i + 1, lps[i])
  }

  /** Ends(p, n, p, k) with k < n says exactly that p[..k] is a border of p[..n]. */
  lemma EndsIsBorder(p: string, n: int, k: int)
    requires 0 <= k < n <= |p|
    ensures Ends(p, n, p, k) <==> p[..n][..k] == p[..n][n - k..]
  {
    EndsSlices(p, n, p, k);
    assert p[..n][..k] == p[..k];
    assert p[..n][n - k..] == p[n - k..n];
  }

  /** A border entry lies in [0, i], and the first one is 0. */
  lemma FailureTableBounds(p: string, lps: seq<int>)
    requires IsFailureTable(p, lps)
    ensures forall i :: 0 <= i < |p| ==> 0 <= lps[i] <= i
    ensures |p| > 0 ==> lps[0] == 0
  {
    if |p| > 0 {
      assert Longest(p, 1, lps[0]);
    }
    forall i | 0 <= i < |p|
      ensures 0 <= lps[i] <= i
    {
      assert Longest(p, i + 1, lps[i]);
    }
  }

  lemma ExtendEnds(t: string, i: int, p: string, k: int)
    requires Ends(t, i, p, k) && i < |t| && k < |p| && p[k] == t[i]
    ensures Ends(t, i + 1, p, k + 1)
  {
  }

  lemma ShrinkEnds(t: string, i: int, p: string, k: int)
    requires k >= 0 && Ends(t, i + 1, p, k + 1)
    ensures Ends(t, i, p, k) && p[k] == t[i]
  {
  }

  /** A border of the matched prefix p[..j] is itself matched. */
  lemma EndsTrans(t: string, i: int, p: string, j: int, k: int)
    requires Ends(t, i, p, j) && Ends(p, j, p, k)
    ensures Ends(t, i, p, k)
  {
    EndsSlices(t, i, p, j);
    EndsSlices(p, j, p, k);
    EndsSlices(t, i, p, k);
    assert t[i - k..i] == t[i - j..i][j - k..];
    assert p[j - k..j] == p[..j][j - k..];
  }

  /** Of two matched prefixes, the shorter is a border of the longer. */
  lemma EndsNested(t: string, i: int, p: string, j: int, k: int)
    requires Ends(t, i, p, j) && Ends(t, i, p, k) && k <= j
    ensures Ends(p, j, p, k)
  {
    EndsSlices(t, i, p, j);
    EndsSlices(t, i, p, k);
    EndsSlices(p, j, p, k);
    assert t[i - k..i] == t[i - j..i][j - k..];
    assert p[j - k..j] == p[..j][j - k..];
  }

  /** After a matching character, the longer match j + 1 is the longest one. */
  lemma AdvanceMatch(t: string, i: int, p: string, j: int, b: int, b': int)
    requires Ends(t, i, p, j) && i < |t| && j < |p| && p[j] == t[i]
    requires Unextendable(t, i, p, j, b) && b' <= b + 1
    ensures Ends(t, i + 1, p, j + 1) && NoLonger(t, i + 1, p, j + 1, b')
  {
    ExtendEnds(t, i, p, j);
    var i' := i + 1;
    forall k | j + 1 < k < b'
      ensures !Ends(t, i', p, k)
    {
      if Ends(t, i', p, k) {
        ShrinkEnds(t, i, p, k - 1);
      }
    }
  }

  /** After a mismatch with nothing matched, nothing ending at the next position is matched. */
  lemma AdvanceMismatch(t: string, i: int, p: string, b: int, b': int)
    requires 0 <= i < |t| && |p| > 0 && p[0] != t[i] && Unextendable(t, i, p, 0, b) && b' <= b + 1
    ensures NoLonger(t, i + 1, p, 0, b')
  {
    var i' := i + 1;
    forall k | 0 < k < b'
      ensures !Ends(t, i', p, k)
    {
      if Ends(t, i', p, k) {
        ShrinkEnds(t, i, p, k - 1);
      }
    }
  }

  /** After a mismatch, falling back to the longest border of the match loses no candidate. */
  lemma Fallback(t: string, i: int, p: string, j: int, j': int, b: int)
    requires Ends(t, i, p, j) && 0 < j < b && Longest(p, j, j')
    requires i < |t| && j < |p| && p[j] != t[i] && Unextendable(t, i, p, j, b)
    ensures Ends(t, i, p, j') && Unextendable(t, i, p, j', b)
  {
    EndsTrans(t, i, p, j, j');
    forall k | j' < k < b && Ends(t, i, p, k)
      ensures i < |t| && k < |p| && p[k] != t[i]
    {
      if k < j {
        EndsNested(t, i, p, j, k);
      }
    }
  }

  /** After a full match, falling back to the longest border of p loses no candidate. */
  lemma FullMatch(t: string, i: int, p: string, j': int)
    requires Ends(t, i, p, |p|) && Longest(p, |p|, j')
    ensures Ends(t, i, p, j') && NoLonger(t, i, p, j', |p|)
  {
    EndsTrans(t, i, p, |p|, j');
    forall k | j' < k < |p|
      ensures !Ends(t, i, p, k)
    {
      if Ends(t, i, p, k) {
        EndsNested(t, i, p, |p|, k);
      }
    }
  }

  /** The state of the `LPS` loop: the entries below i are final and j is matched and unextendable. */
  ghost predicate TableState(p: string, lps: seq<int>, i: int, j: int)
  {
    && 1 <= i <= |p| && |lps| == |p| && 0 <= j < i
    && (forall m :: 0 <= m < i ==> Longest(p, m + 1, lps[m]))
    && Ends(p, i, p, j) && Unextendable(p, i, p, j, i)
  }

  /** A matching character records lps[i] = j + 1 and extends the match. */
  lemma TableMatch(p: string, lps: seq<int>, i: int, j: int, lps': seq<int>)
    requires TableState(p, lps, i, j) && i < |p| && p[i] == p[j] && lps' == lps[i := j + 1]
    ensures TableState(p, lps', i + 1, j + 1)
  {
    AdvanceMatch(p, i, p, j, i, i + 1);
  }

  /** A mismatch after a nonempty match falls back to the match's longest border. */
  lemma TableFall(p: string, lps: seq<int>, i: int, j: int)
    requires TableState(p, lps, i, j) && i < |p| && p[i] != p[j] && j != 0
    ensures 0 <= lps[j - 1] < j && TableState(p, lps, i, lps[j - 1])
  {
    assert Longest(p, j, lps[j - 1]);
    Fallback(p, i, p, j, lps[j - 1], i);
  }

  /** A mismatch with nothing matched records lps[i] = 0. */
  lemma TableSkip(p: string, lps: seq<int>, i: int, lps': seq<int>)
    requires TableState(p, lps, i, 0) && i < |p| && p[i] != p[0] && lps' == lps[i := 0]
    ensures TableState(p, lps', i + 1, 0)
  {
    AdvanceMismatch(p, i, p, i, i + 1);
  }

  /**
   * LPS: runs the matcher of the pattern against itself; each step either records
   * lps[i] and moves on, or falls back to the border of the current match.
   */
  method LPS(pattern: string) returns (lps: seq<int>)
    ensures IsFailureTable(pattern, lps)
  {
    var a := new int[|pattern|](_ => 0);
    if |pattern| == 0 {
      return a[..];
    }
    var i, j := 1, 0;
    assert Longest(pattern, 1, a[0]);
    while i < |pattern|
      invariant TableState(pattern, a[..], i, j)
      decreases |pattern| - i, j
    {
      if pattern[i] == pattern[j] {
        ghost var prev := a[..];
        a[i] := j + 1;
        TableMatch(pattern, prev, i, j, a[..]);
        i, j := i + 1, j + 1;
      } else if j != 0 {
        TableFall(pattern, a[..], i, j);
        j := a[j - 1];
      } else {
        ghost var prev := a[..];
        a[i] := 0;
        TableSkip(pattern, prev, i, a[..]);
        i := i + 1;
      }
    }
    lps := a[..];
  }

  /** The start positions q with q + |p| <= e at which p occurs in t, in increasing order. */
  ghost function AllMatches(p: string, t: string, e: int): seq<int>
    requires |p| >= 1 && 0 <= e <= |t|
  {
    if e < |p| then [] else AllMatches(p, t, e - 1) + (if Ends(t, e, p, |p|) then [e - |p|] else [])
  }

  /** AllMatches lists exactly the occurrences of p ending by e. */
  lemma {:induction false} AllMatchesMembers(p: string, t: string, e: int)
    requires |p| >= 1 && 0 <= e <= |t|
    ensures forall q :: q in AllMatches(p, t, e) <==> 0 <= q && q + |p| <= e && t[q..q + |p|] == p
  {
    if e >= |p| {
      AllMatchesMembers(p, t, e - 1);
      EndsSlices(t, e, p, |p|);
      assert p[..|p|] == p;
    }
  }

  /** AllMatches lists the occurrences in strictly increasing order. */
  lemma {:induction false} AllMatchesIncreasing(p: string, t: string, e: int)
    requires |p| >= 1 && 0 <= e <= |t|
    ensures forall a, b :: 0 <= a < b < |AllMatches(p, t, e)| ==> AllMatches(p, t, e)[a] < AllMatches(p, t, e)[b]
  {
    if e >= |p| {
      AllMatchesIncreasing(p, t, e - 1);
      var prev := AllMatches(p, t, e - 1);
      AllMatchesMembers(p, t, e - 1);
      assert forall a :: 0 <= a < |prev| ==> prev[a] < e - |p| by {
        assert forall a :: 0 <= a < |prev| ==> prev[a] in prev;
      }
    }
  }

  /** The state of the `find` loop. */
  ghost predicate SearchState(p: string, t: string, lps: seq<int>, i: int, j: int, pos: seq<int>)
  {
    && |p| >= 1 && IsFailureTable(p, lps)
    && 0 <= j < |p| && j <= i <= |t|
    && Ends(t, i, p, j) && Unextendable(t, i, p, j, |p|)
    && pos == AllMatches(p, t, i)
  }

  /** A step after a matching character keeps the search state. */
  lemma MatchStep(p: string, t: string, lps: seq<int>, i: int, j: int, pos: seq<int>)
    requires SearchState(p, t, lps, i, j, pos) && i < |t| && p[j] == t[i]
    ensures j + 1 < |p| ==> SearchState(p, t, lps, i + 1, j + 1, pos)
    ensures j + 1 == |p| ==> SearchState(p, t, lps, i + 1, lps[j], pos + [i + 1 - |p|])
  {
    AdvanceMatch(t, i, p, j, |p|, |p| + 1);
    if j + 1 == |p| {
      FullMatch(t, i + 1, p, lps[j]);
    }
  }

  /** A mismatch after a nonempty match falls back to the match's longest border. */
  lemma FallStep(p: string, t: string, lps: seq<int>, i: int, j: int, pos: seq<int>)
    requires SearchState(p, t, lps, i, j, pos) && i < |t| && p[j] != t[i] && j != 0
    ensures 0 <= lps[j - 1] < j && SearchState(p, t, lps, i, lps[j - 1], pos)
  {
    assert Longest(p, j, lps[j - 1]);
    Fallback(t, i, p, j, lps[j - 1], |p|);
  }

  /** At the end of the text the recorded positions are all the occurrences, in order. */
  lemma SearchDone(p: string, t: string, lps: seq<int>, j: int, pos: seq<int>)
    requires SearchState(p, t, lps, |t|, j, pos)
    ensures forall q :: q in pos <==> 0 <= q && q + |p| <= |t| && t[q..q + |p|] == p
    ensures forall a, b :: 0 <= a < b < |pos| ==> pos[a] < pos[b]
  {
    AllMatchesMembers(p, t, |t|);
    AllMatchesIncreasing(p, t, |t|);
  }

  /** A step after a mismatch with nothing matched keeps the search state. */
  lemma SkipStep(p: string, t: string, lps: seq<int>, i: int, pos: seq<int>)
    requires SearchState(p, t, lps, i, 0, pos) && i < |t| && p[0] != t[i]
    ensures SearchState(p, t, lps, i + 1, 0, pos)
  {
    AdvanceMismatch(t, i, p, |p|, |p| + 1);
  }

  /**
   * find: the positions of all occurrences of pattern in text, in increasing order.
   * An empty pattern is compared through its terminating NUL character, so it
   * matches nowhere in a text without NUL characters.
   */
  method Find(pattern: string, text: string) returns (pos: seq<int>)
    requires |pattern| >= 1 || forall k :: 0 <= k < |text| ==> text[k] != '\0'
    ensures forall q :: q in pos <==> 0 <= q && q + |pattern| <= |text| && text[q..q + |pattern|] == pattern && |pattern| >= 1
    ensures forall a, b :: 0 <= a < b < |pos| ==> pos[a] < pos[b]
  {
    var lps := LPS(pattern);
    if |pattern| == 0 {
      return [];
    }
    var i, j := 0, 0;
    pos := [];
    while i < |text|
      invariant SearchState(pattern, text, lps, i, j, pos)
      decreases |text| - i, j
    {
      if pattern[j] == text[i] {
        MatchStep(pattern, text, lps, i, j, pos);
        j, i := j + 1, i + 1;
        if j == |pattern| {
          pos := pos + [i - |pattern|];
          j := lps[j - 1];
        }
      } else if j != 0 {
        FallStep(pattern, text, lps, i, j, pos);
        j := lps[j - 1];
      } else {
        SkipStep(pattern, text, lps, i, pos);
        i := i + 1;
      }
    }
    SearchDone(pattern, text, lps, j, pos);
  }
}
