/**
 * Messages from outer space: every occurrence of every dictionary word in the message
 * is an interval [start, start + |word| - 1]; after sorting the intervals by their
 * right end, a greedy scan counts how many of them can be read without overlapping.
 */
module MessagesOuterSpace {

  /** An occurrence interval: (first, second) as the source's std::pair. */
  type Interval = (int, int)

  /** text[i..i + k] and word[..k] agree, compared from the last character backwards. */
  predicate Agree(text: string, word: string, i: int, k: int)
    requires 0 <= i && 0 <= k <= |word| && i + k <= |text|
    decreases k
  {
    k == 0 || (text[i + k - 1] == word[k - 1] && Agree(text, word, i, k - 1))
  }

  /** word occurs in text starting at position i. */
  predicate OccursAt(text: string, word: string, i: int)
  {
    0 <= i && i + |word| <= |text| && Agree(text, word, i, |word|)
  }

  lemma {:induction false} AgreeSlices(text: string, word: string, i: int, k: int)
    requires 0 <= i && 0 <= k <= |word| && i + k <= |text|
    ensures Agree(text, word, i, k) <==> text[i..i + k] == word[..k]
    decreases k
  {
    if k > 0 {
      AgreeSlices(text, word, i, k - 1);
      assert text[i..i + k] == text[i..i + k - 1] + [text[i + k - 1]];
      assert word[..k] == word[..k - 1] + [word[k - 1]];
    }
  }

  /** An occurrence at i is the slice text[i..i + |word|] being equal to word. */
  lemma OccursAtSlice(text: string, word: string, i: int)
    ensures OccursAt(text, word, i) <==> 0 <= i && i + |word| <= |text| && text[i..i + |word|] == word
  {
    if 0 <= i && i + |word| <= |text| {
      AgreeSlices(text, word, i, |word|);
      assert word[..|word|] == word;
    }
  }

  /**
   * std::string::find(word, pos): the first occurrence at or after pos, or -1 for npos.
   * Like the library, an empty word is found at every position up to |text|.
   */
  function Find(text: string, word: string, pos: int): (r: int)
    requires pos >= 0
    ensures r == -1 || (pos <= r && OccursAt(text, word, r))
    decreases |text| - pos
  {
    if pos + |word| > |text| then -1
    else if OccursAt(text, word, pos) then pos
    else Find(text, word, pos + 1)
  }

  /** find returns the first occurrence: none at i >= pos is missed. */
  lemma {:induction false} FindFirst(text: string, word: string, pos: int, i: int)
    requires 0 <= pos <= i && OccursAt(text, word, i)
    ensures Find(text, word, pos) != -1 && Find(text, word, pos) <= i
    decreases |text| - pos
  {
    if pos < i && !OccursAt(text, word, pos) {
      FindFirst(text, word, pos + 1, i);
    }
  }

  /** The intervals the inner loop records for one word, searching from pos on. */
  function Occurrences(text: string, word: string, pos: int): seq<Interval>
    requires pos >= 0
    decreases |text| + 1 - pos
  {
    var r := Find(text, word, pos);
    if r == -1 then [] else [(r, r + |word| - 1)] + Occurrences(text, word, r + 1)
  }

  /** The intervals of one word from pos on: one per occurrence, in increasing order. */
  lemma OccurrencesSpec(text: string, word: string, pos: int)
    requires pos >= 0
    ensures forall a, b :: (a, b) in Occurrences(text, word, pos) <==>
      pos <= a && OccursAt(text, word, a) && b == a + |word| - 1
    ensures forall k :: 0 < k < |Occurrences(text, word, pos)| ==>
      Occurrences(text, word, pos)[k - 1].0 < Occurrences(text, word, pos)[k].0
  {
    forall a, b
      ensures (a, b) in Occurrences(text, word, pos) <==> pos <= a && OccursAt(text, word, a) && b == a + |word| - 1
    {
      OccurrenceMember(text, word, pos, a, b);
    }
    OccurrencesIncrease(text, word, pos);
  }

  /** (a, b) is recorded from pos on exactly when word occurs at a >= pos and b is its last position. */
  lemma OccurrenceMember(text: string, word: string, pos: int, a: int, b: int)
    requires pos >= 0
    ensures (a, b) in Occurrences(text, word, pos) <==> pos <= a && OccursAt(text, word, a) && b == a + |word| - 1
  {
    if (a, b) in Occurrences(text, word, pos) {
      OccurrenceSound(text, word, pos, a, b);
    }
    if pos <= a && OccursAt(text, word, a) && b == a + |word| - 1 {
      OccurrenceComplete(text, word, pos, a);
    }
  }

  /** Every recorded interval spans an occurrence at or after pos. */
  lemma {:induction false} OccurrenceSound(text: string, word: string, pos: int, a: int, b: int)
    requires pos >= 0 && (a, b) in Occurrences(text, word, pos)
    ensures pos <= a && OccursAt(text, word, a) && b == a + |word| - 1
    decreases |text| + 1 - pos
  {
    var r := Find(text, word, pos);
    var rest := Occurrences(text, word, r + 1);
    InCons((r, r + |word| - 1), rest, (a, b));
    if (a, b) in rest {
      OccurrenceSound(text, word, r + 1, a, b);
    }
  }

  /** Every occurrence at or after pos is recorded. */
  lemma {:induction false} OccurrenceComplete(text: string, word: string, pos: int, a: int)
    requires 0 <= pos <= a && OccursAt(text, word, a)
    ensures (a, a + |word| - 1) in Occurrences(text, word, pos)
    decreases |text| + 1 - pos
  {
    FindFirst(text, word, pos, a);
    var r := Find(text, word, pos);
    var rest := Occurrences(text, word, r + 1);
    InCons((r, r + |word| - 1), rest, (a, a + |word| - 1));
    if r < a {
      OccurrenceComplete(text, word, r + 1, a);
    }
  }

  /** Membership in a concatenation of interval sequences. */
  lemma InAppend(s: seq<Interval>, t: seq<Interval>, y: Interval)
    ensures y in s + t <==> y in s || y in t
  {
    if y in s {
      var k :| 0 <= k < |s| && s[k] == y;
      assert (s + t)[k] == y;
    }
    if y in t {
      var k :| 0 <= k < |t| && t[k] == y;
      assert (s + t)[|s| + k] == y;
    }
  }

  /** Membership in a sequence with one interval in front. */
  lemma InCons(x: Interval, s: seq<Interval>, y: Interval)
    ensures y in [x] + s <==> y == x || y in s
  {
    assert ([x] + s)[0] == x;
    if y in s {
      var k :| 0 <= k < |s| && s[k] == y;
      assert ([x] + s)[k + 1] == y;
    }
  }

  /** The intervals of s start at strictly increasing positions. */
  predicate StartsIncrease(s: seq<Interval>)
  {
    forall k :: 0 < k < |s| ==> s[k - 1].0 < s[k].0
  }

  /** Putting an interval that starts earlier in front keeps the starts increasing. */
  lemma StartsIncreaseCons(x: Interval, s: seq<Interval>)
    requires StartsIncrease(s) && (s != [] ==> x.0 < s[0].0)
    ensures StartsIncrease([x] + s)
  {
    var t := [x] + s;
    forall k | 0 < k < |t|
      ensures t[k - 1].0 < t[k].0
    {
      if k > 1 {
        assert t[k - 1] == s[k - 2] && t[k] == s[k - 1];
      }
    }
  }

  /** The recorded intervals start at increasing positions. */
  lemma {:induction false} OccurrencesIncrease(text: string, word: string, pos: int)
    requires pos >= 0
    ensures StartsIncrease(Occurrences(text, word, pos))
    decreases |text| + 1 - pos
  {
    var r := Find(text, word, pos);
    if r != -1 {
      OccurrencesIncrease(text, word, r + 1);
      var rest := Occurrences(text, word, r + 1);
      if rest != [] {
        assert rest[0] in rest;
        OccurrenceMember(text, word, r + 1, rest[0].0, rest[0].1);
      }
      StartsIncreaseCons((r, r + |word| - 1), rest);
    }
  }

  /** wordIntervals: the intervals of the words in dictionary order. */
  function AllIntervals(dict: seq<string>, text: string): seq<Interval>
  {
    if dict == [] then [] else AllIntervals(dict[..|dict| - 1], text) + Occurrences(text, dict[|dict| - 1], 0)
  }

  /** An interval is recorded exactly when it spans an occurrence of some word. */
  lemma AllIntervalsSpec(dict: seq<string>, text: string)
    ensures forall a, b :: (a, b) in AllIntervals(dict, text) <==>
      exists w :: 0 <= w < |dict| && OccursAt(text, dict[w], a) && b == a + |dict[w]| - 1
  {
    forall a, b
      ensures (a, b) in AllIntervals(dict, text) <==>
        exists w :: 0 <= w < |dict| && OccursAt(text, dict[w], a) && b == a + |dict[w]| - 1
    {
      AllIntervalsAt(dict, text, a, b);
    }
  }

  /** The same, for one interval (a, b), by induction on the dictionary. */
  lemma {:induction false} AllIntervalsAt(dict: seq<string>, text: string, a: int, b: int)
    ensures (a, b) in AllIntervals(dict, text) <==>
      exists w :: 0 <= w < |dict| && OccursAt(text, dict[w], a) && b == a + |dict[w]| - 1
    decreases |dict|
  {
    if dict != [] {
      var init := dict[..|dict| - 1];
      var last := dict[|dict| - 1];
      AllIntervalsAt(init, text, a, b);
      OccurrenceMember(text, last, 0, a, b);
      InAppend(AllIntervals(init, text), Occurrences(text, last, 0), (a, b));
      if (a, b) in AllIntervals(init, text) {
        var w :| 0 <= w < |init| && OccursAt(text, init[w], a) && b == a + |init[w]| - 1;
        assert dict[w] == init[w];
      }
      if exists w :: 0 <= w < |dict| && OccursAt(text, dict[w], a) && b == a + |dict[w]| - 1 {
        var w :| 0 <= w < |dict| && OccursAt(text, dict[w], a) && b == a + |dict[w]| - 1;
        if w < |init| {
          assert dict[w] == init[w];
        }
      }
    }
  }

  /** The loops of nrSubstrings that collect wordIntervals. */
  method WordIntervals(dict: seq<string>, message: string) returns (intervals: seq<Interval>)
    ensures intervals == AllIntervals(dict, message)
  {
    intervals := [];
    for w := 0 to |dict|
      invariant intervals == AllIntervals(dict[..w], message)
    {
      assert dict[..w + 1][..w] == dict[..w];
      var occ := WordOccurrences(dict[w], message);
      intervals := intervals + occ;
    }
    assert dict[..|dict|] == dict;
  }

  /** The inner loop: find, record, and search again one position further on. */
  method WordOccurrences(word: string, message: string) returns (occ: seq<Interval>)
    ensures occ == Occurrences(message, word, 0)
  {
    occ := [];
    var i := Find(message, word, 0);
    OccurrencesFrom(message, word, 0);
    while i != -1
      invariant i != -1 ==> OccursAt(message, word, i)
      invariant occ + (if i == -1 then [] else Occurrences(message, word, i)) == Occurrences(message, word, 0)
      decreases if i == -1 then 0 else |message| + 2 - i
    {
      RecordStep(message, word, occ, i);
      occ := occ + [(i, i + |word| - 1)];
      i := Find(message, word, i + 1);
    }
  }

  /** One pass of the inner loop keeps what remains to be recorded. */
  lemma RecordStep(text: string, word: string, occ: seq<Interval>, i: int)
    requires OccursAt(text, word, i) && occ + Occurrences(text, word, i) == Occurrences(text, word, 0)
    ensures var j := Find(text, word, i + 1);
      (occ + [(i, i + |word| - 1)]) + (if j == -1 then [] else Occurrences(text, word, j))
        == Occurrences(text, word, 0)
  {
    OccurrencesFrom(text, word, i + 1);
    OccurrencesAt(text, word, i);
  }

  /** Searching from pos and recording from the occurrence found are the same. */
  lemma OccurrencesFrom(text: string, word: string, pos: int)
    requires pos >= 0
    ensures var r := Find(text, word, pos);
      Occurrences(text, word, pos) == if r == -1 then [] else Occurrences(text, word, r)
  {
    var r := Find(text, word, pos);
    if r != -1 {
      FindAt(text, word, r);
    }
  }

  /** At an occurrence, find returns the position itself. */
  lemma FindAt(text: string, word: string, i: int)
    requires OccursAt(text, word, i)
    ensures Find(text, word, i) == i
  {
  }

  /** At an occurrence i, the recording starts with i's interval. */
  lemma OccurrencesAt(text: string, word: string, i: int)
    requires OccursAt(text, word, i)
    ensures Occurrences(text, word, i) == [(i, i + |word| - 1)] + Occurrences(text, word, i + 1)
  {
    FindAt(text, word, i);
  }

  /** Sorted by the comparator of nrSubstrings: non-decreasing right ends. */
  predicate SortedByEnd(s: seq<Interval>)
  {
    forall i, j :: 0 <= i < j < |s| ==> s[i].1 <= s[j].1
  }

  /**
   * A chain: increasing positions of s, each interval starting after the previous one
   * ends, so that none of them overlaps the next.
   */
  predicate Chain(s: seq<Interval>, f: seq<int>)
  {
    && (forall k :: 0 <= k < |f| ==> 0 <= f[k] < |s|)
    && (forall k :: 0 < k < |f| ==> f[k - 1] < f[k] && s[f[k]].0 > s[f[k - 1]].1)
  }

  /** The positions of a chain increase. */
  lemma {:induction false} ChainIncreases(s: seq<Interval>, f: seq<int>, k: int)
    requires Chain(s, f) && 0 <= k < |f|
    ensures forall j :: 0 <= j < k ==> f[j] < f[k]
    decreases k
  {
    if k > 0 {
      ChainIncreases(s, f, k - 1);
    }
  }

  /** A chain has no more positions than s has intervals. */
  lemma ChainBounded(s: seq<Interval>, f: seq<int>)
    requires Chain(s, f)
    ensures |f| <= |s|
  {
    if f != [] {
      ChainAbove(s, f, |f| - 1);
    }
  }

  /** The k-th position of a chain is at least k. */
  lemma {:induction false} ChainAbove(s: seq<Interval>, f: seq<int>, k: int)
    requires Chain(s, f) && 0 <= k < |f|
    ensures f[k] >= k
    decreases k
  {
    if k > 0 {
      ChainAbove(s, f, k - 1);
    }
  }

  /** Dropping the first position of a chain leaves a chain above it. */
  lemma ChainTail(s: seq<Interval>, f: seq<int>)
    requires Chain(s, f) && f != []
    ensures Chain(s, f[1..])
    ensures forall k :: 0 <= k < |f| - 1 ==> f[1..][k] > f[0]
    ensures |f| > 1 ==> s[f[1]].0 > s[f[0]].1
  {
    var rest := f[1..];
    forall k | 0 <= k < |rest|
      ensures rest[k] > f[0]
    {
      var k' := k + 1;
      ChainIncreases(s, f, k');
      assert rest[k] == f[k'];
    }
    forall k | 0 < k < |rest|
      ensures rest[k - 1] < rest[k] && s[rest[k]].0 > s[rest[k - 1]].1
    {
      var k' := k + 1;
      assert rest[k] == f[k'] && rest[k - 1] == f[k];
    }
  }

  /** A position below a chain whose first interval starts after its end extends it. */
  lemma ChainCons(s: seq<Interval>, x: int, f: seq<int>)
    requires Chain(s, f) && 0 <= x < |s|
    requires forall k :: 0 <= k < |f| ==> x < f[k]
    requires f != [] ==> s[f[0]].0 > s[x].1
    ensures Chain(s, [x] + f)
  {
    var g := [x] + f;
    forall k | 0 < k < |g|
      ensures g[k - 1] < g[k] && s[g[k]].0 > s[g[k - 1]].1
    {
      if k > 1 {
        var j := k - 1;
        assert g[k] == f[j] && g[j] == f[j - 1];
      }
    }
  }

  /** The positions the greedy loop counts, from position i on with right end e so far. */
  function Picks(s: seq<Interval>, i: int, e: int): seq<int>
    requires 0 <= i <= |s|
    decreases |s| - i
  {
    if i == |s| then []
    else if s[i].0 > e then [i] + Picks(s, i + 1, s[i].1)
    else Picks(s, i + 1, e)
  }

  /** The greedy choice: the first interval, then every one starting after the last chosen end. */
  function Greedy(s: seq<Interval>): seq<int>
    requires |s| >= 1
  {
    [0] + Picks(s, 1, s[0].1)
  }

  /** The picks from i on form a chain at or above i whose first interval starts after e. */
  lemma {:induction false} PicksChain(s: seq<Interval>, i: int, e: int)
    requires 0 <= i <= |s|
    ensures Chain(s, Picks(s, i, e))
    ensures forall k :: 0 <= k < |Picks(s, i, e)| ==> i <= Picks(s, i, e)[k]
    ensures Picks(s, i, e) != [] ==> s[Picks(s, i, e)[0]].0 > e
    decreases |s| - i
  {
    if i < |s| {
      if s[i].0 > e {
        PicksChain(s, i + 1, s[i].1);
        ChainCons(s, i, Picks(s, i + 1, s[i].1));
      } else {
        PicksChain(s, i + 1, e);
      }
    }
  }

  /**
   * The greedy stays ahead: on intervals sorted by right end, any chain of positions
   * from i on whose first interval starts after e is no longer than the picks from i.
   */
  lemma {:induction false} StaysAhead(s: seq<Interval>, i: int, e: int, f: seq<int>)
    requires SortedByEnd(s) && 0 <= i <= |s| && Chain(s, f)
    requires forall k :: 0 <= k < |f| ==> i <= f[k]
    requires f != [] ==> s[f[0]].0 > e
    ensures |f| <= |Picks(s, i, e)|
    decreases |s| - i
  {
    if f != [] {
      assert i < |s|;
      if s[i].0 > e {
        ChainTail(s, f);
        if |f| > 1 {
          assert s[f[1]].0 > s[f[0]].1 >= s[i].1;
        }
        StaysAhead(s, i + 1, s[i].1, f[1..]);
      } else {
        assert f[0] != i;
        ChainIncreases(s, f, 0);
        forall k | 0 < k < |f|
          ensures i < f[k]
        {
          ChainIncreases(s, f, k);
        }
        StaysAhead(s, i + 1, e, f);
      }
    }
  }

  /** The greedy choice is a chain, and no chain is longer. */
  lemma GreedyIsLongestChain(s: seq<Interval>, f: seq<int>)
    requires SortedByEnd(s) && |s| >= 1 && Chain(s, f)
    ensures Chain(s, Greedy(s))
    ensures |f| <= |Greedy(s)|
  {
    PicksChain(s, 1, s[0].1);
    ChainCons(s, 0, Picks(s, 1, s[0].1));
    if f != [] {
      ChainTail(s, f);
      if |f| > 1 {
        assert s[f[1]].0 > s[f[0]].1 >= s[0].1;
      }
      StaysAhead(s, 1, s[0].1, f[1..]);
    }
  }

  /** Disjoint intervals of positive length, in sorted order, form a chain. */
  lemma DisjointIsChain(s: seq<Interval>, f: seq<int>)
    requires SortedByEnd(s)
    requires forall k :: 0 <= k < |f| ==> 0 <= f[k] < |s| && s[f[k]].0 <= s[f[k]].1
    requires forall k :: 0 < k < |f| ==> f[k - 1] < f[k]
    requires forall k, l :: 0 <= k < l < |f| ==> s[f[k]].1 < s[f[l]].0 || s[f[l]].1 < s[f[k]].0
    ensures Chain(s, f)
  {
    forall k | 0 < k < |f|
      ensures s[f[k]].0 > s[f[k - 1]].1
    {
      var j := k - 1;
      assert s[f[j]].1 <= s[f[k]].1;
    }
  }

  /**
   * The greedy scan of nrSubstrings over the sorted intervals: it counts the longest
   * chain, 0 when there are none.
   */
  method CountDisjoint(sorted: seq<Interval>) returns (counter: int)
    requires SortedByEnd(sorted)
    ensures sorted == [] ==> counter == 0
    ensures sorted != [] ==> counter == |Greedy(sorted)|
  {
    if sorted == [] {
      return 0;
    }
    counter := 1;
    var e := sorted[0].1;
    for i := 1 to |sorted|
      invariant counter + |Picks(sorted, i, e)| == |Greedy(sorted)|
    {
      if sorted[i].0 > e {
        e := sorted[i].1;
        counter := counter + 1;
      }
    }
  }

  /**
   * nrSubstrings(dict, message), given `sorted`, the order std::sort leaves the
   * intervals in: 0 exactly when no word occurs, and otherwise the greatest number of
   * occurrences that can be read one after another without overlapping.
   */
  method NrSubstrings(dict: seq<string>, message: string, sorted: seq<Interval>) returns (counter: int)
    requires multiset(sorted) == multiset(AllIntervals(dict, message)) && SortedByEnd(sorted)
    ensures counter == 0 <==> forall w, a :: 0 <= w < |dict| ==> !OccursAt(message, dict[w], a)
    ensures forall f :: Chain(sorted, f) ==> |f| <= counter
    ensures sorted != [] ==> Chain(sorted, Greedy(sorted)) && |Greedy(sorted)| == counter
  {
    var intervals := WordIntervals(dict, message);
    SomeOccurrence(dict, message);
    if |intervals| == 0 {
      assert |multiset(sorted)| == 0;
      forall f | Chain(sorted, f)
        ensures |f| == 0
      {
        ChainBounded(sorted, f);
      }
      return 0;
    }
    assert |multiset(sorted)| == |intervals|;
    counter := CountDisjoint(sorted);
    forall f | Chain(sorted, f)
      ensures |f| <= counter
    {
      GreedyIsLongestChain(sorted, f);
    }
    GreedyIsLongestChain(sorted, []);
    assert Greedy(sorted)[0] == 0;
    var iv := intervals[0];
    assert iv in intervals;
    AllIntervalsSpec(dict, message);
    var w :| 0 <= w < |dict| && OccursAt(message, dict[w], iv.0) && iv.1 == iv.0 + |dict[w]| - 1;
  }

  /** Every occurrence of a word leaves an interval. */
  lemma SomeOccurrence(dict: seq<string>, message: string)
    ensures forall w, a :: 0 <= w < |dict| && OccursAt(message, dict[w], a) ==> AllIntervals(dict, message) != []
  {
    AllIntervalsSpec(dict, message);
    forall w, a | 0 <= w < |dict| && OccursAt(message, dict[w], a)
      ensures AllIntervals(dict, message) != []
    {
      assert (a, a + |dict[w]| - 1) in AllIntervals(dict, message);
    }
  }
}
