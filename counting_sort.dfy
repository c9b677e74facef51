/**
 * The stable counting sort that suffix sorting runs on every pass: elements are small
 * non-negative ints, each with an integer key below k (key[e] is the key of element e).
 * Counting, prefix sums, then placement from right to left into the bucket ends.
 *
 * Its specification is Blocks: the elements of key 0 in input order, then those of
 * key 1, and so on.
 */
module CountingSort {

  /** The key of element e, or -1 when e has none. */
  function KeyOf(key: seq<int>, e: int): int
  {
    if 0 <= e < |key| then key[e] else -1
  }

  /** Every element of xs has a key in [0, k). */
  ghost predicate Keyed(xs: seq<int>, key: seq<int>, k: int)
  {
    forall i :: 0 <= i < |xs| ==> 0 <= KeyOf(key, xs[i]) < k
  }

  /** The elements of xs whose key is x, in the order of xs. */
  ghost function Filter(xs: seq<int>, key: seq<int>, x: int): (f: seq<int>)
    ensures |f| <= |xs|
  {
    if xs == [] then [] else (if KeyOf(key, xs[0]) == x then [xs[0]] else []) + Filter(xs[1..], key, x)
  }

  /** The buckets of keys 0 .. k-1, one after the other. */
  ghost function Blocks(xs: seq<int>, key: seq<int>, k: int): seq<int>
    decreases k
  {
    if k <= 0 then [] else Blocks(xs, key, k - 1) + Filter(xs, key, k - 1)
  }

  /** Where the bucket of key x starts. */
  ghost function Start(xs: seq<int>, key: seq<int>, x: int): nat
  {
    |Blocks(xs, key, x)|
  }

  /** The elements of xs are in non-decreasing order of sec. */
  ghost predicate Mono(xs: seq<int>, sec: seq<int>)
  {
    forall i, j {:trigger KeyOf(sec, xs[i]), KeyOf(sec, xs[j])} :: 0 <= i < j < |xs| ==> KeyOf(sec, xs[i]) <= KeyOf(sec, xs[j])
  }

  function Zeros(n: nat): (z: seq<int>)
    ensures |z| == n && forall i :: 0 <= i < n ==> z[i] == 0
  {
    seq(n, _ => 0)
  }

  lemma {:induction false} FilterAppend(a: seq<int>, b: seq<int>, key: seq<int>, x: int)
    ensures Filter(a + b, key, x) == Filter(a, key, x) + Filter(b, key, x)
  {
    if a == [] {
      assert a + b == b;
    } else {
      var h := if KeyOf(key, a[0]) == x then [a[0]] else [];
      assert (a + b)[0] == a[0];
      assert (a + b)[1..] == a[1..] + b;
      FilterAppend(a[1..], b, key, x);
      assert Filter(a + b, key, x) == h + (Filter(a[1..], key, x) + Filter(b, key, x));
      assert Filter(a, key, x) == h + Filter(a[1..], key, x);
    }
  }

  /** A member of a filtered sequence comes from the input and has key x. */
  lemma {:induction false} Member(xs: seq<int>, key: seq<int>, x: int, p: int) returns (j: int)
    requires 0 <= p < |Filter(xs, key, x)|
    ensures 0 <= j < |xs| && xs[j] == Filter(xs, key, x)[p] && KeyOf(key, xs[j]) == x
  {
    if KeyOf(key, xs[0]) == x && p == 0 {
      j := 0;
    } else {
      var j' := Member(xs[1..], key, x, if KeyOf(key, xs[0]) == x then p - 1 else p);
      j := j' + 1;
    }
  }

  /** Every input element of key x is in its filtered sequence. */
  lemma {:induction false} Has(xs: seq<int>, key: seq<int>, j: int) returns (t: int)
    requires 0 <= j < |xs|
    ensures 0 <= t < |Filter(xs, key, KeyOf(key, xs[j]))| && Filter(xs, key, KeyOf(key, xs[j]))[t] == xs[j]
  {
    var x := KeyOf(key, xs[j]);
    if j == 0 {
      t := 0;
    } else {
      var t' := Has(xs[1..], key, j - 1);
      assert xs[1..][j - 1] == xs[j];
      t := if KeyOf(key, xs[0]) == x then t' + 1 else t';
    }
  }

  /** No element occurs twice. */
  ghost predicate Distinct(s: seq<int>)
  {
    forall i, j :: 0 <= i < j < |s| ==> s[i] != s[j]
  }

  lemma {:induction false} FilterDistinct(xs: seq<int>, key: seq<int>, x: int)
    requires Distinct(xs)
    ensures Distinct(Filter(xs, key, x))
  {
    if xs != [] {
      var r := Filter(xs[1..], key, x);
      assert Distinct(xs[1..]);
      FilterDistinct(xs[1..], key, x);
      forall p | 0 <= p < |r|
        ensures r[p] != xs[0]
      {
        var j := Member(xs[1..], key, x, p);
        assert xs[j + 1] == r[p];
      }
    }
  }

  lemma {:induction false} FilterSorted(xs: seq<int>, key: seq<int>, x: int, sec: seq<int>)
    requires Mono(xs, sec)
    ensures Mono(Filter(xs, key, x), sec)
  {
    if xs != [] {
      var r := Filter(xs[1..], key, x);
      assert Mono(xs[1..], sec);
      FilterSorted(xs[1..], key, x, sec);
      forall p | 0 <= p < |r|
        ensures KeyOf(sec, xs[0]) <= KeyOf(sec, r[p])
      {
        var j := Member(xs[1..], key, x, p);
        assert xs[j + 1] == r[p];
      }
    }
  }

  /** One more input element makes the buckets one longer when its key is below k. */
  lemma {:induction false} BlocksCons(e: int, rest: seq<int>, key: seq<int>, k: int)
    ensures |Blocks([e] + rest, key, k)| == |Blocks(rest, key, k)| + (if 0 <= KeyOf(key, e) < k then 1 else 0)
    decreases k
  {
    if k > 0 {
      BlocksCons(e, rest, key, k - 1);
      assert ([e] + rest)[1..] == rest;
    }
  }

  lemma {:induction false} EmptyBlocks(key: seq<int>, k: int)
    ensures Blocks([], key, k) == []
    decreases k
  {
    if k > 0 {
      EmptyBlocks(key, k - 1);
    }
  }

  /** With every key below k, the buckets hold as many elements as the input. */
  lemma {:induction false} BlocksLen(xs: seq<int>, key: seq<int>, k: int)
    requires Keyed(xs, key, k)
    ensures |Blocks(xs, key, k)| == |xs|
  {
    if xs == [] {
      EmptyBlocks(key, k);
    } else {
      assert xs == [xs[0]] + xs[1..];
      assert Keyed(xs[1..], key, k);
      BlocksLen(xs[1..], key, k);
      BlocksCons(xs[0], xs[1..], key, k);
    }
  }

  lemma {:induction false} StartMono(xs: seq<int>, key: seq<int>, x: int, y: int)
    ensures x <= y ==> Start(xs, key, x) <= Start(xs, key, y)
    decreases y - x
  {
    if x < y {
      StartMono(xs, key, x, y - 1);
    }
  }

  /** Position p of the buckets lies in the bucket of its element's key, at its Filter position. */
  lemma {:induction false} BlockAt(xs: seq<int>, key: seq<int>, k: int, p: int) returns (x: int)
    requires 0 <= p < |Blocks(xs, key, k)|
    ensures x == KeyOf(key, Blocks(xs, key, k)[p])
    ensures 0 <= x < k && Start(xs, key, x) <= p < Start(xs, key, x + 1)
    ensures Blocks(xs, key, k)[p] == Filter(xs, key, x)[p - Start(xs, key, x)]
    decreases k
  {
    var b := Blocks(xs, key, k - 1);
    if p < |b| {
      x := BlockAt(xs, key, k - 1, p);
    } else {
      x := k - 1;
      var j := Member(xs, key, k - 1, p - |b|);
    }
  }

  /** The buckets are in order of key. */
  lemma BlocksOrdered(xs: seq<int>, key: seq<int>, k: int, p: int, q: int)
    requires 0 <= p < q < |Blocks(xs, key, k)|
    ensures KeyOf(key, Blocks(xs, key, k)[p]) <= KeyOf(key, Blocks(xs, key, k)[q])
  {
    var x := BlockAt(xs, key, k, p);
    var y := BlockAt(xs, key, k, q);
    StartMono(xs, key, y + 1, x);
  }

  /** Within a bucket the order of the input is kept: the sort is stable. */
  lemma BlocksStable(xs: seq<int>, key: seq<int>, k: int, sec: seq<int>, p: int, q: int)
    requires Mono(xs, sec) && 0 <= p < q < |Blocks(xs, key, k)|
    requires KeyOf(key, Blocks(xs, key, k)[p]) == KeyOf(key, Blocks(xs, key, k)[q])
    ensures KeyOf(sec, Blocks(xs, key, k)[p]) <= KeyOf(sec, Blocks(xs, key, k)[q])
  {
    var x := BlockAt(xs, key, k, p);
    var y := BlockAt(xs, key, k, q);
    SameBlock(xs, key, k, sec, p, q, x, y);
  }

  lemma SameBlock(xs: seq<int>, key: seq<int>, k: int, sec: seq<int>, p: int, q: int, x: int, y: int)
    requires Mono(xs, sec) && 0 <= p < q < |Blocks(xs, key, k)| && x == y
    requires Start(xs, key, x) <= p < Start(xs, key, x + 1)
    requires Start(xs, key, y) <= q < Start(xs, key, y + 1)
    requires Blocks(xs, key, k)[p] == Filter(xs, key, x)[p - Start(xs, key, x)]
    requires Blocks(xs, key, k)[q] == Filter(xs, key, y)[q - Start(xs, key, y)]
    ensures KeyOf(sec, Blocks(xs, key, k)[p]) <= KeyOf(sec, Blocks(xs, key, k)[q])
  {
    FilterSorted(xs, key, x, sec);
  }

  /** Bucket x sits in the buckets of any k above x, at Start(x). */
  lemma {:induction false} BlockHas(xs: seq<int>, key: seq<int>, k: int, x: int, t: int)
    requires 0 <= x < k && 0 <= t < |Filter(xs, key, x)|
    ensures Start(xs, key, x) + t < |Blocks(xs, key, k)|
    ensures Blocks(xs, key, k)[Start(xs, key, x) + t] == Filter(xs, key, x)[t]
    decreases k
  {
    if x < k - 1 {
      BlockHas(xs, key, k - 1, x, t);
    }
  }

  /** o holds each of 0 .. n-1 exactly once. */
  ghost predicate Permutation(o: seq<int>, n: int)
  {
    |o| == n && Distinct(o) &&
    (forall p :: 0 <= p < |o| ==> 0 <= o[p] < n) &&
    (forall v :: 0 <= v < n ==> v in o)
  }

  /** Sorting into buckets permutes the input. */
  lemma BlocksPermutation(xs: seq<int>, key: seq<int>, k: int, n: int)
    requires Permutation(xs, n) && Keyed(xs, key, k)
    ensures Permutation(Blocks(xs, key, k), n)
  {
    var b := Blocks(xs, key, k);
    BlocksLen(xs, key, k);
    forall p | 0 <= p < |b|
      ensures exists j :: 0 <= j < |xs| && xs[j] == b[p]
    {
      var x := BlockAt(xs, key, k, p);
      var j := Member(xs, key, x, p - Start(xs, key, x));
      assert xs[j] == b[p];
    }
    forall p, q | 0 <= p < q < |b|
      ensures b[p] != b[q]
    {
      var x := BlockAt(xs, key, k, p);
      var y := BlockAt(xs, key, k, q);
      if x == y {
        FilterDistinct(xs, key, x);
      }
    }
    forall v | 0 <= v < n
      ensures v in b
    {
      assert v in xs;
      var j :| 0 <= j < |xs| && xs[j] == v;
      var t := Has(xs, key, j);
      BlockHas(xs, key, k, KeyOf(key, xs[j]), t);
    }
  }

  /** Positions lo .. hi of o hold the bucket of x, or of its right part. */
  ghost predicate Span(o: seq<int>, lo: int, hi: int, f: seq<int>)
  {
    0 <= lo <= hi <= |o| && o[lo..hi] == f
  }

  /** A sequence that agrees with the bucket spans of Blocks is Blocks. */
  lemma {:induction false} FromSpans(xs: seq<int>, key: seq<int>, k: int, o: seq<int>)
    requires k >= 0 && Start(xs, key, k) <= |o|
    requires forall x :: 0 <= x < k ==> Span(o, Start(xs, key, x), Start(xs, key, x + 1), Filter(xs, key, x))
    ensures o[..Start(xs, key, k)] == Blocks(xs, key, k)
    decreases k
  {
    if k > 0 {
      var a, b := Start(xs, key, k - 1), Start(xs, key, k);
      assert Span(o, a, b, Filter(xs, key, k - 1));
      FromSpans(xs, key, k - 1, o);
      TakeConcat(o, a, b);
    }
  }

  lemma TakeConcat(o: seq<int>, a: int, b: int)
    requires 0 <= a <= b <= |o|
    ensures o[..b] == o[..a] + o[a..b]
  {
  }

  /** Taking one more element of the input adds it to the count of its own key only. */
  lemma Grow(xs: seq<int>, key: seq<int>, i: int, x: int)
    requires 0 <= i < |xs|
    ensures |Filter(xs[..i + 1], key, x)| == |Filter(xs[..i], key, x)| + (if KeyOf(key, xs[i]) == x then 1 else 0)
  {
    assert xs[..i + 1] == xs[..i] + [xs[i]];
    FilterAppend(xs[..i], [xs[i]], key, x);
  }

  /** Dropping the first element of a suffix of the input. */
  lemma Shrink(xs: seq<int>, key: seq<int>, i: int, x: int)
    requires 0 <= i < |xs|
    ensures Filter(xs[i..], key, x) == (if KeyOf(key, xs[i]) == x then [xs[i]] else []) + Filter(xs[i + 1..], key, x)
  {
    assert xs[i..][1..] == xs[i + 1..];
  }

  /** How many of xs[..i] have key x. */
  ghost function Count(xs: seq<int>, key: seq<int>, x: int, i: int): nat
    requires 0 <= i <= |xs|
  {
    if i == 0 then 0 else Count(xs, key, x, i - 1) + (if KeyOf(key, xs[i - 1]) == x then 1 else 0)
  }

  /** The count is the size of the part of bucket x that comes from xs[..i]. */
  lemma {:induction false} CountFilter(xs: seq<int>, key: seq<int>, x: int, i: int)
    requires 0 <= i <= |xs|
    ensures Count(xs, key, x, i) == |Filter(xs[..i], key, x)|
  {
    if i == 0 {
      assert xs[..0] == [];
    } else {
      CountFilter(xs, key, x, i - 1);
      Grow(xs, key, i - 1, x);
    }
  }

  /** Bucket x splits into the part of xs[..i] and the part of xs[i..]. */
  lemma Split(xs: seq<int>, key: seq<int>, i: int, x: int)
    requires 0 <= i <= |xs| && 0 <= x
    ensures Start(xs, key, x + 1) == Start(xs, key, x) + Count(xs, key, x, i) + |Filter(xs[i..], key, x)|
  {
    assert xs == xs[..i] + xs[i..];
    FilterAppend(xs[..i], xs[i..], key, x);
    CountFilter(xs, key, x, i);
  }

  /** The next free slot of bucket x, counting down from its end, after xs[i..] is placed. */
  ghost predicate Slot(xs: seq<int>, key: seq<int>, i: int, c: int, x: int)
    requires 0 <= i <= |xs|
  {
    c == Start(xs, key, x) + Count(xs, key, x, i)
  }

  /** The placement state: xs[i..] is placed, each bucket filled from its end down to count[x]. */
  ghost predicate Placing(xs: seq<int>, key: seq<int>, k: int, i: int, count: seq<int>, o: seq<int>)
  {
    0 <= i <= |xs| && |count| == k && |o| == |xs| &&
    (forall x :: 0 <= x < k ==> Slot(xs, key, i, count[x], x)) &&
    (forall x :: 0 <= x < k ==> Span(o, count[x], Start(xs, key, x + 1), Filter(xs[i..], key, x)))
  }

  /** Before a placement step, the element's bucket has a free slot left. */
  lemma SlotAbove(xs: seq<int>, key: seq<int>, k: int, i: int, count: seq<int>, o: seq<int>)
    requires Keyed(xs, key, k) && 0 < i && Placing(xs, key, k, i, count, o)
    ensures 0 <= KeyOf(key, xs[i - 1]) < k && 1 <= count[KeyOf(key, xs[i - 1])] <= |o|
  {
    var x := KeyOf(key, xs[i - 1]);
    assert Slot(xs, key, i, count[x], x);
    assert Span(o, count[x], Start(xs, key, x + 1), Filter(xs[i..], key, x));
  }

  /** One placement step keeps the state: xs[i - 1] goes to the slot below count[x]. */
  lemma Place(xs: seq<int>, key: seq<int>, k: int, i: int, count: seq<int>, o: seq<int>, x: int, c: seq<int>, o': seq<int>)
    requires Keyed(xs, key, k) && 0 < i && Placing(xs, key, k, i, count, o)
    requires x == KeyOf(key, xs[i - 1]) && 0 <= x < k
    requires c == count[x := count[x] - 1] && 0 <= c[x] < |o| && o' == o[c[x] := xs[i - 1]]
    ensures Placing(xs, key, k, i - 1, c, o')
  {
    PlaceSlots(xs, key, k, i, count, x, c);
    PlaceSpans(xs, key, k, i, count, o, x, c, o');
  }

  /** The step moves the free slot of the element's bucket down by one and leaves the others. */
  lemma PlaceSlots(xs: seq<int>, key: seq<int>, k: int, i: int, count: seq<int>, x: int, c: seq<int>)
    requires 0 < i <= |xs| && |count| == k && x == KeyOf(key, xs[i - 1]) && 0 <= x < k
    requires c == count[x := count[x] - 1]
    requires forall y :: 0 <= y < k ==> Slot(xs, key, i, count[y], y)
    ensures forall y :: 0 <= y < k ==> Slot(xs, key, i - 1, c[y], y)
  {
    forall y | 0 <= y < k
      ensures Slot(xs, key, i - 1, c[y], y)
    {
      assert Slot(xs, key, i, count[y], y);
    }
  }

  /** The step extends the span of the element's bucket by one and leaves the others. */
  lemma PlaceSpans(xs: seq<int>, key: seq<int>, k: int, i: int, count: seq<int>, o: seq<int>, x: int, c: seq<int>, o': seq<int>)
    requires 0 < i <= |xs| && |count| == k && x == KeyOf(key, xs[i - 1]) && 0 <= x < k
    requires c == count[x := count[x] - 1]
    requires forall y :: 0 <= y < k ==> Slot(xs, key, i, count[y], y)
    requires forall y :: 0 <= y < k ==> Span(o, count[y], Start(xs, key, y + 1), Filter(xs[i..], key, y))
    requires 0 <= c[x] < |o| && o' == o[c[x] := xs[i - 1]]
    ensures forall y :: 0 <= y < k ==> Span(o', c[y], Start(xs, key, y + 1), Filter(xs[i - 1..], key, y))
  {
    forall y | 0 <= y < k
      ensures Span(o', c[y], Start(xs, key, y + 1), Filter(xs[i - 1..], key, y))
    {
      assert Slot(xs, key, i, count[y], y);
      assert Span(o, count[y], Start(xs, key, y + 1), Filter(xs[i..], key, y));
      if y == x {
        PlaceSpanSame(xs, key, i, o, x, count[x]);
      } else {
        PlaceSpanOther(xs, key, i, o, x, y, count[x], count[y]);
      }
    }
  }

  /** Writing element xs[i - 1] to the slot below count[x] extends the span of its own bucket x. */
  lemma PlaceSpanSame(xs: seq<int>, key: seq<int>, i: int, o: seq<int>, x: int, cx: int)
    requires 0 < i <= |xs| && x == KeyOf(key, xs[i - 1]) && 0 <= x
    requires Slot(xs, key, i, cx, x) && Span(o, cx, Start(xs, key, x + 1), Filter(xs[i..], key, x))
    ensures 0 <= cx - 1 < |o|
    ensures Span(o[cx - 1 := xs[i - 1]], cx - 1, Start(xs, key, x + 1), Filter(xs[i - 1..], key, x))
  {
    Shrink(xs, key, i - 1, x);
    SameSpan(o, cx - 1, Start(xs, key, x + 1), xs[i - 1], Filter(xs[i..], key, x));
  }

  /** The slot below count[x] lies outside the span of any other bucket y. */
  lemma Apart(xs: seq<int>, key: seq<int>, i: int, x: int, y: int, cx: int, cy: int)
    requires 0 < i <= |xs| && x == KeyOf(key, xs[i - 1]) && 0 <= x && 0 <= y && x != y
    requires Slot(xs, key, i, cx, x) && Slot(xs, key, i, cy, y)
    ensures cx - 1 < cy || Start(xs, key, y + 1) <= cx - 1
  {
    Split(xs, key, i, x);
    StartMono(xs, key, x + 1, y);
    StartMono(xs, key, y + 1, x);
  }

  /** Writing element xs[i - 1] to the slot below count[x] leaves the span of every other bucket y alone. */
  lemma PlaceSpanOther(xs: seq<int>, key: seq<int>, i: int, o: seq<int>, x: int, y: int, cx: int, cy: int)
    requires 0 < i <= |xs| && x == KeyOf(key, xs[i - 1]) && 0 <= x && 0 <= y && x != y && 1 <= cx <= |o|
    requires Slot(xs, key, i, cx, x) && Slot(xs, key, i, cy, y)
    requires Span(o, cy, Start(xs, key, y + 1), Filter(xs[i..], key, y))
    ensures Span(o[cx - 1 := xs[i - 1]], cy, Start(xs, key, y + 1), Filter(xs[i - 1..], key, y))
  {
    Apart(xs, key, i, x, y, cx, cy);
    Shrink(xs, key, i - 1, y);
    OtherSpan(o, cy, Start(xs, key, y + 1), cx - 1, xs[i - 1], Filter(xs[i..], key, y));
  }

  /** Writing just below a filled span extends it. */
  lemma SameSpan(o: seq<int>, lo: int, hi: int, e: int, f: seq<int>)
    requires 0 <= lo && Span(o, lo + 1, hi, f)
    ensures Span(o[lo := e], lo, hi, [e] + f)
  {
    assert o[lo := e][lo..hi] == [e] + o[lo + 1..hi];
  }

  /** Writing outside a span leaves it alone. */
  lemma OtherSpan(o: seq<int>, lo: int, hi: int, at: int, e: int, f: seq<int>)
    requires Span(o, lo, hi, f) && 0 <= at < |o| && (at < lo || hi <= at)
    ensures Span(o[at := e], lo, hi, f)
  {
  }

  /** After the prefix sums, the placement state holds with nothing placed yet. */
  lemma Spans(xs: seq<int>, key: seq<int>, k: int, count: seq<int>, o: seq<int>)
    requires k >= 1 && Keyed(xs, key, k) && |count| == k && |o| == |xs|
    requires forall x :: 0 <= x < k ==> count[x] == Start(xs, key, x + 1)
    ensures Placing(xs, key, k, |xs|, count, o)
  {
    assert xs[..|xs|] == xs;
    BlocksLen(xs, key, k);
    forall x | 0 <= x < k
      ensures Slot(xs, key, |xs|, count[x], x)
    {
      Split(xs, key, |xs|, x);
    }
    forall x | 0 <= x < k
      ensures Span(o, count[x], Start(xs, key, x + 1), Filter(xs[|xs|..], key, x))
    {
      StartMono(xs, key, x + 1, k);
    }
  }

  /** When everything is placed, the spans are the buckets of Blocks. */
  lemma Placed(xs: seq<int>, key: seq<int>, k: int, count: seq<int>, o: seq<int>)
    requires k >= 1 && Keyed(xs, key, k) && Placing(xs, key, k, 0, count, o)
    ensures o == Blocks(xs, key, k)
  {
    BlocksLen(xs, key, k);
    assert xs[..0] == [] && xs[0..] == xs;
    forall x | 0 <= x < k
      ensures Span(o, Start(xs, key, x), Start(xs, key, x + 1), Filter(xs, key, x))
    {
      assert Slot(xs, key, 0, count[x], x);
      assert Span(o, count[x], Start(xs, key, x + 1), Filter(xs[0..], key, x));
    }
    FromSpans(xs, key, k, o);
  }

  /** The counting loop: count[x] is the size of bucket x. */
  method CountKeys(xs: seq<int>, key: seq<int>, k: int) returns (count: seq<int>)
    requires k >= 1 && Keyed(xs, key, k)
    ensures |count| == k && forall x :: 0 <= x < k ==> count[x] == |Filter(xs, key, x)|
  {
    count := Zeros(k);
    for i := 0 to |xs|
      invariant |count| == k
      invariant forall x :: 0 <= x < k ==> count[x] == Count(xs, key, x, i)
    {
      count := count[key[xs[i]] := count[key[xs[i]]] + 1];
    }
    assert xs[..|xs|] == xs;
    forall x | 0 <= x < k
      ensures count[x] == |Filter(xs, key, x)|
    {
      CountFilter(xs, key, x, |xs|);
    }
  }

  /** The prefix sums: count[x] becomes the end of bucket x. */
  method PrefixSums(xs: seq<int>, key: seq<int>, k: int, count0: seq<int>) returns (count: seq<int>)
    requires k >= 1 && |count0| == k && forall x :: 0 <= x < k ==> count0[x] == |Filter(xs, key, x)|
    ensures |count| == k && forall x :: 0 <= x < k ==> count[x] == Start(xs, key, x + 1)
  {
    count := count0;
    for i := 1 to k
      invariant |count| == k
      invariant forall x :: 0 <= x < i ==> count[x] == Start(xs, key, x + 1)
      invariant forall x :: i <= x < k ==> count[x] == |Filter(xs, key, x)|
    {
      count := count[i := count[i] + count[i - 1]];
    }
  }

  /**
   * The placement loop, from the last element down to the first, each into the slot below
   * its bucket's counter: it ends with every element placed.
   */
  method Distribute(xs: seq<int>, key: seq<int>, k: int, count0: seq<int>, o0: seq<int>) returns (count: seq<int>, o: seq<int>)
    requires Keyed(xs, key, k) && Placing(xs, key, k, |xs|, count0, o0)
    ensures Placing(xs, key, k, 0, count, o)
  {
    count, o := count0, o0;
    var i := |xs|;
    while i > 0
      invariant Placing(xs, key, k, i, count, o)
    {
      SlotAbove(xs, key, k, i, count, o);
      var x := key[xs[i - 1]];
      var c := count[x := count[x] - 1];
      var o' := o[c[x] := xs[i - 1]];
      Place(xs, key, k, i, count, o, x, c, o');
      count, o, i := c, o', i - 1;
    }
  }

  /**
   * Counting sort of xs by key (std::fill of the first k counters, counting, prefix sums,
   * placement from right to left); o0 is the buffer it overwrites.
   */
  method StableSort(xs: seq<int>, key: seq<int>, k: int, o0: seq<int>) returns (o: seq<int>)
    requires k >= 1 && Keyed(xs, key, k) && |o0| == |xs|
    ensures o == Blocks(xs, key, k)
  {
    var count := CountKeys(xs, key, k);
    count := PrefixSums(xs, key, k, count);
    Spans(xs, key, k, count, o0);
    count, o := Distribute(xs, key, k, count, o0);
    Placed(xs, key, k, count, o);
  }
}
