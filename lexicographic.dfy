/**
 * The order std::string's comparison operators use: strings compare at their first
 * difference, and a proper prefix comes before the longer string. Suffix sorting and
 * the LCP array are stated in these terms.
 */
module Lexicographic {

  /** The length of the longest common prefix of a and b. */
  function Lcp(a: string, b: string): (m: nat)
    ensures m <= |a| && m <= |b|
    ensures a[..m] == b[..m]
    ensures m < |a| && m < |b| ==> a[m] != b[m]
  {
    if a == [] || b == [] || a[0] != b[0] then 0 else 1 + Lcp(a[1..], b[1..])
  }

  /** a comes strictly before b: b goes on past the common prefix, and a ends there or has the smaller character. */
  predicate Less(a: string, b: string)
  {
    var m := Lcp(a, b);
    m < |b| && (m == |a| || a[m] < b[m])
  }

  /** The common prefix length is the first position where the strings differ or one ends. */
  lemma LcpUnique(a: string, b: string, m: int)
    requires 0 <= m <= |a| && m <= |b|
    requires forall k :: 0 <= k < m ==> a[k] == b[k]
    requires m < |a| && m < |b| ==> a[m] != b[m]
    ensures Lcp(a, b) == m
  {
  }

  lemma LcpSymmetric(a: string, b: string)
    ensures Lcp(a, b) == Lcp(b, a)
  {
    LcpUnique(b, a, Lcp(a, b));
  }

  lemma LcpSelf(a: string)
    ensures Lcp(a, a) == |a|
  {
    LcpUnique(a, a, |a|);
  }

  /** Any two strings are equal or ordered one way. */
  lemma Total(a: string, b: string)
    ensures a == b || Less(a, b) || Less(b, a)
  {
    LcpSymmetric(a, b);
    var m := Lcp(a, b);
    if m == |a| && m == |b| {
      assert a == b;
    }
  }

  /** No string comes before itself, and at most one of Less(a, b), Less(b, a), a == b holds. */
  lemma Asymmetric(a: string, b: string)
    ensures !(Less(a, b) && Less(b, a))
    ensures !Less(a, a)
  {
    LcpSymmetric(a, b);
    LcpSelf(a);
  }

  lemma Transitive(a: string, b: string, c: string)
    requires Less(a, b) && Less(b, c)
    ensures Less(a, c)
  {
    var m1, m2 := Lcp(a, b), Lcp(b, c);
    var m := if m1 < m2 then m1 else m2;
    assert forall k :: 0 <= k < m ==> a[k] == c[k];
    if m1 < m2 {
      LcpUnique(a, c, m1);
    } else if m2 < m1 {
      LcpUnique(a, c, m2);
    } else {
      LcpUnique(a, c, m);
    }
  }

  /** A proper prefix comes first. */
  lemma PrefixLess(a: string, b: string)
    requires |a| < |b| && a == b[..|a|]
    ensures Less(a, b)
  {
    LcpUnique(a, b, |a|);
  }

  /**
   * For a and c of the same length, a + b against c + d is decided by a against c, and by
   * b against d when a and c are equal.
   */
  lemma Concat(a: string, b: string, c: string, d: string)
    requires |a| == |c|
    ensures Less(a + b, c + d) <==> Less(a, c) || (a == c && Less(b, d))
    ensures a + b == c + d <==> a == c && b == d
  {
    if a == c {
      var m := Lcp(b, d);
      LcpUnique(a + b, c + d, |a| + m);
    } else {
      var m := Lcp(a, c);
      LcpSelf(a);
      assert m < |a|;
      LcpUnique(a + b, c + d, m);
      assert (a + b)[m] == a[m] && (c + d)[m] == c[m];
    }
    if a + b == c + d {
      assert a == (a + b)[..|a|] && c == (c + d)[..|c|];
      assert b == (a + b)[|a|..] && d == (c + d)[|c|..];
    }
  }

  /** Single characters compare as characters. */
  lemma Single(x: char, y: char)
    ensures Less([x], [y]) <==> x < y
  {
    if x == y {
      LcpSelf([x]);
    } else {
      LcpUnique([x], [y], 0);
    }
  }

  /** Strings that agree on their first l characters have a common prefix of at least l. */
  lemma LcpAtLeast(a: string, b: string, l: int)
    requires 0 <= l <= |a| && l <= |b| && a[..l] == b[..l]
    ensures l <= Lcp(a, b)
  {
  }

  /** Dropping a common first character keeps the order and shortens the common prefix by one. */
  lemma LessTail(a: string, b: string)
    requires Less(a, b) && Lcp(a, b) >= 1
    ensures Lcp(a[1..], b[1..]) == Lcp(a, b) - 1 && Less(a[1..], b[1..])
  {
  }

  /**
   * A string between a and c in the order shares at least as long a prefix with a as c
   * does: the common prefix with a shrinks going away from a.
   */
  lemma Sandwich(a: string, b: string, c: string)
    requires Less(a, b) && Less(b, c)
    ensures Lcp(a, c) <= Lcp(a, b)
  {
    var t, m := Lcp(a, b), Lcp(a, c);
    if t < m {
      LcpUnique(c, b, t);
    }
  }

  /**
   * Kasai's bound: when a comes before b and they share a first character, a without it
   * shares at least one character less with b without it, and with anything between them.
   */
  lemma TailLcp(a: string, b: string, c: string)
    requires Less(a, b) && Lcp(a, b) >= 1
    requires c == b[1..] || (Less(a[1..], c) && Less(c, b[1..]))
    ensures Lcp(a, b) - 1 <= Lcp(a[1..], c)
  {
    LessTail(a, b);
    if c != b[1..] {
      Sandwich(a[1..], c, b[1..]);
    }
  }
}
