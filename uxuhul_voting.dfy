/**
 * Uxuhul voting: three yes/no issues form a state 0..7 (the first issue is the most
 * significant bit); each priest in turn flips exactly one issue, choosing the flip whose
 * final outcome they rank best (smallest rank) given that the later priests do the same.
 * `tabulation` computes that outcome for every priest and state by backward induction.
 */
module UxuhulVoting {

  /** Bit k (0 = least significant) of a state. */
  function Bit(s: int, k: nat): int
    requires 0 <= s < 8 && k < 3
  {
    if k == 0 then s % 2 else if k == 1 then (s / 2) % 2 else s / 4
  }

  /** The number of issues on which two states differ. */
  function Differ(s: int, t: int): nat
    requires 0 <= s < 8 && 0 <= t < 8
  {
    (if Bit(s, 0) != Bit(t, 0) then 1 else 0)
    + (if Bit(s, 1) != Bit(t, 1) then 1 else 0)
    + (if Bit(s, 2) != Bit(t, 2) then 1 else 0)
  }

  /** The `onebit` table. */
  function OneBit(s: int): seq<int>
    requires 0 <= s < 8
  {
    [[1, 2, 4], [0, 3, 5], [0, 3, 6], [1, 2, 7], [0, 5, 6], [1, 4, 7], [2, 4, 7], [3, 5, 6]][s]
  }

  /** `onebit[s]` lists, in increasing order, exactly the states one flip away from s. */
  lemma OneBitNeighbours(s: int)
    requires 0 <= s < 8
    ensures |OneBit(s)| == 3
    ensures forall j :: 0 <= j < 3 ==> 0 <= OneBit(s)[j] < 8
    ensures OneBit(s)[0] < OneBit(s)[1] < OneBit(s)[2]
    ensures forall t :: 0 <= t < 8 ==> (t in OneBit(s) <==> Differ(s, t) == 1)
  {
  }

  /** The `votes` table. */
  function Votes(s: int): string
    requires 0 <= s < 8
  {
    ["NNN", "NNY", "NYN", "NYY", "YNN", "YNY", "YYN", "YYY"][s]
  }

  /** `votes[s]` spells the bits of s, most significant first, Y for 1 and N for 0. */
  lemma VotesSpellBits(s: int)
    requires 0 <= s < 8
    ensures |Votes(s)| == 3
    ensures forall k :: 0 <= k < 3 ==> Votes(s)[k] == (if Bit(s, 2 - k) == 1 then 'Y' else 'N')
  {
  }

  /** Every candidate is a valid index into the priest's ranking. */
  predicate Indexes(priest: seq<int>, changes: seq<int>)
  {
    forall j :: 0 <= j < |changes| ==> 0 <= changes[j] < |priest|
  }

  /**
   * The running minimum of `preference`: starting from rank `optimal` and answer
   * `index`, scan the candidates left to right and take one only on a strictly
   * smaller rank.
   */
  function PreferFrom(priest: seq<int>, changes: seq<int>, optimal: int, index: int): int
    requires Indexes(priest, changes)
  {
    if changes == [] then index
    else if priest[changes[0]] < optimal then PreferFrom(priest, changes[1..], priest[changes[0]], changes[0])
    else PreferFrom(priest, changes[1..], optimal, index)
  }

  /** preference's answer: the scan started with rank 10 and answer 0. */
  function Prefer(priest: seq<int>, changes: seq<int>): int
    requires Indexes(priest, changes)
  {
    PreferFrom(priest, changes, 10, 0)
  }

  /** `preference`: the loop over the candidates keeping the best rank so far. */
  method Preference(priest: seq<int>, changes: seq<int>) returns (index: int)
    requires Indexes(priest, changes)
    ensures index == Prefer(priest, changes)
  {
    var optimal := 10;
    index := 0;
    var k := 0;
    while k < |changes|
      invariant 0 <= k <= |changes|
      invariant PreferFrom(priest, changes[k..], optimal, index) == Prefer(priest, changes)
    {
      assert changes[k..][1..] == changes[k + 1..];
      var ele := changes[k];
      if priest[ele] < optimal {
        optimal := priest[ele];
        index := ele;
      }
      k := k + 1;
    }
  }

  /**
   * The scan returns the first candidate of smallest rank when some candidate ranks
   * below the starting rank, and otherwise the starting answer.
   */
  lemma {:induction false} PreferFromIsFirstMinimum(priest: seq<int>, changes: seq<int>, optimal: int, index: int)
    requires Indexes(priest, changes)
    ensures var r := PreferFrom(priest, changes, optimal, index);
      && ((forall j :: 0 <= j < |changes| ==> priest[changes[j]] >= optimal) ==> r == index)
      && ((exists j :: 0 <= j < |changes| && priest[changes[j]] < optimal) ==>
            exists i :: 0 <= i < |changes| && changes[i] == r
              && priest[r] < optimal
              && (forall j :: 0 <= j < |changes| ==> priest[changes[j]] >= priest[r])
              && (forall j :: 0 <= j < i ==> priest[changes[j]] > priest[r]))
    decreases |changes|
  {
    if changes != [] {
      var rest := changes[1..];
      var c := changes[0];
      PreferFromIsFirstMinimum(priest, rest, if priest[c] < optimal then priest[c] else optimal,
        if priest[c] < optimal then c else index);
      var r := PreferFrom(priest, changes, optimal, index);
      if priest[c] < optimal {
        if exists j :: 0 <= j < |rest| && priest[rest[j]] < priest[c] {
          var i :| 0 <= i < |rest| && rest[i] == r && priest[r] < priest[c]
            && (forall j :: 0 <= j < |rest| ==> priest[rest[j]] >= priest[r])
            && (forall j :: 0 <= j < i ==> priest[rest[j]] > priest[r]);
          assert changes[i + 1] == r;
          assert forall j :: 0 < j < |changes| ==> changes[j] == rest[j - 1];
        } else {
          assert r == c && changes[0] == r;
          assert forall j :: 0 < j < |changes| ==> changes[j] == rest[j - 1];
        }
      } else if exists j :: 0 <= j < |changes| && priest[changes[j]] < optimal {
        var j0 :| 0 <= j0 < |changes| && priest[changes[j0]] < optimal;
        assert j0 > 0 && priest[rest[j0 - 1]] < optimal;
        var i :| 0 <= i < |rest| && rest[i] == r && priest[r] < optimal
          && (forall j :: 0 <= j < |rest| ==> priest[rest[j]] >= priest[r])
          && (forall j :: 0 <= j < i ==> priest[rest[j]] > priest[r]);
        assert changes[i + 1] == r;
        assert forall j :: 0 < j < |changes| ==> changes[j] == rest[j - 1];
      } else {
        assert forall j :: 0 <= j < |rest| ==> priest[rest[j]] >= optimal by {
          assert forall j :: 0 <= j < |rest| ==> rest[j] == changes[j + 1];
        }
      }
    }
  }

  /** The rankings: M priests with eight ranks each. */
  predicate WellFormed(priests: seq<seq<int>>)
  {
    |priests| >= 1 && forall p :: 0 <= p < |priests| ==> |priests[p]| == 8
  }

  /** The final outcomes, from state s, of the flips available to priest p. */
  function Candidates(priests: seq<seq<int>>, p: int, s: int): (c: seq<int>)
    requires WellFormed(priests) && 0 <= p < |priests| && 0 <= s < 8
    ensures |c| == 3 && forall j :: 0 <= j < 3 ==> 0 <= c[j] < 8
    decreases |priests| - p, 1
  {
    OneBitNeighbours(s);
    if p == |priests| - 1 then OneBit(s)
    else
      var n := OneBit(s);
      [Outcome(priests, p + 1, n[0]), Outcome(priests, p + 1, n[1]), Outcome(priests, p + 1, n[2])]
  }

  /** The final state when priest p votes next in state s and everybody plays as tabulated. */
  function Outcome(priests: seq<seq<int>>, p: int, s: int): (r: int)
    requires WellFormed(priests) && 0 <= p < |priests| && 0 <= s < 8
    ensures 0 <= r < 8
    decreases |priests| - p, 2
  {
    var c := Candidates(priests, p, s);
    PreferInRange(priests[p], c);
    Prefer(priests[p], c)
  }

  /** The answer is one of the candidates, or 0 when none ranks below 10; so it is a state. */
  lemma PreferInRange(priest: seq<int>, changes: seq<int>)
    requires Indexes(priest, changes) && forall j :: 0 <= j < |changes| ==> 0 <= changes[j] < 8
    ensures 0 <= Prefer(priest, changes) < 8
  {
    PreferFromIsFirstMinimum(priest, changes, 10, 0);
  }

  /**
   * Backward induction is optimal for each priest: when its ranks are below 10, the
   * tabulated outcome is reached by one of its three flips, and none of them reaches an
   * outcome the priest ranks better.
   */
  lemma OutcomeIsBestResponse(priests: seq<seq<int>>, p: int, s: int)
    requires WellFormed(priests) && 0 <= p < |priests| && 0 <= s < 8
    requires forall k :: 0 <= k < 8 ==> priests[p][k] < 10
    ensures Outcome(priests, p, s) in Candidates(priests, p, s)
    ensures forall c :: c in Candidates(priests, p, s) ==>
      priests[p][Outcome(priests, p, s)] <= priests[p][c]
  {
    var c := Candidates(priests, p, s);
    PreferFromIsFirstMinimum(priests[p], c, 10, 0);
    assert priests[p][c[0]] < 10;
  }

  /**
   * `tabulation`: fills the last row from the last priest's preferences over the
   * neighbouring states, then each earlier row from the outcomes in the row below.
   */
  method Tabulation(DP: array2<int>, priests: seq<seq<int>>, M: int)
    modifies DP
    requires WellFormed(priests) && M == |priests|
    requires DP.Length0 == M && DP.Length1 == 8
    ensures forall p, s :: 0 <= p < M && 0 <= s < 8 ==> DP[p, s] == Outcome(priests, p, s)
  {
    var last := M - 1;
    for i := 0 to 8
      invariant forall s :: 0 <= s < i ==> DP[last, s] == Outcome(priests, last, s)
    {
      DP[last, i] := Preference(priests[last], OneBit(i));
    }
    var p := M - 2;
    while p >= 0
      invariant -1 <= p <= M - 2
      invariant forall q, s :: p < q < M && 0 <= s < 8 ==> DP[q, s] == Outcome(priests, q, s)
    {
      for i := 0 to 8
        invariant forall q, s :: p < q < M && 0 <= s < 8 ==> DP[q, s] == Outcome(priests, q, s)
        invariant forall s :: 0 <= s < i ==> DP[p, s] == Outcome(priests, p, s)
      {
        OneBitNeighbours(i);
        var n := OneBit(i);
        var c := [DP[p + 1, n[0]], DP[p + 1, n[1]], DP[p + 1, n[2]]];
        assert c == Candidates(priests, p, i);
        DP[p, i] := Preference(priests[p], c);
      }
      p := p - 1;
    }
  }

  /** main's answer: the votes of the outcome when the first priest starts from state 0. */
  function Answer(priests: seq<seq<int>>): (v: string)
    requires WellFormed(priests)
    ensures |v| == 3
  {
    VotesSpellBits(Outcome(priests, 0, 0));
    Votes(Outcome(priests, 0, 0))
  }
}
