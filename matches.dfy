/** The match log the prediction engine reads: one record per played match. */
module Matches {

  /** One row of the log. `ga` and `gb` are the goals of `teamA` and `teamB`;
      `weight` is the recency weight the engine derives from the row's date
      (an exponential decay, or 0.5 when the date cannot be parsed). */
  datatype Match = Match(teamA: string, teamB: string, ga: nat, gb: nat, weight: real)

  /** Every recency weight is positive: exp is never zero and the fallback is 0.5. */
  predicate PositiveWeights(h: seq<Match>)
  {
    forall i :: 0 <= i < |h| ==> h[i].weight > 0.0
  }

  /** The team plays in m, on either side. */
  predicate Involves(m: Match, team: string)
  {
    m.teamA == team || m.teamB == team
  }

  /** Weighted goals scored by `team` in m. The team_a side is tested first,
      so in a match of a team against itself the team_a goals are used. */
  function ScoredIn(m: Match, team: string): real
    requires Involves(m, team)
  {
    if m.teamA == team then m.ga as real * m.weight else m.gb as real * m.weight
  }

  /** Weighted goals conceded by `team` in m, the mirror of ScoredIn. */
  function ConcededIn(m: Match, team: string): real
    requires Involves(m, team)
  {
    if m.teamA == team then m.gb as real * m.weight else m.ga as real * m.weight
  }

  /** Sum of a list of reals, added from left to right as Python's sum does. */
  function Sum(s: seq<real>): real
  {
    if s == [] then 0.0 else Sum(s[..|s| - 1]) + s[|s| - 1]
  }

  /** A sum of non-negative terms is non-negative. */
  lemma {:induction false} SumNonNegative(s: seq<real>)
    requires forall i :: 0 <= i < |s| ==> s[i] >= 0.0
    ensures Sum(s) >= 0.0
  {
    if s != [] {
      SumNonNegative(s[..|s| - 1]);
    }
  }

  /** k copies of c add up to k * c. */
  lemma {:induction false} SumConstant(s: seq<real>, c: real)
    requires forall i :: 0 <= i < |s| ==> s[i] == c
    ensures Sum(s) == |s| as real * c
  {
    if s != [] {
      SumConstant(s[..|s| - 1], c);
    }
  }
}
