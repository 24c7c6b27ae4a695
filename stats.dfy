/** Per-team statistics: the weighted goals a team scored and conceded in
    every match it played, in log order. */
module Stats {
  import opened Matches

  /** The weighted goals `team` scored, one entry per match it played. */
  function Scored(h: seq<Match>, team: string): seq<real>
  {
    if h == [] then []
    else
      var m := h[|h| - 1];
      Scored(h[..|h| - 1], team) + (if Involves(m, team) then [ScoredIn(m, team)] else [])
  }

  /** The weighted goals `team` conceded, one entry per match it played. */
  function Conceded(h: seq<Match>, team: string): (r: seq<real>)
    ensures |r| == |Scored(h, team)|
  {
    if h == [] then []
    else
      var m := h[|h| - 1];
      Conceded(h[..|h| - 1], team) + (if Involves(m, team) then [ConcededIn(m, team)] else [])
  }

  /** The indices of the matches `team` played, in log order. */
  function Positions(h: seq<Match>, team: string): seq<nat>
  {
    if h == [] then []
    else
      Positions(h[..|h| - 1], team) + (if Involves(h[|h| - 1], team) then [|h| - 1] else [])
  }

  /** Positions lists exactly the matches the team played, each once, in
      increasing order; so its length is the number of those matches. */
  lemma {:induction false} PositionsExact(h: seq<Match>, team: string)
    ensures forall k :: 0 <= k < |Positions(h, team)| ==>
              Positions(h, team)[k] < |h| && Involves(h[Positions(h, team)[k]], team)
    ensures forall k, l :: 0 <= k < l < |Positions(h, team)| ==>
              Positions(h, team)[k] < Positions(h, team)[l]
    ensures forall i :: 0 <= i < |h| && Involves(h[i], team) ==> i in Positions(h, team)
  {
    if h != [] {
      var p, n := h[..|h| - 1], |h| - 1;
      PositionsExact(p, team);
      var pp := Positions(p, team);
      assert Positions(h, team) == pp + (if Involves(h[n], team) then [n] else []);
      forall k | 0 <= k < |pp|
        ensures pp[k] < n && h[pp[k]] == p[pp[k]]
      {
      }
      forall i | 0 <= i < |h| && Involves(h[i], team)
        ensures i in Positions(h, team)
      {
        if i < n {
          assert p[i] == h[i];
        }
      }
    }
  }

  /** team_stats returns two lists as long as the number of matches the team
      played; entry k comes from the k-th such match: goals for and against
      from the side the team occupies (team_a first), times the weight. */
  lemma {:induction false} TeamStatsExact(h: seq<Match>, team: string)
    ensures forall k :: 0 <= k < |Positions(h, team)| ==>
              Positions(h, team)[k] < |h| && Involves(h[Positions(h, team)[k]], team)
    ensures forall k, l :: 0 <= k < l < |Positions(h, team)| ==>
              Positions(h, team)[k] < Positions(h, team)[l]
    ensures forall i :: 0 <= i < |h| && Involves(h[i], team) ==> i in Positions(h, team)
    ensures |Scored(h, team)| == |Positions(h, team)| == |Conceded(h, team)|
    ensures forall k :: 0 <= k < |Positions(h, team)| ==>
              Scored(h, team)[k] == ScoredIn(h[Positions(h, team)[k]], team) &&
              Conceded(h, team)[k] == ConcededIn(h[Positions(h, team)[k]], team)
  {
    PositionsExact(h, team);
    if h != [] {
      var p := h[..|h| - 1];
      TeamStatsExact(p, team);
      assert forall i :: 0 <= i < |p| ==> p[i] == h[i];
    }
  }

  /** A match the team did not play leaves its lists unchanged. */
  lemma {:induction false} UninvolvedAddsNothing(h: seq<Match>, m: Match, team: string)
    requires !Involves(m, team)
    ensures Scored(h + [m], team) == Scored(h, team)
    ensures Conceded(h + [m], team) == Conceded(h, team)
    ensures Positions(h + [m], team) == Positions(h, team)
  {
    assert (h + [m])[..|h|] == h;
  }

  /** With positive weights every entry of both lists is non-negative. */
  lemma {:induction false} StatsNonNegative(h: seq<Match>, team: string)
    requires PositiveWeights(h)
    ensures forall k :: 0 <= k < |Scored(h, team)| ==> Scored(h, team)[k] >= 0.0
    ensures forall k :: 0 <= k < |Conceded(h, team)| ==> Conceded(h, team)[k] >= 0.0
  {
    TeamStatsExact(h, team);
  }

  /** One step of the scan: the lists for h[..i+1] extend those for h[..i]. */
  lemma StatsStep(h: seq<Match>, i: nat, team: string)
    requires i < |h|
    ensures Scored(h[..i + 1], team) ==
      Scored(h[..i], team) + (if Involves(h[i], team) then [ScoredIn(h[i], team)] else [])
    ensures Conceded(h[..i + 1], team) ==
      Conceded(h[..i], team) + (if Involves(h[i], team) then [ConcededIn(h[i], team)] else [])
  {
    assert h[..i + 1][..i] == h[..i];
  }

  /** team_stats: one scan of the log, appending to both lists. */
  method TeamStats(h: seq<Match>, team: string) returns (scored: seq<real>, conceded: seq<real>)
    ensures |scored| == |conceded| == |Positions(h, team)|
    ensures scored == Scored(h, team) && conceded == Conceded(h, team)
  {
    scored, conceded := [], [];
    for i := 0 to |h|
      invariant scored == Scored(h[..i], team)
      invariant conceded == Conceded(h[..i], team)
    {
      var m := h[i];
      StatsStep(h, i, team);
      if m.teamA == team {
        assert ScoredIn(m, team) == m.ga as real * m.weight;
        assert ConcededIn(m, team) == m.gb as real * m.weight;
        scored := scored + [m.ga as real * m.weight];
        conceded := conceded + [m.gb as real * m.weight];
      } else if m.teamB == team {
        assert ScoredIn(m, team) == m.gb as real * m.weight;
        assert ConcededIn(m, team) == m.ga as real * m.weight;
        scored := scored + [m.gb as real * m.weight];
        conceded := conceded + [m.ga as real * m.weight];
      }
    }
    assert h[..|h|] == h;
    TeamStatsExact(h, team);
  }
}
