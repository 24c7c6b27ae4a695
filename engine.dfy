/** The prediction for one pairing: the insufficient-data guard, expected
    goals, winner, the five most likely scorelines and a confidence value. */
module Engine {
  import opened Matches
  import opened Stats
  import opened Counter
  import opened Distribution

  /** Fewer matches than this for either team make the prediction unstable. */
  const MinSamples: nat := 5
  /** Number of scorelines reported. */
  const TopCount: nat := 5
  /** The winner label of a draw. */
  const Draw: string := "Match nul"
  /** The reason given for an unstable prediction. */
  const InsufficientData: string := "Données insuffisantes"

  /** The result of predict: either the short-circuit for too little data, or
      a full forecast. The confidence is kept before its 2-decimal rounding. */
  datatype Prediction =
    | Unstable(reason: string, confidence: real)
    | Forecast(winner: string, expectedGoals: (int, int), topScores: seq<Bucket>,
               confidence: real, samples: nat)

  /** Python's round: the nearest integer, a tie going to the even one. */
  function RoundHalfEven(x: real): (r: int)
    ensures x - 0.5 <= r as real <= x + 0.5
    ensures (r as real == x - 0.5 || r as real == x + 0.5) ==> r % 2 == 0
  {
    var f := x.Floor;
    var frac := x - f as real;
    if frac < 0.5 then f
    else if frac > 0.5 then f + 1
    else if f % 2 == 0 then f else f + 1
  }

  /** The two properties of RoundHalfEven determine it: no other integer has them. */
  lemma RoundUnique(x: real, r: int)
    requires x - 0.5 <= r as real <= x + 0.5
    requires (r as real == x - 0.5 || r as real == x + 0.5) ==> r % 2 == 0
    ensures r == RoundHalfEven(x)
  {
  }

  /** sum(s) / len(s): the weighted sum over the number of matches. */
  function Mean(s: seq<real>): real
    requires |s| > 0
  {
    Sum(s) / |s| as real
  }

  function Abs(x: real): real
  {
    if x < 0.0 then -x else x
  }

  /** max(0, round((attack + defence) / 2)): a goal count that is never
      negative and, for non-negative rates, the nearest integer to the mean. */
  function ExpectedGoals(attack: real, defence: real): (g: nat)
    ensures attack + defence >= -1.0 ==>
              (attack + defence) / 2.0 - 0.5 <= g as real <= (attack + defence) / 2.0 + 0.5
    ensures attack + defence < -1.0 ==> g == 0
  {
    Max0(RoundHalfEven((attack + defence) / 2.0))
  }

  /** The mismatch between the two teams' scoring and conceding rates. */
  function Variance(avgA: real, avgB: real, avgCA: real, avgCB: real): (v: real)
    ensures v >= 0.0
  {
    Abs(avgA - avgB) + Abs(avgCA - avgCB)
  }

  /** 0.4 + n/20 - variance/10, clamped into [0.3, 0.9]. */
  function Confidence(n: nat, variance: real): (c: real)
    ensures 0.3 <= c <= 0.9
  {
    var raw := 0.4 + n as real / 20.0 - variance / 10.0;
    var capped := if raw < 0.9 then raw else 0.9;
    if capped > 0.3 then capped else 0.3
  }

  /** Confidence never falls when the sample grows or the mismatch shrinks. */
  lemma ConfidenceMonotone(n1: nat, n2: nat, v1: real, v2: real)
    requires n1 <= n2 && v2 <= v1
    ensures Confidence(n1, v1) <= Confidence(n2, v2)
  {
    assert n1 as real / 20.0 <= n2 as real / 20.0;
  }

  /** The first team if it is expected to score more, the second if it is,
      otherwise the draw label. */
  function WinnerName(a: string, b: string, ea: int, eb: int): string
  {
    if ea > eb then a else if eb > ea then b else Draw
  }

  /** The smaller of two counts. */
  function Min(x: nat, y: nat): nat
  {
    if x < y then x else y
  }

  /** predict(team_a, team_b) over the log h. */
  function Predict(h: seq<Match>, a: string, b: string): Prediction
  {
    var sa, ca := Scored(h, a), Conceded(h, a);
    var sb, cb := Scored(h, b), Conceded(h, b);
    var n := Min(|sa|, |sb|);
    if n < MinSamples then Unstable(InsufficientData, 0.25)
    else
      var avgA, avgB, avgCA, avgCB := Mean(sa), Mean(sb), Mean(ca), Mean(cb);
      var ea := ExpectedGoals(avgA, avgCB);
      var eb := ExpectedGoals(avgB, avgCA);
      var d := ScoreDist(h, a, b);
      var dist := if d == [] then Fallback(ea, eb) else d;
      Forecast(WinnerName(a, b, ea, eb), (ea, eb), MostCommon(dist, TopCount),
               Confidence(n, Variance(avgA, avgB, avgCA, avgCB)), n)
  }

  /** predict as the engine runs it: two scans for the team lists, one for
      the head-to-head counter, then the straight-line computation. */
  method PredictMatch(h: seq<Match>, a: string, b: string) returns (p: Prediction)
    ensures p == Predict(h, a, b)
  {
    var sa, ca := TeamStats(h, a);
    var sb, cb := TeamStats(h, b);
    var n := Min(|sa|, |sb|);
    if n < MinSamples {
      return Unstable(InsufficientData, 0.25);
    }
    var avgA, avgB := Mean(sa), Mean(sb);
    var avgCA, avgCB := Mean(ca), Mean(cb);
    var ea := ExpectedGoals(avgA, avgCB);
    var eb := ExpectedGoals(avgB, avgCA);
    var dist := BuildScoreDist(h, a, b);
    if dist == [] {
      dist := Fallback(ea, eb);
    }
    var top := MostCommon(dist, TopCount);
    var confidence := Confidence(n, Variance(avgA, avgB, avgCA, avgCB));
    var winner := WinnerName(a, b, ea, eb);
    p := Forecast(winner, (ea, eb), top, confidence, n);
  }

  /** The guard: the prediction is unstable, with confidence 0.25 and nothing
      else, exactly when one of the teams played fewer than five matches. */
  lemma PredictGuard(h: seq<Match>, a: string, b: string)
    ensures Predict(h, a, b).Unstable? <==> |Positions(h, a)| < 5 || |Positions(h, b)| < 5
    ensures Predict(h, a, b).Unstable? ==> Predict(h, a, b) == Unstable(InsufficientData, 0.25)
  {
    TeamStatsExact(h, a);
    TeamStatsExact(h, b);
  }

  /** A full forecast rests on at least five matches per team, has
      non-negative expected goals, names the winner by comparing them, keeps
      the confidence in [0.3, 0.9], and reports at most five scorelines by
      descending weight, taken from the head-to-head counter when the teams
      have met and from the fallback table otherwise. */
  lemma PredictForecast(h: seq<Match>, a: string, b: string)
    requires Predict(h, a, b).Forecast?
    ensures var p := Predict(h, a, b);
      && p.samples == Min(|Positions(h, a)|, |Positions(h, b)|) && p.samples >= 5
      && p.expectedGoals.0 >= 0 && p.expectedGoals.1 >= 0
      && (p.expectedGoals.0 > p.expectedGoals.1 ==> p.winner == a)
      && (p.expectedGoals.1 > p.expectedGoals.0 ==> p.winner == b)
      && (p.expectedGoals.0 == p.expectedGoals.1 ==> p.winner == Draw)
      && 0.3 <= p.confidence <= 0.9
      && |p.topScores| <= 5 && Descending(p.topScores)
      && (HasHeadToHead(h, a, b) ==> p.topScores == MostCommon(ScoreDist(h, a, b), 5))
      && (!HasHeadToHead(h, a, b) ==>
            p.topScores == MostCommon(Fallback(p.expectedGoals.0, p.expectedGoals.1), 5))
  {
    TeamStatsExact(h, a);
    TeamStatsExact(h, b);
    ScoreDistEmpty(h, a, b);
    var p := Predict(h, a, b);
    if HasHeadToHead(h, a, b) {
      MostCommonSpec(ScoreDist(h, a, b), 5);
    } else {
      MostCommonSpec(Fallback(p.expectedGoals.0, p.expectedGoals.1), 5);
    }
  }

  /** With head-to-head history every reported scoreline was actually played
      (oriented to the request) and carries the total weight of the matches
      that ended so; the scorelines left out weigh no more than those kept. */
  lemma PredictTopFromHistory(h: seq<Match>, a: string, b: string)
    requires Predict(h, a, b).Forecast? && HasHeadToHead(h, a, b)
    ensures var top := Predict(h, a, b).topScores;
      forall j :: 0 <= j < |top| ==>
        Occurs(h, a, b, top[j].score) && top[j].weight == ScoreWeight(h, a, b, top[j].score)
    ensures var top := Predict(h, a, b).topScores; var d := ScoreDist(h, a, b);
      forall i :: 0 <= i < |d| && d[i] !in top ==> forall j :: 0 <= j < |top| ==> d[i].weight <= top[j].weight
  {
    ScoreDistEmpty(h, a, b);
    ScoreDistExact(h, a, b);
    var d := ScoreDist(h, a, b);
    var top := Predict(h, a, b).topScores;
    assert top == MostCommon(d, 5);
    MostCommonSpec(d, 5);
    MostCommonHeaviest(d, 5);
    KeysExact(d);
    forall j | 0 <= j < |top|
      ensures Occurs(h, a, b, top[j].score) && top[j].weight == ScoreWeight(h, a, b, top[j].score)
    {
      assert top[j] in multiset(d);
      var i :| 0 <= i < |d| && d[i] == top[j];
      GetAt(d, i);
    }
  }

  /** Swapping the two team labels swaps the expected goals and keeps the
      guard, the sample count, the confidence and the winner. */
  lemma PredictSymmetric(h: seq<Match>, a: string, b: string)
    ensures Predict(h, a, b).Unstable? == Predict(h, b, a).Unstable?
    ensures Predict(h, a, b).Forecast? ==>
      && Predict(h, b, a).expectedGoals == (Predict(h, a, b).expectedGoals.1, Predict(h, a, b).expectedGoals.0)
      && Predict(h, b, a).samples == Predict(h, a, b).samples
      && Predict(h, b, a).confidence == Predict(h, a, b).confidence
      && Predict(h, b, a).winner == Predict(h, a, b).winner
  {
    if Predict(h, a, b).Forecast? {
      var avgA, avgB := Mean(Scored(h, a)), Mean(Scored(h, b));
      var avgCA, avgCB := Mean(Conceded(h, a)), Mean(Conceded(h, b));
      assert Variance(avgA, avgB, avgCA, avgCB) == Variance(avgB, avgA, avgCB, avgCA);
    }
  }

  /** The mean of non-negative values is non-negative. */
  lemma MeanNonNegative(s: seq<real>)
    requires |s| > 0 && forall i :: 0 <= i < |s| ==> s[i] >= 0.0
    ensures Mean(s) >= 0.0
  {
    SumNonNegative(s);
  }

  /** For non-negative rates the clamp of the expected goals never acts. */
  lemma ExpectedGoalsUnclamped(attack: real, defence: real)
    requires attack >= 0.0 && defence >= 0.0
    ensures ExpectedGoals(attack, defence) == RoundHalfEven((attack + defence) / 2.0)
  {
  }

  /** A forecast's expected goals are those of the four averages. */
  lemma PredictExpected(h: seq<Match>, a: string, b: string)
    requires Predict(h, a, b).Forecast?
    ensures |Scored(h, a)| > 0 && |Scored(h, b)| > 0
    ensures Predict(h, a, b).expectedGoals
              == (ExpectedGoals(Mean(Scored(h, a)), Mean(Conceded(h, b))),
                  ExpectedGoals(Mean(Scored(h, b)), Mean(Conceded(h, a))))
  {
  }

  /** With positive recency weights all four averages of a forecast are
      non-negative, so the max(0, ...) clamp never changes the rounded
      expected goals. */
  lemma PredictNonNegativeRates(h: seq<Match>, a: string, b: string)
    requires PositiveWeights(h) && Predict(h, a, b).Forecast?
    ensures |Scored(h, a)| > 0 && |Scored(h, b)| > 0
    ensures |Conceded(h, a)| > 0 && |Conceded(h, b)| > 0
    ensures Mean(Scored(h, a)) >= 0.0 && Mean(Scored(h, b)) >= 0.0
    ensures Mean(Conceded(h, a)) >= 0.0 && Mean(Conceded(h, b)) >= 0.0
    ensures Predict(h, a, b).expectedGoals.0
              == RoundHalfEven((Mean(Scored(h, a)) + Mean(Conceded(h, b))) / 2.0)
    ensures Predict(h, a, b).expectedGoals.1
              == RoundHalfEven((Mean(Scored(h, b)) + Mean(Conceded(h, a))) / 2.0)
  {
    var sa, ca := Scored(h, a), Conceded(h, a);
    var sb, cb := Scored(h, b), Conceded(h, b);
    assert Min(|sa|, |sb|) >= MinSamples;
    StatsNonNegative(h, a);
    StatsNonNegative(h, b);
    MeanNonNegative(sa);
    MeanNonNegative(sb);
    MeanNonNegative(ca);
    MeanNonNegative(cb);
    PredictExpected(h, a, b);
    ExpectedGoalsUnclamped(Mean(sa), Mean(cb));
    ExpectedGoalsUnclamped(Mean(sb), Mean(ca));
  }

  /** An empty log gives the insufficient-data answer. */
  lemma EmptyLogUnstable(a: string, b: string)
    ensures Predict([], a, b) == Unstable(InsufficientData, 0.25)
  {
  }

  /** k copies of "Porto 2-1 Milano", every one of weight w. */
  function Fixture(k: nat, w: real): seq<Match>
  {
    seq(k, _ => Match("Porto", "Milano", 2, 1, w))
  }

  /** "Porto" and "Milano" are different team names. */
  lemma FixtureTeamsDiffer()
    ensures "Porto" != "Milano"
  {
    assert "Porto"[0] != "Milano"[0];
  }

  /** In the fixture Porto scores 2w and concedes w per match, Milano the mirror. */
  lemma {:induction false} FixtureStats(k: nat, w: real)
    ensures Scored(Fixture(k, w), "Porto") == seq(k, _ => 2.0 * w)
    ensures Conceded(Fixture(k, w), "Porto") == seq(k, _ => w)
    ensures Scored(Fixture(k, w), "Milano") == seq(k, _ => w)
    ensures Conceded(Fixture(k, w), "Milano") == seq(k, _ => 2.0 * w)
  {
    if k > 0 {
      FixtureTeamsDiffer();
      var h := Fixture(k, w);
      assert h[..k - 1] == Fixture(k - 1, w);
      assert h[..k] == h;
      FixtureStats(k - 1, w);
      var m := h[k - 1];
      assert m == Match("Porto", "Milano", 2, 1, w);
      assert ScoredIn(m, "Porto") == 2.0 * w && ConcededIn(m, "Porto") == w;
      assert ScoredIn(m, "Milano") == w && ConcededIn(m, "Milano") == 2.0 * w;
      StatsStep(h, k - 1, "Porto");
      StatsStep(h, k - 1, "Milano");
      assert seq(k, _ => 2.0 * w) == seq(k - 1, _ => 2.0 * w) + [2.0 * w];
      assert seq(k, _ => w) == seq(k - 1, _ => w) + [w];
    }
  }

  /** In the fixture the counter holds the one scoreline 2-1 with weight k*w. */
  lemma {:induction false} FixtureDist(k: nat, w: real)
    requires k > 0
    ensures ScoreDist(Fixture(k, w), "Porto", "Milano") == [Bucket((2, 1), k as real * w)]
  {
    var h := Fixture(k, w);
    var j: nat := k - 1;
    var m := h[j];
    assert m == Match("Porto", "Milano", 2, 1, w);
    assert HeadToHead(m, "Porto", "Milano") && Oriented(m, "Porto") == (2, 1);
    var d0 := ScoreDist(h[..j], "Porto", "Milano");
    assert ScoreDist(h, "Porto", "Milano") == Increment(d0, (2, 1), w);
    if j == 0 {
      assert d0 == [];
    } else {
      assert h[..j] == Fixture(j, w);
      FixtureDist(j, w);
      assert d0 == [Bucket((2, 1), j as real * w)];
      assert Get(d0, (2, 1)) == j as real * w;
      assert Increment(d0, (2, 1), w) == [Bucket((2, 1), j as real * w + w)];
      var acc := j as real * w + w;
      assert acc == k as real * w by {
        assert k as real == j as real + 1.0;
        assert (j as real + 1.0) * w == j as real * w + 1.0 * w;
      }
      assert [Bucket((2, 1), acc)] == [Bucket((2, 1), k as real * w)];
    }
  }

  /** The mean of a non-empty list of equal values is that value. */
  lemma MeanConstant(s: seq<real>, c: real)
    requires |s| > 0
    requires forall i :: 0 <= i < |s| ==> s[i] == c
    ensures Mean(s) == c
  {
    SumConstant(s, c);
    var n := |s| as real;
    assert Sum(s) == n * c;
    assert (n * c) / n == c;
  }

  /** The fixture gives a forecast whose expected goals come from the
      per-match mean of the weighted goals, and whose single scoreline is 2-1. */
  lemma FixturePrediction(k: nat, w: real)
    requires k >= 5
    ensures FixtureForecast(Predict(Fixture(k, w), "Porto", "Milano"), k, w)
  {
    var h := Fixture(k, w);
    FixtureStats(k, w);
    FixtureDist(k, w);
    var c2, c1 := seq(k, _ => 2.0 * w), seq(k, _ => w);
    MeanConstant(c2, 2.0 * w);
    MeanConstant(c1, w);
    var b := Bucket((2, 1), k as real * w);
    assert MostCommon([b], TopCount) == [b] by {
      assert SortDesc([b]) == Insert(b, SortDesc([]));
    }
    assert Min(|Scored(h, "Porto")|, |Scored(h, "Milano")|) == k;
    var ea, eb := ExpectedGoals(2.0 * w, 2.0 * w), ExpectedGoals(w, w);
    assert Predict(h, "Porto", "Milano") ==
      Forecast(WinnerName("Porto", "Milano", ea, eb), (ea, eb), [b],
               Confidence(k, Variance(2.0 * w, w, w, 2.0 * w)), k);
  }

  /** A forecast for the fixture at weight w, described by fields. */
  predicate FixtureForecast(p: Prediction, k: nat, w: real)
  {
    && p.Forecast?
    && p.expectedGoals == (ExpectedGoals(2.0 * w, 2.0 * w), ExpectedGoals(w, w))
    && p.winner == WinnerName("Porto", "Milano", p.expectedGoals.0, p.expectedGoals.1)
    && p.topScores == [Bucket((2, 1), k as real * w)]
    && p.confidence == Confidence(k, Variance(2.0 * w, w, w, 2.0 * w))
    && p.samples == k
  }

  /** round(2.0) = 2, round(1.0) = 1, and round(0.5) = 0 (half to even). */
  lemma ExpectedGoalsExamples()
    ensures ExpectedGoals(2.0, 2.0) == 2
    ensures ExpectedGoals(1.0, 1.0) == 1
    ensures ExpectedGoals(0.5, 0.5) == 0
  {
    RoundUnique(2.0, 2);
    RoundUnique(1.0, 1);
    RoundUnique(0.5, 0);
  }

  /** At weight 1.0 the fixture forecast is 2-1 for Porto. */
  lemma FixtureForecastRecent(p: Prediction, k: nat)
    requires FixtureForecast(p, k, 1.0)
    ensures p == Forecast("Porto", (2, 1), [Bucket((2, 1), k as real)], Confidence(k, 2.0), k)
  {
    ExpectedGoalsExamples();
    assert 2.0 * 1.0 == 2.0;
    assert p.expectedGoals == (2, 1);
    assert Variance(2.0, 1.0, 1.0, 2.0) == 2.0;
    assert k as real * 1.0 == k as real;
  }

  /** At weight 0.5 the fixture forecast is 1-0 for Porto. */
  lemma FixtureForecastHalf(p: Prediction, k: nat)
    requires FixtureForecast(p, k, 0.5)
    ensures p == Forecast("Porto", (1, 0), [Bucket((2, 1), k as real * 0.5)], Confidence(k, 1.0), k)
  {
    ExpectedGoalsExamples();
    assert 2.0 * 0.5 == 1.0;
    assert p.expectedGoals == (1, 0);
    assert Variance(1.0, 0.5, 0.5, 1.0) == 1.0;
  }

  /** k >= 5 matches all recorded today (weight 1.0): expected 2-1, Porto
      wins, 2-1 is the only scoreline, with weight k. */
  lemma FixtureRecent(k: nat)
    requires k >= 5
    ensures Predict(Fixture(k, 1.0), "Porto", "Milano") ==
      Forecast("Porto", (2, 1), [Bucket((2, 1), k as real)], Confidence(k, 2.0), k)
  {
    FixturePrediction(k, 1.0);
    FixtureForecastRecent(Predict(Fixture(k, 1.0), "Porto", "Milano"), k);
  }

  /** The same k matches with weight 0.5 each (about 21 days old, or with an
      unreadable date): the per-match means are halved, so the expected
      score drops to 1-0 although every match ended 2-1. */
  lemma FixtureHalfWeight(k: nat)
    requires k >= 5
    ensures Predict(Fixture(k, 0.5), "Porto", "Milano") ==
      Forecast("Porto", (1, 0), [Bucket((2, 1), k as real * 0.5)], Confidence(k, 1.0), k)
  {
    FixturePrediction(k, 0.5);
    FixtureForecastHalf(Predict(Fixture(k, 0.5), "Porto", "Milano"), k);
  }

  /** Six matches give confidence 0.5 at weight 1.0 and 0.6 at weight 0.5. */
  lemma FixtureConfidence()
    ensures Confidence(6, 2.0) == 0.5 && Confidence(6, 1.0) == 0.6
  {
  }
}
