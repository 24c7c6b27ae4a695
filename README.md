# FC25 match-prediction engine, modelled in Dafny

This project models the prediction core of a small football-match predictor.
The predictor keeps a log of played matches. Each entry has two team names, the
goals of each side and a date. From that log it predicts a match between two teams:

- **Per-team statistics** (`team_stats`). Walk the log and collect, for every
  match a team took part in, the goals it scored and the goals it conceded. Each
  count is multiplied by the match's recency weight.
- **Prediction** (`predict`). If either team has fewer than five matches, report
  the data as insufficient, with confidence 0.25. Otherwise:
  - average the weighted goals over the match count;
  - derive the expected goals with Python's round-half-to-even, clamped at 0;
  - build a weighted scoreline distribution from the earlier head-to-head
    matches, or use a fixed five-entry fallback table built around the expected
    score when there are none;
  - keep the five heaviest scorelines;
  - compute a confidence clamped to [0.3, 0.9];
  - name the winner, or "Match nul" for a draw.

Modules, one per concern of `engine.py`:

| module | file | models |
|---|---|---|
| `Matches` | `matches.dfy` | a log entry; each match's recency weight is a field `weight`. Also the per-match scored/conceded value and `Sum` |
| `Stats` | `stats.dfy` | `team_stats`: the specification functions `Scored`, `Conceded` and `Positions`, and the loop `TeamStats` |
| `Counter` | `counter.dfy` | the part of Python's `collections.Counter` the engine uses, as an insertion-ordered association list (details below) |
| `Distribution` | `distribution.dfy` | the head-to-head loop (`ScoreDist`, `BuildScoreDist`) and the fallback table |
| `Engine` | `engine.dfy` | `predict`: the guard, averages, expected goals, confidence and winner; the method `PredictMatch`; the whole-prediction lemmas |

The Counter model provides:

- missing keys read as 0;
- `+=` keeps an existing key's position and appends a new key;
- a dict literal keeps the first position of a repeated key and its last value;
- `most_common(n)` is a stable sort by descending count followed by a take.

Each loop of the source is a `method` with loop invariants. It is proved equal
to a prefix-recursive specification function, and the properties are proved
as lemmas about that function.

## Model

| member | source | states |
|---|---|---|
| Stats.TeamStats | engine.py:53-66 | the loop returns exactly `Scored(h, team)` and `Conceded(h, team)`, with one entry per match the team took part in |
| Stats.Conceded | engine.py:53-66 | the scored and conceded lists always have the same length, which is what lets each be averaged over the same count |
| Stats.PositionsExact | engine.py:57-64 | the matches counted for a team are exactly the log entries that involve it, listed in log order |
| Stats.TeamStatsExact | engine.py:57-64 | entry k of each list is that team's goals (scored or conceded) in the k-th match it played, times the match's weight. When the team is `team_a`, its own goals are `ga`; otherwise they are `gb` |
| Stats.UninvolvedAddsNothing | engine.py:59-64 | a match the team did not play leaves its lists and its match count unchanged |
| Stats.StatsNonNegative | engine.py:60-64 | with positive weights, every weighted goal value is non-negative |
| Matches.SumNonNegative | engine.py:87-91 | a sum of non-negative values is non-negative |
| Matches.SumConstant | engine.py:87-91 | a sum of n copies of c is n·c |
| Counter.IncrementSpec | engine.py:104 | `score_dist[score] += w`: keys stay distinct; the key set gains `score`; only that key's count grows, by w; an existing key keeps its place and a new one goes last; the total grows by w |
| Counter.PutNew | engine.py:104 | a key not yet present is appended with its value |
| Counter.PutGet | engine.py:104 | after a store, the stored key reads the new value and every other key reads as before |
| Counter.GetMissing | engine.py:98-104 | a key that is absent reads as 0 |
| Counter.FromLiteralSpec | engine.py:108-114 | the literal's keys are distinct and match the listed keys; with distinct keys the counter is the literal itself, in order |
| Counter.SortDescSpec | engine.py:116 | the sort is a permutation, is in descending weight order, and keeps equal-weight entries in their original order |
| Counter.MostCommonSpec | engine.py:116 | `most_common(5)` returns min(5, size) entries. They come from the counter, weights descending, and ties stay in their original order |
| Counter.MostCommonHeaviest | engine.py:116 | no entry that was left out weighs more than any entry that was kept |
| Distribution.OrientedToRequest | engine.py:101-103 | a head-to-head match gives its score from the requested first team's side |
| Distribution.ScoreDistExact | engine.py:98-104 | each scoreline's count equals the total weight of the head-to-head matches with that oriented score. A scoreline is present only if it occurred. The total is the whole head-to-head weight |
| Distribution.ScoreDistEmpty | engine.py:106 | the distribution is empty if and only if the two teams never met |
| Distribution.ScoreDistOrder | engine.py:98-104 | scorelines appear in the order of their first occurrence in the log |
| Distribution.ScoreDistPositive | engine.py:98-104 | with positive weights, every count is positive |
| Distribution.BuildScoreDist | engine.py:98-104 | the loop returns exactly `ScoreDist(h, a, b)` |
| Distribution.Max0 | engine.py:94-95 | `max(0, x)` is at least x, and it is either x or 0 |
| Distribution.FallbackNonZero | engine.py:106-116 | when the expected score is not 0-0, the fallback is the five-entry table with weights 1.0, 0.6, 0.6, 0.4 and 0.3, and `most_common(5)` returns it unchanged |
| Distribution.FallbackZero | engine.py:106-116 | for an expected 0-0, the `max(0, …-1)` key repeats 0-0. The table then has four entries with 0-0 at weight 0.3, and `most_common(5)` puts 0-0 last |
| Distribution.SortDescIdentity | engine.py:116 | an already descending counter sorts to itself |
| Engine.RoundHalfEven | engine.py:94-95 | `round` lands within 0.5 of its argument, and on an exact half it picks the even integer |
| Engine.RoundUnique | engine.py:94-95 | those two properties fix the rounded value uniquely |
| Engine.ExpectedGoals | engine.py:94-95 | the expected goals are a natural number, within 0.5 of the mean of attack and defence whenever that mean is at least -0.5 (0 otherwise) |
| Engine.Variance | engine.py:119 | the variance term is non-negative |
| Engine.Confidence | engine.py:120-121 | the confidence always lies in [0.3, 0.9] |
| Engine.ConfidenceMonotone | engine.py:119-121 | more samples and a smaller variance never lower the confidence |
| Engine.PredictMatch | engine.py:71-136 | the imperative prediction, which runs both stats loops and the distribution loop, equals `Predict(h, a, b)` |
| Engine.PredictGuard | engine.py:77-85 | the result is "Données insuffisantes" with confidence 0.25 if and only if either team has fewer than 5 matches |
| Engine.PredictForecast | engine.py:87-136 | in a forecast, the samples equal the smaller match count (at least 5), the expected goals are non-negative, and the confidence is in [0.3, 0.9]. The winner is the first team, the second team or "Match nul" as the expected goals compare. The top scores number at most 5 in descending order: `most_common(5)` of the head-to-head distribution when one exists, of the fallback otherwise |
| Engine.PredictTopFromHistory | engine.py:98-116 | with head-to-head history, every listed score really occurred and carries its full accumulated weight, and no left-out score weighs more |
| Engine.PredictSymmetric | engine.py:74-127 | swapping the two teams keeps the guard, the samples, the confidence and the winning team, and swaps the expected goals |
| Engine.MeanNonNegative | engine.py:87-91 | the average of non-negative weighted goals is non-negative |
| Engine.ExpectedGoalsUnclamped | engine.py:94-95 | for non-negative attack and defence rates, `max(0, round(…))` is just `round` of their mean |
| Engine.PredictExpected | engine.py:87-95 | a forecast's expected goals come from the first team's scoring average with the second team's conceding average, and the other way round |
| Engine.PredictNonNegativeRates | engine.py:87-95 | with positive recency weights the four averages of a forecast are non-negative, so each expected goal count is exactly `round` of the mean of attack and opposing defence, the `max(0, …)` clamp never acting |
| Engine.EmptyLogUnstable | engine.py:72-85 | an empty log always gives insufficient data |
| Engine.FixtureStats | engine.py:53-66 | for k identical 2-1 matches of weight w, the stats lists are the constant lists 2w and w for each side |
| Engine.FixtureDist | engine.py:98-104 | k identical 2-1 matches give the single scoreline 2-1 with weight k·w |
| Engine.MeanConstant | engine.py:87-91 | the average of a constant list is that constant |
| Engine.ExpectedGoalsExamples | engine.py:94-95 | `round` of 2.0, 1.0 and 0.5 gives 2, 1 and 0; the last is half-to-even |
| Engine.FixturePrediction | engine.py:71-136 | for k ≥ 5 identical 2-1 matches of any weight w, the prediction is a forecast with samples k and top scores [2-1: k·w]. Its expected goals are 2w and w, each rounded half to even |
| Engine.FixtureRecent | engine.py:71-136 | k ≥ 5 recent 2-1 wins of the first team (weight 1.0) predict it wins, with expected score 2-1 |
| Engine.FixtureHalfWeight | engine.py:71-136 | with the weight 0.5 used for an unparseable date, the same log predicts 1-0 |
| Engine.FixtureConfidence | engine.py:119-121 | six such matches give confidence 0.5 at weight 1.0 and 0.6 at weight 0.5 |

Notes on the averages and the guard, following the code:

- The averages divide the weighted sum by the *number* of matches, not by the
  total weight (engine.py:87-91). Older, low-weight matches therefore pull the
  averages towards 0, and `FixtureHalfWeight` shows the resulting 1-0
  prediction.
- The insufficient-data guard uses the smaller of the two per-team match
  counts (engine.py:77-80), not a combined or head-to-head count.
- With an expected score of 0-0, the fallback literal's last key is again
  0-0, so the dictionary literal overwrites 1.0 with 0.3. The result then
  lists 0-0 last (`FallbackZero`).

## Left out

- `load_matches` and `save_match` (engine.py:12-37): CSV file I/O. The model takes the log as a sequence of `Match` values; appending a match is sequence concatenation (see `Stats.UninvolvedAddsNothing`).
- `recency_weight` (engine.py:42-48): it reads the clock and evaluates `exp` on floats. Each match carries its weight as a real number, fixed for the whole prediction. In the source the clock is read anew for each use, so the two loops could see slightly different weights. Positivity is a separate predicate `PositiveWeights`, required only where a sign matters. The 0.5 fallback for an unparseable date appears as a possible weight.
- Floating point: all arithmetic is on exact reals, so float rounding in sums and divisions is not modelled.
- Engine.Confidence: states the confidence before the final `round(confidence, 2)` of engine.py:134. The forecast's `confidence` field is that unrounded value.
- Scoreline keys: the source formats them as strings `"ga-gb"` from the raw goal fields, while `team_stats` reads the same fields with `int()`. The model uses integer pairs and assumes every goal field is the plain decimal of its value, as `save_match` writes it. Fields such as "02", which the source keys separately from "2", are merged here.
- Goal counts are natural numbers. `int(m["ga"])` of a malformed or negative CSV field is not modelled.
- Dictionary result shape: the source returns a dict. The model returns the `Prediction` datatype with one constructor per shape.
