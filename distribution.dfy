/** The scoreline distribution of one pairing: weights accumulated from the
    direct head-to-head history, or a fixed table around the expected score
    when the two teams have never met. */
module Distribution {
  import opened Matches
  import opened Counter

  /** m was played between exactly the requested teams, in either order
      (the two team sets are equal). */
  predicate HeadToHead(m: Match, a: string, b: string)
  {
    {m.teamA, m.teamB} == {a, b}
  }

  /** The scoreline of m seen from `a`: swapped when the record lists `a` second. */
  function Oriented(m: Match, a: string): Scoreline
  {
    if m.teamA == a then (m.ga, m.gb) else (m.gb, m.ga)
  }

  /** Some match of the log is a head-to-head of the pairing. */
  predicate HasHeadToHead(h: seq<Match>, a: string, b: string)
  {
    exists i :: 0 <= i < |h| && HeadToHead(h[i], a, b)
  }

  /** The counter after the scan of h: each head-to-head match adds its
      weight under its oriented scoreline. */
  function ScoreDist(h: seq<Match>, a: string, b: string): seq<Bucket>
  {
    if h == [] then []
    else
      var m := h[|h| - 1];
      var d := ScoreDist(h[..|h| - 1], a, b);
      if HeadToHead(m, a, b) then Increment(d, Oriented(m, a), m.weight) else d
  }

  /** Reference: total weight of the head-to-head matches ending k. */
  function ScoreWeight(h: seq<Match>, a: string, b: string, k: Scoreline): real
  {
    if h == [] then 0.0
    else
      var m := h[|h| - 1];
      ScoreWeight(h[..|h| - 1], a, b, k) + (if HeadToHead(m, a, b) && Oriented(m, a) == k then m.weight else 0.0)
  }

  /** Reference: total weight of all head-to-head matches. */
  function HeadToHeadWeight(h: seq<Match>, a: string, b: string): real
  {
    if h == [] then 0.0
    else
      var m := h[|h| - 1];
      HeadToHeadWeight(h[..|h| - 1], a, b) + (if HeadToHead(m, a, b) then m.weight else 0.0)
  }

  /** The oriented scoreline puts the requested first team's goals first:
      a record that lists the teams the other way round is swapped. */
  lemma OrientedToRequest(m: Match, a: string, b: string)
    requires HeadToHead(m, a, b)
    ensures m.teamA == a ==> m.teamB == b && Oriented(m, a) == (m.ga, m.gb)
    ensures m.teamA != a ==> m.teamA == b && m.teamB == a && Oriented(m, a) == (m.gb, m.ga)
  {
    assert m.teamA in {a, b} && m.teamB in {a, b};
    assert a in {m.teamA, m.teamB} && b in {m.teamA, m.teamB};
  }

  /** The buckets have distinct keys, each key's weight is the total weight
      of the head-to-head matches with that oriented scoreline, the keys are
      exactly those scorelines, and the buckets add up to the total
      head-to-head weight. */
  lemma {:induction false} ScoreDistExact(h: seq<Match>, a: string, b: string)
    ensures DistinctKeys(ScoreDist(h, a, b))
    ensures forall k :: Get(ScoreDist(h, a, b), k) == ScoreWeight(h, a, b, k)
    ensures forall k :: k in Keys(ScoreDist(h, a, b)) <==> Occurs(h, a, b, k)
    ensures TotalWeight(ScoreDist(h, a, b)) == HeadToHeadWeight(h, a, b)
  {
    if h != [] {
      var p, m := h[..|h| - 1], h[|h| - 1];
      ScoreDistExact(p, a, b);
      var d := ScoreDist(p, a, b);
      assert forall i :: 0 <= i < |p| ==> p[i] == h[i];
      if HeadToHead(m, a, b) {
        IncrementSpec(d, Oriented(m, a), m.weight);
      }
      forall k ensures k in Keys(ScoreDist(h, a, b)) <==> Occurs(h, a, b, k)
      {
        if k in Keys(ScoreDist(h, a, b)) && !(HeadToHead(m, a, b) && Oriented(m, a) == k) {
          var i :| 0 <= i < |p| && HeadToHead(p[i], a, b) && Oriented(p[i], a) == k;
          assert h[i] == p[i];
        }
      }
    }
  }

  /** The counter is empty exactly when the pairing has no head-to-head match. */
  lemma ScoreDistEmpty(h: seq<Match>, a: string, b: string)
    ensures ScoreDist(h, a, b) == [] <==> !HasHeadToHead(h, a, b)
  {
    ScoreDistExact(h, a, b);
    var d := ScoreDist(h, a, b);
    if d != [] {
      KeysExact(d);
      assert d[0].score in Keys(d);
    }
    if HasHeadToHead(h, a, b) {
      var i :| 0 <= i < |h| && HeadToHead(h[i], a, b);
      assert Occurs(h, a, b, Oriented(h[i], a));
    }
  }

  /** Some head-to-head match of h has oriented scoreline k. */
  predicate Occurs(h: seq<Match>, a: string, b: string, k: Scoreline)
  {
    exists i :: 0 <= i < |h| && HeadToHead(h[i], a, b) && Oriented(h[i], a) == k
  }

  /** Every head-to-head match with scoreline k2 comes after some
      head-to-head match with scoreline k1: k1 was met first. */
  predicate SeenBefore(h: seq<Match>, a: string, b: string, k1: Scoreline, k2: Scoreline)
  {
    forall q :: 0 <= q < |h| && HeadToHead(h[q], a, b) && Oriented(h[q], a) == k2 ==>
      exists p :: 0 <= p < q && HeadToHead(h[p], a, b) && Oriented(h[p], a) == k1
  }

  /** SeenBefore survives one more match unless that match is the first one with k2. */
  lemma SeenBeforeExtend(h: seq<Match>, a: string, b: string, k1: Scoreline, k2: Scoreline)
    requires h != []
    requires SeenBefore(h[..|h| - 1], a, b, k1, k2)
    requires HeadToHead(h[|h| - 1], a, b) && Oriented(h[|h| - 1], a) == k2 ==> Occurs(h[..|h| - 1], a, b, k2)
    ensures SeenBefore(h, a, b, k1, k2)
  {
    var p, n := h[..|h| - 1], |h| - 1;
    forall q | 0 <= q < |h| && HeadToHead(h[q], a, b) && Oriented(h[q], a) == k2
      ensures exists p' :: 0 <= p' < q && HeadToHead(h[p'], a, b) && Oriented(h[p'], a) == k1
    {
      var q' := q;
      if q == n {
        q' :| 0 <= q' < |p| && HeadToHead(p[q'], a, b) && Oriented(p[q'], a) == k2;
      }
      assert p[q'] == h[q'];
      var p' :| 0 <= p' < q' && HeadToHead(p[p'], a, b) && Oriented(p[p'], a) == k1;
      assert p[p'] == h[p'];
    }
  }

  /** A scoreline met for the first time in the last match comes after every
      scoreline already met. */
  lemma SeenBeforeNew(h: seq<Match>, a: string, b: string, k1: Scoreline)
    requires h != []
    requires Occurs(h[..|h| - 1], a, b, k1)
    requires !Occurs(h[..|h| - 1], a, b, Oriented(h[|h| - 1], a))
    ensures SeenBefore(h, a, b, k1, Oriented(h[|h| - 1], a))
  {
    var p, n, k2 := h[..|h| - 1], |h| - 1, Oriented(h[|h| - 1], a);
    var p' :| 0 <= p' < |p| && HeadToHead(p[p'], a, b) && Oriented(p[p'], a) == k1;
    assert p[p'] == h[p'];
    forall q | 0 <= q < n ensures !(HeadToHead(h[q], a, b) && Oriented(h[q], a) == k2) {
      assert p[q] == h[q];
    }
  }

  /** Buckets appear in order of first encounter: for any two buckets, the
      earlier one's scoreline was met first in the log. */
  lemma {:induction false} ScoreDistOrder(h: seq<Match>, a: string, b: string)
    ensures forall i, j :: 0 <= i < j < |ScoreDist(h, a, b)| ==>
              SeenBefore(h, a, b, ScoreDist(h, a, b)[i].score, ScoreDist(h, a, b)[j].score)
  {
    if h != [] {
      var p, m := h[..|h| - 1], h[|h| - 1];
      ScoreDistOrder(p, a, b);
      ScoreDistExact(p, a, b);
      var d0 := ScoreDist(p, a, b);
      var d := ScoreDist(h, a, b);
      KeysExact(d0);
      var k := Oriented(m, a);
      if HeadToHead(m, a, b) {
        IncrementSpec(d0, k, m.weight);
      }
      forall i, j | 0 <= i < j < |d| ensures SeenBefore(h, a, b, d[i].score, d[j].score) {
        if HeadToHead(m, a, b) && k !in Keys(d0) && j == |d0| {
          assert d[i] == d0[i];
          assert d0[i].score in Keys(d0);
          SeenBeforeNew(h, a, b, d[i].score);
        } else {
          assert d[i].score == d0[i].score && d[j].score == d0[j].score;
          assert d0[j].score in Keys(d0);
          SeenBeforeExtend(h, a, b, d[i].score, d[j].score);
        }
      }
    }
  }

  /** With positive recency weights every bucket weighs more than zero. */
  lemma {:induction false} ScoreDistPositive(h: seq<Match>, a: string, b: string)
    requires PositiveWeights(h)
    ensures forall i :: 0 <= i < |ScoreDist(h, a, b)| ==> ScoreDist(h, a, b)[i].weight > 0.0
  {
    if h != [] {
      var p, m := h[..|h| - 1], h[|h| - 1];
      assert PositiveWeights(p) by {
        forall i | 0 <= i < |p| ensures p[i].weight > 0.0 {
          assert p[i] == h[i];
        }
      }
      ScoreDistPositive(p, a, b);
      if HeadToHead(m, a, b) {
        var d0, k := ScoreDist(p, a, b), Oriented(m, a);
        ScoreDistExact(p, a, b);
        IncrementSpec(d0, k, m.weight);
        var d := ScoreDist(h, a, b);
        forall i | 0 <= i < |d| ensures d[i].weight > 0.0 {
          GetAt(d, i);
          if d[i].score == k {
            if k in Keys(d0) {
              KeysExact(d0);
              var j :| 0 <= j < |d0| && d0[j].score == k;
              GetAt(d0, j);
            } else {
              GetMissing(d0, k);
            }
          } else {
            PutKeys(d0, k, Get(d0, k) + m.weight);
            KeysExact(d);
            assert d[i].score in Keys(d0);
            KeysExact(d0);
            var j :| 0 <= j < |d0| && d0[j].score == d[i].score;
            GetAt(d0, j);
          }
        }
      }
    }
  }

  /** The score distribution loop: score_dist[score] += w for each
      head-to-head match, the score oriented to the request. */
  method BuildScoreDist(h: seq<Match>, a: string, b: string) returns (d: seq<Bucket>)
    ensures d == ScoreDist(h, a, b)
  {
    d := [];
    for i := 0 to |h|
      invariant d == ScoreDist(h[..i], a, b)
    {
      var m := h[i];
      assert h[..i + 1][..i] == h[..i] && h[..i + 1][i] == m;
      if {m.teamA, m.teamB} == {a, b} {
        var score := if m.teamA == a then (m.ga, m.gb) else (m.gb, m.ga);
        d := Increment(d, score, m.weight);
      }
    }
    assert h[..|h|] == h;
  }

  /** max(0, x) */
  function Max0(x: int): (r: nat)
    ensures r >= x && (r == x || r == 0)
  {
    if x > 0 then x else 0
  }

  /** The synthetic distribution used when the teams never met, built as a
      dict literal: a repeated key keeps its first place and its last value. */
  function Fallback(ea: int, eb: int): seq<Bucket>
  {
    FromLiteral([Bucket((ea, eb), 1.0), Bucket((ea + 1, eb), 0.6), Bucket((ea, eb + 1), 0.6),
                 Bucket((ea + 1, eb + 1), 0.4), Bucket((Max0(ea - 1), Max0(eb - 1)), 0.3)])
  }

  /** most_common(n) of a dict already ordered by descending weight is its first n entries. */
  lemma {:induction false} SortDescIdentity(s: seq<Bucket>)
    requires Descending(s)
    ensures SortDesc(s) == s
  {
    if s != [] {
      var t := s[1..];
      assert Descending(t) by {
        forall i, j | 0 <= i < j < |t| ensures t[i].weight >= t[j].weight {
          assert t[i] == s[i + 1] && t[j] == s[j + 1];
        }
      }
      SortDescIdentity(t);
      assert s == [s[0]] + t;
    }
  }

  /** When the expected score is not 0-0 the five keys are distinct, every
      goal count is non-negative, and most_common(5) ranks the expected score
      first with weight 1.0, then the other four in table order. */
  lemma FallbackNonZero(ea: nat, eb: nat)
    requires ea != 0 || eb != 0
    ensures Fallback(ea, eb) ==
      [Bucket((ea, eb), 1.0), Bucket((ea + 1, eb), 0.6), Bucket((ea, eb + 1), 0.6),
       Bucket((ea + 1, eb + 1), 0.4), Bucket((Max0(ea - 1), Max0(eb - 1)), 0.3)]
    ensures MostCommon(Fallback(ea, eb), 5) == Fallback(ea, eb)
    ensures forall i :: 0 <= i < |Fallback(ea, eb)| ==>
              Fallback(ea, eb)[i].score.0 >= 0 && Fallback(ea, eb)[i].score.1 >= 0
  {
    var s := [Bucket((ea, eb), 1.0), Bucket((ea + 1, eb), 0.6), Bucket((ea, eb + 1), 0.6),
              Bucket((ea + 1, eb + 1), 0.4), Bucket((Max0(ea - 1), Max0(eb - 1)), 0.3)];
    assert DistinctKeys(s);
    FromLiteralSpec(s);
    SortDescIdentity(s);
  }

  /** When the expected score is 0-0 the last key repeats the first: 0-0
      keeps first place but takes weight 0.3, so there are four buckets and
      most_common(5) ranks 0-0 last. */
  lemma FallbackZero()
    ensures Fallback(0, 0) == [Bucket((0, 0), 0.3), Bucket((1, 0), 0.6), Bucket((0, 1), 0.6), Bucket((1, 1), 0.4)]
    ensures MostCommon(Fallback(0, 0), 5) ==
      [Bucket((1, 0), 0.6), Bucket((0, 1), 0.6), Bucket((1, 1), 0.4), Bucket((0, 0), 0.3)]
  {
    var z, x, y, c := Bucket((0, 0), 0.3), Bucket((1, 0), 0.6), Bucket((0, 1), 0.6), Bucket((1, 1), 0.4);
    var s := [Bucket((0, 0), 1.0), x, y, c];
    var lit := [Bucket((0, 0), 1.0), x, y, c, Bucket((Max0(0 - 1), Max0(0 - 1)), 0.3)];
    assert DistinctKeys(s);
    FromLiteralSpec(s);
    assert lit[..4] == s;
    assert Fallback(0, 0) == FromLiteral(lit);
    assert FromLiteral(lit) == Put(FromLiteral(lit[..4]), lit[4].score, lit[4].weight);
    var f := [z, x, y, c];
    assert Put(s, (0, 0), 0.3) == f;
    SortDescIdentity([x, y, c]);
    assert f[1..] == [x, y, c];
    assert Insert(z, [c]) == [c, z];
    assert Insert(z, [y, c]) == [y, c, z];
    assert Insert(z, [x, y, c]) == [x, y, c, z];
  }
}
