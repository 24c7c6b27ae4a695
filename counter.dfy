/** The behaviour of Python's collections.Counter that the engine relies on,
    over scorelines: an insertion-ordered association list where a missing
    key reads as zero, assignment keeps an existing key in place and appends
    a new one, and most_common(n) is a stable sort by descending weight cut
    to n entries. */
module Counter {

  /** A scoreline (goals of the first team, goals of the second). */
  type Scoreline = (int, int)

  /** One key of the counter with its accumulated weight. */
  datatype Bucket = Bucket(score: Scoreline, weight: real)

  /** The keys present in d. */
  function Keys(d: seq<Bucket>): set<Scoreline>
  {
    if d == [] then {} else {d[0].score} + Keys(d[1..])
  }

  /** No key occurs twice, as in any dict. */
  predicate DistinctKeys(d: seq<Bucket>)
  {
    forall i, j :: 0 <= i < j < |d| ==> d[i].score != d[j].score
  }

  /** c[k]: the weight stored under k, or 0 when k is missing. */
  function Get(d: seq<Bucket>, k: Scoreline): real
  {
    if d == [] then 0.0
    else if d[0].score == k then d[0].weight
    else Get(d[1..], k)
  }

  /** c[k] = v: an existing key keeps its position, a new key goes last. */
  function Put(d: seq<Bucket>, k: Scoreline, v: real): seq<Bucket>
  {
    if d == [] then [Bucket(k, v)]
    else if d[0].score == k then [Bucket(k, v)] + d[1..]
    else [d[0]] + Put(d[1..], k, v)
  }

  /** c[k] += w, reading a missing key as 0. */
  function Increment(d: seq<Bucket>, k: Scoreline, w: real): seq<Bucket>
  {
    Put(d, k, Get(d, k) + w)
  }

  /** A counter built from a dict literal with these entries, left to right. */
  function FromLiteral(s: seq<Bucket>): seq<Bucket>
  {
    if s == [] then []
    else
      var e := s[|s| - 1];
      Put(FromLiteral(s[..|s| - 1]), e.score, e.weight)
  }

  /** Sum of all stored weights. */
  function TotalWeight(d: seq<Bucket>): real
  {
    if d == [] then 0.0 else d[0].weight + TotalWeight(d[1..])
  }

  /** Weights never increase along s. */
  predicate Descending(s: seq<Bucket>)
  {
    forall i, j :: 0 <= i < j < |s| ==> s[i].weight >= s[j].weight
  }

  /** The entries of s whose weight is exactly v, in order. */
  function Ties(s: seq<Bucket>, v: real): seq<Bucket>
  {
    if s == [] then [] else (if s[0].weight == v then [s[0]] else []) + Ties(s[1..], v)
  }

  /** Insert b in front of the first entry that is not heavier than it. */
  function Insert(b: Bucket, s: seq<Bucket>): seq<Bucket>
  {
    if s == [] then [b]
    else if b.weight >= s[0].weight then [b] + s
    else [s[0]] + Insert(b, s[1..])
  }

  /** sorted(d, key=weight, reverse=True): stable, so equal weights keep their order. */
  function SortDesc(d: seq<Bucket>): seq<Bucket>
  {
    if d == [] then [] else Insert(d[0], SortDesc(d[1..]))
  }

  /** most_common(n): the n heaviest entries, ties in insertion order. */
  function MostCommon(d: seq<Bucket>, n: nat): seq<Bucket>
  {
    var s := SortDesc(d);
    s[..if n < |s| then n else |s|]
  }

  // ---------- keys ----------

  /** k is a key of d exactly when some entry of d holds it. */
  lemma {:induction false} KeysExact(d: seq<Bucket>)
    ensures forall i :: 0 <= i < |d| ==> d[i].score in Keys(d)
    ensures forall k :: k in Keys(d) ==> exists i :: 0 <= i < |d| && d[i].score == k
  {
    if d != [] {
      KeysExact(d[1..]);
      forall k | k in Keys(d)
        ensures exists i :: 0 <= i < |d| && d[i].score == k
      {
        if k != d[0].score {
          var i :| 0 <= i < |d[1..]| && d[1..][i].score == k;
          assert d[i + 1].score == k;
        }
      }
    }
  }

  /** Keys of a concatenation. */
  lemma {:induction false} KeysAppend(a: seq<Bucket>, b: seq<Bucket>)
    ensures Keys(a + b) == Keys(a) + Keys(b)
  {
    if a != [] {
      assert (a + b)[1..] == a[1..] + b;
      KeysAppend(a[1..], b);
    } else {
      assert a + b == b;
    }
  }

  /** Reading a missing key gives 0. */
  lemma {:induction false} GetMissing(d: seq<Bucket>, k: Scoreline)
    requires k !in Keys(d)
    ensures Get(d, k) == 0.0
  {
    if d != [] {
      GetMissing(d[1..], k);
    }
  }

  /** Reading the key at position i gives the weight stored there. */
  lemma {:induction false} GetAt(d: seq<Bucket>, i: nat)
    requires DistinctKeys(d) && i < |d|
    ensures Get(d, d[i].score) == d[i].weight
  {
    if i > 0 {
      assert d[0].score != d[i].score;
      GetAt(d[1..], i - 1);
    }
  }

  /** Without its first entry, a dict still has distinct keys, none equal to the first. */
  lemma DistinctTail(d: seq<Bucket>)
    requires DistinctKeys(d) && d != []
    ensures DistinctKeys(d[1..]) && d[0].score !in Keys(d[1..])
  {
    var t := d[1..];
    forall i, j | 0 <= i < j < |t| ensures t[i].score != t[j].score {
      assert t[i] == d[i + 1] && t[j] == d[j + 1];
    }
    KeysExact(t);
    forall i | 0 <= i < |t| ensures t[i].score != d[0].score {
      assert t[i] == d[i + 1];
    }
  }

  /** c[k] = v adds k to the keys and nothing else. */
  lemma {:induction false} PutKeys(d: seq<Bucket>, k: Scoreline, v: real)
    ensures Keys(Put(d, k, v)) == Keys(d) + {k}
  {
    if d != [] && d[0].score != k {
      PutKeys(d[1..], k, v);
      assert Put(d, k, v)[1..] == Put(d[1..], k, v);
    } else if d != [] {
      assert Put(d, k, v)[1..] == d[1..];
    }
  }

  /** After c[k] = v, k reads v and every other key reads as before. */
  lemma {:induction false} PutGet(d: seq<Bucket>, k: Scoreline, v: real)
    ensures Get(Put(d, k, v), k) == v
    ensures forall k' :: k' != k ==> Get(Put(d, k, v), k') == Get(d, k')
  {
    if d != [] && d[0].score != k {
      PutGet(d[1..], k, v);
      assert Put(d, k, v)[1..] == Put(d[1..], k, v);
    } else if d != [] {
      assert Put(d, k, v)[1..] == d[1..];
    }
  }

  /** Assigning an existing key changes no position. */
  lemma {:induction false} PutExisting(d: seq<Bucket>, k: Scoreline, v: real)
    requires k in Keys(d)
    ensures |Put(d, k, v)| == |d|
    ensures forall i :: 0 <= i < |d| ==> Put(d, k, v)[i].score == d[i].score
  {
    if d[0].score != k {
      PutExisting(d[1..], k, v);
      assert Put(d, k, v) == [d[0]] + Put(d[1..], k, v);
    }
  }

  /** Assigning a new key appends it. */
  lemma {:induction false} PutNew(d: seq<Bucket>, k: Scoreline, v: real)
    requires k !in Keys(d)
    ensures Put(d, k, v) == d + [Bucket(k, v)]
  {
    if d != [] {
      PutNew(d[1..], k, v);
      assert [d[0]] + (d[1..] + [Bucket(k, v)]) == d + [Bucket(k, v)];
    }
  }

  /** Assignment keeps the keys of a dict distinct. */
  lemma {:induction false} PutDistinct(d: seq<Bucket>, k: Scoreline, v: real)
    requires DistinctKeys(d)
    ensures DistinctKeys(Put(d, k, v))
  {
    if d == [] {
    } else if d[0].score == k {
      DistinctTail(d);
      var r := Put(d, k, v);
      forall i, j | 0 <= i < j < |r| ensures r[i].score != r[j].score {
        assert r[j] == d[j];
        if i > 0 {
          assert r[i] == d[i];
        }
      }
    } else {
      var t := d[1..];
      DistinctTail(d);
      PutDistinct(t, k, v);
      PutKeys(t, k, v);
      KeysExact(Put(t, k, v));
      var r := Put(d, k, v);
      assert r[1..] == Put(t, k, v);
      forall i, j | 0 <= i < j < |r| ensures r[i].score != r[j].score {
        assert r[j] == Put(t, k, v)[j - 1];
        if i > 0 {
          assert r[i] == Put(t, k, v)[i - 1];
        } else {
          assert r[j].score in Keys(Put(t, k, v));
        }
      }
    }
  }

  /** On a dict, c[k] = v changes the total by v minus the old value of k. */
  lemma {:induction false} PutTotal(d: seq<Bucket>, k: Scoreline, v: real)
    requires DistinctKeys(d)
    ensures TotalWeight(Put(d, k, v)) == TotalWeight(d) - Get(d, k) + v
  {
    if d != [] {
      var r := Put(d, k, v);
      if d[0].score == k {
        assert r[1..] == d[1..];
      } else {
        DistinctTail(d);
        PutTotal(d[1..], k, v);
        assert r[1..] == Put(d[1..], k, v);
      }
    }
  }

  /** c[k] += w on a dict: k reads its old value plus w, other keys are
      untouched, a new key goes last, and the total grows by w. */
  lemma {:induction false} IncrementSpec(d: seq<Bucket>, k: Scoreline, w: real)
    requires DistinctKeys(d)
    ensures DistinctKeys(Increment(d, k, w))
    ensures Keys(Increment(d, k, w)) == Keys(d) + {k}
    ensures Get(Increment(d, k, w), k) == Get(d, k) + w
    ensures forall k' :: k' != k ==> Get(Increment(d, k, w), k') == Get(d, k')
    ensures k in Keys(d) ==>
              |Increment(d, k, w)| == |d| &&
              forall i :: 0 <= i < |d| ==> Increment(d, k, w)[i].score == d[i].score
    ensures k !in Keys(d) ==> Increment(d, k, w) == d + [Bucket(k, w)]
    ensures TotalWeight(Increment(d, k, w)) == TotalWeight(d) + w
  {
    var v := Get(d, k) + w;
    PutKeys(d, k, v);
    PutGet(d, k, v);
    PutDistinct(d, k, v);
    PutTotal(d, k, v);
    if k in Keys(d) {
      PutExisting(d, k, v);
    } else {
      GetMissing(d, k);
      PutNew(d, k, v);
    }
  }

  /** A dict literal has distinct keys, the keys of its entries, and is the
      entry list itself when no key is repeated. */
  lemma {:induction false} FromLiteralSpec(s: seq<Bucket>)
    ensures DistinctKeys(FromLiteral(s))
    ensures Keys(FromLiteral(s)) == Keys(s)
    ensures DistinctKeys(s) ==> FromLiteral(s) == s
  {
    if s != [] {
      var p, e := s[..|s| - 1], s[|s| - 1];
      FromLiteralSpec(p);
      PutKeys(FromLiteral(p), e.score, e.weight);
      PutDistinct(FromLiteral(p), e.score, e.weight);
      assert s == p + [e];
      KeysAppend(p, [e]);
      if DistinctKeys(s) {
        assert DistinctKeys(p) by {
          forall i, j | 0 <= i < j < |p| ensures p[i].score != p[j].score {
            assert p[i] == s[i] && p[j] == s[j];
          }
        }
        KeysExact(p);
        forall i | 0 <= i < |p| ensures p[i].score != e.score {
          assert p[i] == s[i];
        }
        PutNew(p, e.score, e.weight);
      }
    }
  }

  // ---------- most_common ----------

  /** Insertion adds b to the entries and removes nothing. */
  lemma {:induction false} InsertPerm(b: Bucket, s: seq<Bucket>)
    ensures |Insert(b, s)| == |s| + 1
    ensures multiset(Insert(b, s)) == multiset(s) + multiset{b}
  {
    if s != [] && b.weight < s[0].weight {
      InsertPerm(b, s[1..]);
      assert s == [s[0]] + s[1..];
    }
  }

  /** Insertion keeps a descending list descending. */
  lemma {:induction false} InsertDescending(b: Bucket, s: seq<Bucket>)
    requires Descending(s)
    ensures Descending(Insert(b, s))
  {
    if s != [] && b.weight < s[0].weight {
      var t := s[1..];
      assert Descending(t) by {
        forall i, j | 0 <= i < j < |t| ensures t[i].weight >= t[j].weight {
          assert t[i] == s[i + 1] && t[j] == s[j + 1];
        }
      }
      InsertDescending(b, t);
      InsertPerm(b, t);
      var r := Insert(b, s);
      assert r[1..] == Insert(b, t);
      forall j | 0 < j < |r| ensures r[0].weight >= r[j].weight {
        var x := r[j];
        assert x in multiset(Insert(b, t));
        if x != b {
          assert x in multiset(t);
          var q :| 0 <= q < |t| && t[q] == x;
          assert s[q + 1] == x;
        }
      }
      forall i, j | 0 < i < j < |r| ensures r[i].weight >= r[j].weight {
        assert r[i] == Insert(b, t)[i - 1] && r[j] == Insert(b, t)[j - 1];
      }
    }
  }

  /** Insertion puts b in front of the entries of its own weight. */
  lemma {:induction false} InsertTies(b: Bucket, s: seq<Bucket>, v: real)
    ensures Ties(Insert(b, s), v) == (if b.weight == v then [b] else []) + Ties(s, v)
  {
    if s == [] {
    } else if b.weight >= s[0].weight {
      assert Insert(b, s)[1..] == s;
    } else {
      InsertTies(b, s[1..], v);
      assert Insert(b, s)[1..] == Insert(b, s[1..]);
    }
  }

  /** The sort is a permutation, descending, and stable: for every weight
      the entries of that weight appear in their original order. */
  lemma {:induction false} SortDescSpec(d: seq<Bucket>)
    ensures |SortDesc(d)| == |d|
    ensures multiset(SortDesc(d)) == multiset(d)
    ensures Descending(SortDesc(d))
    ensures forall v :: Ties(SortDesc(d), v) == Ties(d, v)
  {
    if d != [] {
      SortDescSpec(d[1..]);
      InsertPerm(d[0], SortDesc(d[1..]));
      InsertDescending(d[0], SortDesc(d[1..]));
      forall v ensures Ties(SortDesc(d), v) == Ties(d, v) {
        InsertTies(d[0], SortDesc(d[1..]), v);
      }
      assert d == [d[0]] + d[1..];
    }
  }

  /** The entries of a prefix with weight v form a prefix of those of s. */
  lemma {:induction false} TiesPrefix(s: seq<Bucket>, n: nat, v: real)
    requires n <= |s|
    ensures Ties(s[..n], v) <= Ties(s, v)
  {
    if n > 0 {
      assert s[..n][1..] == s[1..][..n - 1];
      TiesPrefix(s[1..], n - 1, v);
    }
  }

  /** most_common(n) keeps min(n, |d|) entries of d, heaviest first, and
      among equal weights the first ones in d's order. */
  lemma {:induction false} MostCommonSpec(d: seq<Bucket>, n: nat)
    ensures |MostCommon(d, n)| == if n < |d| then n else |d|
    ensures multiset(MostCommon(d, n)) <= multiset(d)
    ensures Descending(MostCommon(d, n))
    ensures forall v :: Ties(MostCommon(d, n), v) <= Ties(d, v)
  {
    var s := SortDesc(d);
    SortDescSpec(d);
    var m := if n < |s| then n else |s|;
    var r := MostCommon(d, n);
    assert r == s[..m];
    calc {
      multiset(d);
      multiset(s);
      { assert s == r + s[m..]; }
      multiset(r) + multiset(s[m..]);
    }
    forall i, j | 0 <= i < j < |r| ensures r[i].weight >= r[j].weight {
      assert r[i] == s[i] && r[j] == s[j];
    }
    forall v ensures Ties(r, v) <= Ties(d, v) {
      TiesPrefix(s, m, v);
    }
  }

  /** Every entry most_common(n) leaves out weighs no more than any kept one. */
  lemma {:induction false} MostCommonHeaviest(d: seq<Bucket>, n: nat)
    ensures forall i :: 0 <= i < |d| && d[i] !in MostCommon(d, n) ==>
              forall j :: 0 <= j < |MostCommon(d, n)| ==> d[i].weight <= MostCommon(d, n)[j].weight
  {
    var s := SortDesc(d);
    SortDescSpec(d);
    var m := if n < |s| then n else |s|;
    var r := MostCommon(d, n);
    forall i | 0 <= i < |d| && d[i] !in r
      ensures forall j :: 0 <= j < |r| ==> d[i].weight <= r[j].weight
    {
      assert d[i] in multiset(s);
      var p :| 0 <= p < |s| && s[p] == d[i];
      forall j | 0 <= j < m ensures s[j] != d[i] {
        assert s[j] == r[j];
      }
      forall j | 0 <= j < |r| ensures d[i].weight <= r[j].weight {
        assert r[j] == s[j];
      }
    }
  }
}
