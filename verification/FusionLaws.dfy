/** What reciprocal rank fusion guarantees about the order it produces. */
module FusionLaws {
  import opened Wrappers
  import opened Ranking
  import opened Fusion

  ghost predicate DupFree(leg: seq<Hit>) {
    forall a, b :: 0 <= a < b < |leg| ==> leg[a].key != leg[b].key
  }

  ghost predicate Finds(leg: seq<Hit>, key: Key) {
    exists i :: 0 <= i < |leg| && leg[i].key == key
  }

  /** A chunk at place `p` (from zero) of a duplicate-free leg scores 1 / (k + p + 1) there. */
  lemma {:induction false} LegScoreAt(leg: seq<Hit>, p: nat, k: nat)
    requires DupFree(leg) && p < |leg|
    ensures LegScore(leg, leg[p].key, k) == Recip(k + p + 1)
  {
    var front := leg[..|leg| - 1];
    if p < |front| {
      LegScoreAt(front, p, k);
      assert front[p] == leg[p];
    } else {
      Absent(front, leg[p].key, k);
    }
  }

  /** Where a leg lists a key, if it does. */
  ghost predicate Places(leg: seq<Hit>, key: Key, p: Option<nat>) {
    match p
    case None => !Finds(leg, key)
    case Some(i) => i < |leg| && leg[i].key == key
  }

  /** What a leg contributes for a key at this place. */
  ghost function Share(p: Option<nat>, k: nat): real {
    if p.None? then 0.0 else 1.0 / (k + p.value + 1) as real
  }

  lemma {:induction false} LastScoreAt(leg: seq<Hit>, p: nat)
    requires DupFree(leg) && p < |leg|
    ensures LastScore(leg, leg[p].key) == Some(leg[p].score)
  {
    if p < |leg| - 1 {
      LastScoreAt(leg[..|leg| - 1], p);
    }
  }

  lemma {:induction false} FirstTextAt(hits: seq<Hit>, p: nat)
    requires p < |hits| && forall i :: 0 <= i < p ==> hits[i].key != hits[p].key
    ensures FirstText(hits, hits[p].key) == hits[p].text
  {
    if p > 0 {
      FirstTextAt(hits[1..], p - 1);
    }
  }

  /**
   A fused candidate, from duplicate-free legs: its text is the dense leg's if that lists it, else the sparse leg's; each
   leg's score is that leg's own; the hybrid score is the two reciprocal ranks added; no later score is set.
   */
  lemma FusedExactly(dense: seq<Hit>, sparse: seq<Hit>, key: Key, k: nat, d: Option<nat>, p: Option<nat>)
    requires DupFree(dense) && DupFree(sparse) && Places(dense, key, d) && Places(sparse, key, p) && (d.Some? || p.Some?)
    ensures Fused(dense, sparse, key, k) == Candidate(
              key,
              if d.Some? then dense[d.value].text else sparse[p.value].text,
              if d.Some? then Some(dense[d.value].score) else None,
              if p.Some? then Some(sparse[p.value].score) else None,
              Some(Share(d, k) + Share(p, k)), None, None, None)
  {
    hide FirstText, LegScore, LastScore;
    if d.Some? {
      LegScoreAt(dense, d.value, k);
      LastScoreAt(dense, d.value);
      assert (dense + sparse)[d.value] == dense[d.value];
      FirstTextAt(dense + sparse, d.value);
    } else {
      Absent(dense, key, k);
      assert (dense + sparse)[|dense| + p.value] == sparse[p.value];
      forall i | 0 <= i < |dense| + p.value
        ensures (dense + sparse)[i].key != key
      {
        if i >= |dense| {
          assert (dense + sparse)[i] == sparse[i - |dense|];
        }
      }
      FirstTextAt(dense + sparse, |dense| + p.value);
    }
    if p.Some? {
      LegScoreAt(sparse, p.value, k);
      LastScoreAt(sparse, p.value);
    } else {
      Absent(sparse, key, k);
    }
  }

  lemma Reciprocal(a: nat, b: nat)
    requires 1 <= a <= b
    ensures 0.0 < Recip(b) <= Recip(a)
    ensures a < b ==> Recip(b) < Recip(a)
  {
    var x, y := a as real, b as real;
    assert 1.0 / x - 1.0 / y == (y - x) / (x * y);
  }

  lemma LegScoreBounds(leg: seq<Hit>, key: Key, k: nat)
    requires DupFree(leg)
    ensures Finds(leg, key) ==> Recip(k + |leg|) <= LegScore(leg, key, k) <= Recip(k + 1)
    ensures !Finds(leg, key) ==> LegScore(leg, key, k) == 0.0
  {
    if Finds(leg, key) {
      var p :| 0 <= p < |leg| && leg[p].key == key;
      LegScoreAt(leg, p, k);
      Reciprocal(k + 1, k + p + 1);
      Reciprocal(k + p + 1, k + |leg|);
    } else {
      Absent(leg, key, k);
    }
  }

  /** In the ranking, whatever comes before an entry has an earlier place. */
  lemma EarlierPlace(scores: seq<real>, order: seq<nat>, n: nat, j: nat, y: nat) returns (i: nat)
    requires IsRanking(scores, order, n) && j < n && y < n && Before(scores, y, order[j])
    ensures i < j && order[i] == y
  {
    assert forall b :: j < b < n ==> Before(scores, order[j], order[b]);
    assert y in order;
    i :| 0 <= i < n && order[i] == y;
  }

  /**
   If chunk `b` beats the fused chunk at place `j` (more score, or as much and met earlier), it is fused before it,
   also when the list was cut at `topK`.
   */
  lemma BetterIsEarlier(dense: seq<Hit>, sparse: seq<Hit>, k: nat, topK: nat, j: nat, b: nat)
    requires j < |FusedKeys(dense, sparse, k, topK)|
    requires b < |Distinct(dense + sparse)|
    requires var all := Distinct(dense + sparse);
             forall s: nat :: s < |all| && all[s] == FusedKeys(dense, sparse, k, topK)[j] ==>
               Before(Scores(dense, sparse, all, k), b, s)
    ensures exists i :: 0 <= i < j && FusedKeys(dense, sparse, k, topK)[i] == Distinct(dense + sparse)[b]
  {
    hide LegScore, Distinct;
    var all := Distinct(dense + sparse);
    var scores := Scores(dense, sparse, all, k);
    var order := Rank(scores, |all|);
    RankIsRanking(scores, |all|);
    assert order[j] in order;
    var i := EarlierPlace(scores, order, |all|, j, b);
    assert FusedKeys(dense, sparse, k, topK)[i] == all[b];
  }

  ghost predicate ConsensusFirst(dense: seq<Hit>, sparse: seq<Hit>, k: nat, topK: nat) {
    var keys := FusedKeys(dense, sparse, k, topK);
    forall j, key ::
      0 <= j < |keys| && !(Finds(dense, keys[j]) && Finds(sparse, keys[j])) && Finds(dense, key) && Finds(sparse, key)
      ==> exists i :: 0 <= i < j && keys[i] == key
  }

  lemma TwoBeatOne(k: nat, m: nat, n: nat, both: real, one: real)
    requires m <= k + 1 && n <= k + 1 && 1 <= m && 1 <= n
    requires both >= Recip(k + m) + Recip(k + n) && one <= Recip(k + 1)
    ensures both > one
  {
    Reciprocal(k + m, k + (k + 1));
    Reciprocal(k + n, k + (k + 1));
    Reciprocal(2 * k + 1, 2 * (k + 1));
    var x := (k + 1) as real;
    assert (2 * (k + 1)) as real == 2.0 * x;
    HalfTwice(x);
  }

  lemma HalfTwice(x: real)
    requires x > 0.0
    ensures 1.0 / (2.0 * x) + 1.0 / (2.0 * x) == 1.0 / x
  {
    var h := 1.0 / (2.0 * x);
    assert h * (2.0 * x) == 1.0;
    assert (h + h) * x == 1.0;
    assert (1.0 / x) * x == 1.0;
    assert (h + h - 1.0 / x) * x == 0.0;
  }

  /** With short duplicate-free legs, every chunk found by both precedes every chunk found by one. */
  lemma ConsensusPrecedes(dense: seq<Hit>, sparse: seq<Hit>, k: nat, topK: nat)
    requires DupFree(dense) && DupFree(sparse) && |dense| <= k + 1 && |sparse| <= k + 1
    ensures ConsensusFirst(dense, sparse, k, topK)
  {
    var keys := FusedKeys(dense, sparse, k, topK);
    forall j, key |
      0 <= j < |keys| && !(Finds(dense, keys[j]) && Finds(sparse, keys[j])) && Finds(dense, key) && Finds(sparse, key)
      ensures exists i :: 0 <= i < j && keys[i] == key
    {
      ConsensusPair(dense, sparse, k, topK, j, key);
    }
  }

  lemma ConsensusPair(dense: seq<Hit>, sparse: seq<Hit>, k: nat, topK: nat, j: nat, key: Key)
    requires DupFree(dense) && DupFree(sparse) && |dense| <= k + 1 && |sparse| <= k + 1
    requires j < |FusedKeys(dense, sparse, k, topK)|
    requires var one := FusedKeys(dense, sparse, k, topK)[j]; !(Finds(dense, one) && Finds(sparse, one))
    requires Finds(dense, key) && Finds(sparse, key)
    ensures exists i :: 0 <= i < j && FusedKeys(dense, sparse, k, topK)[i] == key
  {
    hide LegScore, Distinct, FusedKeys;
    var all := Distinct(dense + sparse);
    DistinctMembers(dense + sparse);
    var i :| 0 <= i < |dense| && dense[i].key == key;
    assert (dense + sparse)[i].key == key;
    assert key in all;
    var b: nat :| b < |all| && all[b] == key;
    var one := FusedKeys(dense, sparse, k, topK)[j];
    LegScoreBounds(dense, key, k);
    LegScoreBounds(sparse, key, k);
    LegScoreBounds(dense, one, k);
    LegScoreBounds(sparse, one, k);
    assert Recip(k + 1) >= 0.0;
    TwoBeatOne(k, |dense|, |sparse|, FusedScore(dense, sparse, key, k), FusedScore(dense, sparse, one, k));
    BetterIsEarlier(dense, sparse, k, topK, j, b);
  }

  // ---------------------------------------------------------------- the length limit is sharp

  /** k + 2 places with distinct keys, the last of them `shared`. */
  function LongLeg(k: nat, tag: int, shared: Key): seq<Hit> {
    seq(k + 2, i requires 0 <= i < k + 2 => Hit(if i == k + 1 then shared else (i, tag), "", 0.0))
  }

  lemma {:induction false} DistinctDupFree(leg: seq<Hit>)
    requires DupFree(leg)
    ensures Distinct(leg) == Keys(leg)
  {
    if leg != [] {
      var front := leg[..|leg| - 1];
      DistinctDupFree(front);
      assert Keys(leg) == Keys(front) + [leg[|leg| - 1].key];
    }
  }

  lemma {:induction false} DistinctStartsWith(a: seq<Hit>, b: seq<Hit>)
    ensures Distinct(a) <= Distinct(a + b)
  {
    if b == [] {
      assert a + b == a;
    } else {
      var front := b[..|b| - 1];
      DistinctStartsWith(a, front);
      assert (a + b)[..|a + b| - 1] == a + front;
    }
  }

  /** At length k + 2, a chunk last in both legs only ties with the best chunk of one leg, and loses the tie. */
  lemma LongLegsFail(k: nat)
    ensures var shared := (-1, 0);
            var dense, sparse := LongLeg(k, 1, shared), LongLeg(k, 2, shared);
            DupFree(dense) && DupFree(sparse) && !ConsensusFirst(dense, sparse, k, 1)
  {
    hide LegScore, Distinct, Rank;
    var shared: Key := (-1, 0);
    var dense, sparse := LongLeg(k, 1, shared), LongLeg(k, 2, shared);
    var first: Key := (0, 1);
    assert dense[0].key == first && dense[k + 1].key == shared && sparse[k + 1].key == shared;
    var all := Distinct(dense + sparse);
    DistinctDupFree(dense);
    DistinctStartsWith(dense, sparse);
    DistinctMembers(dense + sparse);
    assert all[0] == Keys(dense)[0] == first;
    var scores := Scores(dense, sparse, all, k);
    LegScoreAt(dense, 0, k);
    assert !Finds(sparse, first);
    LegScoreBounds(sparse, first, k);
    assert scores[0] == Recip(k + 1);
    var keys := FusedKeys(dense, sparse, k, 1);
    RankIsRanking(scores, |all|);
    var order := Rank(scores, |all|);
    var top := order[0];
    assert top in order;
    assert keys[0] == all[top];
    LegScoreAt(dense, k + 1, k);
    LegScoreAt(sparse, k + 1, k);
    if keys[0] == shared {
      var x := (k + 1) as real;
      assert (k + (k + 1) + 1) as real == 2.0 * x;
      HalfTwice(x);
      assert scores[top] == scores[0];
      assert top != 0;
      var i := EarlierPlace(scores, order, |all|, 0, 0);
    }
    assert keys[0] != shared;
    assert Finds(dense, shared) && Finds(sparse, shared);
    OnlyInOneLeg(k, keys[0]);
  }

  lemma OnlyInOneLeg(k: nat, key: Key)
    requires key != (-1, 0)
    ensures !(Finds(LongLeg(k, 1, (-1, 0)), key) && Finds(LongLeg(k, 2, (-1, 0)), key))
  {
  }

  /** Consensus comes first for all duplicate-free legs up to a length exactly when that length is at most k + 1. */
  lemma ConsensusExactly(k: nat, limit: nat)
    ensures limit <= k + 1 <==>
            forall dense, sparse, topK ::
              DupFree(dense) && DupFree(sparse) && |dense| <= limit && |sparse| <= limit
              ==> ConsensusFirst(dense, sparse, k, topK)
  {
    if limit <= k + 1 {
      forall dense, sparse, topK | DupFree(dense) && DupFree(sparse) && |dense| <= limit && |sparse| <= limit
        ensures ConsensusFirst(dense, sparse, k, topK)
      {
        ConsensusPrecedes(dense, sparse, k, topK);
      }
    } else {
      LongLegsFail(k);
    }
  }

  // ---------------------------------------------------------------- one leg empty

  /** If only one leg found anything, fusion keeps its order. */
  lemma OneLegKeepsOrder(leg: seq<Hit>, k: nat, topK: nat)
    requires DupFree(leg)
    ensures var n := if topK < |leg| then topK else |leg|;
            FusedKeys(leg, [], k, topK) == Keys(leg)[..n] && FusedKeys([], leg, k, topK) == Keys(leg)[..n]
  {
    assert leg + [] == leg && [] + leg == leg;
    DistinctDupFree(leg);
    SoloScores(leg, k);
    SoloOrder(leg, Scores(leg, [], Keys(leg), k), k);
    SoloOrder(leg, Scores([], leg, Keys(leg), k), k);
  }

  lemma SoloScores(leg: seq<Hit>, k: nat)
    requires DupFree(leg)
    ensures forall i :: 0 <= i < |leg| ==> Scores(leg, [], Keys(leg), k)[i] == Recip(k + i + 1)
    ensures forall i :: 0 <= i < |leg| ==> Scores([], leg, Keys(leg), k)[i] == Recip(k + i + 1)
  {
    forall i | 0 <= i < |leg| ensures LegScore(leg, Keys(leg)[i], k) == Recip(k + i + 1) {
      LegScoreAt(leg, i, k);
    }
  }

  lemma SoloOrder(leg: seq<Hit>, scores: seq<real>, k: nat)
    requires |scores| == |leg| && forall i :: 0 <= i < |leg| ==> scores[i] == Recip(k + i + 1)
    ensures forall i :: 0 <= i < |leg| ==> Rank(scores, |leg|)[i] == i
  {
    hide Recip;
    forall i: nat, j: nat | i < j < |leg| ensures Score(scores, i) >= Score(scores, j) {
      Reciprocal(k + i + 1, k + j + 1);
    }
    SortedAlready(scores, |leg|);
  }
}
