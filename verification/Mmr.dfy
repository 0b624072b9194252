/** The maximal-marginal-relevance selection of `mmr.py`, over an abstract similarity matrix of reals. */
module Mmr {
  import opened Ranking

  datatype Problem = Problem(relevance: seq<real>, sim: (nat, nat) -> real, lambda: real) {
    predicate Valid() {
      0.0 <= lambda <= 1.0
    }
  }

  /** The largest similarity of `i` to anything selected. */
  function MaxSim(p: Problem, selected: seq<nat>, i: nat): real
    requires selected != []
  {
    var last := p.sim(selected[|selected| - 1], i);
    if |selected| == 1 then last
    else
      var before := MaxSim(p, selected[..|selected| - 1], i);
      if last > before then last else before
  }

  /** The marginal score: pure relevance for the first pick, then the trade-off. */
  function Marginal(p: Problem, selected: seq<nat>, i: nat): real {
    var rel := Score(p.relevance, i);
    if selected == [] then rel else p.lambda * rel - (1.0 - p.lambda) * MaxSim(p, selected, i)
  }

  /** `i` is the best of those not selected: the largest marginal score, ties to the lowest index. */
  ghost predicate IsBest(p: Problem, selected: seq<nat>, n: nat, i: nat) {
    && i < n && i !in selected
    && forall j: nat :: j < n && j !in selected && j != i ==>
         Marginal(p, selected, i) > Marginal(p, selected, j)
         || (Marginal(p, selected, i) == Marginal(p, selected, j) && i < j)
  }

  ghost predicate IsGreedy(p: Problem, n: nat, picks: seq<nat>) {
    forall t :: 0 <= t < |picks| ==> IsBest(p, picks[..t], n, picks[t])
  }

  datatype Pick = Pick(index: nat, score: real)

  function Indices(picks: seq<Pick>): (r: seq<nat>)
    ensures |r| == |picks| && forall i :: 0 <= i < |r| ==> r[i] == picks[i].index
  {
    seq(|picks|, i requires 0 <= i < |picks| => picks[i].index)
  }

  datatype Selection = Selected(picks: seq<Pick>) | ValueError

  ghost predicate Ascending(s: seq<nat>) {
    forall a, b :: 0 <= a < b < |s| ==> s[a] < s[b]
  }

  /** The candidates left, in ascending order. */
  ghost predicate Left(remaining: seq<nat>, selected: seq<nat>, n: nat) {
    Ascending(remaining) && forall i: nat :: i in remaining <==> i < n && i !in selected
  }

  /** The inner loop: the first remaining index whose marginal score no other exceeds. */
  method FindBest(p: Problem, selected: seq<nat>, remaining: seq<nat>, ghost n: nat) returns (at: nat, best: real)
    requires remaining != [] && Left(remaining, selected, n)
    ensures at < |remaining| && best == Marginal(p, selected, remaining[at])
    ensures IsBest(p, selected, n, remaining[at])
  {
    at, best := 0, Marginal(p, selected, remaining[0]);
    for j := 1 to |remaining|
      invariant 0 <= at < j && best == Marginal(p, selected, remaining[at])
      invariant forall l :: 0 <= l < j ==>
                  best > Marginal(p, selected, remaining[l])
                  || (best == Marginal(p, selected, remaining[l]) && at <= l)
    {
      var mmr := Marginal(p, selected, remaining[j]);
      if mmr > best {
        at, best := j, mmr;
      }
    }
    var i := remaining[at];
    assert i in remaining;
    forall j: nat | j < n && j !in selected && j != i
      ensures best > Marginal(p, selected, j) || (best == Marginal(p, selected, j) && i < j)
    {
      assert j in remaining;
      var l :| 0 <= l < |remaining| && remaining[l] == j;
    }
  }

  lemma LeftAfter(remaining: seq<nat>, selected: seq<nat>, n: nat, at: nat)
    requires Left(remaining, selected, n) && at < |remaining|
    ensures Left(remaining[..at] + remaining[at + 1..], selected + [remaining[at]], n)
  {
    var i := remaining[at];
    var rest := remaining[..at] + remaining[at + 1..];
    assert remaining == remaining[..at] + [i] + remaining[at + 1..];
    forall a, b | 0 <= a < b < |rest| ensures rest[a] < rest[b] {
      var a', b' := if a < at then a else a + 1, if b < at then b else b + 1;
      assert rest[a] == remaining[a'] && rest[b] == remaining[b'];
    }
    forall j: nat ensures j in rest <==> j < n && j !in selected + [i] {
      assert j in remaining <==> j in rest || j == i;
      forall l | 0 <= l < |rest| ensures rest[l] != i {
        var l' := if l < at then l else l + 1;
        assert rest[l] == remaining[l'];
      }
    }
  }

  /** `mmr_select`: `n` candidates, of which at most `k` are picked. */
  method Select(p: Problem, n: nat, embeddings: nat, k: int) returns (result: Selection)
    requires |p.relevance| == n
    ensures result.ValueError? <==> n > 0 && (embeddings != n || p.lambda < 0.0 || p.lambda > 1.0)
    ensures result.Selected? ==>
              var picks := result.picks;
              && |picks| == (if k < 0 then 0 else if k < n then k else n)
              && IsGreedy(p, n, Indices(picks))
              && forall t :: 0 <= t < |picks| ==> picks[t].score == Marginal(p, Indices(picks)[..t], picks[t].index)
  {
    if n == 0 {
      return Selected([]);
    }
    if embeddings != n || !(0.0 <= p.lambda <= 1.0) {
      return ValueError;
    }
    var picks: seq<Pick> := [];
    var selected: seq<nat> := [];
    var remaining: seq<nat> := seq(n, i requires 0 <= i < n => i);
    forall i: nat ensures i in remaining <==> i < n {
      assert i < n ==> remaining[i] == i;
    }
    while remaining != [] && |selected| < k
      invariant selected == Indices(picks)
      invariant |selected| + |remaining| == n && |selected| <= (if k < 0 then 0 else k)
      invariant Left(remaining, selected, n)
      invariant IsGreedy(p, n, selected)
      invariant forall t :: 0 <= t < |picks| ==> picks[t].score == Marginal(p, selected[..t], picks[t].index)
      decreases |remaining|
    {
      var at, best := FindBest(p, selected, remaining, n);
      var i := remaining[at];
      LeftAfter(remaining, selected, n, at);
      GreedyExtend(p, n, selected, i);
      forall t | 0 <= t <= |picks| ensures (selected + [i])[..t] == selected[..t] {
      }
      selected := selected + [i];
      picks := picks + [Pick(i, best)];
      remaining := remaining[..at] + remaining[at + 1..];
    }
    result := Selected(picks);
  }

  lemma GreedyExtend(p: Problem, n: nat, picks: seq<nat>, i: nat)
    requires IsGreedy(p, n, picks) && IsBest(p, picks, n, i)
    ensures IsGreedy(p, n, picks + [i])
  {
    var more := picks + [i];
    forall t | 0 <= t < |more| ensures IsBest(p, more[..t], n, more[t]) {
      if t < |picks| {
        assert more[..t] == picks[..t];
      } else {
        assert more[..t] == picks;
      }
    }
  }

  // ---------------------------------------------------------------- what the marginal score is

  /** The maximum over everything selected: no similarity to a selected candidate is larger, and one is equal. */
  lemma {:induction false} MaxSimExactly(p: Problem, selected: seq<nat>, i: nat)
    requires selected != []
    ensures forall j: nat :: j in selected ==> p.sim(j, i) <= MaxSim(p, selected, i)
    ensures exists j: nat :: j in selected && p.sim(j, i) == MaxSim(p, selected, i)
  {
    var n := |selected| - 1;
    var front, last := selected[..n], selected[n];
    assert selected == front + [last];
    if front != [] {
      MaxSimExactly(p, front, i);
      if p.sim(last, i) <= MaxSim(p, front, i) {
        var j: nat :| j in front && p.sim(j, i) == MaxSim(p, front, i);
        assert j in selected;
      }
    }
    assert last in selected;
  }

  /** What is most similar among the selected. */
  ghost predicate Nearest(p: Problem, selected: seq<nat>, i: nat, j: nat) {
    j in selected && forall k: nat :: k in selected ==> p.sim(k, i) <= p.sim(j, i)
  }

  /** The trade-off, with `j` as the nearest of the selected. */
  ghost predicate ScoredBy(p: Problem, selected: seq<nat>, i: nat, j: nat)
    requires i < |p.relevance|
  {
    Nearest(p, selected, i, j)
    && Marginal(p, selected, i) == p.lambda * p.relevance[i] - (1.0 - p.lambda) * p.sim(j, i)
  }

  /** The score: relevance for the first pick, then lambda times relevance less the rest times the nearest's similarity. */
  lemma MarginalExactly(p: Problem, selected: seq<nat>, i: nat)
    requires i < |p.relevance|
    ensures selected == [] ==> Marginal(p, selected, i) == p.relevance[i]
    ensures selected != [] ==> exists j: nat :: ScoredBy(p, selected, i, j)
  {
    if selected != [] {
      MaxSimExactly(p, selected, i);
      var j: nat :| j in selected && p.sim(j, i) == MaxSim(p, selected, i);
      assert ScoredBy(p, selected, i, j);
    }
  }

  // ---------------------------------------------------------------- what greedy selection guarantees

  lemma {:induction false} PicksDistinct(p: Problem, n: nat, picks: seq<nat>)
    requires IsGreedy(p, n, picks)
    ensures forall a, b :: 0 <= a < b < |picks| ==> picks[a] != picks[b]
    ensures forall t :: 0 <= t < |picks| ==> picks[t] < n
  {
    forall a, b | 0 <= a < b < |picks| ensures picks[a] != picks[b] {
      assert IsBest(p, picks[..b], n, picks[b]);
      assert picks[..b][a] in picks[..b];
    }
    forall t | 0 <= t < |picks| ensures picks[t] < n {
      assert IsBest(p, picks[..t], n, picks[t]);
    }
  }

  /** Selecting more never raises a candidate's marginal score, from the first trade-off on. */
  lemma MarginalFalls(p: Problem, selected: seq<nat>, next: nat, i: nat)
    requires p.Valid() && selected != []
    ensures Marginal(p, selected + [next], i) <= Marginal(p, selected, i)
  {
    var more := selected + [next];
    assert more[..|more| - 1] == selected;
    var a, b := MaxSim(p, selected, i), MaxSim(p, more, i);
    assert b >= a;
    assert (1.0 - p.lambda) * (b - a) >= 0.0;
  }

  /** Recorded scores never rise from the second pick on. */
  lemma ScoresFall(p: Problem, n: nat, picks: seq<nat>, t: nat)
    requires p.Valid() && IsGreedy(p, n, picks) && 1 <= t && t + 1 < |picks|
    ensures Marginal(p, picks[..t + 1], picks[t + 1]) <= Marginal(p, picks[..t], picks[t])
  {
    var before := picks[..t];
    assert picks[..t + 1] == before + [picks[t]];
    assert IsBest(p, before, n, picks[t]);
    assert IsBest(p, picks[..t + 1], n, picks[t + 1]);
    assert picks[t + 1] !in before && picks[t + 1] != picks[t];
    MarginalFalls(p, before, picks[t], picks[t + 1]);
  }

  /** With lambda = 1, the selection is the stable top-k by relevance. */
  lemma RelevanceOnly(p: Problem, n: nat, picks: seq<nat>)
    requires p.lambda == 1.0 && IsGreedy(p, n, picks) && |picks| <= n
    ensures picks == Rank(p.relevance, n)[..|picks|]
  {
    RankIsRanking(p.relevance, n);
    forall t | 0 <= t < |picks| ensures picks[t] < n && picks[t] !in picks[..t] {
      assert IsBest(p, picks[..t], n, picks[t]);
    }
    forall t, j: nat | 0 <= t < |picks| && j < n && j !in picks[..t] && j != picks[t]
      ensures Before(p.relevance, picks[t], j)
    {
      assert IsBest(p, picks[..t], n, picks[t]);
      RelevanceMarginal(p, picks[..t], j);
      RelevanceMarginal(p, picks[..t], picks[t]);
    }
    GreedyIsPrefix(p.relevance, picks, Rank(p.relevance, n), n, |picks|);
    assert picks[..|picks|] == picks;
  }

  /** Whatever lambda is, the first pick is the most relevant candidate, ties to the lowest index. */
  lemma FirstPickMostRelevant(p: Problem, n: nat, picks: seq<nat>)
    requires IsGreedy(p, n, picks) && picks != []
    ensures n >= 1 && picks[0] == Rank(p.relevance, n)[0]
  {
    RankIsRanking(p.relevance, n);
    assert IsBest(p, picks[..0], n, picks[0]) && picks[..0] == [];
    GreedyIsPrefix(p.relevance, picks, Rank(p.relevance, n), n, 1);
    assert picks[..1][0] == Rank(p.relevance, n)[..1][0];
  }

  lemma RelevanceMarginal(p: Problem, selected: seq<nat>, i: nat)
    requires p.lambda == 1.0
    ensures Marginal(p, selected, i) == Score(p.relevance, i)
  {
    if selected != [] {
      assert (1.0 - p.lambda) * MaxSim(p, selected, i) == 0.0;
    }
  }

  /** A greedy selection of a given length is unique: ties leave no freedom. */
  lemma {:induction false} GreedyUnique(p: Problem, n: nat, a: seq<nat>, b: seq<nat>, k: nat)
    requires IsGreedy(p, n, a) && IsGreedy(p, n, b) && k <= |a| && k <= |b|
    ensures a[..k] == b[..k]
  {
    if k > 0 {
      GreedyUnique(p, n, a, b, k - 1);
      assert IsBest(p, a[..k - 1], n, a[k - 1]) && IsBest(p, b[..k - 1], n, b[k - 1]);
      assert a[..k] == a[..k - 1] + [a[k - 1]] && b[..k] == b[..k - 1] + [b[k - 1]];
    }
  }
}
