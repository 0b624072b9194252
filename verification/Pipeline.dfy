/** The retrieval pipeline of `pipeline.py`: hybrid retrieval, dedup by anime, rerank, diversify. */
module Pipeline {
  import opened Wrappers
  import opened Fusion
  import Hybrid
  import Mmr
  import Ranking

  function Anime(c: Candidate): int {
    c.key.0
  }

  /** What the fusion made of a candidate, without what later stages record on it. */
  function Base(c: Candidate): Candidate {
    c.(rerank := None, mmr := None, rank := None)
  }

  // ---------------------------------------------------------------- dedup

  function AnimesOf(cs: seq<Candidate>): set<int> {
    set i | 0 <= i < |cs| :: Anime(cs[i])
  }

  /** The first candidate of each anime, in order. */
  function FirstOfEach(cs: seq<Candidate>): seq<Candidate> {
    if cs == [] then []
    else
      var front, c := cs[..|cs| - 1], cs[|cs| - 1];
      if Anime(c) in AnimesOf(front) then FirstOfEach(front) else FirstOfEach(front) + [c]
  }

  lemma AnimesGrow(cs: seq<Candidate>, c: Candidate)
    ensures AnimesOf(cs + [c]) == AnimesOf(cs) + {Anime(c)}
  {
    var more := cs + [c];
    assert more[|cs|] == c;
    assert forall i :: 0 <= i < |cs| ==> more[i] == cs[i];
    assert forall i :: 0 <= i < |cs| ==> Anime(more[i]) in AnimesOf(cs);
  }

  /** `_dedup_by_anime`. */
  method DedupByAnime(cs: seq<Candidate>) returns (out: seq<Candidate>)
    ensures out == FirstOfEach(cs)
  {
    hide AnimesOf, Anime;
    var seen: set<int> := {};
    out := [];
    DedupNothing();
    for i := 0 to |cs|
      invariant out == FirstOfEach(cs[..i]) && seen == AnimesOf(cs[..i])
    {
      var c := cs[i];
      assert cs[..i + 1] == cs[..i] + [c];
      AnimesGrow(cs[..i], c);
      assert (cs[..i] + [c])[..i] == cs[..i];
      if Anime(c) in seen {
        assert seen + {Anime(c)} == seen;
      } else {
        seen := seen + {Anime(c)};
        out := out + [c];
      }
    }
    assert cs[..|cs|] == cs;
  }

  /** No anime twice. */
  ghost predicate Distinct(cs: seq<Candidate>) {
    forall i, j :: 0 <= i < j < |cs| ==> Anime(cs[i]) != Anime(cs[j])
  }

  /** `c` is in the list, before everything else of its anime. */
  ghost predicate IsFirst(cs: seq<Candidate>, c: Candidate) {
    exists i :: 0 <= i < |cs| && cs[i] == c && Anime(c) !in AnimesOf(cs[..i])
  }

  lemma IsFirstExtends(cs: seq<Candidate>, last: Candidate, c: Candidate)
    requires IsFirst(cs, c)
    ensures IsFirst(cs + [last], c)
  {
    var i :| 0 <= i < |cs| && cs[i] == c && Anime(c) !in AnimesOf(cs[..i]);
    assert (cs + [last])[i] == c && (cs + [last])[..i] == cs[..i];
  }

  lemma IsFirstLast(cs: seq<Candidate>, c: Candidate)
    requires Anime(c) !in AnimesOf(cs)
    ensures IsFirst(cs + [c], c)
  {
    assert (cs + [c])[|cs|] == c && (cs + [c])[..|cs|] == cs;
  }

  lemma DistinctExtends(cs: seq<Candidate>, c: Candidate)
    requires Distinct(cs) && Anime(c) !in AnimesOf(cs)
    ensures Distinct(cs + [c])
  {
    assert forall i :: 0 <= i < |cs| ==> Anime(cs[i]) in AnimesOf(cs);
  }

  /** Dedup keeps one candidate for every anime there is, the first one of it. */
  lemma {:induction false} DedupExactly(cs: seq<Candidate>)
    ensures Distinct(FirstOfEach(cs)) && AnimesOf(FirstOfEach(cs)) == AnimesOf(cs)
    ensures forall c :: c in FirstOfEach(cs) ==> IsFirst(cs, c)
  {
    hide Distinct, AnimesOf, IsFirst;
    if cs == [] {
      DedupNothing();
    } else {
      var front, last := cs[..|cs| - 1], cs[|cs| - 1];
      var kept := FirstOfEach(front);
      assert cs == front + [last];
      DedupExactly(front);
      AnimesGrow(front, last);
      forall c | c in kept
        ensures IsFirst(cs, c)
      {
        IsFirstExtends(front, last, c);
      }
      if Anime(last) !in AnimesOf(front) {
        AnimesGrow(kept, last);
        DistinctExtends(kept, last);
        IsFirstLast(front, last);
      } else {
        assert AnimesOf(front) + {Anime(last)} == AnimesOf(front);
      }
    }
  }

  lemma DedupNothing()
    ensures Distinct([]) && AnimesOf([]) == {}
  {
  }

  // ---------------------------------------------------------------- order is kept

  ghost predicate Ascending(places: seq<nat>) {
    forall i, j :: 0 <= i < j < |places| ==> places[i] < places[j]
  }

  ghost predicate TakenFrom(out: seq<Candidate>, cs: seq<Candidate>, places: seq<nat>) {
    && |places| == |out| && Ascending(places)
    && forall i :: 0 <= i < |out| ==> places[i] < |cs| && out[i] == cs[places[i]]
  }

  /** Some of the candidates, in their order. */
  ghost predicate Subsequence(out: seq<Candidate>, cs: seq<Candidate>) {
    exists places: seq<nat> :: TakenFrom(out, cs, places)
  }

  lemma NoneTaken()
    ensures Subsequence([], [])
  {
    assert TakenFrom([], [], []);
  }

  lemma OneMore(out: seq<Candidate>, cs: seq<Candidate>, c: Candidate)
    requires Subsequence(out, cs)
    ensures Subsequence(out, cs + [c]) && Subsequence(out + [c], cs + [c])
  {
    var places: seq<nat> :| TakenFrom(out, cs, places);
    assert TakenFrom(out, cs + [c], places);
    assert TakenFrom(out + [c], cs + [c], places + [|cs|]);
  }

  /** Dedup keeps the order. */
  lemma {:induction false} DedupInOrder(cs: seq<Candidate>)
    ensures Subsequence(FirstOfEach(cs), cs)
  {
    hide Subsequence;
    if cs == [] {
      NoneTaken();
    } else {
      var front, c := cs[..|cs| - 1], cs[|cs| - 1];
      assert cs == front + [c];
      DedupInOrder(front);
      OneMore(FirstOfEach(front), front, c);
    }
  }

  // ---------------------------------------------------------------- the stages after dedup

  datatype Config = Config(hybridK: nat, rerankK: nat, finalK: nat, lambda: real)

  /** The cross-encoder scores every text it was given, or raises, or times out. */
  datatype Rerank = Scores(scores: seq<real>) | Failed

  /** Candidates with their rerank scores, in stable descending order of score. */
  function SortedByRerank(cs: seq<Candidate>, scores: seq<real>): (r: seq<Candidate>)
    requires |scores| == |cs|
    ensures |r| == |cs|
  {
    var order := Ranking.Rank(scores, |cs|);
    seq(|cs|, i requires 0 <= i < |cs| =>
      Ranking.RankIsRanking(scores, |cs|);
      assert order[i] in order;
      cs[order[i]].(rerank := Some(scores[order[i]])))
  }

  function Top(cs: seq<Candidate>, k: nat): seq<Candidate> {
    if |cs| < k then cs else cs[..k]
  }

  /** Reranked if there is a score for each candidate; otherwise the hybrid order is kept. */
  function TopReranked(cs: seq<Candidate>, rerank: Rerank, k: nat): seq<Candidate> {
    Top(if rerank.Scores? && |rerank.scores| == |cs| then SortedByRerank(cs, rerank.scores) else cs, k)
  }

  /** Candidates whose embedding is stored. */
  function Aligned(cs: seq<Candidate>, stored: set<Key>): seq<Candidate> {
    if cs == [] then []
    else
      var front, c := Aligned(cs[..|cs| - 1], stored), cs[|cs| - 1];
      if c.key in stored then front + [c] else front
  }

  /** Similarities are abstract: a chunk to the query, and two chunks to each other. */
  datatype Vectors = Vectors(relevance: Key -> real, similarity: (Key, Key) -> real)

  function Problem(cs: seq<Candidate>, v: Vectors, lambda: real): (p: Mmr.Problem)
    ensures |p.relevance| == |cs| && p.lambda == lambda
  {
    Mmr.Problem(
      seq(|cs|, i requires 0 <= i < |cs| => v.relevance(cs[i].key)),
      (i: nat, j: nat) => if i < |cs| && j < |cs| then v.similarity(cs[i].key, cs[j].key) else 0.0,
      lambda)
  }

  /** The greedy selection from these candidates, each with its score and its place. */
  ghost predicate Picked(out: seq<Candidate>, cs: seq<Candidate>, p: Mmr.Problem, picks: seq<nat>) {
    && Mmr.IsGreedy(p, |cs|, picks)
    && |out| == |picks|
    && forall t :: 0 <= t < |out| ==>
         && picks[t] < |cs|
         && out[t] == cs[picks[t]].(mmr := Some(Mmr.Marginal(p, picks[..t], picks[t])), rank := Some(t + 1))
  }

  datatype Result = Ranked(candidates: seq<Candidate>) | Unavailable | FetchError | ValueError | Stopped

  /** What is returned for these fused candidates. */
  ghost predicate Completes(
    r: Result, c: Config, fused: seq<Candidate>, rerank: Rerank, fetch: Option<set<Key>>, v: Vectors)
  {
    var top := TopReranked(FirstOfEach(fused), rerank, c.rerankK);
    if top == [] then r == Ranked([])
    else if fetch.None? then r == FetchError
    else
      var aligned := Aligned(top, fetch.value);
      if aligned != [] && !(0.0 <= c.lambda <= 1.0) then r == ValueError
      else
        && r.Ranked?
        && |r.candidates| == (if c.finalK < |aligned| then c.finalK else |aligned|)
        && exists picks: seq<nat> :: Picked(r.candidates, aligned, Problem(aligned, v, c.lambda), picks)
  }

  /** `RetrievalPipeline.retrieve` after the hybrid stage. `fetch` is what the embedding query returns, if it succeeds. */
  method Finish(c: Config, fused: seq<Candidate>, rerank: Rerank, fetch: Option<set<Key>>, v: Vectors) returns (r: Result)
    ensures Completes(r, c, fused, rerank, fetch, v)
  {
    hide FirstOfEach, SortedByRerank, Aligned, Mmr.IsGreedy, Mmr.Marginal, Problem;
    var deduped := DedupByAnime(fused);
    var top := [];
    if deduped != [] {
      top := TopReranked(deduped, rerank, c.rerankK);
    } else {
      NothingToRank(rerank, c.rerankK);
    }
    if top == [] {
      return Ranked([]);
    }
    if fetch.None? {
      return FetchError;
    }
    var aligned := Aligned(top, fetch.value);
    ghost var p := Problem(aligned, v, c.lambda);
    var selection := Mmr.Select(Problem(aligned, v, c.lambda), |aligned|, |aligned|, c.finalK);
    if selection.ValueError? {
      return ValueError;
    }
    var picks := selection.picks;
    GreedyInRange(p, |aligned|, Mmr.Indices(picks));
    var out := seq(|picks|, t requires 0 <= t < |picks| && picks[t].index < |aligned| =>
      aligned[picks[t].index].(mmr := Some(picks[t].score), rank := Some(t + 1)));
    assert Picked(out, aligned, p, Mmr.Indices(picks));
    r := Ranked(out);
  }

  lemma NothingToRank(rerank: Rerank, k: nat)
    ensures TopReranked([], rerank, k) == []
  {
  }

  lemma GreedyInRange(p: Mmr.Problem, n: nat, picks: seq<nat>)
    requires Mmr.IsGreedy(p, n, picks)
    ensures forall t :: 0 <= t < |picks| ==> picks[t] < n
  {
    Mmr.PicksDistinct(p, n, picks);
  }

  /**
   `RetrievalPipeline.retrieve`: no embedding means no retrieval; a session that hybrid retrieval left unusable fails the
   embedding query.
   */
  method Retrieve(
    h: Hybrid.HybridRetriever, c: Config, embedded: bool, w: Hybrid.Weather, rerank: Rerank, fetch: Option<set<Key>>,
    v: Vectors)
    returns (r: Result, ghost fused: seq<Candidate>)
    requires h.dense != h.sparse
    modifies h.dense, h.sparse, h.session
    ensures !embedded ==> r == Unavailable && h.Now() == old(h.Now())
    ensures embedded ==>
              var (state, verdict) := Hybrid.Next(old(h.Now()), w);
              && h.Now() == state
              && (verdict.NoLeg? ==> r == Unavailable)
              && (verdict.Interruption? ==> r == Stopped)
              && (verdict.Served? ==>
                    && Hybrid.Delivers(Hybrid.Fused(fused), verdict, h.rrfK, c.hybridK)
                    && Completes(r, c, fused, rerank, if state.usable then fetch else None, v))
  {
    hide Completes, Hybrid.Delivers;
    fused := [];
    if !embedded {
      return Unavailable, fused;
    }
    ghost var verdict := Hybrid.Next(h.Now(), w).1;
    var found := h.Retrieve(c.hybridK, w);
    DeliversShape(found, verdict, h.rrfK, c.hybridK);
    match found {
      case Unavailable => return Unavailable, fused;
      case Stopped => return Stopped, fused;
      case Fused(candidates) =>
        fused := candidates;
        r := Finish(c, candidates, rerank, if h.session.usable then fetch else None, v);
    }
  }

  lemma DeliversShape(r: Hybrid.Retrieval, verdict: Hybrid.Verdict, rrfK: nat, k: nat)
    requires Hybrid.Delivers(r, verdict, rrfK, k)
    ensures r.Unavailable? <==> verdict.NoLeg?
    ensures r.Stopped? <==> verdict.Interruption?
  {
  }

  /**
   Reranking orders by score, ties in hybrid order, and keeps the best `k`, each with its score; without a score for every
   candidate the first `k` are kept as they are.
   */
  lemma RerankExactly(cs: seq<Candidate>, rerank: Rerank, k: nat)
    ensures var out := TopReranked(cs, rerank, k);
            && |out| == (if k < |cs| then k else |cs|)
            && if rerank.Scores? && |rerank.scores| == |cs| then
                 exists order: seq<nat> :: Ranking.IsRanking(rerank.scores, order, |cs|) && Along(out, cs, rerank.scores, order)
               else out == cs[..|out|]
  {
    if rerank.Scores? && |rerank.scores| == |cs| {
      var order := Ranking.Rank(rerank.scores, |cs|);
      Ranking.RankIsRanking(rerank.scores, |cs|);
      assert forall i :: 0 <= i < |order| ==> order[i] in order;
      assert Along(TopReranked(cs, rerank, k), cs, rerank.scores, order);
    }
  }

  ghost predicate Along(out: seq<Candidate>, cs: seq<Candidate>, scores: seq<real>, order: seq<nat>) {
    && |out| <= |order|
    && forall i :: 0 <= i < |out| ==>
         order[i] < |cs| && order[i] < |scores| && out[i] == cs[order[i]].(rerank := Some(scores[order[i]]))
  }

  /** Exactly the candidates with a stored embedding go on, in their order. */
  lemma {:induction false} AlignedExactly(cs: seq<Candidate>, stored: set<Key>)
    ensures forall c :: c in Aligned(cs, stored) <==> c in cs && c.key in stored
    ensures Subsequence(Aligned(cs, stored), cs)
  {
    hide Subsequence;
    if cs == [] {
      NoneTaken();
    } else {
      var front, last := cs[..|cs| - 1], cs[|cs| - 1];
      assert cs == front + [last];
      AlignedExactly(front, stored);
      OneMore(Aligned(front, stored), front, last);
    }
  }

  // ---------------------------------------------------------------- what every result satisfies

  /** Each is one of the source's candidates, with scores added, and no anime comes twice. */
  ghost predicate Drawn(cs: seq<Candidate>, source: seq<Candidate>) {
    && (forall i :: 0 <= i < |cs| ==> Base(cs[i]) in source)
    && Distinct(cs)
  }

  ghost predicate Plain(cs: seq<Candidate>) {
    forall i :: 0 <= i < |cs| ==> Base(cs[i]) == cs[i]
  }

  /** Choosing places without repeating one, and recording scores, keeps a list drawn from its source. */
  lemma ChosenDrawn(out: seq<Candidate>, cs: seq<Candidate>, places: seq<nat>, source: seq<Candidate>)
    requires Drawn(cs, source) && |places| == |out|
    requires forall i, j :: 0 <= i < j < |places| ==> places[i] != places[j]
    requires forall i :: 0 <= i < |out| ==> places[i] < |cs| && Base(out[i]) == Base(cs[places[i]])
    ensures Drawn(out, source)
  {
    assert forall c: Candidate :: Anime(Base(c)) == Anime(c);
    forall i, j | 0 <= i < j < |out|
      ensures Anime(out[i]) != Anime(out[j])
    {
      assert places[i] != places[j];
      assert Anime(Base(out[i])) == Anime(out[i]) && Anime(Base(out[j])) == Anime(out[j]);
    }
  }

  lemma SortedDrawn(cs: seq<Candidate>, scores: seq<real>)
    requires |scores| == |cs| && Distinct(cs) && Plain(cs)
    ensures Drawn(SortedByRerank(cs, scores), cs)
  {
    var order := Ranking.Rank(scores, |cs|);
    Ranking.RankIsRanking(scores, |cs|);
    PlainDrawn(cs);
    forall i, j | 0 <= i < j < |order|
      ensures order[i] != order[j]
    {
      assert Ranking.Before(scores, order[i], order[j]);
    }
    forall i | 0 <= i < |order|
      ensures order[i] < |cs|
    {
      assert order[i] in order;
    }
    ChosenDrawn(SortedByRerank(cs, scores), cs, order, cs);
  }

  lemma PlainDrawn(cs: seq<Candidate>)
    requires Distinct(cs) && Plain(cs)
    ensures Drawn(cs, cs)
  {
  }

  lemma {:induction false} AlignedDrawn(cs: seq<Candidate>, stored: set<Key>, source: seq<Candidate>)
    requires Drawn(cs, source)
    ensures Drawn(Aligned(cs, stored), source) && AnimesOf(Aligned(cs, stored)) <= AnimesOf(cs)
  {
    hide Drawn, AnimesOf;
    if cs == [] {
      NothingDrawn(source);
    } else {
      var front, last := cs[..|cs| - 1], cs[|cs| - 1];
      assert cs == front + [last];
      DrawnFront(front, last, source);
      AlignedDrawn(front, stored, source);
      AnimesGrow(front, last);
      AnimesGrow(Aligned(front, stored), last);
      if last.key in stored {
        DrawnExtends(Aligned(front, stored), last, source);
      }
    }
  }

  lemma DrawnExtends(cs: seq<Candidate>, c: Candidate, source: seq<Candidate>)
    requires Drawn(cs, source) && Anime(c) !in AnimesOf(cs) && Base(c) in source
    ensures Drawn(cs + [c], source)
  {
    DistinctExtends(cs, c);
  }

  lemma DrawnFront(front: seq<Candidate>, last: Candidate, source: seq<Candidate>)
    requires Drawn(front + [last], source)
    ensures Drawn(front, source) && Anime(last) !in AnimesOf(front) && Base(last) in source
  {
    var cs := front + [last];
    assert cs[|front|] == last && forall i :: 0 <= i < |front| ==> cs[i] == front[i];
  }

  lemma PickedDrawn(out: seq<Candidate>, cs: seq<Candidate>, p: Mmr.Problem, picks: seq<nat>, source: seq<Candidate>)
    requires Drawn(cs, source) && Picked(out, cs, p, picks)
    ensures Drawn(out, source)
    ensures forall t :: 0 <= t < |out| ==> out[t].rank == Some(t + 1)
  {
    Mmr.PicksDistinct(p, |cs|, picks);
    ChosenDrawn(out, cs, picks, source);
  }

  /** `c` is the best-fused chunk of its anime: no fused hit of that anime scores more, or comes before it. */
  ghost predicate BestOfItsAnime(fused: seq<Candidate>, c: Candidate) {
    exists i :: 0 <= i < |fused| && fused[i] == c && forall j :: 0 <= j < |fused| && Anime(fused[j]) == Anime(c) ==>
        i <= j && fused[j].hybrid.Some? && c.hybrid.Some? && fused[j].hybrid.value <= c.hybrid.value
  }

  ghost predicate Descending(fused: seq<Candidate>) {
    && (forall i :: 0 <= i < |fused| ==> fused[i].hybrid.Some?)
    && forall i, j :: 0 <= i < j < |fused| ==> fused[i].hybrid.value >= fused[j].hybrid.value
  }

  lemma FusedDescends(fused: seq<Candidate>, dense: seq<Hit>, sparse: seq<Hit>, rrfK: nat, k: nat)
    requires Hybrid.Delivers(Hybrid.Fused(fused), Hybrid.Served(dense, sparse), rrfK, k)
    ensures Descending(fused) && Plain(fused)
  {
    var keys := FusedKeys(dense, sparse, rrfK, k);
    var all := Fusion.Distinct(dense + sparse);
    var scores := Fusion.Scores(dense, sparse, all, rrfK);
    var order := Ranking.Rank(scores, |all|);
    Ranking.RankIsRanking(scores, |all|);
    forall i, j | 0 <= i < j < |keys|
      ensures FusedScore(dense, sparse, keys[i], rrfK) >= FusedScore(dense, sparse, keys[j], rrfK)
    {
      assert Ranking.Before(scores, order[i], order[j]);
      assert order[i] in order && order[j] in order;
    }
  }

  lemma FirstIsBest(fused: seq<Candidate>, c: Candidate)
    requires Descending(fused) && IsFirst(fused, c)
    ensures BestOfItsAnime(fused, c)
  {
    var i :| 0 <= i < |fused| && fused[i] == c && Anime(c) !in AnimesOf(fused[..i]);
    assert forall j :: 0 <= j < i ==> Anime(fused[..i][j]) in AnimesOf(fused[..i]) && fused[..i][j] == fused[j];
    assert forall j :: 0 <= j < |fused| && Anime(fused[j]) == Anime(c) ==>
        i <= j && fused[j].hybrid.value <= c.hybrid.value;
  }

  lemma {:induction false} FirstsPlain(cs: seq<Candidate>)
    requires Plain(cs)
    ensures Plain(FirstOfEach(cs)) && |FirstOfEach(cs)| <= |cs|
  {
    if cs != [] {
      FirstsPlain(cs[..|cs| - 1]);
    }
  }

  lemma TopDrawn(cs: seq<Candidate>, k: nat, source: seq<Candidate>)
    requires Drawn(cs, source)
    ensures Drawn(Top(cs, k), source)
  {
  }

  /**
   Whatever fails along the way, a returned list holds at most `final_k` candidates, ranked 1 to n, of different anime,
   each the best-fused chunk of its anime.
   */
  lemma ResultInvariant(
    r: Result, c: Config, dense: seq<Hit>, sparse: seq<Hit>, rrfK: nat, fused: seq<Candidate>, rerank: Rerank,
    fetch: Option<set<Key>>, v: Vectors)
    requires Hybrid.Delivers(Hybrid.Fused(fused), Hybrid.Served(dense, sparse), rrfK, c.hybridK)
    requires Completes(r, c, fused, rerank, fetch, v) && r.Ranked?
    ensures |r.candidates| <= c.finalK
    ensures forall i :: 0 <= i < |r.candidates| ==> r.candidates[i].rank == Some(i + 1)
    ensures Distinct(r.candidates)
    ensures forall i :: 0 <= i < |r.candidates| ==> BestOfItsAnime(fused, Base(r.candidates[i]))
  {
    var deduped := FirstOfEach(fused);
    var top := TopReranked(deduped, rerank, c.rerankK);
    FusedDescends(fused, dense, sparse, rrfK, c.hybridK);
    DedupExactly(fused);
    FirstsPlain(fused);
    TopRerankedDrawn(deduped, rerank, c.rerankK);
    CompletedDrawn(r, c, fused, rerank, fetch, v);
    forall i | 0 <= i < |r.candidates|
      ensures BestOfItsAnime(fused, Base(r.candidates[i]))
    {
      FirstIsBest(fused, Base(r.candidates[i]));
    }
  }

  lemma TopRerankedDrawn(deduped: seq<Candidate>, rerank: Rerank, k: nat)
    requires Distinct(deduped) && Plain(deduped)
    ensures Drawn(TopReranked(deduped, rerank, k), deduped)
  {
    PlainDrawn(deduped);
    if rerank.Scores? && |rerank.scores| == |deduped| {
      SortedDrawn(deduped, rerank.scores);
      TopDrawn(SortedByRerank(deduped, rerank.scores), k, deduped);
    } else {
      TopDrawn(deduped, k, deduped);
    }
  }

  lemma CompletedDrawn(
    r: Result, c: Config, fused: seq<Candidate>, rerank: Rerank, fetch: Option<set<Key>>, v: Vectors)
    requires Completes(r, c, fused, rerank, fetch, v) && r.Ranked?
    requires Drawn(TopReranked(FirstOfEach(fused), rerank, c.rerankK), FirstOfEach(fused))
    ensures Drawn(r.candidates, FirstOfEach(fused)) && |r.candidates| <= c.finalK
    ensures forall i :: 0 <= i < |r.candidates| ==> r.candidates[i].rank == Some(i + 1)
  {
    hide FirstOfEach, TopReranked, Aligned, Problem, Picked, Drawn;
    var deduped := FirstOfEach(fused);
    var top := TopReranked(deduped, rerank, c.rerankK);
    NothingDrawn(deduped);
    if top != [] {
      var aligned := Aligned(top, fetch.value);
      var p := Problem(aligned, v, c.lambda);
      AlignedDrawn(top, fetch.value, deduped);
      if picks: seq<nat> :| Picked(r.candidates, aligned, p, picks) {
        PickedDrawn(r.candidates, aligned, p, picks, deduped);
      }
    }
  }

  lemma NothingDrawn(source: seq<Candidate>)
    ensures Drawn([], source)
  {
  }

  // ---------------------------------------------------------------- the scores recorded

  /** The earlier pick most similar to the t-th. */
  ghost predicate NearestBefore(out: seq<Candidate>, v: Vectors, t: nat, s: nat)
    requires t < |out|
  {
    s < t && forall i :: 0 <= i < t ==> v.similarity(out[i].key, out[t].key) <= v.similarity(out[s].key, out[t].key)
  }

  /**
   The first candidate returned records its relevance to the query; each later one lambda times its relevance less the rest
   times its similarity to the earlier candidate it is most similar to.
   */
  lemma PickedScores(out: seq<Candidate>, cs: seq<Candidate>, v: Vectors, lambda: real, picks: seq<nat>, t: nat)
    requires Picked(out, cs, Problem(cs, v, lambda), picks) && t < |out|
    ensures t == 0 ==> out[t].mmr == Some(v.relevance(out[t].key))
    ensures t > 0 ==> exists s: nat :: TradedOff(out, v, lambda, t, s)
  {
    hide Mmr.IsGreedy, Mmr.Marginal, Mmr.ScoredBy, Problem, TradedOff;
    var p := Problem(cs, v, lambda);
    var before := picks[..t];
    ProblemExactly(cs, v, lambda);
    Mmr.MarginalExactly(p, before, picks[t]);
    if t > 0 {
      var j: nat :| Mmr.ScoredBy(p, before, picks[t], j);
      var s := PickOf(p, before, picks[t], j);
      NearestPick(out, cs, v, lambda, picks, t, s);
    } else {
      assert before == [];
    }
  }

  /** The t-th candidate's score, with the s-th as the nearest before it. */
  ghost predicate TradedOff(out: seq<Candidate>, v: Vectors, lambda: real, t: nat, s: nat)
    requires t < |out|
  {
    && NearestBefore(out, v, t, s)
    && out[t].mmr.Some?
    && out[t].mmr.value == lambda * v.relevance(out[t].key) - (1.0 - lambda) * v.similarity(out[s].key, out[t].key)
  }

  lemma PickOf(p: Mmr.Problem, before: seq<nat>, i: nat, j: nat) returns (s: nat)
    requires i < |p.relevance| && Mmr.ScoredBy(p, before, i, j)
    ensures s < |before| && before[s] == j
  {
    s :| s < |before| && before[s] == j;
  }

  /** Relevance and similarity are those of the candidates' chunks. */
  lemma ProblemExactly(cs: seq<Candidate>, v: Vectors, lambda: real)
    ensures var p := Problem(cs, v, lambda);
            && (forall i :: 0 <= i < |cs| ==> p.relevance[i] == v.relevance(cs[i].key))
            && (forall i: nat, j: nat :: i < |cs| && j < |cs| ==> p.sim(i, j) == v.similarity(cs[i].key, cs[j].key))
  {
  }

  lemma NearestPick(
    out: seq<Candidate>, cs: seq<Candidate>, v: Vectors, lambda: real, picks: seq<nat>, t: nat, s: nat)
    requires Picked(out, cs, Problem(cs, v, lambda), picks) && s < t < |out|
    requires Mmr.ScoredBy(Problem(cs, v, lambda), picks[..t], picks[t], picks[s])
    ensures TradedOff(out, v, lambda, t, s)
  {
    hide Mmr.IsGreedy, Mmr.Marginal, Problem;
    var p := Problem(cs, v, lambda);
    ProblemExactly(cs, v, lambda);
    forall i | 0 <= i < t
      ensures v.similarity(out[i].key, out[t].key) <= v.similarity(out[s].key, out[t].key)
    {
      assert picks[..t][i] in picks[..t];
      assert p.sim(picks[i], picks[t]) <= p.sim(picks[s], picks[t]);
    }
    var relevance, similarity := v.relevance(out[t].key), v.similarity(out[s].key, out[t].key);
    assert p.relevance[picks[t]] == relevance && p.sim(picks[s], picks[t]) == similarity;
    assert Mmr.Marginal(p, picks[..t], picks[t]) == lambda * relevance - (1.0 - lambda) * similarity;
    assert NearestBefore(out, v, t, s);
  }

  // ---------------------------------------------------------------- the confidence signal

  ghost predicate Scored(cs: seq<Candidate>, yes: bool) {
    forall i :: 0 <= i < |cs| ==> (cs[i].rerank.Some? <==> yes)
  }

  lemma {:induction false} AlignedScored(cs: seq<Candidate>, stored: set<Key>, yes: bool)
    requires Scored(cs, yes)
    ensures Scored(Aligned(cs, stored), yes)
  {
    if cs != [] {
      AlignedScored(cs[..|cs| - 1], stored, yes);
      assert cs[|cs| - 1].rerank.Some? <==> yes;
    }
  }

  /** Either every returned candidate carries a rerank score, and the reranker scored all it was given, or none does. */
  lemma ScoredExactly(
    r: Result, c: Config, fused: seq<Candidate>, rerank: Rerank, fetch: Option<set<Key>>, v: Vectors)
    requires Completes(r, c, fused, rerank, fetch, v) && r.Ranked? && Plain(fused)
    ensures Scored(r.candidates, rerank.Scores? && |rerank.scores| == |FirstOfEach(fused)|)
  {
    hide FirstOfEach, Aligned, Problem, SortedByRerank;
    var deduped := FirstOfEach(fused);
    FirstsPlain(fused);
    var yes := rerank.Scores? && |rerank.scores| == |deduped|;
    var top := TopReranked(deduped, rerank, c.rerankK);
    TopScored(deduped, rerank, c.rerankK);
    if top != [] {
      var aligned := Aligned(top, fetch.value);
      AlignedScored(top, fetch.value, yes);
      if picks: seq<nat> :| Picked(r.candidates, aligned, Problem(aligned, v, c.lambda), picks) {
        assert forall t :: 0 <= t < |picks| ==> (r.candidates[t].rerank == aligned[picks[t]].rerank);
      }
    }
  }

  lemma TopScored(cs: seq<Candidate>, rerank: Rerank, k: nat)
    requires Plain(cs)
    ensures Scored(TopReranked(cs, rerank, k), rerank.Scores? && |rerank.scores| == |cs|)
  {
  }
}
