/** Reciprocal rank fusion from `hybrid.py`. Scores are reals. */
module Fusion {
  import opened Wrappers
  import opened Ranking

  /** (mal_id, chunk_index). */
  type Key = (int, int)

  datatype Hit = Hit(key: Key, text: string, score: real)

  datatype Candidate = Candidate(
    key: Key,
    text: string,
    dense: Option<real>,
    sparse: Option<real>,
    hybrid: Option<real>,
    rerank: Option<real>,
    mmr: Option<real>,
    rank: Option<nat>)

  function Keys(hits: seq<Hit>): (r: seq<Key>)
    ensures |r| == |hits| && forall i :: 0 <= i < |r| ==> r[i] == hits[i].key
  {
    seq(|hits|, i requires 0 <= i < |hits| => hits[i].key)
  }

  // ---------------------------------------------------------------- specification

  function Recip(n: nat): real
    requires n >= 1
  {
    1.0 / n as real
  }

  /** The sum of reciprocal ranks a leg gives a key, one term for each time it lists it. */
  function LegScore(leg: seq<Hit>, key: Key, k: nat): real {
    if leg == [] then 0.0
    else
      LegScore(leg[..|leg| - 1], key, k)
      + (if leg[|leg| - 1].key == key then Recip(k + |leg|) else 0.0)
  }

  function FusedScore(dense: seq<Hit>, sparse: seq<Hit>, key: Key, k: nat): real {
    LegScore(dense, key, k) + LegScore(sparse, key, k)
  }

  /** Keys in order of first appearance: the insertion order of the accumulator. */
  function Distinct(hits: seq<Hit>): seq<Key> {
    if hits == [] then []
    else
      var before := Distinct(hits[..|hits| - 1]);
      var key := hits[|hits| - 1].key;
      if key in before then before else before + [key]
  }

  function FirstText(hits: seq<Hit>, key: Key): string {
    if hits == [] then ""
    else if hits[0].key == key then hits[0].text else FirstText(hits[1..], key)
  }

  function LastScore(leg: seq<Hit>, key: Key): Option<real> {
    if leg == [] then None
    else if leg[|leg| - 1].key == key then Some(leg[|leg| - 1].score)
    else LastScore(leg[..|leg| - 1], key)
  }

  function Fused(dense: seq<Hit>, sparse: seq<Hit>, key: Key, k: nat): Candidate {
    Candidate(key, FirstText(dense + sparse, key), LastScore(dense, key), LastScore(sparse, key),
              Some(FusedScore(dense, sparse, key, k)), None, None, None)
  }

  function Scores(dense: seq<Hit>, sparse: seq<Hit>, keys: seq<Key>, k: nat): (r: seq<real>)
    ensures |r| == |keys| && forall i :: 0 <= i < |r| ==> r[i] == FusedScore(dense, sparse, keys[i], k)
  {
    seq(|keys|, i requires 0 <= i < |keys| => FusedScore(dense, sparse, keys[i], k))
  }

  /** The keys of the fused list: first appearances, in stable descending order of score, the best `topK`. */
  function FusedKeys(dense: seq<Hit>, sparse: seq<Hit>, k: nat, topK: nat): seq<Key> {
    var keys := Distinct(dense + sparse);
    var order := Rank(Scores(dense, sparse, keys, k), |keys|);
    RankIsRanking(Scores(dense, sparse, keys, k), |keys|);
    var n := if topK < |keys| then topK else |keys|;
    seq(n, i requires 0 <= i < n => assert order[i] in order; keys[order[i]])
  }

  lemma {:induction false} DistinctMembers(hits: seq<Hit>)
    ensures forall key :: key in Distinct(hits) <==> exists i :: 0 <= i < |hits| && hits[i].key == key
    ensures forall a, b :: 0 <= a < b < |Distinct(hits)| ==> Distinct(hits)[a] != Distinct(hits)[b]
  {
    if hits != [] {
      var front := hits[..|hits| - 1];
      DistinctMembers(front);
      var last := hits[|hits| - 1].key;
      forall key | key in Distinct(hits) ensures exists i :: 0 <= i < |hits| && hits[i].key == key {
        if key in Distinct(front) {
          var i :| 0 <= i < |front| && front[i].key == key;
          assert hits[i].key == key;
        }
      }
      forall i | 0 <= i < |hits| ensures hits[i].key in Distinct(hits) {
        if i < |front| {
          assert front[i].key == hits[i].key;
        }
      }
    }
  }

  // ---------------------------------------------------------------- the loop

  datatype Entry = Entry(text: string, rrf: real, dense: Option<real>, sparse: Option<real>)

  /** The accumulator holds, for every key met so far, its text, score sum and latest leg scores. */
  ghost predicate Holds(acc: map<Key, Entry>, order: seq<Key>, dense: seq<Hit>, sparse: seq<Hit>, k: nat) {
    && order == Distinct(dense + sparse)
    && (forall key :: key in acc <==> key in order)
    && (forall key :: key in acc ==>
          acc[key] == Entry(FirstText(dense + sparse, key), FusedScore(dense, sparse, key, k),
                            LastScore(dense, key), LastScore(sparse, key)))
  }

  lemma {:induction false} FirstTextAppend(hits: seq<Hit>, h: Hit, key: Key)
    ensures FirstText(hits + [h], key) ==
            if exists i :: 0 <= i < |hits| && hits[i].key == key then FirstText(hits, key)
            else if h.key == key then h.text else ""
  {
    if hits == [] {
      assert hits + [h] == [h];
      assert [h][1..] == [];
    } else {
      assert (hits + [h])[1..] == hits[1..] + [h];
      FirstTextAppend(hits[1..], h, key);
      if exists i :: 0 <= i < |hits[1..]| && hits[1..][i].key == key {
        var i :| 0 <= i < |hits[1..]| && hits[1..][i].key == key;
        assert hits[i + 1].key == key;
      } else {
        forall i | 0 < i < |hits| ensures hits[i].key != key {
          assert hits[1..][i - 1].key != key;
        }
      }
    }
  }

  lemma {:induction false} Absent(leg: seq<Hit>, key: Key, k: nat)
    requires forall i :: 0 <= i < |leg| ==> leg[i].key != key
    ensures LegScore(leg, key, k) == 0.0 && LastScore(leg, key) == None
  {
    if leg != [] {
      Absent(leg[..|leg| - 1], key, k);
    }
  }

  lemma LegAppend(leg: seq<Hit>, h: Hit, key: Key, k: nat)
    ensures LegScore(leg + [h], key, k)
         == LegScore(leg, key, k) + (if h.key == key then Recip(k + |leg| + 1) else 0.0)
    ensures LastScore(leg + [h], key) == if h.key == key then Some(h.score) else LastScore(leg, key)
  {
    assert (leg + [h])[..|leg|] == leg;
  }

  lemma DistinctAppend(hits: seq<Hit>, h: Hit)
    ensures Distinct(hits + [h]) == if h.key in Distinct(hits) then Distinct(hits) else Distinct(hits) + [h.key]
  {
    assert (hits + [h])[..|hits|] == hits;
  }

  function Touch(acc: map<Key, Entry>, h: Hit): Entry {
    if h.key in acc then acc[h.key] else Entry(h.text, 0.0, None, None)
  }

  lemma AbsentHere(acc: map<Key, Entry>, order: seq<Key>, dense: seq<Hit>, sparse: seq<Hit>, k: nat, key: Key)
    requires Holds(acc, order, dense, sparse, k) && key !in acc
    ensures forall i :: 0 <= i < |dense + sparse| ==> (dense + sparse)[i].key != key
    ensures LegScore(dense, key, k) == 0.0 && LastScore(dense, key) == None
    ensures LegScore(sparse, key, k) == 0.0 && LastScore(sparse, key) == None
  {
    DistinctMembers(dense + sparse);
    forall i | 0 <= i < |dense| ensures dense[i].key != key {
      assert (dense + sparse)[i] == dense[i];
    }
    forall i | 0 <= i < |sparse| ensures sparse[i].key != key {
      assert (dense + sparse)[|dense| + i] == sparse[i];
    }
    Absent(dense, key, k);
    Absent(sparse, key, k);
  }

  lemma TextStep(acc: map<Key, Entry>, order: seq<Key>, dense: seq<Hit>, sparse: seq<Hit>, k: nat, h: Hit, key: Key)
    requires Holds(acc, order, dense, sparse, k) && (key in acc || key == h.key)
    ensures FirstText(dense + sparse + [h], key) == if key in acc then acc[key].text else h.text
  {
    DistinctMembers(dense + sparse);
    FirstTextAppend(dense + sparse, h, key);
  }

  lemma DenseStep(acc: map<Key, Entry>, order: seq<Key>, dense: seq<Hit>, h: Hit, k: nat)
    requires Holds(acc, order, dense, [], k)
    ensures var e := Touch(acc, h);
            Holds(acc[h.key := e.(rrf := e.rrf + Recip(k + |dense| + 1), dense := Some(h.score))],
                  if h.key in acc then order else order + [h.key], dense + [h], [], k)
  {
    hide FirstText, LegScore, LastScore, Distinct;
    assert dense + [h] + [] == dense + [] + [h];
    DistinctAppend(dense + [], h);
    if h.key !in acc {
      AbsentHere(acc, order, dense, [], k, h.key);
    }
    forall key | key in acc || key == h.key
      ensures FirstText(dense + [] + [h], key) == if key in acc then acc[key].text else h.text
    {
      TextStep(acc, order, dense, [], k, h, key);
    }
    forall key {
      LegAppend(dense, h, key, k);
    }
  }

  lemma SparseStep(acc: map<Key, Entry>, order: seq<Key>, dense: seq<Hit>, sparse: seq<Hit>, h: Hit, k: nat)
    requires Holds(acc, order, dense, sparse, k)
    ensures var e := Touch(acc, h);
            Holds(acc[h.key := e.(rrf := e.rrf + Recip(k + |sparse| + 1), sparse := Some(h.score))],
                  if h.key in acc then order else order + [h.key], dense, sparse + [h], k)
  {
    hide FirstText, LegScore, LastScore, Distinct;
    assert dense + (sparse + [h]) == dense + sparse + [h];
    DistinctAppend(dense + sparse, h);
    if h.key !in acc {
      AbsentHere(acc, order, dense, sparse, k, h.key);
    }
    forall key | key in acc || key == h.key
      ensures FirstText(dense + sparse + [h], key) == if key in acc then acc[key].text else h.text
    {
      TextStep(acc, order, dense, sparse, k, h, key);
    }
    forall key {
      LegAppend(sparse, h, key, k);
    }
  }

  /** `reciprocal_rank_fusion`: accumulate both legs in an insertion-ordered dict, sort stably, keep the best. */
  method Fuse(dense: seq<Hit>, sparse: seq<Hit>, k: nat, topK: nat) returns (out: seq<Candidate>)
    ensures var keys := FusedKeys(dense, sparse, k, topK);
            |out| == |keys| && forall i :: 0 <= i < |out| ==> out[i] == Fused(dense, sparse, keys[i], k)
  {
    hide FirstText, LegScore, LastScore, Distinct;
    var acc: map<Key, Entry> := map[];
    var order: seq<Key> := [];
    HoldsNothing(k);
    for i := 0 to |dense|
      invariant Holds(acc, order, dense[..i], [], k)
    {
      var h := dense[i];
      var e := Touch(acc, h);
      DenseStep(acc, order, dense[..i], h, k);
      assert dense[..i + 1] == dense[..i] + [h];
      order := if h.key in acc then order else order + [h.key];
      acc := acc[h.key := e.(rrf := e.rrf + Recip(k + i + 1), dense := Some(h.score))];
    }
    assert dense[..|dense|] == dense;
    assert sparse[..0] == [];
    for j := 0 to |sparse|
      invariant Holds(acc, order, dense, sparse[..j], k)
    {
      var h := sparse[j];
      var e := Touch(acc, h);
      SparseStep(acc, order, dense, sparse[..j], h, k);
      assert sparse[..j + 1] == sparse[..j] + [h];
      order := if h.key in acc then order else order + [h.key];
      acc := acc[h.key := e.(rrf := e.rrf + Recip(k + j + 1), sparse := Some(h.score))];
    }
    assert sparse[..|sparse|] == sparse;
    out := SortAndCut(acc, order, dense, sparse, k, topK);
  }

  lemma HoldsNothing(k: nat)
    ensures Holds(map[], [], [], [], k)
  {
    var none: seq<Hit> := [];
    assert none + none == none;
  }

  method SortAndCut(
    acc: map<Key, Entry>, order: seq<Key>, ghost dense: seq<Hit>, ghost sparse: seq<Hit>, k: nat, topK: nat)
    returns (out: seq<Candidate>)
    requires Holds(acc, order, dense, sparse, k)
    ensures var keys := FusedKeys(dense, sparse, k, topK);
            |out| == |keys| && forall i :: 0 <= i < |out| ==> out[i] == Fused(dense, sparse, keys[i], k)
  {
    hide FirstText, LegScore, LastScore, Distinct;
    var fused := seq(|order|, i requires 0 <= i < |order| && order[i] in acc =>
      var e := acc[order[i]];
      Candidate(order[i], e.text, e.dense, e.sparse, Some(e.rrf), None, None, None));
    var scores := seq(|order|, i requires 0 <= i < |order| && order[i] in acc => acc[order[i]].rrf);
    assert scores == Scores(dense, sparse, order, k);
    var perm := Rank(scores, |order|);
    RankIsRanking(scores, |order|);
    var n := if topK < |order| then topK else |order|;
    forall i | 0 <= i < n ensures perm[i] < |fused| {
      assert perm[i] in perm;
    }
    out := seq(n, i requires 0 <= i < n && i < |perm| && perm[i] < |fused| => fused[perm[i]]);
  }
}
