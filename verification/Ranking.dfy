/** Stable descending order: what `list.sort(key=..., reverse=True)` does, stated on indices. */
module Ranking {

  function Score(scores: seq<real>, i: nat): real {
    if i < |scores| then scores[i] else 0.0
  }

  /** Index `i` comes before `j`: a higher score, or the same score and an earlier place. */
  predicate Before(scores: seq<real>, i: nat, j: nat) {
    Score(scores, i) > Score(scores, j) || (Score(scores, i) == Score(scores, j) && i < j)
  }

  ghost predicate InOrder(scores: seq<real>, order: seq<nat>) {
    forall a, b :: 0 <= a < b < |order| ==> Before(scores, order[a], order[b])
  }

  /** All indices below `n`, each once, in stable descending order of score. */
  ghost predicate IsRanking(scores: seq<real>, order: seq<nat>, n: nat) {
    |order| == n && (forall k: nat :: k in order <==> k < n) && InOrder(scores, order)
  }

  function Insert(scores: seq<real>, order: seq<nat>, k: nat): (r: seq<nat>)
    ensures |r| == |order| + 1
  {
    if order == [] then [k]
    else if Score(scores, order[0]) >= Score(scores, k) then [order[0]] + Insert(scores, order[1..], k)
    else [k] + order
  }

  function Rank(scores: seq<real>, n: nat): (order: seq<nat>)
    ensures |order| == n
  {
    if n == 0 then [] else Insert(scores, Rank(scores, n - 1), n - 1)
  }

  lemma {:induction false} InsertMembers(scores: seq<real>, order: seq<nat>, k: nat)
    ensures forall j: nat :: j in Insert(scores, order, k) <==> j in order || j == k
  {
    if order != [] {
      assert order == [order[0]] + order[1..];
      InsertMembers(scores, order[1..], k);
    }
  }

  lemma InOrderCons(scores: seq<real>, head: nat, rest: seq<nat>)
    requires InOrder(scores, rest)
    requires forall j: nat :: j in rest ==> Before(scores, head, j)
    ensures InOrder(scores, [head] + rest)
  {
    var order := [head] + rest;
    forall a, b | 0 <= a < b < |order| ensures Before(scores, order[a], order[b]) {
      assert order[b] == rest[b - 1];
      assert rest[b - 1] in rest;
      if a > 0 {
        assert order[a] == rest[a - 1];
      }
    }
  }

  lemma InOrderTail(scores: seq<real>, order: seq<nat>)
    requires InOrder(scores, order) && order != []
    ensures InOrder(scores, order[1..])
    ensures forall j: nat :: j in order[1..] ==> Before(scores, order[0], j)
  {
    forall a, b | 0 <= a < b < |order[1..]| ensures Before(scores, order[1..][a], order[1..][b]) {
      assert Before(scores, order[a + 1], order[b + 1]);
    }
    forall j: nat | j in order[1..] ensures Before(scores, order[0], j) {
      var b :| 0 <= b < |order[1..]| && order[1..][b] == j;
      assert Before(scores, order[0], order[b + 1]);
    }
  }

  lemma {:induction false} InsertInOrder(scores: seq<real>, order: seq<nat>, k: nat)
    requires InOrder(scores, order) && forall j: nat :: j in order ==> j < k
    ensures InOrder(scores, Insert(scores, order, k))
  {
    hide InOrder;
    if order == [] {
      InOrderSingle(scores, k);
    } else {
      var rest := order[1..];
      assert order == [order[0]] + rest;
      InOrderTail(scores, order);
      forall j: nat | j in rest ensures j < k {
        assert j in order;
      }
      if Score(scores, order[0]) >= Score(scores, k) {
        InsertInOrder(scores, rest, k);
        InsertMembers(scores, rest, k);
        assert order[0] in order;
        InOrderCons(scores, order[0], Insert(scores, rest, k));
      } else {
        forall j: nat | j in order ensures Before(scores, k, j) {
          assert j == order[0] || j in rest;
        }
        InOrderCons(scores, k, order);
      }
    }
  }

  lemma InOrderSingle(scores: seq<real>, k: nat)
    ensures InOrder(scores, [k])
  {
  }

  /** The insertion sort is the stable descending order. */
  lemma {:induction false} RankIsRanking(scores: seq<real>, n: nat)
    ensures IsRanking(scores, Rank(scores, n), n)
  {
    if n > 0 {
      RankIsRanking(scores, n - 1);
      InsertMembers(scores, Rank(scores, n - 1), n - 1);
      InsertInOrder(scores, Rank(scores, n - 1), n - 1);
    }
  }

  lemma NotEarlier(scores: seq<real>, order: seq<nat>, n: nat, k: nat)
    requires IsRanking(scores, order, n) && k < n
    ensures order[k] !in order[..k]
    ensures forall x: nat :: x < n && x !in order[..k] ==> x == order[k] || Before(scores, order[k], x)
  {
    forall a | 0 <= a < k ensures order[..k][a] != order[k] {
      assert Before(scores, order[a], order[k]);
    }
    forall x: nat | x < n && x !in order[..k] && x != order[k] ensures Before(scores, order[k], x) {
      forall a | 0 <= a < k ensures order[a] != x {
        assert order[..k][a] in order[..k];
      }
      assert x in order;
      var b :| 0 <= b < n && order[b] == x;
    }
  }

  /**
   A greedy selection, each pick coming before everything not picked yet, is a prefix of the ranking; so a ranking is
   unique.
   */
  lemma {:induction false} GreedyIsPrefix(scores: seq<real>, picks: seq<nat>, order: seq<nat>, n: nat, k: nat)
    requires IsRanking(scores, order, n) && k <= |picks| && k <= n
    requires forall t :: 0 <= t < k ==> picks[t] < n && picks[t] !in picks[..t]
    requires forall t, j: nat :: 0 <= t < k && j < n && j !in picks[..t] && j != picks[t] ==> Before(scores, picks[t], j)
    ensures picks[..k] == order[..k]
  {
    if k > 0 {
      GreedyIsPrefix(scores, picks, order, n, k - 1);
      NotEarlier(scores, order, n, k - 1);
      var x, y := picks[k - 1], order[k - 1];
      assert picks[..k] == picks[..k - 1] + [x];
      assert order[..k] == order[..k - 1] + [y];
      assert y < n by {
        assert y in order;
      }
    }
  }

  lemma {:induction false} InsertLast(scores: seq<real>, order: seq<nat>, k: nat)
    requires forall j: nat :: j in order ==> Score(scores, j) >= Score(scores, k)
    ensures Insert(scores, order, k) == order + [k]
  {
    if order != [] {
      assert order[0] in order;
      assert order == [order[0]] + order[1..];
      InsertLast(scores, order[1..], k);
    }
  }

  /** Sorting a list that is already in order changes nothing. */
  lemma {:induction false} SortedAlready(scores: seq<real>, n: nat)
    requires forall i: nat, j: nat :: i < j < n ==> Score(scores, i) >= Score(scores, j)
    ensures forall i: nat :: i < n ==> Rank(scores, n)[i] == i
  {
    if n > 0 {
      SortedAlready(scores, n - 1);
      RankIsRanking(scores, n - 1);
      InsertLast(scores, Rank(scores, n - 1), n - 1);
    }
  }
}
