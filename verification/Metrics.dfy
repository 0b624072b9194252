/** The rank metrics of `metrics.py`. The discount 1 / log2(i + 1) is any positive, strictly decreasing function. */
module Metrics {

  type Discount = nat -> real

  ghost predicate Discounting(d: Discount) {
    forall i: nat, j: nat :: 1 <= i < j ==> 0.0 < d(j) < d(i)
  }

  /** `retrieved[:k]`, a negative bound counting from the end. */
  function TopK(retrieved: seq<int>, k: int): seq<int> {
    if k > |retrieved| then retrieved
    else if k >= 0 then retrieved[..k]
    else if |retrieved| + k > 0 then retrieved[..|retrieved| + k]
    else []
  }

  function Dcg(d: Discount, items: seq<int>, expected: set<int>): real {
    if items == [] then 0.0
    else Dcg(d, items[..|items| - 1], expected) + (if items[|items| - 1] in expected then d(|items|) else 0.0)
  }

  function Ideal(d: Discount, hits: nat): real {
    if hits == 0 then 0.0 else Ideal(d, hits - 1) + d(hits)
  }

  function IdealHits(expected: set<int>, k: int): nat {
    if k <= 0 then 0 else if k < |expected| then k else |expected|
  }

  function Ndcg(d: Discount, retrieved: seq<int>, expected: set<int>, k: int): real {
    var idcg := Ideal(d, IdealHits(expected, k));
    if expected == {} || idcg <= 0.0 then 0.0 else Dcg(d, TopK(retrieved, k), expected) / idcg
  }

  /** `ndcg_at_k`. */
  method NdcgAtK(d: Discount, retrieved: seq<int>, expected: set<int>, k: int) returns (r: real)
    ensures r == Ndcg(d, retrieved, expected, k)
  {
    if expected == {} {
      return 0.0;
    }
    var dcg := 0.0;
    var top := TopK(retrieved, k);
    for i := 0 to |top|
      invariant dcg == Dcg(d, top[..i], expected)
    {
      assert top[..i + 1][..i] == top[..i];
      if top[i] in expected {
        dcg := dcg + d(i + 1);
      }
    }
    assert top[..|top|] == top;
    var hits := IdealHits(expected, k);
    var idcg := 0.0;
    for i := 1 to hits + 1
      invariant idcg == Ideal(d, i - 1)
    {
      idcg := idcg + d(i);
    }
    r := if idcg > 0.0 then dcg / idcg else 0.0;
  }

  /** Reciprocal of the first relevant rank, counting from `start`. */
  function MrrFrom(items: seq<int>, expected: set<int>, start: nat): real
    requires start >= 1
  {
    if items == [] then 0.0
    else if items[0] in expected then 1.0 / start as real
    else MrrFrom(items[1..], expected, start + 1)
  }

  /** `mrr`. */
  method Mrr(retrieved: seq<int>, expected: set<int>) returns (r: real)
    ensures r == if expected == {} then 0.0 else MrrFrom(retrieved, expected, 1)
  {
    if expected == {} {
      return 0.0;
    }
    for i := 0 to |retrieved|
      invariant MrrFrom(retrieved, expected, 1) == MrrFrom(retrieved[i..], expected, i + 1)
    {
      if retrieved[i] in expected {
        return 1.0 / (i + 1) as real;
      }
      assert retrieved[i..][1..] == retrieved[i + 1..];
    }
    r := 0.0;
  }

  // ---------------------------------------------------------------- bounds

  ghost predicate DupFree(items: seq<int>) {
    forall a, b :: 0 <= a < b < |items| ==> items[a] != items[b]
  }

  function Hits(items: seq<int>, expected: set<int>): nat {
    if items == [] then 0
    else Hits(items[..|items| - 1], expected) + (if items[|items| - 1] in expected then 1 else 0)
  }

  lemma {:induction false} IdealGrows(d: Discount, a: nat, b: nat)
    requires Discounting(d) && a <= b
    ensures 0.0 <= Ideal(d, a) <= Ideal(d, b)
    ensures a < b ==> Ideal(d, a) < Ideal(d, b)
  {
    if b > 0 {
      Positive(d, b);
      if a == b {
        IdealGrows(d, a - 1, b - 1);
      } else {
        IdealGrows(d, a, b - 1);
      }
    }
  }

  lemma Positive(d: Discount, i: nat)
    requires Discounting(d) && i >= 1
    ensures d(i) > 0.0
  {
    assert 0.0 < d(i + 1) < d(i);
  }

  lemma Falls(d: Discount, i: nat, j: nat)
    requires Discounting(d) && 1 <= i <= j
    ensures d(j) <= d(i) && (i < j ==> d(j) < d(i))
  {
  }

  /** The first `h` places all hold relevant items. */
  ghost predicate Leading(items: seq<int>, expected: set<int>, h: nat) {
    h <= |items| && forall i :: 0 <= i < h ==> items[i] in expected
  }

  /** Gain is at most that of the same number of hits at the top, and equal only when they are at the top. */
  lemma {:induction false} DcgAtMostIdeal(d: Discount, items: seq<int>, expected: set<int>)
    requires Discounting(d)
    ensures var h := Hits(items, expected);
            && h <= |items|
            && 0.0 <= Dcg(d, items, expected) <= Ideal(d, h)
            && (Dcg(d, items, expected) == Ideal(d, h) <==> Leading(items, expected, h))
  {
    hide Leading, Discounting;
    if items == [] {
      NothingLeads(expected);
    } else {
      var n := |items|;
      var front := items[..n - 1];
      DcgAtMostIdeal(d, front, expected);
      var h := Hits(front, expected);
      Positive(d, n);
      Falls(d, h + 1, n);
      LeadingStep(items, expected);
      assert Ideal(d, h + 1) == Ideal(d, h) + d(h + 1);
    }
  }

  lemma NothingLeads(expected: set<int>)
    ensures Leading([], expected, 0)
  {
  }

  /** A last item joins the leading hits only if there is no miss before it. */
  lemma LeadingStep(items: seq<int>, expected: set<int>)
    requires items != []
    requires Hits(items[..|items| - 1], expected) <= |items| - 1
    ensures var n := |items|;
            var h := Hits(items[..n - 1], expected);
            if items[n - 1] in expected
            then Leading(items, expected, h + 1) <==> (Leading(items[..n - 1], expected, h) && h == n - 1)
            else Leading(items, expected, h) <==> Leading(items[..n - 1], expected, h)
  {
    var n := |items|;
    var front := items[..n - 1];
    var h := Hits(front, expected);
    if items[n - 1] in expected && Leading(items, expected, h + 1) {
      assert Leading(front, expected, h);
      LeadingCounts(front, expected, h);
    }
  }

  /** If the hits fill the top and one more leading place is relevant, nothing lies between. */
  lemma {:induction false} LeadingCounts(items: seq<int>, expected: set<int>, h: nat)
    requires Leading(items, expected, h)
    ensures Hits(items, expected) >= h
    ensures h < |items| && items[h] in expected ==> Hits(items, expected) > h
  {
    if items != [] {
      var front := items[..|items| - 1];
      if h < |items| {
        LeadingCounts(front, expected, h);
      } else {
        LeadingCounts(front, expected, h - 1);
      }
    }
  }

  lemma {:induction false} HitsWithout(items: seq<int>, expected: set<int>, x: int)
    requires x !in items
    ensures Hits(items, expected) == Hits(items, expected - {x})
  {
    if items != [] {
      assert items[|items| - 1] in items;
      HitsWithout(items[..|items| - 1], expected, x);
    }
  }

  /** Without duplicates, hits are bounded by what was expected. */
  lemma {:induction false} HitsAtMostExpected(items: seq<int>, expected: set<int>)
    requires DupFree(items)
    ensures Hits(items, expected) <= |expected|
  {
    if items != [] {
      var front, x := items[..|items| - 1], items[|items| - 1];
      assert x !in front;
      if x in expected {
        HitsAtMostExpected(front, expected - {x});
        HitsWithout(front, expected, x);
      } else {
        HitsAtMostExpected(front, expected);
      }
    }
  }

  lemma HitsAtMostIdeal(retrieved: seq<int>, expected: set<int>, k: int)
    requires DupFree(retrieved) && k >= 0
    ensures Hits(TopK(retrieved, k), expected) <= IdealHits(expected, k)
    ensures |TopK(retrieved, k)| <= k
  {
    var top := TopK(retrieved, k);
    HitsAtMostExpected(top, expected);
    HitsAtMostLength(top, expected);
  }

  lemma {:induction false} HitsAtMostLength(items: seq<int>, expected: set<int>)
    ensures Hits(items, expected) <= |items|
  {
    if items != [] {
      HitsAtMostLength(items[..|items| - 1], expected);
    }
  }

  /** nDCG of a duplicate-free ranking lies in [0, 1]. */
  lemma NdcgInRange(d: Discount, retrieved: seq<int>, expected: set<int>, k: int)
    requires Discounting(d) && DupFree(retrieved)
    ensures 0.0 <= Ndcg(d, retrieved, expected, k) <= 1.0
  {
    var ideal := Ideal(d, IdealHits(expected, k));
    if expected != {} && ideal > 0.0 {
      var top := TopK(retrieved, k);
      HitsAtMostIdeal(retrieved, expected, k);
      DcgAtMostIdeal(d, top, expected);
      IdealGrows(d, Hits(top, expected), IdealHits(expected, k));
      Ratio(Dcg(d, top, expected), ideal);
    }
  }

  lemma Ratio(a: real, b: real)
    requires 0.0 <= a <= b && b > 0.0
    ensures 0.0 <= a / b <= 1.0
    ensures a / b == 1.0 <==> a == b
  {
    assert a / b * b == a;
  }

  /** It is 1 exactly when the first min(k, number expected) places are all relevant. */
  lemma NdcgPerfectExactly(d: Discount, retrieved: seq<int>, expected: set<int>, k: int)
    requires Discounting(d) && DupFree(retrieved) && k >= 1 && expected != {}
    ensures Ndcg(d, retrieved, expected, k) == 1.0 <==> Leading(retrieved, expected, IdealHits(expected, k))
  {
    var m := IdealHits(expected, k);
    var top := TopK(retrieved, k);
    var h := Hits(top, expected);
    HitsAtMostIdeal(retrieved, expected, k);
    DcgAtMostIdeal(d, top, expected);
    IdealGrows(d, h, m);
    IdealGrows(d, 0, m);
    Ratio(Dcg(d, top, expected), Ideal(d, m));
    if Leading(retrieved, expected, m) {
      assert Leading(top, expected, m);
      LeadingCounts(top, expected, m);
    }
  }

  /** MRR is the reciprocal of the rank of the first relevant item. */
  lemma {:induction false} MrrIsFirst(items: seq<int>, expected: set<int>, start: nat, i: nat)
    requires start >= 1 && i < |items| && items[i] in expected
    requires forall j :: 0 <= j < i ==> items[j] !in expected
    ensures MrrFrom(items, expected, start) == 1.0 / (start + i) as real
  {
    if i > 0 {
      assert forall j :: 0 <= j < i - 1 ==> items[1..][j] == items[j + 1];
      MrrIsFirst(items[1..], expected, start + 1, i - 1);
    }
  }

  /** It is 0 exactly if there is none. */
  lemma {:induction false} MrrZeroExactly(items: seq<int>, expected: set<int>, start: nat)
    requires start >= 1
    ensures MrrFrom(items, expected, start) == 0.0 <==> forall x :: x in items ==> x !in expected
  {
    if items != [] {
      assert forall x :: x in items <==> x == items[0] || x in items[1..];
      MrrZeroExactly(items[1..], expected, start + 1);
      assert 1.0 / start as real > 0.0;
    }
  }

  /** Nothing expected, or nothing looked at, is worth 0; otherwise the metric is gain in units of the ideal gain. */
  lemma NdcgExactly(d: Discount, retrieved: seq<int>, expected: set<int>, k: int)
    requires Discounting(d)
    ensures expected == {} || k <= 0 ==> Ndcg(d, retrieved, expected, k) == 0.0
    ensures expected != {} && k > 0 ==>
              var ideal := Ideal(d, if k < |expected| then k else |expected|);
              ideal > 0.0 && Ndcg(d, retrieved, expected, k) * ideal == Dcg(d, TopK(retrieved, k), expected)
  {
    hide Dcg, TopK, Discounting;
    var m := IdealHits(expected, k);
    IdealGrows(d, 0, m);
    if expected != {} && k > 0 {
      assert |expected| > 0;
      Quotient(Dcg(d, TopK(retrieved, k), expected), Ideal(d, m));
    }
  }

  lemma Quotient(a: real, b: real)
    requires b > 0.0
    ensures a / b * b == a
  {
  }

  /** The slice is the first k items, or all but the last -k for a negative k, as far as there are any. */
  lemma TopKExactly(retrieved: seq<int>, k: int)
    ensures TopK(retrieved, k) <= retrieved
    ensures k >= 0 ==> |TopK(retrieved, k)| == if k < |retrieved| then k else |retrieved|
    ensures k < 0 ==> |TopK(retrieved, k)| == if -k < |retrieved| then |retrieved| + k else 0
  {
  }

  // ---------------------------------------------------------------- swap law

  function Swap(items: seq<int>, i: nat): seq<int>
    requires i + 1 < |items|
  {
    items[i := items[i + 1]][i + 1 := items[i]]
  }

  lemma SwapExactly(items: seq<int>, i: nat, j: nat)
    requires i + 1 < |items| && j < |items|
    ensures |Swap(items, i)| == |items|
    ensures Swap(items, i)[j] == items[if j == i then i + 1 else if j == i + 1 then i else j]
  {
  }

  lemma {:induction false} DcgSwap(d: Discount, items: seq<int>, expected: set<int>, i: nat)
    requires Discounting(d) && i + 1 < |items|
    requires items[i] !in expected && items[i + 1] in expected
    ensures Dcg(d, Swap(items, i), expected) >= Dcg(d, items, expected)
  {
    var n := |items|;
    var front := items[..n - 1];
    var swapped := Swap(items, i);
    if i + 1 < n - 1 {
      assert swapped[..n - 1] == Swap(front, i);
      DcgSwap(d, front, expected, i);
    } else {
      assert swapped[..n - 1][..n - 2] == items[..n - 2] == front[..n - 2];
      Falls(d, n - 1, n);
    }
  }

  /** Moving a relevant item up past an irrelevant neighbour never lowers nDCG, at any cut-off. */
  lemma NdcgSwap(d: Discount, retrieved: seq<int>, expected: set<int>, k: int, i: nat)
    requires Discounting(d) && i + 1 < |retrieved|
    requires retrieved[i] !in expected && retrieved[i + 1] in expected
    ensures Ndcg(d, Swap(retrieved, i), expected, k) >= Ndcg(d, retrieved, expected, k)
  {
    var ideal := Ideal(d, IdealHits(expected, k));
    var top, better := TopK(retrieved, k), TopK(Swap(retrieved, i), k);
    if i + 1 < |top| {
      assert better == Swap(top, i);
      DcgSwap(d, top, expected, i);
    } else if i + 1 == |top| {
      assert better[..i] == top[..i];
      Positive(d, i + 1);
    } else {
      assert better == top;
    }
    if ideal > 0.0 {
      Scaled(Dcg(d, top, expected), Dcg(d, better, expected), ideal);
    }
  }

  lemma Scaled(a: real, b: real, c: real)
    requires a <= b && c > 0.0
    ensures a / c <= b / c
  {
    assert b / c - a / c == (b - a) / c;
  }

  /** MRR obeys the same law. */
  lemma {:induction false} MrrSwap(items: seq<int>, expected: set<int>, i: nat, start: nat)
    requires start >= 1 && i + 1 < |items|
    requires items[i] !in expected && items[i + 1] in expected
    ensures MrrFrom(Swap(items, i), expected, start) >= MrrFrom(items, expected, start)
  {
    var swapped := Swap(items, i);
    if i == 0 {
      assert items[1..][0] == items[1];
      assert 1.0 / start as real >= 1.0 / (start + 1) as real by {
        var x := start as real;
        assert 1.0 / x - 1.0 / (x + 1.0) == 1.0 / (x * (x + 1.0));
      }
    } else if items[0] !in expected {
      assert swapped[1..] == Swap(items[1..], i - 1);
      MrrSwap(items[1..], expected, i - 1, start + 1);
    }
  }
}
