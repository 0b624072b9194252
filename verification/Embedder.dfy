/** `CachingEmbedder` from `embedder.py`, over a cache that may forget anything at any time. */
module Embedder {
  import opened Wrappers

  type Vector = seq<real>

  /** `EmbeddingCache`: each text has its own entry. */
  class EmbeddingCache {
    var entries: map<string, Vector>

    constructor ()
      ensures entries == map[]
    {
      entries := map[];
    }

    /** Whatever runs the cache drops entries as it likes. */
    method Evict(gone: set<string>)
      modifies this
      ensures entries == old(entries) - gone
    {
      entries := entries - gone;
    }

    method Get(text: string) returns (r: Option<Vector>)
      ensures r == if text in entries then Some(entries[text]) else None
    {
      r := if text in entries then Some(entries[text]) else None;
    }

    method Set(text: string, v: Vector)
      modifies this
      ensures entries == old(entries)[text := v]
    {
      entries := entries[text := v];
    }
  }

  /** What the inner embedder does with a batch: an answer of any length, or an exception. */
  type Inner = seq<string> -> Option<seq<Vector>>

  function All(f: string -> Vector, texts: seq<string>): seq<Vector> {
    seq(|texts|, i requires 0 <= i < |texts| => f(texts[i]))
  }

  /** When it answers, the inner embedder gives each text its own vector, in order. */
  ghost predicate Faithful(inner: Inner, f: string -> Vector) {
    forall texts :: inner(texts).Some? ==> inner(texts).value == All(f, texts)
  }

  ghost predicate Honest(entries: map<string, Vector>, f: string -> Vector) {
    forall t :: t in entries ==> entries[t] == f(t)
  }

  /** The places that were not found. */
  function Missing(found: seq<bool>): (r: seq<nat>)
    ensures forall i: nat :: i in r <==> i < |found| && !found[i]
    ensures forall i, j :: 0 <= i < j < |r| ==> r[i] < r[j]
  {
    if found == [] then []
    else
      var n := |found| - 1;
      var front := Missing(found[..n]);
      assert forall j :: 0 <= j < |front| ==> front[j] in front;
      if found[n] then front else front + [n]
  }

  function At(texts: seq<string>, places: seq<nat>): seq<string>
    requires forall i :: i in places ==> i < |texts|
  {
    seq(|places|, j requires 0 <= j < |places| => assert places[j] in places; texts[places[j]])
  }

  // ---------------------------------------------------------------- what the cache holds

  /** What the cache forgets before each operation on it, counted from 0. */
  type Evictions = nat -> set<string>

  ghost predicate Quiet(evict: Evictions) {
    forall n :: evict(n) == {}
  }

  /** Not forgotten from one operation up to another. */
  ghost predicate Outlasts(t: string, evict: Evictions, from: nat, to: nat) {
    forall m: nat :: from <= m < to ==> t !in evict(m)
  }

  /** What is left after `n` operations that only read. */
  function Remaining(entries: map<string, Vector>, evict: Evictions, n: nat): map<string, Vector> {
    if n == 0 then entries else Remaining(entries, evict, n - 1) - evict(n - 1)
  }

  lemma {:induction false} RemainingExactly(entries: map<string, Vector>, evict: Evictions, n: nat)
    ensures forall t :: t in Remaining(entries, evict, n) <==> t in entries && Outlasts(t, evict, 0, n)
    ensures forall t :: t in Remaining(entries, evict, n) ==> Remaining(entries, evict, n)[t] == entries[t]
  {
    if n > 0 {
      RemainingExactly(entries, evict, n - 1);
      forall t
        ensures Outlasts(t, evict, 0, n) <==> Outlasts(t, evict, 0, n - 1) && t !in evict(n - 1)
      {
      }
    }
  }

  /** What the cache holds after `n` vectors have been written, the first of them in operation `turn`. */
  function Filled(
    entries: map<string, Vector>, texts: seq<string>, vectors: seq<Vector>, evict: Evictions, turn: nat, n: nat)
    : map<string, Vector>
    requires n <= |texts| && n <= |vectors|
  {
    if n == 0 then entries
    else (Filled(entries, texts, vectors, evict, turn, n - 1) - evict(turn + n - 1))[texts[n - 1] := vectors[n - 1]]
  }

  /** Written and not forgotten since the last time, or there before and not forgotten. */
  ghost predicate Lasting(
    t: string, entries: map<string, Vector>, texts: seq<string>, evict: Evictions, turn: nat, n: nat)
    requires n <= |texts|
  {
    || (exists j: nat :: j < n && texts[j] == t && Outlasts(t, evict, turn + j + 1, turn + n))
    || (t in entries && Outlasts(t, evict, turn, turn + n))
  }

  /** A text is in the cache after the writes exactly if it lasts. */
  lemma {:induction false} FilledExactly(
    entries: map<string, Vector>, texts: seq<string>, vectors: seq<Vector>, evict: Evictions, turn: nat, n: nat,
    t: string)
    requires n <= |texts| && n <= |vectors|
    ensures t in Filled(entries, texts, vectors, evict, turn, n) <==> Lasting(t, entries, texts, evict, turn, n)
  {
    if n > 0 {
      FilledExactly(entries, texts, vectors, evict, turn, n - 1, t);
      LastingStep(t, entries, texts, evict, turn, n);
    }
  }

  lemma LastingStep(t: string, entries: map<string, Vector>, texts: seq<string>, evict: Evictions, turn: nat, n: nat)
    requires 0 < n <= |texts|
    ensures Lasting(t, entries, texts, evict, turn, n)
       <==> texts[n - 1] == t || (Lasting(t, entries, texts, evict, turn, n - 1) && t !in evict(turn + n - 1))
  {
    var last := turn + n - 1;
    forall from: nat | from <= last
      ensures Outlasts(t, evict, from, turn + n) <==> Outlasts(t, evict, from, last) && t !in evict(last)
    {
    }
    assert Outlasts(t, evict, turn + n, turn + n);
    assert forall j: nat :: j < n - 1 && texts[j] == t ==>
        (Outlasts(t, evict, turn + j + 1, turn + n) <==> Outlasts(t, evict, turn + j + 1, last) && t !in evict(last));
    if texts[n - 1] == t {
      assert Outlasts(t, evict, turn + (n - 1) + 1, turn + n);
    }
  }

  lemma {:induction false} FilledHonest(
    entries: map<string, Vector>, texts: seq<string>, f: string -> Vector, evict: Evictions, turn: nat, n: nat)
    requires Honest(entries, f) && n <= |texts|
    ensures Honest(Filled(entries, texts, All(f, texts), evict, turn, n), f)
  {
    if n > 0 {
      FilledHonest(entries, texts, f, evict, turn, n - 1);
    }
  }

  /** Without forgetting, everything that was there or was written is there. */
  lemma {:induction false} QuietlyFilled(
    entries: map<string, Vector>, texts: seq<string>, vectors: seq<Vector>, evict: Evictions, turn: nat, n: nat)
    requires Quiet(evict) && n <= |texts| && n <= |vectors|
    ensures forall t :: t in Filled(entries, texts, vectors, evict, turn, n) <==> t in entries || t in texts[..n]
  {
    if n > 0 {
      QuietlyFilled(entries, texts, vectors, evict, turn, n - 1);
      assert texts[..n] == texts[..n - 1] + [texts[n - 1]];
    }
  }

  // ---------------------------------------------------------------- the embedder

  datatype Reply = Embedded(vectors: seq<Vector>) | InnerRaised | LengthMismatch

  function Least(a: nat, b: nat): nat {
    if a < b then a else b
  }

  /** What a call leaves in the cache: what the lookups left of it, and the answers as far as they go. */
  function Leaves(
    entries: map<string, Vector>, texts: seq<string>, sent: Option<seq<string>>, inner: Inner, evict: Evictions)
    : map<string, Vector>
  {
    var left := Remaining(entries, evict, |texts|);
    if sent.None? || inner(sent.value).None? then left
    else
      var vectors := inner(sent.value).value;
      Filled(left, sent.value, vectors, evict, |texts|, Least(|sent.value|, |vectors|))
  }

  class CachingEmbedder {
    const cache: EmbeddingCache

    constructor (cache: EmbeddingCache)
      ensures this.cache == cache
    {
      this.cache := cache;
    }

    /**
     `embed`. A text is found exactly if the cache held it and has not forgotten it by the time it is asked. The inner
     embedder is sent the texts that were not found, in order, and nothing when all were; the answer is what it would give
     for the whole batch, in input order, and the cache then holds the answers and stays honest. After an answered call
     that forgets nothing, the whole batch is in the cache, so that the same call again sends nothing.
     */
    method Embed(texts: seq<string>, inner: Inner, evict: Evictions, ghost f: string -> Vector)
      returns (r: Reply, sent: Option<seq<string>>, found: seq<bool>)
      modifies cache
      ensures |found| == |texts|
      ensures forall i :: 0 <= i < |texts| ==>
                (found[i] <==> texts[i] in old(cache.entries) && Outlasts(texts[i], evict, 0, i + 1))
      ensures sent == if Missing(found) == [] then None else Some(At(texts, Missing(found)))
      ensures r.InnerRaised? <==> sent.Some? && inner(sent.value).None?
      ensures r.LengthMismatch? <==> sent.Some? && inner(sent.value).Some? && |inner(sent.value).value| != |sent.value|
      ensures cache.entries == Leaves(old(cache.entries), texts, sent, inner, evict)
      ensures Quiet(evict) && r.Embedded? ==> forall t :: t in texts ==> t in cache.entries
      ensures Quiet(evict) && (forall t :: t in texts ==> t in old(cache.entries)) ==> sent.None?
      ensures Honest(old(cache.entries), f) && Faithful(inner, f) ==>
                && Honest(cache.entries, f)
                && !r.LengthMismatch?
                && (r.Embedded? ==> r.vectors == All(f, texts))
    {
      hide Faithful, Missing, Honest, Remaining, Filled, Outlasts, All, At;
      ghost var before := cache.entries;
      var cached;
      cached, found := LookUp(texts, evict);
      ghost var left := cache.entries;
      MissingPlaces(found);
      LeftHonest(before, f, evict, |texts|);
      HonestHere(before, f);
      var misses := Missing(found);
      sent := None;
      if misses != [] {
        var missTexts := At(texts, misses);
        sent := Some(missTexts);
        AsMany(f, texts, misses);
        var result := inner(missTexts);
        if result.None? {
          NotAllHere(texts, before, evict, found, misses);
          return InnerRaised, sent, found;
        }
        var fits := Fill(texts, misses, result.value, cached, evict, |texts|, found, f);
        if Honest(before, f) && Faithful(inner, f) {
          FaithfulHere(inner, f, missTexts);
          FilledHonest(left, missTexts, f, evict, |texts|, |misses|);
        }
        NotAllHere(texts, before, evict, found, misses);
        if !fits {
          return LengthMismatch, sent, found;
        }
        if Quiet(evict) {
          AllHereNow(texts, before, left, result.value, evict, found, misses);
        }
      } else if Quiet(evict) {
        AllHereStill(texts, before, evict, found);
      }
      var vectors := Collect(cached, f, texts);
      r := Embedded(vectors);
    }

    /** Asking the cache for each text, while it forgets things. */
    method LookUp(texts: seq<string>, evict: Evictions) returns (cached: array<Option<Vector>>, found: seq<bool>)
      modifies cache
      ensures fresh(cached) && cached.Length == |texts| == |found|
      ensures cache.entries == Remaining(old(cache.entries), evict, |texts|)
      ensures forall i :: 0 <= i < |texts| ==>
                (found[i] <==> texts[i] in old(cache.entries) && Outlasts(texts[i], evict, 0, i + 1))
      ensures forall i :: 0 <= i < |texts| ==>
                cached[i] == if found[i] then Some(old(cache.entries)[texts[i]]) else None
    {
      hide Outlasts;
      var n := |texts|;
      ghost var before := cache.entries;
      cached := new Option<Vector>[n](_ => None);
      found := [];
      for i := 0 to n
        invariant cached.Length == n && |found| == i
        invariant cache.entries == Remaining(before, evict, i)
        invariant forall j :: 0 <= j < i ==>
                    (found[j] <==> texts[j] in before && Outlasts(texts[j], evict, 0, j + 1))
        invariant forall j :: 0 <= j < i ==> cached[j] == if found[j] then Some(before[texts[j]]) else None
      {
        cache.Evict(evict(i));
        RemainingExactly(before, evict, i + 1);
        cached[i] := cache.Get(texts[i]);
        found := found + [cached[i].Some?];
      }
    }

    /** Writing the answers into their places and into the cache, as far as the answers go. */
    method Fill(
      texts: seq<string>, misses: seq<nat>, result: seq<Vector>, cached: array<Option<Vector>>,
      evict: Evictions, turn: nat, ghost found: seq<bool>, ghost f: string -> Vector)
      returns (fits: bool)
      requires cached.Length == |texts| == |found| && misses == Missing(found)
      requires forall j :: 0 <= j < |texts| && found[j] ==> cached[j].Some?
      modifies cache, cached
      ensures fits <==> |result| == |misses|
      ensures |At(texts, misses)| == |misses|
      ensures cache.entries
           == Filled(old(cache.entries), At(texts, misses), result, evict, turn, Least(|misses|, |result|))
      ensures fits ==> forall j :: 0 <= j < |texts| ==> cached[j].Some?
      ensures result == All(f, At(texts, misses)) ==>
                forall j :: 0 <= j < |texts| ==>
                  cached[j] == if found[j] then old(cached[j]) else Some(f(texts[j]))
    {
      hide Missing, All, At, Filled;
      MissingPlaces(found);
      AsMany(f, texts, misses);
      ghost var missTexts := At(texts, misses);
      ghost var right := result == All(f, missTexts);
      ghost var before := cache.entries;
      FilledNone(before, missTexts, result, evict, turn);
      var m := Least(|misses|, |result|);
      ghost var filled: set<nat> := {};
      for j := 0 to m
        invariant cache.entries == Filled(before, missTexts, result, evict, turn, j)
        invariant forall k :: 0 <= k < |misses| ==> (misses[k] in filled <==> k < j)
        invariant forall i :: 0 <= i < |texts| && i !in filled ==> cached[i] == old(cached[i])
        invariant forall i :: 0 <= i < |texts| && i in filled ==> !found[i] && cached[i].Some?
        invariant right ==> forall i :: 0 <= i < |texts| && i in filled ==> cached[i] == Some(f(texts[i]))
      {
        var place := misses[j];
        assert place in misses;
        OneAnswer(f, texts, misses, j);
        FilledStep(before, missTexts, result, evict, turn, j);
        cached[place] := Some(result[j]);
        cache.Evict(evict(turn + j));
        cache.Set(texts[place], result[j]);
        filled := filled + {place};
      }
      fits := |result| == |misses|;
      assert forall k :: 0 <= k < |misses| && fits ==> misses[k] in filled;
    }

    /** The values that are there, in order. */
    method Collect(cached: array<Option<Vector>>, ghost f: string -> Vector, ghost texts: seq<string>)
      returns (vectors: seq<Vector>)
      requires cached.Length == |texts| && forall j :: 0 <= j < |texts| ==> cached[j].Some?
      ensures (forall j :: 0 <= j < |texts| ==> cached[j] == Some(f(texts[j]))) ==> vectors == All(f, texts)
    {
      vectors := [];
      for i := 0 to cached.Length
        invariant |vectors| == i && forall j :: 0 <= j < i ==> Some(vectors[j]) == cached[j]
      {
        if cached[i].Some? {
          vectors := vectors + [cached[i].value];
        }
      }
    }
  }

  // ---------------------------------------------------------------- facts about one call

  lemma FaithfulHere(inner: Inner, f: string -> Vector, texts: seq<string>)
    requires Faithful(inner, f) && inner(texts).Some?
    ensures inner(texts).value == All(f, texts)
  {
  }

  lemma MissingPlaces(found: seq<bool>)
    ensures forall i: nat :: i in Missing(found) <==> i < |found| && !found[i]
    ensures forall i, j :: 0 <= i < j < |Missing(found)| ==> Missing(found)[i] < Missing(found)[j]
  {
  }

  lemma OneAnswer(f: string -> Vector, texts: seq<string>, places: seq<nat>, j: nat)
    requires (forall i :: i in places ==> i < |texts|) && j < |places|
    ensures j < |At(texts, places)| && j < |All(f, At(texts, places))| && places[j] in places
    ensures At(texts, places)[j] == texts[places[j]] && All(f, At(texts, places))[j] == f(texts[places[j]])
  {
    assert places[j] in places;
  }

  lemma AsMany(f: string -> Vector, texts: seq<string>, places: seq<nat>)
    requires forall i :: i in places ==> i < |texts|
    ensures |At(texts, places)| == |All(f, At(texts, places))| == |places|
  {
  }

  lemma LeftHonest(entries: map<string, Vector>, f: string -> Vector, evict: Evictions, n: nat)
    ensures Honest(entries, f) ==> Honest(Remaining(entries, evict, n), f)
  {
    RemainingExactly(entries, evict, n);
  }

  lemma HonestHere(entries: map<string, Vector>, f: string -> Vector)
    ensures Honest(entries, f) ==> forall t :: t in entries ==> entries[t] == f(t)
  {
  }

  lemma FilledNone(
    entries: map<string, Vector>, texts: seq<string>, vectors: seq<Vector>, evict: Evictions, turn: nat)
    ensures Filled(entries, texts, vectors, evict, turn, 0) == entries
  {
  }

  lemma FilledStep(
    entries: map<string, Vector>, texts: seq<string>, vectors: seq<Vector>, evict: Evictions, turn: nat, n: nat)
    requires n < |texts| && n < |vectors|
    ensures Filled(entries, texts, vectors, evict, turn, n + 1)
         == (Filled(entries, texts, vectors, evict, turn, n) - evict(turn + n))[texts[n] := vectors[n]]
  {
  }

  /** A text not found was not there, or was forgotten. */
  lemma NotAllHere(
    texts: seq<string>, entries: map<string, Vector>, evict: Evictions, found: seq<bool>, misses: seq<nat>)
    requires |found| == |texts| && misses == Missing(found) != []
    requires forall i :: 0 <= i < |texts| ==>
               (found[i] <==> texts[i] in entries && Outlasts(texts[i], evict, 0, i + 1))
    ensures !(Quiet(evict) && forall t :: t in texts ==> t in entries)
  {
    MissingPlaces(found);
    assert misses[0] in misses;
    var i := misses[0];
    assert texts[i] in texts;
    assert Quiet(evict) ==> Outlasts(texts[i], evict, 0, i + 1);
  }

  lemma AllHereStill(texts: seq<string>, entries: map<string, Vector>, evict: Evictions, found: seq<bool>)
    requires Quiet(evict) && |found| == |texts| && Missing(found) == []
    requires forall i :: 0 <= i < |texts| ==>
               (found[i] <==> texts[i] in entries && Outlasts(texts[i], evict, 0, i + 1))
    ensures forall t :: t in texts ==> t in Remaining(entries, evict, |texts|)
  {
    MissingPlaces(found);
    RemainingExactly(entries, evict, |texts|);
    forall t | t in texts
      ensures t in Remaining(entries, evict, |texts|)
    {
      var i: nat :| i < |texts| && texts[i] == t;
      assert i !in Missing(found);
      assert Outlasts(t, evict, 0, |texts|);
    }
  }

  lemma AllHereNow(
    texts: seq<string>, entries: map<string, Vector>, left: map<string, Vector>, result: seq<Vector>, evict: Evictions,
    found: seq<bool>, misses: seq<nat>)
    requires Quiet(evict) && |found| == |texts| && misses == Missing(found) && left == Remaining(entries, evict, |texts|)
    requires |result| == |misses| == |At(texts, misses)|
    requires forall i :: 0 <= i < |texts| ==>
               (found[i] <==> texts[i] in entries && Outlasts(texts[i], evict, 0, i + 1))
    ensures forall t :: t in texts ==> t in Filled(left, At(texts, misses), result, evict, |texts|, |misses|)
  {
    hide Filled, Remaining;
    MissingPlaces(found);
    RemainingExactly(entries, evict, |texts|);
    var missTexts := At(texts, misses);
    QuietlyFilled(left, missTexts, result, evict, |texts|, |misses|);
    assert missTexts[..|misses|] == missTexts;
    forall t | t in texts
      ensures t in left || t in missTexts
    {
      var i: nat :| i < |texts| && texts[i] == t;
      if found[i] {
        assert Outlasts(t, evict, 0, |texts|);
      } else {
        assert i in misses;
        var j :| 0 <= j < |misses| && misses[j] == i;
        assert missTexts[j] == t;
      }
    }
  }
}
