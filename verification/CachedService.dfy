/** The response cache of `caches.py` and the service around it in `cached_service.py`. */
module CachedService {
  import opened Wrappers
  import opened Cache
  import opened Schemas
  import opened QueryKey
  import opened AsciiText

  const RESPONSE_TTL: nat := 86_400

  /** How answers are written as text and read back, and how keys are made. */
  datatype Codec = Codec(
    dump: RecommendationResult -> string,
    load: string -> RecommendationResult,
    hash: Hash,
    version: string)
  {
    ghost predicate Sound() {
      IsHash(hash) && forall r :: load(dump(r)) == r
    }

    function KeyOf(tenant: Option<string>, query: string): string {
      ResponseKey(hash, version, tenant, query)
    }
  }

  /** An answer the inner service gave, and when. */
  datatype Given = Given(tenant: Option<string>, query: string, result: RecommendationResult, at: int)

  /** What the entry under a key must be: a sound answer that was given for that key, kept for a day. */
  ghost predicate FromGiven(codec: Codec, key: string, item: Item, given: seq<Given>) {
    exists i :: 0 <= i < |given| && Explains(codec, key, item, given[i])
  }

  ghost predicate Explains(codec: Codec, key: string, item: Item, g: Given) {
    && key == codec.KeyOf(g.tenant, g.query)
    && item == Item(Text(codec.dump(g.result)), Some(g.at + RESPONSE_TTL * SECOND))
    && !g.result.degraded
  }

  /** An earlier answer that may be given again: same tenant segment, same words, not degraded, at most a day old. */
  ghost predicate Reusable(g: Given, tenant: Option<string>, query: string, now: int, r: RecommendationResult) {
    && g.result == r
    && !r.degraded
    && Segment(g.tenant) == Segment(tenant)
    && Words(Lower(g.query)) == Words(Lower(query))
    && now <= g.at + 86_400_000
  }

  predicate IsResponse(key: string) {
    "resp:" <= key
  }

  /** Every response entry is an answer that was given; what else the cache holds does not matter. */
  ghost predicate AllGiven(codec: Codec, kv: map<string, Item>, given: seq<Given>) {
    forall k :: k in kv && IsResponse(k) ==> FromGiven(codec, k, kv[k], given)
  }

  lemma KeyIsResponse(codec: Codec, tenant: Option<string>, query: string)
    ensures IsResponse(codec.KeyOf(tenant, query))
  {
    hide NormalizeQuery;
  }

  class CachedRecommendationService {
    const store: InMemoryCache<string>
    const codec: Codec
    ghost var given: seq<Given>

    /** Over a cache that may already hold answers, kept by an earlier service or by another one that shares it. */
    constructor (store: InMemoryCache<string>, codec: Codec, ghost earlier: seq<Given>)
      requires codec.Sound() && AllGiven(codec, store.kv, earlier)
      ensures this.store == store && this.codec == codec && given == earlier && Valid()
    {
      this.store, this.codec, given := store, codec, earlier;
    }

    /** What others do to the cache: any change that leaves only answers that were given under response keys. */
    method Elsewhere(kv: map<string, Item>, ghost more: seq<Given>)
      requires Valid() && AllGiven(codec, kv, given + more)
      modifies this`given, store
      ensures Valid() && store.kv == kv && given == old(given) + more
    {
      store.kv := kv;
      given := given + more;
    }

    ghost predicate Valid()
      reads this, store
    {
      codec.Sound() && AllGiven(codec, store.kv, given)
    }

    /** Entries may be dropped at any time. */
    method Evict(gone: set<string>)
      requires Valid()
      modifies store
      ensures Valid() && store.kv == old(store.kv) - gone
    {
      store.kv := store.kv - gone;
    }

    /** `ResponseCache.get`. */
    method Get(tenant: Option<string>, query: string, now: int) returns (r: Option<RecommendationResult>)
      requires Valid()
      modifies store
      ensures Valid()
      ensures r.Some? <==> old(store.Live(codec.KeyOf(tenant, query), now)).Some?
      ensures r.Some? ==> exists i :: 0 <= i < |given| && Reusable(given[i], tenant, query, now, r.value)
      ensures forall k, t :: t >= now ==> store.Live(k, t) == old(store.Live(k, t))
    {
      hide ResponseKey, Words, Lower;
      var key := codec.KeyOf(tenant, query);
      KeyIsResponse(codec, tenant, query);
      var raw := store.Get(key, now);
      if raw.None? {
        return None;
      }
      ghost var i :| 0 <= i < |given| && Explains(codec, key, store.kv[key], given[i]);
      ShareEntry(codec, given[i], tenant, query);
      r := Some(codec.load(raw.value.text));
      assert Reusable(given[i], tenant, query, now, r.value);
    }

    /**
     `recommend`. A hit is an answer an inner service gave before, to the same tenant segment and for the same words, not
     degraded and not over a day old; otherwise the inner service's answer is returned, and kept from then on, `later`,
     unless it is degraded. Nothing else in the cache changes.
     */
    method Recommend(query: string, tenant: Option<string>, now: int, inner: RecommendationResult, later: int)
      returns (r: RecommendationResult, hit: bool)
      requires Valid()
      modifies this`given, store
      ensures Valid()
      ensures hit <==> old(store.Live(codec.KeyOf(tenant, query), now)).Some?
      ensures hit ==> given == old(given)
                      && exists i :: 0 <= i < |given| && Reusable(given[i], tenant, query, now, r)
      ensures !hit ==> r == inner && given == old(given) + [Given(tenant, query, inner, later)]
      ensures forall k, t :: t >= now && (hit || inner.degraded || k != codec.KeyOf(tenant, query)) ==>
                store.Live(k, t) == old(store.Live(k, t))
      ensures !hit && !inner.degraded ==>
                store.Live(codec.KeyOf(tenant, query), later)
                == Some(Item(Text(codec.dump(inner)), Some(later + RESPONSE_TTL * SECOND)))
    {
      hide ResponseKey, Words, Lower, Reusable;
      var cached := Get(tenant, query, now);
      if cached.Some? {
        return cached.value, true;
      }
      r, hit := inner, false;
      ghost var before := given;
      given := given + [Given(tenant, query, inner, later)];
      assert given[|before|] == Given(tenant, query, inner, later) && given[..|before|] == before;
      MoreGiven(codec, store.kv, before, given);
      if !inner.degraded {
        var key := codec.KeyOf(tenant, query);
        store.Set(key, Text(codec.dump(inner)), Some(RESPONSE_TTL), later);
        assert Explains(codec, key, store.kv[key], given[|before|]);
      }
    }

    /** `astream`, as far as the cache goes: a hit is replayed, a miss is left to the inner stream and never kept. */
    method Astream(query: string, tenant: Option<string>, now: int) returns (replay: Option<RecommendationResult>)
      requires Valid()
      modifies store
      ensures Valid()
      ensures replay.Some? <==> old(store.Live(codec.KeyOf(tenant, query), now)).Some?
      ensures replay.Some? ==> exists i :: 0 <= i < |given| && Reusable(given[i], tenant, query, now, replay.value)
      ensures forall k, t :: t >= now ==> store.Live(k, t) == old(store.Live(k, t))
    {
      replay := Get(tenant, query, now);
    }
  }

  lemma ShareEntry(codec: Codec, g: Given, tenant: Option<string>, query: string)
    requires codec.Sound() && codec.KeyOf(g.tenant, g.query) == codec.KeyOf(tenant, query)
    ensures Segment(g.tenant) == Segment(tenant) && Words(Lower(g.query)) == Words(Lower(query))
  {
    SharedEntryExactly(codec.hash, codec.version, g.tenant, g.query, tenant, query);
  }

  lemma MoreGiven(codec: Codec, kv: map<string, Item>, before: seq<Given>, after: seq<Given>)
    requires before <= after && AllGiven(codec, kv, before)
    ensures AllGiven(codec, kv, after)
  {
    forall k | k in kv && IsResponse(k)
      ensures FromGiven(codec, k, kv[k], after)
    {
      var i :| 0 <= i < |before| && Explains(codec, k, kv[k], before[i]);
      assert Explains(codec, k, kv[k], after[i]);
    }
  }
}
