/** The caches of `cache.py`, on a clock that counts milliseconds. */
module Cache {
  import opened Wrappers

  const SECOND: nat := 1000

  /** Counters are kept apart from other text, where the source stores digits. */
  datatype Value = Text(text: string) | Counter(count: nat)

  datatype Item = Item(value: Value, expiry: Option<int>)

  predicate Lapsed(item: Item, now: int) {
    item.expiry.Some? && item.expiry.value < now
  }

  /** `InMemoryCache`; expired items stay until they are next read. */
  class InMemoryCache<K(==, !new)> {
    var kv: map<K, Item>

    constructor ()
      ensures kv == map[]
    {
      kv := map[];
    }

    /** What the key holds at a moment, whatever is still stored. */
    function Live(key: K, now: int): Option<Item>
      reads this
    {
      if key in kv && !Lapsed(kv[key], now) then Some(kv[key]) else None
    }

    /** `get`: a read that drops an expired item, which no later read can notice. */
    method Get(key: K, now: int) returns (r: Option<Value>)
      modifies this
      ensures r == if old(Live(key, now)).Some? then Some(old(Live(key, now)).value.value) else None
      ensures forall k, t :: t >= now ==> Live(k, t) == old(Live(k, t))
      ensures old(Live(key, now)).Some? ==> kv == old(kv)
      ensures old(Live(key, now)).None? ==> kv == old(kv) - {key}
    {
      if key !in kv {
        assert kv - {key} == kv;
        return None;
      }
      var item := kv[key];
      if Lapsed(item, now) {
        kv := kv - {key};
        return None;
      }
      return Some(item.value);
    }

    /** `set`. */
    method Set(key: K, value: Value, ttl: Option<int>, now: int)
      modifies this
      ensures kv == old(kv)[key := Item(value, if ttl.Some? then Some(now + ttl.value * SECOND) else None)]
    {
      kv := kv[key := Item(value, if ttl.Some? then Some(now + ttl.value * SECOND) else None)];
    }

    /** `set_nx`: of the callers that find the key free, one sets it; the others are told it is taken. */
    method SetNx(key: K, value: Value, ttl: int, now: int) returns (ok: bool)
      modifies this
      ensures ok <==> old(Live(key, now)).None?
      ensures ok ==> Live(key, now) == if ttl >= 0 then Some(Item(value, Some(now + ttl * SECOND))) else None
      ensures !ok ==> Live(key, now) == old(Live(key, now))
      ensures forall k, t :: k != key && t >= now ==> Live(k, t) == old(Live(k, t))
    {
      var existing := Get(key, now);
      if existing.Some? {
        return false;
      }
      Set(key, value, Some(ttl), now);
      return true;
    }

    /** `delete`. */
    method Delete(key: K)
      modifies this
      ensures kv == old(kv) - {key}
    {
      kv := kv - {key};
    }

    /** `incr_with_ttl`: the time to live is set by the increment that creates the counter. None for a value that is not a number. */
    method IncrWithTtl(key: K, ttl: int, now: int) returns (r: Option<nat>)
      modifies this
      ensures var item := old(Live(key, now));
              if item.None? then
                r == Some(1) && kv == old(kv)[key := Item(Counter(1), Some(now + ttl * SECOND))]
              else if item.value.value.Text? then
                r == None && kv == old(kv)
              else
                var n := item.value.value.count + 1;
                r == Some(n) && kv == old(kv)[key := Item(Counter(n), item.value.expiry)]
    {
      var current := Get(key, now);
      if current.None? {
        kv := kv[key := Item(Counter(1), Some(now + ttl * SECOND))];
        return Some(1);
      }
      if current.value.Text? {
        return None;
      }
      var n := current.value.count + 1;
      kv := kv[key := Item(Counter(n), kv[key].expiry)];
      return Some(n);
    }
  }

  /** The server behind `RedisCache`. */
  class RedisCache<K(==, !new)> {
    var kv: map<K, Item>

    constructor ()
      ensures kv == map[]
    {
      kv := map[];
    }

    function Live(key: K, now: int): Option<Item>
      reads this
    {
      if key in kv && !Lapsed(kv[key], now) then Some(kv[key]) else None
    }

    /** `incr_with_ttl`: INCR and EXPIRE together, so every increment pushes the expiry on; 0 when the server is down. */
    method IncrWithTtl(key: K, ttl: int, now: int, up: bool) returns (r: nat)
      modifies this
      ensures var item := old(Live(key, now));
              if !up || (item.Some? && item.value.value.Text?) then
                r == 0 && kv == old(kv)
              else
                && r == (if item.None? then 1 else item.value.value.count + 1)
                && kv == old(kv)[key := Item(Counter(r), Some(now + ttl * SECOND))]
    {
      if !up {
        return 0;
      }
      var count := 0;
      if key in kv && !Lapsed(kv[key], now) {
        if kv[key].value.Text? {
          return 0;
        }
        count := kv[key].value.count;
      }
      kv := kv[key := Item(Counter(count + 1), Some(now + ttl * SECOND))];
      return count + 1;
    }
  }
}
