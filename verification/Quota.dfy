/** The daily quota of `quotas.py` over a cache with expiring counters. Times are milliseconds of UTC. */
module Quota {
  import opened Wrappers
  import opened Cache

  const DAY: nat := 86_400 * SECOND

  datatype Key = Key(user: string, day: nat)

  function KeyOf(user: string, moment: nat): Key {
    Key(user, moment / DAY)
  }

  /** The end of the key's day. */
  function Midnight(k: Key): nat {
    (k.day + 1) * DAY
  }

  /** `_seconds_until_utc_midnight`: whole seconds, rounded down, and at least 1. */
  function SecondsLeft(moment: nat): (s: nat)
    ensures 1 <= s <= 86_400
  {
    var s := (Midnight(KeyOf("", moment)) - moment) / SECOND;
    if s < 1 then 1 else s
  }

  /** The whole seconds left of the day: not one more would fit, unless less than one is left. */
  lemma SecondsLeftExactly(moment: nat)
    ensures var left := DAY - moment % DAY;
            && (left >= SECOND ==> SecondsLeft(moment) * SECOND <= left < (SecondsLeft(moment) + 1) * SECOND)
            && (left < SECOND ==> SecondsLeft(moment) == 1)
  {
    assert moment == moment / DAY * DAY + moment % DAY;
  }

  /** A request by a user: the moment it read from the clock, and when the cache carried out its increment. */
  datatype Call = Call(user: string, moment: nat, at: nat)

  function CallKey(c: Call): Key {
    KeyOf(c.user, c.moment)
  }

  /** Two calls share a counter exactly when one user makes both on one UTC day; each falls within the key's day. */
  lemma CallKeyExactly(a: Call, b: Call)
    ensures CallKey(a) == CallKey(b) <==> a.user == b.user && a.moment / 86_400_000 == b.moment / 86_400_000
    ensures Midnight(CallKey(a)) - 86_400_000 <= a.moment < Midnight(CallKey(a))
  {
    assert a.moment == a.moment / DAY * DAY + a.moment % DAY;
  }

  /** Fixed: the first increment sets the expiry (in memory). Refreshed: every one does (Redis). */
  datatype Policy = Fixed | Refreshed

  datatype Slot = Slot(count: nat, expiry: nat)

  type Slots = map<Key, Slot>

  /** One increment. */
  function Bump(policy: Policy, slots: Slots, c: Call): Slot {
    var k := CallKey(c);
    var expiry := c.at + SecondsLeft(c.moment) * SECOND;
    if k in slots && c.at <= slots[k].expiry then
      Slot(slots[k].count + 1, if policy == Fixed then slots[k].expiry else expiry)
    else Slot(1, expiry)
  }

  /** The counters after a run of calls by any users. */
  function After(policy: Policy, calls: seq<Call>): Slots
    decreases |calls|
  {
    if calls == [] then map[]
    else
      var slots := After(policy, calls[..|calls| - 1]);
      var c := calls[|calls| - 1];
      slots[CallKey(c) := Bump(policy, slots, c)]
  }

  /** The count that the i-th call is given. */
  function CountGiven(policy: Policy, calls: seq<Call>, i: nat): nat
    requires i < |calls|
  {
    Bump(policy, After(policy, calls[..i]), calls[i]).count
  }

  /** The cache works through the calls one at a time, each after it read the clock. */
  ghost predicate InOrder(calls: seq<Call>) {
    && (forall i :: 0 <= i < |calls| ==> calls[i].moment <= calls[i].at)
    && (forall i, j :: 0 <= i < j < |calls| ==> calls[i].at <= calls[j].at)
  }

  /** How many calls on the key were carried out by a given time. */
  function Made(calls: seq<Call>, k: Key, until: int): nat
    decreases |calls|
  {
    if calls == [] then 0
    else
      var c := calls[|calls| - 1];
      Made(calls[..|calls| - 1], k, until) + (if CallKey(c) == k && c.at <= until then 1 else 0)
  }

  /** How many of those were within the limit. */
  function Admitted(policy: Policy, calls: seq<Call>, k: Key, until: int, limit: nat): nat
    decreases |calls|
  {
    if calls == [] then 0
    else
      var n := |calls| - 1;
      var c := calls[n];
      Admitted(policy, calls[..n], k, until, limit)
      + (if CallKey(c) == k && c.at <= until && CountGiven(policy, calls, n) <= limit then 1 else 0)
  }

  /** The last moment at which no counter of the day can have lapsed. */
  function Safe(k: Key): int {
    Midnight(k) - SECOND + 1
  }

  // ---------------------------------------------------------------- the gate

  datatype CounterResult = CounterResult(count: nat, remaining: nat, overLimit: bool, retryAfter: nat)

  datatype Backend = Null | Local(memory: InMemoryCache<Key>) | Remote(redis: RedisCache<Key>)

  /** `QuotaCounter` over one of the caches. */
  class QuotaCounter {
    const cache: Backend

    constructor (cache: Backend)
      ensures this.cache == cache
    {
      this.cache := cache;
    }

    ghost function Kv(): map<Key, Item>
      reads if cache.Local? then {cache.memory} else if cache.Remote? then {cache.redis} else {}
    {
      match cache
      case Null => map[]
      case Local(memory) => memory.kv
      case Remote(redis) => redis.kv
    }

    /** The stored items are the counters of these slots. */
    ghost predicate Holds(slots: Slots)
      reads if cache.Local? then {cache.memory} else if cache.Remote? then {cache.redis} else {}
    {
      && Kv().Keys == slots.Keys
      && forall k :: k in slots ==> Kv()[k] == Item(Counter(slots[k].count), Some(slots[k].expiry))
    }

    ghost function PolicyOf(): Policy {
      if cache.Remote? then Refreshed else Fixed
    }

    /** `incr_and_check`. A cache that is off, or a server that is down, counts 0 and lets the call through. */
    method IncrAndCheck(limit: int, c: Call, up: bool, ghost slots: Slots) returns (r: CounterResult)
      requires Holds(slots)
      modifies if cache.Local? then {cache.memory} else if cache.Remote? then {cache.redis} else {}
      ensures var counted := cache.Local? || (cache.Remote? && up);
              && (counted ==> Holds(slots[CallKey(c) := Bump(PolicyOf(), slots, c)]))
              && (!counted ==> Holds(slots))
              && r.count == (if counted then Bump(PolicyOf(), slots, c).count else 0)
      ensures r.overLimit <==> r.count > limit
      ensures r.remaining == if r.overLimit then 0 else limit - r.count
      ensures 1 <= r.retryAfter <= 86_400 && r.retryAfter == SecondsLeft(c.moment)
    {
      var ttl := SecondsLeft(c.moment);
      var count := 0;
      match cache {
        case Null =>
        case Local(memory) =>
          var n := memory.IncrWithTtl(CallKey(c), ttl, c.at);
          count := n.value;
        case Remote(redis) =>
          count := redis.IncrWithTtl(CallKey(c), ttl, c.at, up);
      }
      r := CounterResult(count, if limit > count then limit - count else 0, count > limit, ttl);
    }
  }

  // ---------------------------------------------------------------- until the last second of the day

  /** Any increment of the day's counter keeps it alive until the last second. */
  lemma ExpiryReaches(c: Call)
    requires c.moment <= c.at
    ensures c.at + SecondsLeft(c.moment) * SECOND >= Safe(CallKey(c))
    ensures c.at >= Safe(CallKey(c)) ==> c.at + SecondsLeft(c.moment) * SECOND > Midnight(CallKey(c))
  {
  }

  lemma {:induction false} MadeGrows(calls: seq<Call>, k: Key, i: nat, until: int)
    requires i < |calls| && CallKey(calls[i]) == k && calls[i].at <= until
    ensures Made(calls, k, until) >= 1
    decreases |calls|
  {
    if i < |calls| - 1 {
      MadeGrows(calls[..|calls| - 1], k, i, until);
    }
  }

  ghost predicate Tracks(policy: Policy, calls: seq<Call>, k: Key) {
    var n := Made(calls, k, Safe(k));
    var slots := After(policy, calls);
    && (k in slots <==> n > 0)
    && (n > 0 ==> slots[k].count == n && slots[k].expiry >= Safe(k))
  }

  lemma FrontInOrder(calls: seq<Call>)
    requires calls != [] && InOrder(calls)
    ensures InOrder(calls[..|calls| - 1])
  {
  }

  /** While every call of the key came early enough, its counter is alive and right. */
  lemma {:induction false} CounterTracks(policy: Policy, calls: seq<Call>, k: Key)
    requires InOrder(calls)
    requires forall i :: 0 <= i < |calls| && CallKey(calls[i]) == k ==> calls[i].at <= Safe(k)
    ensures Tracks(policy, calls, k)
    decreases |calls|
  {
    hide SecondsLeft, KeyOf, InOrder;
    if calls != [] {
      var n := |calls| - 1;
      FrontInOrder(calls);
      CounterTracks(policy, calls[..n], k);
      assert calls[n].moment <= calls[n].at by { OneInOrder(calls, n); }
      ExpiryReaches(calls[n]);
    }
  }

  lemma OneInOrder(calls: seq<Call>, i: nat)
    requires InOrder(calls) && i < |calls|
    ensures calls[i].moment <= calls[i].at
    ensures InOrder(calls[..i])
  {
  }

  /** The n-th call a user makes no later than one second before midnight is given count n, under either policy. */
  lemma CountIsOrdinal(policy: Policy, calls: seq<Call>, i: nat)
    requires InOrder(calls) && i < |calls|
    requires calls[i].at <= Safe(CallKey(calls[i]))
    ensures CountGiven(policy, calls, i) == Made(calls[..i + 1], CallKey(calls[i]), Safe(CallKey(calls[i])))
  {
    var k := CallKey(calls[i]);
    OneInOrder(calls, i);
    CounterTracks(policy, calls[..i], k);
    assert calls[..i + 1][..i] == calls[..i];
  }

  /** Of the calls made that early, exactly as many are admitted as the limit allows. */
  lemma {:induction false} EarlyAdmissions(policy: Policy, calls: seq<Call>, k: Key, limit: nat)
    requires InOrder(calls)
    ensures var n := Made(calls, k, Safe(k));
            Admitted(policy, calls, k, Safe(k), limit) == if n <= limit then n else limit
    decreases |calls|
  {
    hide InOrder, KeyOf, After, Safe;
    if calls != [] {
      var n := |calls| - 1;
      FrontInOrder(calls);
      EarlyAdmissions(policy, calls[..n], k, limit);
      if CallKey(calls[n]) == k && calls[n].at <= Safe(k) {
        CountIsOrdinal(policy, calls, n);
        assert calls[..n + 1] == calls;
      }
    }
  }

  // ---------------------------------------------------------------- a whole day

  function Clock(calls: seq<Call>): nat {
    if calls == [] then 0 else calls[|calls| - 1].at
  }

  /** The counter lapses at most once before midnight, and then only within the last second. */
  ghost predicate OneLapse(policy: Policy, calls: seq<Call>, k: Key, limit: nat) {
    var slots := After(policy, calls);
    var admitted := Admitted(policy, calls, k, Midnight(k), limit);
    if k !in slots then admitted == 0
    else
      var reached := if slots[k].count <= limit then slots[k].count else limit;
      && slots[k].expiry >= Safe(k)
      && slots[k].count >= 1
      && (admitted <= reached
          || (admitted <= limit + reached && Clock(calls) >= Safe(k) && slots[k].expiry > Midnight(k)))
  }

  lemma {:induction false} LapsesOnce(policy: Policy, calls: seq<Call>, k: Key, limit: nat)
    requires InOrder(calls) && Clock(calls) <= Midnight(k)
    ensures OneLapse(policy, calls, k, limit)
    decreases |calls|
  {
    hide SecondsLeft, KeyOf, InOrder;
    if calls != [] {
      var n := |calls| - 1;
      FrontInOrder(calls);
      LastInOrder(calls);
      LapsesOnce(policy, calls[..n], k, limit);
      ExpiryReaches(calls[n]);
    }
  }

  lemma LastInOrder(calls: seq<Call>)
    requires calls != [] && InOrder(calls)
    ensures Clock(calls[..|calls| - 1]) <= Clock(calls)
    ensures calls[|calls| - 1].moment <= calls[|calls| - 1].at
  {
  }

  /** A user is admitted at most twice the limit in one day's window, however the calls fall and whichever policy holds. */
  lemma {:induction false} DayAdmitsAtMostTwice(policy: Policy, calls: seq<Call>, k: Key, limit: nat)
    requires InOrder(calls)
    ensures Admitted(policy, calls, k, Midnight(k), limit) <= 2 * limit
    decreases |calls|
  {
    hide InOrder, After, KeyOf;
    if calls != [] {
      if Clock(calls) <= Midnight(k) {
        LapsesOnce(policy, calls, k, limit);
      } else {
        FrontInOrder(calls);
        DayAdmitsAtMostTwice(policy, calls[..|calls| - 1], k, limit);
      }
    }
  }

  /** The bound is reached: rounding the time to live down lets the counter lapse just before midnight. */
  lemma LapseBeforeMidnight(policy: Policy)
    ensures var calls := [Call("u", DAY - 1999, DAY - 1999), Call("u", DAY - 998, DAY - 998)];
            && InOrder(calls)
            && Admitted(policy, calls, Key("u", 0), Midnight(Key("u", 0)), 1) == 2
  {
    var first, second := Call("u", DAY - 1999, DAY - 1999), Call("u", DAY - 998, DAY - 998);
    var calls := [first, second];
    assert calls[..1] == [first] && [first][..0] == [] && calls[..0] == [];
    assert After(policy, []) == map[];
    assert After(policy, [first]) == map[Key("u", 0) := Slot(1, DAY - 999)];
    assert CountGiven(policy, calls, 1) == 1 && CountGiven(policy, [first], 0) == 1;
    assert Admitted(policy, [first], Key("u", 0), DAY, 1) == 1;
  }

  // ---------------------------------------------------------------- when the counters are exact

  /** The call is counted as the how-many-th call of its key it is. */
  ghost predicate CountedRight(policy: Policy, calls: seq<Call>, i: nat)
    requires i < |calls|
  {
    CountGiven(policy, calls, i) == Made(calls[..i + 1], CallKey(calls[i]), calls[i].at)
  }

  function Expiry(c: Call): nat {
    c.at + SecondsLeft(c.moment) * SECOND
  }

  /** The first call of its key. */
  ghost predicate Opens(calls: seq<Call>, first: nat) {
    && first < |calls|
    && forall i :: 0 <= i < first ==> CallKey(calls[i]) != CallKey(calls[first])
  }

  lemma {:induction false} NoneYet(policy: Policy, calls: seq<Call>, k: Key, until: int)
    requires forall i :: 0 <= i < |calls| ==> CallKey(calls[i]) != k
    ensures Made(calls, k, until) == 0 && k !in After(policy, calls)
    decreases |calls|
  {
    if calls != [] {
      NoneYet(policy, calls[..|calls| - 1], k, until);
    }
  }

  /** Every call of the first one's key came by a given time. */
  ghost predicate AllBy(calls: seq<Call>, first: nat, until: int)
    requires first < |calls|
  {
    forall i :: 0 <= i < |calls| && CallKey(calls[i]) == CallKey(calls[first]) ==> calls[i].at <= until
  }

  /** Until the first increment's time to live runs out, the counter is alive with that expiry. */
  lemma {:induction false} FixedTracks(calls: seq<Call>, first: nat, until: int)
    requires Opens(calls, first) && AllBy(calls, first, until) && AllBy(calls, first, Expiry(calls[first]))
    ensures var k := CallKey(calls[first]);
            && k in After(Fixed, calls)
            && After(Fixed, calls)[k] == Slot(Made(calls, k, until), Expiry(calls[first]))
    decreases |calls|
  {
    var n := |calls| - 1;
    if first < n {
      FixedTracks(calls[..n], first, until);
    } else {
      NoneYet(Fixed, calls[..n], CallKey(calls[first]), until);
    }
  }

  lemma CountedInTime(calls: seq<Call>, first: nat, m: nat)
    requires InOrder(calls) && Opens(calls, first) && first <= m < |calls|
    requires CallKey(calls[m]) == CallKey(calls[first]) && calls[m].at <= Expiry(calls[first])
    ensures CountedRight(Fixed, calls, m)
  {
    var before := calls[..m];
    assert calls[..m + 1][..m] == before;
    if first < m {
      FixedTracks(before, first, calls[m].at);
    } else {
      NoneYet(Fixed, before, CallKey(calls[m]), calls[m].at);
    }
  }

  lemma CountedLate(calls: seq<Call>, first: nat, m: nat)
    requires InOrder(calls) && Opens(calls, first) && first < m < |calls|
    requires CallKey(calls[m]) == CallKey(calls[first]) && calls[m].at > Expiry(calls[first])
    requires AllBy(calls[..m], first, Expiry(calls[first]))
    ensures !CountedRight(Fixed, calls, m)
  {
    var before := calls[..m];
    assert calls[..m + 1][..m] == before;
    FixedTracks(before, first, calls[m].at);
    MadeGrows(before, CallKey(calls[m]), first, calls[m].at);
  }

  lemma {:induction false} FirstLate(calls: seq<Call>, first: nat, i: nat) returns (m: nat)
    requires Opens(calls, first) && first < i < |calls|
    requires CallKey(calls[i]) == CallKey(calls[first]) && calls[i].at > Expiry(calls[first])
    ensures first < m <= i && CallKey(calls[m]) == CallKey(calls[first]) && calls[m].at > Expiry(calls[first])
    ensures AllBy(calls[..m], first, Expiry(calls[first]))
    decreases i
  {
    if j: nat :| j < i && CallKey(calls[j]) == CallKey(calls[first]) && calls[j].at > Expiry(calls[first]) {
      m := FirstLate(calls, first, j);
    } else {
      m := i;
    }
  }

  /**
   In memory, every call of a key up to the i-th is counted as the how-many-th it is if and only if the i-th comes before
   the first one's time to live runs out.
   */
  lemma FixedExactly(calls: seq<Call>, first: nat, i: nat)
    requires InOrder(calls) && Opens(calls, first) && first <= i < |calls| && CallKey(calls[i]) == CallKey(calls[first])
    ensures (forall m :: first <= m <= i && CallKey(calls[m]) == CallKey(calls[first]) ==> CountedRight(Fixed, calls, m))
       <==> calls[i].at <= Expiry(calls[first])
  {
    hide CountedRight, SecondsLeft, KeyOf;
    if calls[i].at <= Expiry(calls[first]) {
      forall m | first <= m <= i && CallKey(calls[m]) == CallKey(calls[first])
        ensures CountedRight(Fixed, calls, m)
      {
        CountedInTime(calls, first, m);
      }
    } else {
      var m := FirstLate(calls, first, i);
      CountedLate(calls, first, m);
    }
  }

  /** The place of the key's last call. */
  function LastOf(calls: seq<Call>, k: Key): (r: Option<nat>)
    ensures r.Some? ==> r.value < |calls| && CallKey(calls[r.value]) == k
    decreases |calls|
  {
    if calls == [] then None
    else
      var n := |calls| - 1;
      if CallKey(calls[n]) == k then Some(n) else LastOf(calls[..n], k)
  }

  /** Carried out before the time to live given by the key's call before it runs out, if there is one. */
  ghost predicate InTime(calls: seq<Call>, m: nat)
    requires m < |calls|
  {
    var before := LastOf(calls[..m], CallKey(calls[m]));
    before.Some? ==> calls[m].at <= Expiry(calls[before.value])
  }

  ghost predicate AllInTime(calls: seq<Call>, k: Key, n: nat)
    requires n <= |calls|
  {
    forall m :: 0 <= m < n && CallKey(calls[m]) == k ==> InTime(calls, m)
  }

  ghost predicate AllCountedRight(policy: Policy, calls: seq<Call>, k: Key, n: nat)
    requires n <= |calls|
  {
    forall m :: 0 <= m < n && CallKey(calls[m]) == k ==> CountedRight(policy, calls, m)
  }

  lemma InTimeFront(calls: seq<Call>, k: Key, n: nat)
    requires n <= |calls| && AllInTime(calls, k, n)
    ensures AllInTime(calls[..n], k, n)
  {
    forall m | 0 <= m < n && CallKey(calls[m]) == k
      ensures InTime(calls[..n], m)
    {
      assert calls[..n][..m] == calls[..m];
      assert InTime(calls, m);
    }
  }

  lemma InTimeLess(calls: seq<Call>, k: Key, n: nat)
    requires n < |calls| && AllInTime(calls, k, n + 1)
    ensures AllInTime(calls, k, n) && (CallKey(calls[n]) == k ==> InTime(calls, n))
  {
  }

  /** While no call comes late, the counter is alive and right, and expires as the last increment set it. */
  lemma {:induction false} RefreshedTracks(calls: seq<Call>, k: Key, until: int)
    requires AllInTime(calls, k, |calls|)
    requires forall m :: 0 <= m < |calls| ==> calls[m].at <= until
    ensures match LastOf(calls, k)
            case None => k !in After(Refreshed, calls) && Made(calls, k, until) == 0
            case Some(last) =>
              && k in After(Refreshed, calls)
              && After(Refreshed, calls)[k] == Slot(Made(calls, k, until), Expiry(calls[last]))
              && Made(calls, k, until) >= 1
    decreases |calls|
  {
    hide AllInTime, SecondsLeft, KeyOf;
    if calls != [] {
      var n := |calls| - 1;
      assert calls[..n + 1] == calls;
      InTimeLess(calls, k, n);
      InTimeFront(calls, k, n);
      RefreshedTracks(calls[..n], k, until);
    }
  }

  /** After calls that all came in time, the next is counted right exactly when it comes in time. */
  lemma NextCountedExactly(calls: seq<Call>, k: Key, n: nat)
    requires InOrder(calls) && n < |calls| && CallKey(calls[n]) == k && AllInTime(calls, k, n)
    ensures CountedRight(Refreshed, calls, n) <==> InTime(calls, n)
  {
    hide SecondsLeft, KeyOf, AllInTime;
    InTimeFront(calls, k, n);
    RefreshedTracks(calls[..n], k, calls[n].at);
    assert calls[..n + 1][..n] == calls[..n];
  }

  /**
   With a refreshed expiry, the first `n` calls are counted right, key by key, if and only if each call of the key comes
   before the time to live given by the key's call before it runs out.
   */
  lemma {:induction false} RefreshedExactly(calls: seq<Call>, k: Key, n: nat)
    requires InOrder(calls) && n <= |calls|
    ensures AllCountedRight(Refreshed, calls, k, n) <==> AllInTime(calls, k, n)
    decreases n
  {
    hide InOrder, CountedRight, InTime;
    if n > 0 {
      RefreshedExactly(calls, k, n - 1);
      if CallKey(calls[n - 1]) == k && AllInTime(calls, k, n - 1) {
        NextCountedExactly(calls, k, n - 1);
      }
      assert AllInTime(calls, k, n) <==> AllInTime(calls, k, n - 1) && (CallKey(calls[n - 1]) == k ==> InTime(calls, n - 1));
      assert AllCountedRight(Refreshed, calls, k, n) <==>
          AllCountedRight(Refreshed, calls, k, n - 1)
          && (CallKey(calls[n - 1]) == k ==> CountedRight(Refreshed, calls, n - 1));
    }
  }
}
