/** The tiered cache: L1 in memory, L2 on disk, L3 shared. A hit in a lower tier
    is promoted upward under a fresh ttl of a minute. */
module Tiered {
  import opened Octets
  import opened Results
  import L1
  import L2Store

  type Key = Bytes

  /** Milliseconds since 1970. */
  type Millis = t: int | 0 <= t < 0x8000_0000_0000_0000

  const PROMOTED_SECONDS: i64 := 60

  datatype Remote = Remote(raw: Bytes, expireAt: int)

  /** The shared tier, when there is one, as a map with expiry. */
  type Shared = Option<map<Key, Remote>>

  datatype Tiers = Tiers(l1: L1.Cache, l2: L2Store.Store, l3: Shared)

  function Seconds(now: Millis): int {
    now / 1000
  }

  function SharedGet(l3: Shared, key: Key, now: Millis): Option<Bytes> {
    if l3.Some? && key in l3.value && now < l3.value[key].expireAt then Some(l3.value[key].raw) else None
  }

  function Get(t: Tiers, key: Key, now: Millis): (Tiers, Option<Bytes>)
    requires L1.Shaped(t.l1)
  {
    var (l1, v) := L1.Get(t.l1, key, Seconds(now));
    if v.Some? then (t.(l1 := l1), v)
    else
      var v2 := L2Store.Get(t.l2, key, now);
      if v2.Some? then (t.(l1 := L1.Put(l1, key, v2.value, PROMOTED_SECONDS, Seconds(now))), v2)
      else
        var v3 := SharedGet(t.l3, key, now);
        if v3.Some? then
          (Tiers(L1.Put(l1, key, v3.value, PROMOTED_SECONDS, Seconds(now)),
                 L2Store.Put(t.l2, key, v3.value, PROMOTED_SECONDS, now), t.l3), v3)
        else (t.(l1 := l1), None)
  }

  function Put(t: Tiers, key: Key, raw: Bytes, ttl: i64, now: Millis): Tiers
    requires L1.Shaped(t.l1)
  {
    if ttl <= 0 then t
    else
      Tiers(L1.Put(t.l1, key, raw, ttl, Seconds(now)), L2Store.Put(t.l2, key, raw, ttl, now),
            if t.l3.Some? then Some(t.l3.value[key := Remote(raw, now + ttl * 1000)]) else None)
  }

  function Del(t: Tiers, key: Key): Tiers
    requires L1.Shaped(t.l1)
  {
    Tiers(L1.Del(t.l1, key), L2Store.Delete(t.l2, key), if t.l3.Some? then Some(t.l3.value - {key}) else None)
  }

  class TieredCache {
    const l1: L1.L1Cache
    const l2: L2Store.L2
    var l3: Shared

    constructor (maxEntries: nat, l1Ttl: int, file: Bytes, l3: Shared)
      ensures fresh(l1) && fresh(l2) && Ready()
      ensures View() == Tiers(L1.New(maxEntries, l1Ttl), L2Store.Open(file), l3)
    {
      l1 := new L1.L1Cache(maxEntries, l1Ttl);
      l2 := new L2Store.L2(file);
      this.l3 := l3;
    }

    function View(): Tiers
      reads this, l1, l2
    {
      Tiers(l1.View(), l2.View(), l3)
    }

    predicate Ready()
      reads l1
    {
      L1.Shaped(l1.View())
    }

    method Lookup(key: Key, now: Millis) returns (v: Option<Bytes>)
      requires Ready()
      modifies l1, l2
      ensures Ready() && (View(), v) == Get(old(View()), key, now)
    {
      hide L1.Get, L1.Put, L2Store.Get, L2Store.Put;
      v := l1.Lookup(key, Seconds(now));
      if v.Some? {
        return;
      }
      v := l2.Lookup(key, now);
      if v.Some? {
        l1.Insert(key, v.value, PROMOTED_SECONDS, Seconds(now));
        return;
      }
      v := SharedGet(l3, key, now);
      if v.Some? {
        l2.Insert(key, v.value, PROMOTED_SECONDS, now);
        l1.Insert(key, v.value, PROMOTED_SECONDS, Seconds(now));
      }
    }

    method Insert(key: Key, raw: Bytes, ttl: i64, now: Millis)
      requires Ready()
      modifies this`l3, l1, l2
      ensures Ready() && View() == Put(old(View()), key, raw, ttl, now)
    {
      hide L1.Put, L2Store.Put;
      if ttl <= 0 {
        return;
      }
      l1.Insert(key, raw, ttl, Seconds(now));
      l2.Insert(key, raw, ttl, now);
      if l3.Some? {
        l3 := Some(l3.value[key := Remote(raw, now + ttl * 1000)]);
      }
    }

    method Remove(key: Key)
      requires Ready()
      modifies this`l3, l1, l2
      ensures Ready() && View() == Del(old(View()), key)
    {
      hide L1.Del, L2Store.Delete;
      l1.Remove(key);
      l2.Remove(key);
      if l3.Some? {
        l3 := Some(l3.value - {key});
      }
    }
  }
}
