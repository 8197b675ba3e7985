/** Coherence of the three tiers, and what each operation of the cache does to
    it. */
module TieredOps {
  import opened Octets
  import opened Results
  import L1
  import L1Runs
  import L2Log
  import L2Store
  import L2Recovery
  import opened Tiered

  /** The last put of a key that was not deleted since, and when it expires. */
  datatype Last = Last(raw: Bytes, expireAt: int)

  type History = map<Key, Last>

  // ---- the invariant -------------------------------------------------------

  /** How long past its expiry a value may still be served from L2 and from L1:
      each promotion adds a minute. */
  function L2Slack(l3: Shared): int {
    if l3.Some? then 60000 else 0
  }

  function Slack(l3: Shared): int {
    L2Slack(l3) + 60000
  }

  predicate L1Holds(c: L1.Cache, h: History, l3: Shared, k: Key)
    requires L1.Shaped(c)
  {
    var p := L1Runs.Peek(c, k);
    p.Some? ==>
      k in h && p.value.raw == h[k].raw && 1000 * (p.value.stored + p.value.ttl) <= h[k].expireAt + Slack(l3)
  }

  predicate L2Holds(m: L2Recovery.Spec, h: History, l3: Shared, k: Key) {
    k in m ==> k in h && m[k].0 == h[k].raw && 0 < m[k].1 <= h[k].expireAt + L2Slack(l3)
  }

  predicate L3Holds(l3: Shared, h: History, k: Key) {
    l3.Some? && k in l3.value ==>
      k in h && l3.value[k].raw == h[k].raw && l3.value[k].expireAt == h[k].expireAt
  }

  predicate Reasonable(h: History, k: Key) {
    k in h ==> |k| < 0x1_0000_0000 && |h[k].raw| < 0x1_0000_0000 && h[k].expireAt > 0
  }

  /** `m` is what L2 reads as. */
  ghost predicate Coherent(t: Tiers, h: History, m: L2Recovery.Spec, clock: Millis) {
    && L1Runs.Inv(t.l1)
    && L2Recovery.Tidy(t.l2) && L2Recovery.ReadsAs(t.l2, m, clock)
    && (forall k :: L1Holds(t.l1, h, t.l3, k))
    && (forall k :: L2Holds(m, h, t.l3, k))
    && (forall k :: L3Holds(t.l3, h, k))
    && (forall k :: Reasonable(h, k))
  }

  /** L2 keeps the key's value until its expiry. */
  predicate L2Keeps(h: History, m: L2Recovery.Spec, k: Key) {
    k in h ==> k in m && h[k].expireAt <= m[k].1
  }

  ghost predicate L2KeepsAll(h: History, m: L2Recovery.Spec) {
    forall k :: L2Keeps(h, m, k)
  }

  predicate Shares(l3: Shared, k: Key) {
    l3.Some? && k in l3.value
  }

  // ---- one operation -------------------------------------------------------

  lemma ExpiryOf(now: Millis, ttl: i64)
    requires ttl > 0 && now + ttl * 1000 < 0x8000_0000_0000_0000
    ensures L2Store.ExpireAt(now, ttl) == now + ttl * 1000
  {
  }

  /** What L2 reads as after a put. */
  function L2Put(m: L2Recovery.Spec, key: Key, raw: Bytes, ttl: i64, now: Millis): L2Recovery.Spec {
    m[key := (raw, L2Store.ExpireAt(now, ttl))]
  }

  lemma L2PutReads(s: L2Store.Store, m: L2Recovery.Spec, key: Key, raw: Bytes, ttl: i64, now: Millis, clock: Millis)
    requires L2Recovery.Tidy(s) && L2Recovery.ReadsAs(s, m, clock) && clock <= now && ttl > 0
    requires |key| < 0x1_0000_0000 && |raw| < 0x1_0000_0000
    ensures var s' := L2Store.Put(s, key, raw, ttl, now);
      L2Recovery.Tidy(s') && L2Recovery.ReadsAs(s', L2Put(m, key, raw, ttl, now), now)
  {
    hide L2Recovery.Tidy, L2Store.Put;
    L2Recovery.TidyPut(s, key, raw, ttl, now);
    L2Recovery.PutReadsAs(s, m, key, raw, ttl, now, clock);
  }

  lemma ReadsLater(s: L2Store.Store, m: L2Recovery.Spec, clock: Millis, now: Millis)
    requires L2Recovery.ReadsAs(s, m, clock) && clock <= now
    ensures L2Recovery.ReadsAs(s, m, now)
  {
  }

  lemma ReadsNow(s: L2Store.Store, m: L2Recovery.Spec, clock: Millis, key: Key, now: Millis)
    requires L2Recovery.ReadsAs(s, m, clock) && clock <= now
    ensures L2Store.Get(s, key, now) == L2Recovery.SpecGet(m, key, now)
  {
  }

  /** Putting into L1 a value that is right for a key, to be served no longer
      than the key allows. */
  lemma L1PutHolds(
    c: L1.Cache, h: History, h': History, l3: Shared, l3': Shared, key: Key, raw: Bytes, ttl: i64, now: Millis)
    requires L1Runs.Inv(c) && ttl > 0 && l3'.Some? == l3.Some?
    requires forall k :: k != key ==> L1Holds(c, h, l3, k)
    requires key in h' && h'[key].raw == raw && now + 1000 * ttl <= h'[key].expireAt + Slack(l3)
    requires forall k :: k in h && k != key ==> k in h' && h'[k] == h[k]
    ensures var c' := L1.Put(c, key, raw, ttl, Seconds(now));
      L1Runs.Inv(c') && forall k :: L1Holds(c', h', l3', k)
  {
    hide L1Runs.Peek, L1Runs.ShardOk, L1.Put, L1.Fresh, L1.ShardOf, L1Runs.AllFresh;
    L1Runs.PutMeaning(c, key, raw, ttl, Seconds(now));
    var c' := L1.Put(c, key, raw, ttl, Seconds(now));
    forall k ensures L1Holds(c', h', l3', k) {
      if k != key {
        assert L1Holds(c, h, l3, k);
      }
    }
  }

  /** What `get` finds, tier by tier. */
  lemma GetFinds(t: Tiers, h: History, m: L2Recovery.Spec, clock: Millis, key: Key, now: Millis)
    requires Coherent(t, h, m, clock) && clock <= now
    ensures var r := Get(t, key, now).1;
      && (r.Some? ==> key in h && r.value == h[key].raw && now < h[key].expireAt + Slack(t.l3))
      && (key in h && now < h[key].expireAt && (L2Keeps(h, m, key) || Shares(t.l3, key)) ==> r.Some?)
  {
    hide L1Runs.Peek, L1Runs.ShardOk, L1.Put, L1.Get, L1.ShardOf, L2Store.Get, L2Store.Put, L2Recovery.Tidy,
      L2Recovery.ReadsAs, L1Runs.AllFresh;
    L1Runs.GetMeaning(t.l1, key, Seconds(now));
    ReadsNow(t.l2, m, clock, key, now);
    assert L1Holds(t.l1, h, t.l3, key) && L2Holds(m, h, t.l3, key) && L3Holds(t.l3, h, key);
  }

  /** What L2 reads as after a get: only a hit in the shared tier writes to it. */
  function AfterGet(t: Tiers, m: L2Recovery.Spec, key: Key, now: Millis): L2Recovery.Spec
    requires L1.Shaped(t.l1)
  {
    if L1.Get(t.l1, key, Seconds(now)).1.None? && L2Store.Get(t.l2, key, now).None? && SharedGet(t.l3, key, now).Some?
    then L2Put(m, key, SharedGet(t.l3, key, now).value, PROMOTED_SECONDS, now)
    else m
  }

  lemma GetL1Holds(c: L1.Cache, h: History, l3: Shared, key: Key, now: Millis)
    requires L1Runs.Inv(c) && forall k :: L1Holds(c, h, l3, k)
    ensures var c' := L1.Get(c, key, Seconds(now)).0;
      L1Runs.Inv(c') && forall k :: L1Holds(c', h, l3, k)
  {
    hide L1Runs.Peek, L1Runs.ShardOk, L1.Get, L1.ShardOf, L1.Fresh;
    L1Runs.GetMeaning(c, key, Seconds(now));
    var c' := L1.Get(c, key, Seconds(now)).0;
    forall k ensures L1Holds(c', h, l3, k) {
      assert L1Holds(c, h, l3, k);
    }
  }

  lemma GetKeeps(t: Tiers, h: History, m: L2Recovery.Spec, clock: Millis, key: Key, now: Millis)
    requires Coherent(t, h, m, clock) && clock <= now && now + 60000 < 0x8000_0000_0000_0000
    ensures Coherent(Get(t, key, now).0, h, AfterGet(t, m, key, now), now)
  {
    hide L1Runs.ShardOk, L1Holds, L1.Put, L1.Get, L2Store.Get, L2Store.Put, L2Recovery.Tidy, L2Recovery.ReadsAs,
      L2Store.ExpireAt;
    GetL1Holds(t.l1, h, t.l3, key, now);
    ReadsNow(t.l2, m, clock, key, now);
    ReadsLater(t.l2, m, clock, now);
    var (l1, v) := L1.Get(t.l1, key, Seconds(now));
    assert L2Holds(m, h, t.l3, key) && L3Holds(t.l3, h, key) && Reasonable(h, key);
    if v.None? {
      var v2, v3 := L2Store.Get(t.l2, key, now), SharedGet(t.l3, key, now);
      if v2.Some? {
        L1PutHolds(l1, h, h, t.l3, t.l3, key, v2.value, PROMOTED_SECONDS, now);
      } else if v3.Some? {
        L1PutHolds(l1, h, h, t.l3, t.l3, key, v3.value, PROMOTED_SECONDS, now);
        L2PutReads(t.l2, m, key, v3.value, PROMOTED_SECONDS, now, clock);
        L2PutHolds(h, m, t.l3, key, v3.value, now);
      }
    }
  }

  lemma L2PutHolds(h: History, m: L2Recovery.Spec, l3: Shared, key: Key, raw: Bytes, now: Millis)
    requires forall k :: L2Holds(m, h, l3, k)
    requires key in h && h[key].raw == raw && l3.Some? && now < h[key].expireAt
    requires now + 60000 < 0x8000_0000_0000_0000
    ensures var m' := L2Put(m, key, raw, PROMOTED_SECONDS, now);
      && (forall k :: L2Holds(m', h, l3, k))
  {
    hide L2Store.ExpireAt;
    ExpiryOf(now, PROMOTED_SECONDS);
    var m' := L2Put(m, key, raw, PROMOTED_SECONDS, now);
    forall k ensures L2Holds(m', h, l3, k) {
      assert L2Holds(m, h, l3, k);
    }
  }

  lemma PutKeeps(
    t: Tiers, h: History, m: L2Recovery.Spec, clock: Millis, key: Key, raw: Bytes, ttl: i64, now: Millis)
    requires Coherent(t, h, m, clock) && clock <= now && ttl > 0 && now + ttl * 1000 < 0x8000_0000_0000_0000
    requires |key| < 0x1_0000_0000 && |raw| < 0x1_0000_0000
    ensures var t', h' := Put(t, key, raw, ttl, now), h[key := Last(raw, now + ttl * 1000)];
      Coherent(t', h', L2Put(m, key, raw, ttl, now), now)
  {
    hide L1Runs.ShardOk, L1Holds, L1.Put, L2Store.Put, L2Recovery.Tidy, L2Recovery.ReadsAs, L2Store.ExpireAt;
    var t', h', m' := Put(t, key, raw, ttl, now), h[key := Last(raw, now + ttl * 1000)], L2Put(m, key, raw, ttl, now);
    ExpiryOf(now, ttl);
    L1PutHolds(t.l1, h, h', t.l3, t'.l3, key, raw, ttl, now);
    L2PutReads(t.l2, m, key, raw, ttl, now, clock);
    forall k ensures L2Holds(m', h', t'.l3, k) && L3Holds(t'.l3, h', k) && Reasonable(h', k) {
      assert L2Holds(m, h, t.l3, k) && L3Holds(t.l3, h, k) && Reasonable(h, k);
    }
  }

  lemma DelKeeps(t: Tiers, h: History, m: L2Recovery.Spec, clock: Millis, key: Key, now: Millis)
    requires Coherent(t, h, m, clock) && clock <= now
    ensures Coherent(Del(t, key), h - {key}, m - {key}, now)
  {
    hide L1Runs.ShardOk, L1Runs.Peek, L1.Del, L2Store.Delete, L2Recovery.Tidy;
    var t', h', m' := Del(t, key), h - {key}, m - {key};
    L1Runs.DelMeaning(t.l1, key);
    L2Recovery.TidyDelete(t.l2, key);
    L2DeleteReads(t.l2, m, key, clock, now);
    forall k
      ensures L1Holds(t'.l1, h', t'.l3, k) && L2Holds(m', h', t'.l3, k) && L3Holds(t'.l3, h', k) && Reasonable(h', k)
    {
      assert L1Holds(t.l1, h, t.l3, k) && L2Holds(m, h, t.l3, k) && L3Holds(t.l3, h, k) && Reasonable(h, k);
    }
  }

  lemma L2DeleteReads(s: L2Store.Store, m: L2Recovery.Spec, key: Key, clock: Millis, now: Millis)
    requires L2Recovery.Tidy(s) && L2Recovery.ReadsAs(s, m, clock) && clock <= now
    ensures L2Recovery.ReadsAs(L2Store.Delete(s, key), m - {key}, now)
  {
    hide L2Recovery.Tidy, L2Log.ValueAt;
    var s' := L2Store.Delete(s, key);
    forall k, t | now <= t ensures L2Store.Get(s', k, t) == L2Recovery.SpecGet(m - {key}, k, t) {
      assert L2Store.Get(s, k, t) == L2Recovery.SpecGet(m, k, t);
    }
  }

  lemma CompactKeeps(t: Tiers, h: History, m: L2Recovery.Spec, clock: Millis, now: Millis)
    requires Coherent(t, h, m, clock) && clock <= now
    ensures Coherent(t.(l2 := L2Store.Compact(t.l2, now)), h, m, now)
  {
    hide L1Runs.Inv, L1Holds, L2Recovery.Tidy, L2Recovery.ReadsAs, L2Store.Compact;
    L2Recovery.TidyCompact(t.l2, now);
    L2Recovery.CompactReadsAs(t.l2, m, now, clock);
  }

  lemma EmptyTiers(maxEntries: nat, l1Ttl: int, l3: Shared, h: History, now: Millis)
    requires (forall k :: L3Holds(l3, h, k)) && forall k :: Reasonable(h, k)
    ensures Coherent(Tiers(L1.New(maxEntries, l1Ttl), L2Store.Open([]), l3), h, map[], now)
  {
    hide L2Recovery.Tidy;
    L2Recovery.EmptyTidy();
    L1Runs.NewOk(maxEntries, l1Ttl);
    assert L2Recovery.ReadsAs(L2Store.Open([]), map[], now) by {
      L2Recovery.NothingWins();
    }
  }

  lemma CoherentShaped(t: Tiers, h: History, m: L2Recovery.Spec, clock: Millis)
    requires Coherent(t, h, m, clock)
    ensures L1.Shaped(t.l1)
  {
  }

  /** The minute past expiry is real: a value promoted from L2 is served for the
      next 60 seconds whatever expiry L2 had for it. */
  lemma PromotionOutlivesExpiry(t: Tiers, key: Key, promoted: Millis, now: Millis)
    requires L1Runs.Inv(t.l1) && t.l1.maxTtl >= 60
    requires L1.Get(t.l1, key, Seconds(promoted)).1.None? && L2Store.Get(t.l2, key, promoted).Some?
    requires Seconds(now) < Seconds(promoted) + 60
    ensures Get(Get(t, key, promoted).0, key, now).1 == L2Store.Get(t.l2, key, promoted)
  {
    hide L1Runs.ShardOk, L1Runs.Peek, L1.Get, L1.Put, L2Store.Get, L1.ShardOf, L1Runs.AllFresh;
    var raw := L2Store.Get(t.l2, key, promoted).value;
    var l1 := L1.Get(t.l1, key, Seconds(promoted)).0;
    L1Runs.GetMeaning(t.l1, key, Seconds(promoted));
    KeepsLimit(t.l1, key, promoted);
    L1Runs.PutMeaning(l1, key, raw, PROMOTED_SECONDS, Seconds(promoted));
    var l1' := L1.Put(l1, key, raw, PROMOTED_SECONDS, Seconds(promoted));
    LimitAfterPut(l1, key, raw, promoted);
    L1Runs.GetMeaning(l1', key, Seconds(now));
  }

  lemma KeepsLimit(c: L1.Cache, key: Key, now: Millis)
    requires L1.Shaped(c)
    ensures L1.Get(c, key, Seconds(now)).0.maxTtl == c.maxTtl
  {
  }

  lemma LimitAfterPut(c: L1.Cache, key: Key, raw: Bytes, now: Millis)
    requires L1.Shaped(c)
    ensures L1.Put(c, key, raw, PROMOTED_SECONDS, Seconds(now)).maxTtl == c.maxTtl
  {
  }

  /** The steps of a get are not one: a value read from L2 and stored into L1 only
      after another thread deleted the key is served for a minute all the same. */
  lemma DeleteDuringPromotionUndone(t: Tiers, key: Key, raw: Bytes, stored: Millis, now: Millis)
    requires L1Runs.Inv(t.l1) && t.l1.maxTtl >= 60 && Seconds(now) < Seconds(stored) + 60
    ensures L1.Shaped(Del(t, key).l1) && Get(Del(t, key), key, now).1 == None
    ensures var deleted := Del(t, key);
      var late := deleted.(l1 := L1.Put(deleted.l1, key, raw, PROMOTED_SECONDS, Seconds(stored)));
      L1.Shaped(late.l1) && Get(late, key, now).1 == Some(raw)
  {
    hide L1Runs.ShardOk, L1Runs.Peek, L1.Get, L1.Put, L1.Del, L1.ShardOf, L1Runs.AllFresh;
    L1Runs.DelMeaning(t.l1, key);
    var deleted := Del(t, key);
    L1Runs.GetMeaning(deleted.l1, key, Seconds(now));
    L1Runs.PutMeaning(deleted.l1, key, raw, PROMOTED_SECONDS, Seconds(stored));
    LimitAfterDel(t.l1, key);
    LimitAfterPut(deleted.l1, key, raw, stored);
    L1Runs.GetMeaning(L1.Put(deleted.l1, key, raw, PROMOTED_SECONDS, Seconds(stored)), key, Seconds(now));
  }

  lemma LimitAfterDel(c: L1.Cache, key: Key)
    requires L1.Shaped(c)
    ensures L1.Del(c, key).maxTtl == c.maxTtl
  {
  }
}
