/** Which tier answers, what a hit copies upward, and what a put or a delete
    leaves in each tier on its own. */
module TieredLaws {
  import opened Octets
  import opened Results
  import L1
  import L1Runs
  import L2Store
  import L2Recovery
  import opened Tiered
  import opened TieredOps

  /** L1 on its own answers `raw` from `stored` on for that many seconds, or for
      its own limit if that is shorter. */
  predicate L1Serves(c: L1.Cache, key: Key, raw: Bytes, stored: Millis, seconds: int, limit: int, now: Millis)
    requires L1.Shaped(c)
  {
    L1.Get(c, key, now / 1000).1 ==
      if now / 1000 - stored / 1000 < seconds && now / 1000 - stored / 1000 < limit then Some(raw) else None
  }

  /** L2 on its own answers `raw` until that instant. */
  predicate L2Serves(s: L2Store.Store, key: Key, raw: Bytes, until: int, now: Millis) {
    L2Store.Get(s, key, now) == if now < until then Some(raw) else None
  }

  predicate L3Serves(l3: Shared, key: Key, raw: Bytes, until: int, now: Millis) {
    SharedGet(l3, key, now) == if now < until then Some(raw) else None
  }

  lemma L1PutServes(c: L1.Cache, key: Key, raw: Bytes, ttl: i64, stored: Millis, now: Millis)
    requires L1Runs.Inv(c) && ttl > 0
    ensures L1Serves(L1.Put(c, key, raw, ttl, Seconds(stored)), key, raw, stored, ttl, c.maxTtl, now)
  {
    hide L1Runs.ShardOk, L1Runs.Peek, L1.Get, L1.ShardOf, L1Runs.AllFresh, L1.MakeRoom, L1.Store;
    L1Runs.PutMeaning(c, key, raw, ttl, Seconds(stored));
    L1Runs.GetMeaning(L1.Put(c, key, raw, ttl, Seconds(stored)), key, Seconds(now));
  }

  lemma L2PutServes(
    s: L2Store.Store, m: L2Recovery.Spec, clock: Millis, key: Key, raw: Bytes, ttl: i64, stored: Millis, now: Millis)
    requires L2Recovery.Tidy(s) && L2Recovery.ReadsAs(s, m, clock) && clock <= stored <= now && ttl > 0
    requires |key| < 0x1_0000_0000 && |raw| < 0x1_0000_0000 && stored + ttl * 1000 < 0x8000_0000_0000_0000
    ensures L2Serves(L2Store.Put(s, key, raw, ttl, stored), key, raw, stored + ttl * 1000, now)
  {
    hide L2Recovery.Tidy, L2Store.Put, L2Store.Get, L2Recovery.ReadsAs, L2Store.ExpireAt;
    ExpiryOf(stored, ttl);
    L2PutReads(s, m, key, raw, ttl, stored, clock);
    ReadsNow(L2Store.Put(s, key, raw, ttl, stored), L2Put(m, key, raw, ttl, stored), stored, key, now);
  }

  /** A put reaches every tier: each of them alone answers with the value, L1 and
      L2 and the shared tier up to the ttl, L1 only up to its own limit. */
  lemma PutReachesEveryTier(
    t: Tiers, h: History, m: L2Recovery.Spec, clock: Millis, key: Key, raw: Bytes, ttl: i64, stored: Millis,
    now: Millis)
    requires Coherent(t, h, m, clock) && clock <= stored <= now && ttl > 0
    requires |key| < 0x1_0000_0000 && |raw| < 0x1_0000_0000 && stored + ttl * 1000 < 0x8000_0000_0000_0000
    ensures var t' := Put(t, key, raw, ttl, stored);
      && L1.Shaped(t'.l1) && L1Serves(t'.l1, key, raw, stored, ttl, t.l1.maxTtl, now)
      && L2Serves(t'.l2, key, raw, stored + ttl * 1000, now)
      && (t.l3.Some? ==> L3Serves(t'.l3, key, raw, stored + ttl * 1000, now))
      && t'.l3.Some? == t.l3.Some?
  {
    hide L1Runs.ShardOk, L1Serves, L1.MakeRoom, L1.Store, L1.ShardOf, L2Store.Put, L2Serves, L2Recovery.Tidy,
      L2Recovery.ReadsAs;
    L1PutServes(t.l1, key, raw, ttl, stored, now);
    L2PutServes(t.l2, m, clock, key, raw, ttl, stored, now);
  }

  /** A get answers from the first tier that has the key. A hit in L1, or none,
      writes nothing below L1; a hit in L2 is copied into L1, and one in the
      shared tier into L1 and L2, for sixty seconds, so that they then answer
      alone. */
  lemma HitsAreCopiedUp(
    t: Tiers, h: History, m: L2Recovery.Spec, clock: Millis, key: Key, asked: Millis, now: Millis)
    requires Coherent(t, h, m, clock) && clock <= asked <= now && asked + 60000 < 0x8000_0000_0000_0000
    ensures var (t', r) := Get(t, key, asked);
      var v1, v2, v3 := L1.Get(t.l1, key, asked / 1000).1, L2Store.Get(t.l2, key, asked), SharedGet(t.l3, key, asked);
      && r == (if v1.Some? then v1 else if v2.Some? then v2 else v3)
      && t'.l3 == t.l3 && L1.Shaped(t'.l1)
      && (if v1.None? && v2.None? && v3.Some? then L2Serves(t'.l2, key, v3.value, asked + 60000, now)
          else t'.l2 == t.l2)
      && (v1.None? && r.Some? ==> L1Serves(t'.l1, key, r.value, asked, 60, t.l1.maxTtl, now))
  {
    hide L1Runs.ShardOk, L1Holds, L1Serves, L1.MakeRoom, L1.Store, L1.GetSlot, L1.ShardOf, L2Store.Get, L2Store.Put,
      L2Serves, L2Recovery.Tidy, L2Recovery.ReadsAs;
    GetL1Holds(t.l1, h, t.l3, key, asked);
    KeepsLimit(t.l1, key, asked);
    var l1, v3 := L1.Get(t.l1, key, Seconds(asked)).0, SharedGet(t.l3, key, asked);
    var r := Get(t, key, asked).1;
    if r.Some? {
      L1PutServes(l1, key, r.value, PROMOTED_SECONDS, asked, now);
    }
    assert L3Holds(t.l3, h, key) && Reasonable(h, key);
    if v3.Some? {
      L2PutServes(t.l2, m, clock, key, v3.value, PROMOTED_SECONDS, asked, now);
    }
  }

  /** After a delete no tier answers for the key, whenever it is asked, and every
      tier answers as before for the others. */
  lemma DeleteReachesEveryTier(
    t: Tiers, h: History, m: L2Recovery.Spec, clock: Millis, key: Key, other: Key, now: Millis)
    requires Coherent(t, h, m, clock) && other != key
    ensures var t' := Del(t, key);
      && L1.Shaped(t'.l1) && L1.Get(t'.l1, key, now / 1000).1 == None
      && L2Store.Get(t'.l2, key, now) == None && SharedGet(t'.l3, key, now) == None
      && L1.Get(t'.l1, other, now / 1000).1 == L1.Get(t.l1, other, now / 1000).1
      && L2Store.Get(t'.l2, other, now) == L2Store.Get(t.l2, other, now)
      && SharedGet(t'.l3, other, now) == SharedGet(t.l3, other, now)
  {
    hide L1Runs.ShardOk, L1Runs.Peek, L1.Get, L1.Del, L2Recovery.Tidy, L2Recovery.ReadsAs, L1.ShardOf;
    L1Runs.DelMeaning(t.l1, key);
    LimitAfterDel(t.l1, key);
    L1Runs.GetMeaning(L1.Del(t.l1, key), key, Seconds(now));
    L1Runs.GetMeaning(L1.Del(t.l1, key), other, Seconds(now));
    L1Runs.GetMeaning(t.l1, other, Seconds(now));
  }
}
