/** The L1 cache as a bounded part of the map of last puts. */
module L1Runs {
  import opened Octets
  import opened Results
  import opened L1

  // ---- one shard -----------------------------------------------------------

  predicate NoDup(m: Shard) {
    forall i, j :: 0 <= i < j < |m| ==> m[i].key != m[j].key
  }

  function ItemOf(m: Shard, key: Key): Option<Item> {
    var i := Find(m, key);
    if i < |m| then Some(m[i].item) else None
  }

  lemma InShard(m: Shard, key: Key, item: Item)
    requires NoDup(m)
    ensures Slot(key, item) in m <==> ItemOf(m, key) == Some(item)
  {
    if Slot(key, item) in m {
      var j :| 0 <= j < |m| && m[j] == Slot(key, item);
      assert j == Find(m, key);
    }
  }

  lemma SameItem(m: Shard, m': Shard, key: Key)
    requires NoDup(m) && NoDup(m')
    requires forall item :: Slot(key, item) in m' <==> Slot(key, item) in m
    ensures ItemOf(m', key) == ItemOf(m, key)
  {
    hide Find, NoDup;
    if ItemOf(m, key).Some? {
      InShard(m, key, ItemOf(m, key).value);
      InShard(m', key, ItemOf(m, key).value);
    }
    if ItemOf(m', key).Some? {
      InShard(m', key, ItemOf(m', key).value);
      InShard(m, key, ItemOf(m', key).value);
    }
  }

  lemma NoItem(m: Shard, key: Key)
    requires forall s :: s in m ==> s.key != key
    ensures ItemOf(m, key) == None
  {
  }

  lemma InFrontOrLast(m: Shard, s: Slot)
    requires m != []
    ensures s in m <==> s in m[..|m| - 1] || s == m[|m| - 1]
  {
    assert m == m[..|m| - 1] + [m[|m| - 1]];
  }

  lemma {:induction false} Retained(m: Shard, keep: Slot -> bool, s: Slot)
    ensures s in Retain(m, keep) <==> s in m && keep(s)
  {
    if m == [] {
    } else {
      InFrontOrLast(m, s);
      Retained(m[..|m| - 1], keep, s);
    }
  }

  lemma {:induction false} RetainSize(m: Shard, keep: Slot -> bool)
    ensures |Retain(m, keep)| <= |m|
    ensures |Retain(m, keep)| == |m| ==> Retain(m, keep) == m
  {
    if m == [] {
    } else {
      RetainSize(m[..|m| - 1], keep);
      assert m == m[..|m| - 1] + [m[|m| - 1]];
    }
  }

  lemma {:induction false} RetainNoDup(m: Shard, keep: Slot -> bool)
    requires NoDup(m)
    ensures NoDup(Retain(m, keep))
  {
    if m == [] {
    } else {
      var front, last := m[..|m| - 1], m[|m| - 1];
      RetainNoDup(front, keep);
      forall i | 0 <= i < |Retain(front, keep)| ensures Retain(front, keep)[i].key != last.key {
        Retained(front, keep, Retain(front, keep)[i]);
        var j :| 0 <= j < |front| && front[j] == Retain(front, keep)[i];
        assert m[j] == front[j];
      }
    }
  }

  lemma RetainSlots(m: Shard, keep: Slot -> bool)
    requires NoDup(m)
    ensures forall s :: s in Retain(m, keep) <==> s in m && keep(s)
    ensures |Retain(m, keep)| <= |m| && NoDup(Retain(m, keep))
    ensures |Retain(m, keep)| == |m| ==> Retain(m, keep) == m
  {
    hide Retain, NoDup;
    forall s ensures s in Retain(m, keep) <==> s in m && keep(s) {
      Retained(m, keep, s);
    }
    RetainSize(m, keep);
    RetainNoDup(m, keep);
  }

  lemma SwapRemoveSlots(m: Shard, i: nat)
    requires NoDup(m) && i < |m|
    ensures NoDup(SwapRemove(m, i)) && |SwapRemove(m, i)| == |m| - 1
    ensures forall s :: s in SwapRemove(m, i) <==> s in m && s != m[i]
  {
    var m' := SwapRemove(m, i);
    forall s | s in m && s != m[i] ensures s in m' {
      var j :| 0 <= j < |m| && m[j] == s;
      assert m'[if j == |m| - 1 then i else j] == s;
    }
    forall s | s in m' ensures s in m && s != m[i] {
      var j :| 0 <= j < |m'| && m'[j] == s;
      assert s == m[if j == i then |m| - 1 else j];
    }
  }

  lemma StoreSlots(m: Shard, s: Slot)
    requires NoDup(m)
    ensures NoDup(Store(m, s)) && |m| <= |Store(m, s)| <= |m| + 1
    ensures forall t :: t in Store(m, s) <==> t == s || (t in m && t.key != s.key)
  {
    var i, m' := Find(m, s.key), Store(m, s);
    assert m'[i] == s;
    forall t | t in m && t.key != s.key ensures t in m' {
      var j :| 0 <= j < |m| && m[j] == t;
      assert m'[j] == t;
    }
    forall t | t in m' && t != s ensures t in m && t.key != s.key {
      var j :| 0 <= j < |m'| && m'[j] == t;
      assert m[j] == t;
    }
  }

  /** Making room in a full shard drops the expired entries or, when there are
      none, the first entry; a shard with room keeps everything. */
  lemma MakeRoomSlots(m: Shard, maxPerShard: nat, maxTtl: int, now: int)
    requires NoDup(m) && |m| <= maxPerShard && maxPerShard > 0
    ensures var m' := MakeRoom(m, maxPerShard, maxTtl, now);
      && NoDup(m') && |m'| < maxPerShard
      && (|m| < maxPerShard ==> m' == m)
      && (forall s :: s in m' ==> s in m)
      && (forall s :: s in m && s !in m' ==>
            |m| == maxPerShard && (!Fresh(s.item, maxTtl, now) || (s == m[0] && AllFresh(m, maxTtl, now))))
  {
    hide Fresh;
    if |m| == maxPerShard {
      var keep := (s: Slot) => Fresh(s.item, maxTtl, now);
      RetainSlots(m, keep);
      if Retain(m, keep) == m {
        SwapRemoveSlots(m, 0);
      }
    }
  }

  predicate AllFresh(m: Shard, maxTtl: int, now: int) {
    forall s :: s in m ==> Fresh(s.item, maxTtl, now)
  }

  // ---- the whole cache -----------------------------------------------------

  predicate ShardOk(m: Shard, n: nat, c: Cache) {
    && NoDup(m)
    && |m| <= c.maxPerShard
    && forall s :: s in m ==> ShardOf(s.key) == n
  }

  predicate Inv(c: Cache) {
    Shaped(c) && forall n :: 0 <= n < SHARDS ==> ShardOk(c.shards[n], n, c)
  }

  /** What the cache holds for a key, fresh or not. */
  function Peek(c: Cache, key: Key): Option<Item>
    requires Shaped(c)
  {
    ItemOf(c.shards[ShardOf(key)], key)
  }

  /** One shard was replaced by one that holds the same for every key but those
      that may have changed. */
  lemma ShardReplaced(c: Cache, n: nat, m: Shard)
    requires Inv(c) && n < SHARDS && ShardOk(m, n, c)
    ensures var c' := c.(shards := c.shards[n := m]);
      && Inv(c')
      && (forall k :: ShardOf(k) == n ==> Peek(c', k) == ItemOf(m, k))
      && (forall k :: ShardOf(k) != n ==> Peek(c', k) == Peek(c, k))
  {
    hide ShardOf, NoDup, Find;
  }

  /** `get` answers the fresh entry and nothing else, and at most drops the
      expired entry of the key. */
  lemma GetMeaning(c: Cache, key: Key, now: int)
    requires Inv(c)
    ensures var (c', r) := Get(c, key, now);
      var valid := Peek(c, key).Some? && Fresh(Peek(c, key).value, c.maxTtl, now);
      && Inv(c')
      && r == (if valid then Some(Peek(c, key).value.raw) else None)
      && (forall k :: Peek(c', k) == if k == key && !valid then None else Peek(c, k))
  {
    hide ShardOf, Fresh, Find;
    var n := ShardOf(key);
    var m := c.shards[n];
    var (m', r) := GetSlot(m, key, c.maxTtl, now);
    var i := Find(m, key);
    assert ShardOk(m, n, c);
    if i < |m| && !Fresh(m[i].item, c.maxTtl, now) {
      SwapRemoveSlots(m, i);
      forall k | k != key ensures ItemOf(m', k) == ItemOf(m, k) {
        SameItem(m, m', k);
      }
      forall s | s in m' ensures s.key != key {
        if s.key == key {
          InShard(m, key, s.item);
        }
      }
      NoItem(m', key);
    }
    ShardReplaced(c, n, m');
  }

  /** `put` makes the key's entry the new one. Another key keeps its entry unless
      the key's shard was full: then expired entries go or, if there are none,
      the first one. */
  lemma PutMeaning(c: Cache, key: Key, raw: Bytes, ttl: int, now: int)
    requires Inv(c) && ttl > 0
    ensures var c', m := Put(c, key, raw, ttl, now), c.shards[ShardOf(key)];
      && Inv(c')
      && Peek(c', key) == Some(MakeItem(raw, ttl, c.maxTtl, now))
      && (forall k :: k != key ==> Peek(c', k) == Peek(c, k) || Peek(c', k) == None)
      && (forall k :: k != key && Peek(c', k) != Peek(c, k) ==>
            && ShardOf(k) == ShardOf(key) && |m| == c.maxPerShard
            && (!Fresh(Peek(c, k).value, c.maxTtl, now) || (m[0].key == k && AllFresh(m, c.maxTtl, now))))
  {
    hide ShardOf, Fresh, Find, MakeRoom, Store, AllFresh;
    var n := ShardOf(key);
    var m := c.shards[n];
    assert ShardOk(m, n, c);
    MakeRoomSlots(m, c.maxPerShard, c.maxTtl, now);
    var room := MakeRoom(m, c.maxPerShard, c.maxTtl, now);
    var s := Slot(key, MakeItem(raw, ttl, c.maxTtl, now));
    StoreSlots(room, s);
    var m' := Store(room, s);
    InShard(m', key, s.item);
    ShardReplaced(c, n, m');
    forall k | k != key && ShardOf(k) == n
      ensures ItemOf(m', k) == ItemOf(m, k) ||
        (ItemOf(m', k) == None && ItemOf(m, k).Some? && |m| == c.maxPerShard &&
         (!Fresh(ItemOf(m, k).value, c.maxTtl, now) || (m[0].key == k && AllFresh(m, c.maxTtl, now))))
    {
      OtherKey(m, room, m', k, s);
    }
  }

  lemma OtherKey(m: Shard, room: Shard, m': Shard, k: Key, s: Slot)
    requires NoDup(m) && NoDup(m') && k != s.key
    requires forall t :: t in room ==> t in m
    requires forall t :: t in m' <==> t == s || (t in room && t.key != s.key)
    ensures ItemOf(m', k) == ItemOf(m, k) ||
      (ItemOf(m', k) == None && ItemOf(m, k).Some? && Slot(k, ItemOf(m, k).value) in m &&
       Slot(k, ItemOf(m, k).value) !in room)
  {
    hide Find, NoDup;
    if ItemOf(m, k).Some? {
      var item := ItemOf(m, k).value;
      InShard(m, k, item);
      InShard(m', k, item);
    }
    if ItemOf(m', k).Some? {
      var item := ItemOf(m', k).value;
      InShard(m', k, item);
      InShard(m, k, item);
    }
  }

  /** `del` removes the key and nothing else. */
  lemma DelMeaning(c: Cache, key: Key)
    requires Inv(c)
    ensures var c' := Del(c, key);
      && Inv(c')
      && (forall k :: Peek(c', k) == if k == key then None else Peek(c, k))
  {
    hide ShardOf, Find;
    var n := ShardOf(key);
    var m := c.shards[n];
    assert ShardOk(m, n, c);
    var m' := Retain(m, (s: Slot) => s.key != key);
    RetainSlots(m, (s: Slot) => s.key != key);
    forall k | k != key ensures ItemOf(m', k) == ItemOf(m, k) {
      SameItem(m, m', k);
    }
    NoItem(m', key);
    ShardReplaced(c, n, m');
  }

  lemma PurgedShard(m: Shard, n: nat, c: Cache, prefix: Key)
    requires ShardOk(m, n, c)
    ensures ShardOk(Purged(m, prefix), n, c)
    ensures forall k :: ItemOf(Purged(m, prefix), k) == if prefix <= k then None else ItemOf(m, k)
  {
    hide Find, ShardOf;
    var m' := Purged(m, prefix);
    RetainSlots(m, (s: Slot) => !(prefix <= s.key));
    forall k ensures ItemOf(m', k) == if prefix <= k then None else ItemOf(m, k) {
      if prefix <= k {
        NoItem(m', k);
      } else {
        SameItem(m, m', k);
      }
    }
  }

  /** `purge_prefix` removes exactly the keys with the prefix, in all shards. */
  lemma PurgeMeaning(c: Cache, prefix: Key)
    requires Inv(c)
    ensures var c' := Purge(c, prefix);
      && Inv(c')
      && (forall k :: Peek(c', k) == if prefix <= k then None else Peek(c, k))
  {
    hide ShardOf, Find, ItemOf, Purged, NoDup;
    var c' := Purge(c, prefix);
    forall n | 0 <= n < SHARDS
      ensures ShardOk(c'.shards[n], n, c')
      ensures forall k :: ItemOf(c'.shards[n], k) == if prefix <= k then None else ItemOf(c.shards[n], k)
    {
      assert ShardOk(c.shards[n], n, c);
      PurgedShard(c.shards[n], n, c, prefix);
    }
  }

  // ---- runs ----------------------------------------------------------------

  datatype Op =
    | OpGet(key: Key, now: int)
    | OpPut(key: Key, raw: Bytes, ttl: int, now: int)
    | OpDel(key: Key)
    | OpPurge(prefix: Key)

  /** The last put of a key, with the ttl it was given. */
  datatype Last = Last(raw: Bytes, ttl: int, at: int)

  type History = map<Key, Last>

  function Do(c: Cache, op: Op): (c': Cache)
    requires Shaped(c)
    ensures Shaped(c')
  {
    match op
    case OpGet(key, now) => Get(c, key, now).0
    case OpPut(key, raw, ttl, now) => Put(c, key, raw, ttl, now)
    case OpDel(key) => Del(c, key)
    case OpPurge(prefix) => Purge(c, prefix)
  }

  /** The reference: nothing expires and nothing is evicted. */
  function Remember(h: History, op: Op): History {
    match op
    case OpGet(_, _) => h
    case OpPut(key, raw, ttl, now) => if ttl > 0 then h[key := Last(raw, ttl, now)] else h
    case OpDel(key) => h - {key}
    case OpPurge(prefix) => map k | k in h && !(prefix <= k) :: h[k]
  }

  function DoAll(c: Cache, ops: seq<Op>): (c': Cache)
    requires Shaped(c)
    ensures Shaped(c')
    decreases |ops|
  {
    if ops == [] then c else DoAll(Do(c, ops[0]), ops[1..])
  }

  function RememberAll(h: History, ops: seq<Op>): History
    decreases |ops|
  {
    if ops == [] then h else RememberAll(Remember(h, ops[0]), ops[1..])
  }

  predicate Recalls(c: Cache, h: History, k: Key)
    requires Shaped(c)
  {
    Peek(c, k).Some? ==> k in h && Peek(c, k).value == MakeItem(h[k].raw, h[k].ttl, c.maxTtl, h[k].at)
  }

  ghost predicate PartOf(c: Cache, h: History) {
    Shaped(c) && forall k :: Recalls(c, h, k)
  }

  /** Every operation keeps the invariant and stays within the last puts. */
  lemma DoKeeps(c: Cache, h: History, op: Op)
    requires Inv(c) && PartOf(c, h)
    ensures Inv(Do(c, op)) && PartOf(Do(c, op), Remember(h, op))
    ensures Do(c, op).maxPerShard == c.maxPerShard && Do(c, op).maxTtl == c.maxTtl
  {
    hide Peek, Fresh, ShardOf, GetSlot, MakeRoom, Store, ShardOk, Purged, AllFresh;
    match op
    case OpGet(key, now) => GetMeaning(c, key, now);
      assert forall k :: Recalls(c, h, k) ==> Recalls(Do(c, op), h, k);
    case OpPut(key, raw, ttl, now) =>
      if ttl > 0 {
        PutMeaning(c, key, raw, ttl, now);
        assert forall k :: Recalls(c, h, k) ==> Recalls(Do(c, op), Remember(h, op), k);
      }
    case OpDel(key) => DelMeaning(c, key);
      assert forall k :: Recalls(c, h, k) ==> Recalls(Do(c, op), Remember(h, op), k);
    case OpPurge(prefix) => PurgeMeaning(c, prefix);
      assert forall k :: Recalls(c, h, k) ==> Recalls(Do(c, op), Remember(h, op), k);
  }

  lemma {:induction false} RunKeeps(c: Cache, h: History, ops: seq<Op>)
    requires Inv(c) && PartOf(c, h)
    ensures var c' := DoAll(c, ops);
      && Inv(c') && PartOf(c', RememberAll(h, ops))
      && c'.maxPerShard == c.maxPerShard && c'.maxTtl == c.maxTtl
    decreases |ops|
  {
    hide ShardOk, PartOf, Do, Remember;
    if ops == [] {
    } else {
      DoKeeps(c, h, ops[0]);
      RunKeeps(Do(c, ops[0]), Remember(h, ops[0]), ops[1..]);
    }
  }

  /** How many entries a shard may hold: a 64th of the setting, 64 at least; the
      setting is 131072 when it is zero. */
  function ShardLimit(maxEntries: nat): nat {
    if maxEntries == 0 then 2048 else if maxEntries < 4096 then 64 else maxEntries / 64
  }

  /** How long an entry may live whatever its ttl. */
  function TtlLimit(maxTtl: int): int {
    if maxTtl > 0 then maxTtl else 60
  }

  lemma NewOk(maxEntries: nat, maxTtl: int)
    ensures var c := New(maxEntries, maxTtl);
      && Inv(c) && PartOf(c, map[])
      && c.maxPerShard == ShardLimit(maxEntries) && c.maxTtl == TtlLimit(maxTtl)
      && forall n :: 0 <= n < SHARDS ==> c.shards[n] == []
  {
  }

  lemma {:induction false} TotalBound(shards: seq<Shard>, bound: nat)
    requires forall i :: 0 <= i < |shards| ==> |shards[i]| <= bound
    ensures Total(shards) <= |shards| * bound
  {
    if shards == [] {
    } else {
      TotalBound(shards[..|shards| - 1], bound);
    }
  }

  /** In every reachable state: no shard holds a key twice, every key is in the
      shard its hash selects, every shard is within its limit, and for a
      non-zero setting the whole cache holds at most that many entries, or 4096
      if that is more. */
  lemma ReachableBounded(maxEntries: nat, maxTtl: int, ops: seq<Op>)
    ensures var c := DoAll(New(maxEntries, maxTtl), ops);
      && |c.shards| == SHARDS
      && (forall n, i, j :: 0 <= n < SHARDS && 0 <= i < j < |c.shards[n]| ==>
            c.shards[n][i].key != c.shards[n][j].key)
      && (forall n, i :: 0 <= n < SHARDS && 0 <= i < |c.shards[n]| ==> ShardOf(c.shards[n][i].key) == n)
      && (forall n :: 0 <= n < SHARDS ==> |c.shards[n]| <= ShardLimit(maxEntries))
      && Total(c.shards) <= (if maxEntries == 0 then 131072 else if maxEntries >= 4096 then maxEntries else 4096)
  {
    hide ShardOf, DoAll, RememberAll, PartOf, Total, Remember;
    NewOk(maxEntries, maxTtl);
    RunKeeps(New(maxEntries, maxTtl), map[], ops);
    var c := DoAll(New(maxEntries, maxTtl), ops);
    assert forall n :: 0 <= n < SHARDS ==> ShardOk(c.shards[n], n, c);
    TotalBound(c.shards, c.maxPerShard);
  }

  /** A hit, in any reachable state, is the last value put under the key and not
      deleted or purged since, and it is younger than both the ttl it was put
      with and the cache's own limit. */
  lemma HitIsLastPut(maxEntries: nat, maxTtl: int, ops: seq<Op>, key: Key, now: int)
    ensures var c := DoAll(New(maxEntries, maxTtl), ops);
      var h, r := RememberAll(map[], ops), Get(c, key, now).1;
      r.Some? ==>
        key in h && r.value == h[key].raw && now - h[key].at < h[key].ttl && now - h[key].at < TtlLimit(maxTtl)
  {
    hide ShardOf, DoAll, RememberAll, Remember, Get, Peek;
    NewOk(maxEntries, maxTtl);
    RunKeeps(New(maxEntries, maxTtl), map[], ops);
    var c, h := DoAll(New(maxEntries, maxTtl), ops), RememberAll(map[], ops);
    GetMeaning(c, key, now);
    assert Recalls(c, h, key);
  }
}
