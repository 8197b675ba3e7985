/** How long the L1 cache keeps what was put: the limit per shard that the setting
    gives, and the one way in which a young entry is lost. */
module L1Retention {
  import opened Octets
  import opened Results
  import opened Text
  import opened L1
  import opened L1Runs

  // ---- runs taken from their end -------------------------------------------

  lemma {:induction false} DoAllSnoc(c: Cache, ops: seq<Op>, op: Op)
    requires Shaped(c)
    ensures DoAll(c, ops + [op]) == Do(DoAll(c, ops), op)
    decreases |ops|
  {
    hide Do;
    if ops == [] {
      assert (ops + [op])[1..] == [];
      assert DoAll(Do(c, op), []) == Do(c, op);
    } else {
      assert (ops + [op])[1..] == ops[1..] + [op];
      DoAllSnoc(Do(c, ops[0]), ops[1..], op);
    }
  }

  lemma {:induction false} DoAllCat(c: Cache, a: seq<Op>, b: seq<Op>)
    requires Shaped(c)
    ensures DoAll(c, a + b) == DoAll(DoAll(c, a), b)
    decreases |a|
  {
    hide Do;
    if a == [] {
      assert a + b == b;
    } else {
      assert (a + b)[1..] == a[1..] + b;
      DoAllCat(Do(c, a[0]), a[1..], b);
    }
  }

  /** A run, stopped after its first `i` operations. */
  function StateAt(c: Cache, ops: seq<Op>, i: nat): (c': Cache)
    requires Shaped(c) && i <= |ops|
    ensures Shaped(c')
  {
    DoAll(c, ops[..i])
  }

  lemma StateNext(c: Cache, ops: seq<Op>, i: nat)
    requires Shaped(c) && i < |ops|
    ensures StateAt(c, ops, i + 1) == Do(StateAt(c, ops, i), ops[i])
  {
    hide DoAll, Do;
    assert ops[..i + 1] == ops[..i] + [ops[i]];
    DoAllSnoc(c, ops[..i], ops[i]);
  }

  /** The invariant at every point of a run of a new cache. */
  lemma RunInv(maxEntries: nat, maxTtl: int, ops: seq<Op>, i: nat)
    requires i <= |ops|
    ensures var c := StateAt(New(maxEntries, maxTtl), ops, i);
      Inv(c) && c.maxPerShard == ShardLimit(maxEntries) && c.maxTtl == TtlLimit(maxTtl)
  {
    hide DoAll, RememberAll, PartOf, Inv, Remember;
    NewOk(maxEntries, maxTtl);
    RunKeeps(New(maxEntries, maxTtl), map[], ops[..i]);
  }

  lemma {:induction false} FnvFromSnoc(h: u32, data: Bytes, b: byte)
    ensures FnvFrom(h, data + [b]) == FnvStep(FnvFrom(h, data), b)
    decreases |data|
  {
    hide FnvStep;
    if data == [] {
      assert (data + [b])[1..] == [];
      assert FnvFrom(FnvStep(h, b), []) == FnvStep(h, b);
    } else {
      assert (data + [b])[1..] == data[1..] + [b];
      FnvFromSnoc(FnvStep(h, data[0]), data[1..], b);
    }
  }

  /** 32-bit FNV-1a, which selects the shard: the offset basis for no data, and for
      one byte more that byte exclusive-or'ed in and the whole multiplied by the
      prime. */
  lemma Fnv32Laws(data: Bytes, b: byte)
    ensures Fnv32([]) == 2166136261
    ensures Fnv32(data + [b]) == XorLow(Fnv32(data), b) * 16777619 % 4294967296
    ensures ShardOf(data) == Fnv32(data) % 64
  {
    hide XorLow;
    FnvFromSnoc(2166136261, data, b);
  }

  // ---- eviction ------------------------------------------------------------

  /** The operation puts, deletes or purges the key itself. */
  predicate Concerns(op: Op, key: Key) {
    match op
    case OpGet(_, _) => false
    case OpPut(k, _, ttl, _) => k == key && ttl > 0
    case OpDel(k) => k == key
    case OpPurge(prefix) => prefix <= key
  }

  /** The operation comes, if it has a time, before the entry is `life` old. */
  predicate Before(op: Op, at: int, life: int) {
    op.OpGet? || op.OpPut? ==> op.now - at < life
  }

  predicate PutsInto(op: Op, n: nat) {
    op.OpPut? && op.ttl > 0 && Fnv32(op.key) % 64 == n
  }

  /** The operation puts into a shard that holds `limit` entries, all of them
      still young, and the key's is the first of them. */
  predicate Evicts(c: Cache, op: Op, key: Key, limit: nat, maxAge: int)
    requires |c.shards| == 64
  {
    var n := Fnv32(key) % 64;
    var m := c.shards[n];
    && PutsInto(op, n)
    && |m| >= limit && m != [] && m[0].key == key
    && forall s :: s in m ==> op.now - s.item.stored < s.item.ttl && op.now - s.item.stored < maxAge
  }

  ghost predicate Evicted(c: Cache, ops: seq<Op>, key: Key, limit: nat, maxAge: int)
    requires Shaped(c)
  {
    exists i :: 0 <= i < |ops| && Evicts(StateAt(c, ops, i), ops[i], key, limit, maxAge)
  }

  lemma {:induction false} RetainAll(m: Shard, keep: Slot -> bool)
    requires forall s :: s in m ==> keep(s)
    ensures Retain(m, keep) == m
  {
    if m == [] {
    } else {
      assert m == m[..|m| - 1] + [m[|m| - 1]];
      RetainAll(m[..|m| - 1], keep);
    }
  }

  /** A full shard of young entries loses its first one, and the last one takes
      its place. */
  lemma FullRoom(m: Shard, limit: nat, maxAge: int, now: int)
    requires |m| == limit > 0 && AllFresh(m, maxAge, now)
    ensures MakeRoom(m, limit, maxAge, now) == SwapRemove(m, 0)
  {
    hide Fresh;
    RetainAll(m, (s: Slot) => Fresh(s.item, maxAge, now));
  }

  /** So the first entry goes, unless it is the one being put. */
  lemma FirstGoes(m: Shard, limit: nat, maxAge: int, now: int, s: Slot)
    requires NoDup(m) && |m| == limit > 0 && AllFresh(m, maxAge, now) && m[0].key != s.key
    ensures ItemOf(Store(MakeRoom(m, limit, maxAge, now), s), m[0].key) == None
  {
    hide Find, MakeRoom, AllFresh;
    FullRoom(m, limit, maxAge, now);
    var room := SwapRemove(m, 0);
    SwapRemoveSlots(m, 0);
    StoreSlots(room, s);
    forall t | t in Store(room, s) ensures t.key != m[0].key {
      if t != s {
        var j :| 0 <= j < |m| && m[j] == t;
      }
    }
    NoItem(Store(room, s), m[0].key);
  }

  lemma PutExactly(c: Cache, op: Op, key: Key, item: Item)
    requires Inv(c) && op.OpPut? && op.ttl > 0 && op.key != key
    requires Peek(c, key) == Some(item) && Fresh(item, c.maxTtl, op.now)
    ensures Peek(Do(c, op), key) == if Evicts(c, op, key, c.maxPerShard, c.maxTtl) then None else Some(item)
  {
    hide Fnv32, Find, MakeRoom, Store;
    var n := ShardOf(key);
    var m := c.shards[n];
    assert ShardOk(m, n, c);
    PutMeaning(c, op.key, op.raw, op.ttl, op.now);
    if Evicts(c, op, key, c.maxPerShard, c.maxTtl) {
      FirstGoes(m, c.maxPerShard, c.maxTtl, op.now, Slot(op.key, MakeItem(op.raw, op.ttl, c.maxTtl, op.now)));
    }
  }

  /** An operation that does not concern the key leaves a young entry alone unless
      it evicts it. */
  lemma StepExactly(c: Cache, op: Op, key: Key, item: Item)
    requires Inv(c) && !Concerns(op, key) && Peek(c, key) == Some(item)
    requires Before(op, item.stored, item.ttl) && item.ttl <= c.maxTtl
    ensures Peek(Do(c, op), key) == if Evicts(c, op, key, c.maxPerShard, c.maxTtl) then None else Some(item)
  {
    hide Inv, Peek, Fnv32, Get, Del, Purge, MakeRoom, Store, AllFresh;
    match op
    case OpGet(k, now) => GetMeaning(c, k, now);
    case OpPut(k, raw, ttl, now) =>
      if ttl > 0 {
        PutExactly(c, op, key, item);
      }
    case OpDel(k) => DelMeaning(c, k);
    case OpPurge(prefix) => PurgeMeaning(c, prefix);
  }

  lemma StaysGone(c: Cache, op: Op, key: Key)
    requires Inv(c) && !Concerns(op, key) && Peek(c, key) == None
    ensures Peek(Do(c, op), key) == None
  {
    hide Inv, Peek, ShardOf, Get, Del, Purge, MakeRoom, Store, Fresh, AllFresh;
    match op
    case OpGet(k, now) => GetMeaning(c, k, now);
    case OpPut(k, raw, ttl, now) =>
      if ttl > 0 {
        PutMeaning(c, k, raw, ttl, now);
      }
    case OpDel(k) => DelMeaning(c, k);
    case OpPurge(prefix) => PurgeMeaning(c, prefix);
  }

  lemma {:induction false} KeptFrom(c: Cache, ops: seq<Op>, n: nat, key: Key, item: Item)
    requires Inv(c) && Peek(c, key) == Some(item) && item.ttl <= c.maxTtl && n <= |ops|
    requires forall op :: op in ops ==> !Concerns(op, key) && Before(op, item.stored, item.ttl)
    ensures var c' := StateAt(c, ops, n);
      && Inv(c') && c'.maxPerShard == c.maxPerShard && c'.maxTtl == c.maxTtl
      && var evicted := exists i :: 0 <= i < n && Evicts(StateAt(c, ops, i), ops[i], key, c.maxPerShard, c.maxTtl);
         Peek(c', key) == if evicted then None else Some(item)
    decreases n
  {
    hide ShardOk, Peek, DoAll, Do, Evicts, Concerns, Before;
    if n == 0 {
      assert ops[..0] == [];
      DoNothing(c);
    } else {
      var m := n - 1;
      KeptFrom(c, ops, m, key, item);
      var before := StateAt(c, ops, m);
      StateNext(c, ops, m);
      StepInv(before, ops[m]);
      if Peek(before, key).Some? {
        StepExactly(before, ops[m], key, item);
      } else {
        StaysGone(before, ops[m], key);
      }
    }
  }

  lemma DoNothing(c: Cache)
    requires Shaped(c)
    ensures DoAll(c, []) == c
  {
  }

  lemma StepInv(c: Cache, op: Op)
    requires Inv(c)
    ensures Inv(Do(c, op)) && Do(c, op).maxPerShard == c.maxPerShard && Do(c, op).maxTtl == c.maxTtl
  {
    hide Inv, ShardOf, GetSlot, MakeRoom, Store, Retain, Purged, Fresh, AllFresh, Peek;
    match op
    case OpGet(k, now) => GetMeaning(c, k, now);
    case OpPut(k, raw, ttl, now) =>
      if ttl > 0 {
        PutMeaning(c, k, raw, ttl, now);
      }
    case OpDel(k) => DelMeaning(c, k);
    case OpPurge(prefix) => PurgeMeaning(c, prefix);
  }

  /** An entry as it is right after its put. */
  lemma JustPut(maxEntries: nat, maxTtl: int, before: seq<Op>, key: Key, raw: Bytes, ttl: int, at: int)
    requires ttl > 0
    ensures var limit, maxAge := ShardLimit(maxEntries), TtlLimit(maxTtl);
      var c := DoAll(New(maxEntries, maxTtl), before + [OpPut(key, raw, ttl, at)]);
      && Inv(c) && c.maxPerShard == limit && c.maxTtl == maxAge
      && Peek(c, key) == Some(Item(raw, at, if ttl <= maxAge then ttl else maxAge))
  {
    hide Inv, DoAll, Peek, New, Put, ShardOf, Fresh, AllFresh, ShardLimit, TtlLimit;
    var c0, op := New(maxEntries, maxTtl), OpPut(key, raw, ttl, at);
    assert before[..|before|] == before;
    RunInv(maxEntries, maxTtl, before, |before|);
    NewOk(maxEntries, maxTtl);
    DoAllSnoc(c0, before, op);
    var c := DoAll(c0, before);
    PutMeaning(c, key, raw, ttl, at);
    StepInv(c, op);
  }

  /** In any run, a put is followed by a hit, until it is older than its ttl or the
      configured limit or its key is put, deleted or purged again, exactly when no
      operation evicts it: a put into its shard that finds there as many entries as
      the setting allows, all young, and this key's the first. */
  lemma KeptExactly(maxEntries: nat, maxTtl: int, before: seq<Op>, key: Key, raw: Bytes, ttl: int, at: int,
    after: seq<Op>, now: int)
    requires ttl > 0 && now - at < ttl && now - at < TtlLimit(maxTtl)
    requires forall op :: op in after ==> !Concerns(op, key) && Before(op, at, ttl) && Before(op, at, TtlLimit(maxTtl))
    ensures var c := DoAll(New(maxEntries, maxTtl), before + [OpPut(key, raw, ttl, at)]);
      Get(DoAll(c, after), key, now).1
        == if Evicted(c, after, key, ShardLimit(maxEntries), TtlLimit(maxTtl)) then None else Some(raw)
  {
    hide Inv, DoAll, Peek, New, Get, Evicts, Concerns, ShardLimit, TtlLimit;
    var c := DoAll(New(maxEntries, maxTtl), before + [OpPut(key, raw, ttl, at)]);
    var item := Item(raw, at, if ttl <= TtlLimit(maxTtl) then ttl else TtlLimit(maxTtl));
    JustPut(maxEntries, maxTtl, before, key, raw, ttl, at);
    KeptFrom(c, after, |after|, key, item);
    assert after[..|after|] == after;
    GetMeaning(DoAll(c, after), key, now);
  }

  // ---- a shard that never fills --------------------------------------------

  /** The keys a run put into shard `n`. */
  function KeysPut(ops: seq<Op>, n: nat): set<Key> {
    set op | op in ops && PutsInto(op, n) :: op.key
  }

  /** No put into shard `n` finds `limit` different keys put into it before. */
  ghost predicate NeverFull(ops: seq<Op>, n: nat, limit: nat) {
    forall i :: 0 <= i < |ops| && PutsInto(ops[i], n) ==> |KeysPut(ops[..i], n)| < limit
  }

  ghost predicate KeysWithin(m: Shard, keys: set<Key>) {
    forall s :: s in m ==> s.key in keys
  }

  lemma {:induction false} DistinctKeys(m: Shard, keys: set<Key>)
    requires NoDup(m) && KeysWithin(m, keys)
    ensures |m| <= |keys|
    decreases |m|
  {
    if m == [] {
    } else {
      var l := |m| - 1;
      var front, rest := m[..l], keys - {m[l].key};
      forall s | s in front ensures s.key in rest {
        var j :| 0 <= j < l && front[j] == s;
        assert m[j].key != m[l].key;
        assert m[j] in m;
      }
      DistinctKeys(front, rest);
      assert m[l] in m;
      assert keys == rest + {m[l].key};
    }
  }

  /** Only a put into the shard brings a key into it. */
  lemma StepKeys(c: Cache, op: Op, n: nat, k: Key)
    requires Inv(c) && ShardOf(k) == n && Peek(Do(c, op), k).Some?
    ensures Peek(c, k).Some? || (PutsInto(op, n) && op.key == k)
  {
    hide Inv, Peek, Fnv32, Get, Del, Purge, MakeRoom, Store, Fresh, AllFresh;
    match op
    case OpGet(j, now) => GetMeaning(c, j, now);
    case OpPut(j, raw, ttl, now) =>
      if ttl > 0 {
        PutMeaning(c, j, raw, ttl, now);
      }
    case OpDel(j) => DelMeaning(c, j);
    case OpPurge(prefix) => PurgeMeaning(c, prefix);
  }

  lemma PeekIsMember(c: Cache, n: nat, k: Key)
    requires Inv(c) && n < SHARDS && ShardOf(k) == n
    ensures Peek(c, k).Some? <==> exists s :: s in c.shards[n] && s.key == k
  {
    hide ShardOf, Find;
    var m := c.shards[n];
    assert ShardOk(m, n, c);
    if s :| s in m && s.key == k {
      InShard(m, k, s.item);
    }
    if Peek(c, k).Some? {
      InShard(m, k, Peek(c, k).value);
    }
  }

  lemma StepKeysWithin(c: Cache, op: Op, n: nat, keys: set<Key>)
    requires Inv(c) && n < SHARDS && KeysWithin(c.shards[n], keys)
    ensures KeysWithin(Do(c, op).shards[n], if PutsInto(op, n) then keys + {op.key} else keys)
  {
    hide ShardOf, Do, Peek, Fnv32, NoDup;
    StepInv(c, op);
    var c' := Do(c, op);
    assert ShardOk(c'.shards[n], n, c');
    forall s | s in c'.shards[n] ensures s.key in keys || (PutsInto(op, n) && s.key == op.key) {
      PeekIsMember(c', n, s.key);
      StepKeys(c, op, n, s.key);
      PeekIsMember(c, n, s.key);
    }
  }

  lemma KeysPutNext(ops: seq<Op>, i: nat, n: nat)
    requires i < |ops|
    ensures KeysPut(ops[..i + 1], n) ==
      KeysPut(ops[..i], n) + (if PutsInto(ops[i], n) then {ops[i].key} else {})
  {
    hide Fnv32;
    assert ops[..i + 1] == ops[..i] + [ops[i]];
  }

  lemma {:induction false} RunKeysWithin(maxEntries: nat, maxTtl: int, ops: seq<Op>, i: nat, n: nat)
    requires i <= |ops| && n < SHARDS
    ensures KeysWithin(StateAt(New(maxEntries, maxTtl), ops, i).shards[n], KeysPut(ops[..i], n))
    decreases i
  {
    hide New, Do, DoAll, KeysPut, PutsInto, Inv;
    var c := New(maxEntries, maxTtl);
    if i == 0 {
      assert ops[..0] == [];
      DoNothing(c);
      NewOk(maxEntries, maxTtl);
    } else {
      var j := i - 1;
      RunInv(maxEntries, maxTtl, ops, j);
      RunKeysWithin(maxEntries, maxTtl, ops, j, n);
      StateNext(c, ops, j);
      StepKeysWithin(StateAt(c, ops, j), ops[j], n, KeysPut(ops[..j], n));
      KeysPutNext(ops, j, n);
    }
  }

  /** When no put into its shard ever finds as many different keys put there before
      as the setting allows entries, a young put always hits. */
  lemma KeptWhileNotFull(maxEntries: nat, maxTtl: int, before: seq<Op>, key: Key, raw: Bytes, ttl: int, at: int,
    after: seq<Op>, now: int)
    requires ttl > 0 && now - at < ttl && now - at < TtlLimit(maxTtl)
    requires forall op :: op in after ==> !Concerns(op, key) && Before(op, at, ttl) && Before(op, at, TtlLimit(maxTtl))
    requires NeverFull(before + [OpPut(key, raw, ttl, at)] + after, Fnv32(key) % 64, ShardLimit(maxEntries))
    ensures var ops := before + [OpPut(key, raw, ttl, at)] + after;
      Get(DoAll(New(maxEntries, maxTtl), ops), key, now).1 == Some(raw)
  {
    hide Inv, DoAll, New, Get, Evicts, Concerns, Fnv32, NeverFull, ShardLimit, TtlLimit;
    var c0, first := New(maxEntries, maxTtl), before + [OpPut(key, raw, ttl, at)];
    var c := DoAll(c0, first);
    KeptExactly(maxEntries, maxTtl, before, key, raw, ttl, at, after, now);
    DoAllCat(c0, first, after);
    forall i | 0 <= i < |after|
      ensures !Evicts(StateAt(c, after, i), after[i], key, ShardLimit(maxEntries), TtlLimit(maxTtl))
    {
      NotFullAt(maxEntries, maxTtl, first, after, i, key);
    }
  }

  lemma NotFullAt(maxEntries: nat, maxTtl: int, first: seq<Op>, after: seq<Op>, i: nat, key: Key)
    requires i < |after| && NeverFull(first + after, Fnv32(key) % 64, ShardLimit(maxEntries))
    ensures var c := DoAll(New(maxEntries, maxTtl), first);
      !Evicts(StateAt(c, after, i), after[i], key, ShardLimit(maxEntries), TtlLimit(maxTtl))
  {
    hide New, Do, DoAll, KeysPut, Fnv32, ShardLimit, TtlLimit, Inv;
    var ops, n, c0 := first + after, Fnv32(key) % 64, New(maxEntries, maxTtl);
    var j := |first| + i;
    assert ops[..j] == first + after[..i] && ops[j] == after[i];
    DoAllCat(c0, first, after[..i]);
    RunInv(maxEntries, maxTtl, ops, j);
    RunKeysWithin(maxEntries, maxTtl, ops, j, n);
    var c := StateAt(c0, ops, j);
    ShardSmall(c, n, KeysPut(ops[..j], n));
  }

  lemma ShardSmall(c: Cache, n: nat, keys: set<Key>)
    requires Inv(c) && n < SHARDS && KeysWithin(c.shards[n], keys)
    ensures |c.shards[n]| <= |keys|
  {
    assert ShardOk(c.shards[n], n, c);
    DistinctKeys(c.shards[n], keys);
  }

  // ---- a full shard --------------------------------------------------------

  /** Those of the first `total` numbers, written out, that fall into shard `n`. */
  function KeysIn(n: nat, total: nat): seq<Key>
    decreases total
  {
    if total == 0 then []
    else
      var k := Decimal(total - 1);
      if ShardOf(k) == n then KeysIn(n, total - 1) + [k] else KeysIn(n, total - 1)
  }

  predicate Distinct(ks: seq<Key>) {
    forall i, j :: 0 <= i < j < |ks| ==> ks[i] != ks[j]
  }

  lemma {:induction false} KeysInShard(n: nat, total: nat)
    ensures Distinct(KeysIn(n, total))
    ensures forall k :: k in KeysIn(n, total) ==> ShardOf(k) == n && NumberOf(k) < total
    decreases total
  {
    hide ShardOf, Decimal, NumberOf;
    if total == 0 {
    } else {
      KeysInShard(n, total - 1);
      NumberOfDecimal(total - 1);
    }
  }

  function KeyCount(total: nat, shards: nat): nat
    decreases shards
  {
    if shards == 0 then 0 else KeyCount(total, shards - 1) + |KeysIn(shards - 1, total)|
  }

  lemma {:induction false} CountStep(total: nat, shards: nat)
    ensures KeyCount(total + 1, shards) ==
      KeyCount(total, shards) + (if ShardOf(Decimal(total)) < shards then 1 else 0)
    decreases shards
  {
    hide ShardOf, Decimal;
    if shards == 0 {
    } else {
      CountStep(total, shards - 1);
    }
  }

  lemma {:induction false} CountAll(total: nat)
    ensures KeyCount(total, SHARDS) == total
    decreases total
  {
    hide KeyCount;
    if total == 0 {
      CountNone(SHARDS);
    } else {
      CountAll(total - 1);
      CountStep(total - 1, SHARDS);
    }
  }

  lemma {:induction false} CountNone(shards: nat)
    ensures KeyCount(0, shards) == 0
  {
    if shards > 0 {
      CountNone(shards - 1);
    }
  }

  lemma {:induction false} CountBound(total: nat, shards: nat, bound: nat)
    requires forall n :: 0 <= n < shards ==> |KeysIn(n, total)| <= bound
    ensures KeyCount(total, shards) <= shards * bound
    decreases shards
  {
    hide KeysIn;
    if shards == 0 {
    } else {
      CountBound(total, shards - 1, bound);
      assert shards * bound == (shards - 1) * bound + bound;
    }
  }

  /** Some shard is selected by as many keys as one likes. */
  lemma CrowdedShard(m: nat) returns (n: nat, ks: seq<Key>)
    requires m > 0
    ensures n < SHARDS && |ks| == m && Distinct(ks) && forall k :: k in ks ==> ShardOf(k) == n
  {
    hide KeyCount, KeysIn, ShardOf, Decimal, NumberOf;
    var total := 64 * m;
    CountAll(total);
    if forall j :: 0 <= j < SHARDS ==> |KeysIn(j, total)| <= m - 1 {
      CountBound(total, SHARDS, m - 1);
    }
    n :| 0 <= n < SHARDS && |KeysIn(n, total)| > m - 1;
    KeysInShard(n, total);
    ks := KeysIn(n, total)[..m];
  }

  function Puts(ks: seq<Key>): (ops: seq<Op>)
    ensures |ops| == |ks|
    ensures forall i :: 0 <= i < |ks| ==> ops[i] == OpPut(ks[i], [], 1, 0)
  {
    seq(|ks|, i requires 0 <= i < |ks| => OpPut(ks[i], [], 1, 0))
  }

  const YOUNG: Item := Item([], 0, 1)

  function Slots(ks: seq<Key>): (m: Shard)
    ensures |m| == |ks|
    ensures forall i :: 0 <= i < |ks| ==> m[i] == Slot(ks[i], YOUNG)
  {
    seq(|ks|, i requires 0 <= i < |ks| => Slot(ks[i], YOUNG))
  }

  /** A put of a key the shard does not hold, while all its entries are young. */
  lemma PutNewKey(c: Cache, k: Key, ks: seq<Key>)
    requires Shaped(c) && c.maxTtl > 0 && c.shards[ShardOf(k)] == Slots(ks) && k !in ks && |ks| <= c.maxPerShard
    ensures Do(c, OpPut(k, [], 1, 0)).shards[ShardOf(k)] ==
      (if |ks| < c.maxPerShard then Slots(ks + [k]) else SwapRemove(Slots(ks), 0) + [Slot(k, YOUNG)])
  {
    hide ShardOf, Retain, SwapRemove;
    var m, s := Slots(ks), Slot(k, YOUNG);
    if |ks| < c.maxPerShard {
      AppendNew(m, s);
      assert Slots(ks + [k]) == m + [s];
    } else {
      FullRoom(m, c.maxPerShard, c.maxTtl, 0);
      RemoveFirst(m);
      AppendNew(SwapRemove(m, 0), s);
    }
  }

  lemma RemoveFirst(m: Shard)
    requires m != []
    ensures forall s :: s in SwapRemove(m, 0) ==> s in m
  {
  }

  lemma AppendNew(m: Shard, s: Slot)
    requires forall t :: t in m ==> t.key != s.key
    ensures Store(m, s) == m + [s]
  {
  }

  /** Putting different keys of one shard, up to its limit, lists them in order. */
  lemma {:induction false} FillShard(c: Cache, ks: seq<Key>, n: nat)
    requires Shaped(c) && c.maxTtl > 0 && n < SHARDS && c.shards[n] == []
    requires Distinct(ks) && (forall k :: k in ks ==> ShardOf(k) == n) && |ks| <= c.maxPerShard
    ensures var c' := DoAll(c, Puts(ks));
      c'.shards[n] == Slots(ks) && c'.maxPerShard == c.maxPerShard && c'.maxTtl == c.maxTtl
    decreases |ks|
  {
    hide ShardOf, Do, Distinct;
    if ks == [] {
    } else {
      var l := |ks| - 1;
      var front := ks[..l];
      DistinctFront(ks);
      FillShard(c, front, n);
      assert Puts(ks) == Puts(front) + [OpPut(ks[l], [], 1, 0)];
      DoAllSnoc(c, Puts(front), OpPut(ks[l], [], 1, 0));
      assert ks[l] in ks && ks == front + [ks[l]];
      PutNewKey(DoAll(c, Puts(front)), ks[l], front);
      LimitsStay(DoAll(c, Puts(front)), ks[l]);
    }
  }

  lemma LimitsStay(c: Cache, k: Key)
    requires Shaped(c)
    ensures var c' := Do(c, OpPut(k, [], 1, 0)); c'.maxPerShard == c.maxPerShard && c'.maxTtl == c.maxTtl
  {
    hide ShardOf, MakeRoom, Store;
  }

  lemma DistinctFront(ks: seq<Key>)
    requires ks != [] && Distinct(ks)
    ensures Distinct(ks[..|ks| - 1]) && ks[|ks| - 1] !in ks[..|ks| - 1]
    ensures forall k :: k in ks[..|ks| - 1] ==> k in ks
  {
  }

  /** The keys that are left of a full shard when its first entry goes. */
  function WithoutFirst(ks: seq<Key>): (r: seq<Key>)
    requires ks != []
    ensures |r| == |ks| - 1
    ensures forall k :: k in r ==> k in ks
    ensures |ks| > 1 ==> r[0] == ks[|ks| - 1]
    ensures SwapRemove(Slots(ks), 0) == Slots(r)
  {
    ks[0 := ks[|ks| - 1]][..|ks| - 1]
  }

  /** A put into a full shard of young entries. */
  lemma PutIntoFull(c: Cache, k: Key, ks: seq<Key>)
    requires Shaped(c) && c.maxTtl > 0 && ks != [] && k !in ks
    requires c.shards[ShardOf(k)] == Slots(ks) && |ks| == c.maxPerShard
    ensures var c' := Do(c, OpPut(k, [], 1, 0));
      && c'.shards[ShardOf(k)] == Slots(WithoutFirst(ks) + [k])
      && c'.maxPerShard == c.maxPerShard && c'.maxTtl == c.maxTtl
  {
    hide ShardOf, Do, WithoutFirst, SwapRemove;
    PutNewKey(c, k, ks);
    LimitsStay(c, k);
    assert Slots(WithoutFirst(ks) + [k]) == Slots(WithoutFirst(ks)) + [Slot(k, YOUNG)];
  }

  /** The second put after the key's own finds it first in the shard. */
  lemma SecondPutEvicts(c: Cache, front: seq<Key>, key: Key, a: Key, b: Key)
    requires Shaped(c) && c.maxTtl > 0 && |front| == c.maxPerShard >= 2 && Distinct(front + [key, a, b])
    requires forall k :: k in front + [key, a, b] ==> ShardOf(k) == ShardOf(key)
    requires c.shards[ShardOf(key)] == Slots(front)
    ensures var c2 := Do(Do(c, OpPut(key, [], 1, 0)), OpPut(a, [], 1, 0));
      Evicts(c2, OpPut(b, [], 1, 0), key, c.maxPerShard, c.maxTtl)
  {
    hide Do, WithoutFirst, Fnv32, SwapRemove;
    var all := front + [key, a, b];
    assert all[|front|] == key && all[|front| + 1] == a && all[|front| + 2] == b;
    assert a in all && b in all;
    forall k | k in front ensures k != key && k != a {
      var i :| 0 <= i < |front| && front[i] == k;
      assert all[i] == k;
    }
    PutIntoFull(c, key, front);
    var c1, ks := Do(c, OpPut(key, [], 1, 0)), WithoutFirst(front) + [key];
    PutIntoFull(c1, a, ks);
  }

  /** A shard that is full of young entries loses a new key at the second put after
      its own, whatever the setting: few puts since then do not make it safe. */
  lemma FullShardForgets(maxEntries: nat, maxTtl: int) returns (before: seq<Op>, key: Key, a: Key, b: Key)
    ensures key != a && key != b && a != b
    ensures var c := DoAll(New(maxEntries, maxTtl), before + [OpPut(key, [], 1, 0)]);
      && Get(c, key, 0).1 == Some([])
      && Get(DoAll(c, [OpPut(a, [], 1, 0), OpPut(b, [], 1, 0)]), key, 0).1 == None
  {
    hide New, Do, DoAll, Get, Evicts, ShardOf, Fnv32;
    var c0, limit := New(maxEntries, maxTtl), ShardLimit(maxEntries);
    NewOk(maxEntries, maxTtl);
    var n, ks := CrowdedShard(limit + 3);
    var front := ks[..limit];
    before, key, a, b := Puts(front), ks[limit], ks[limit + 1], ks[limit + 2];
    assert ks == front + [key, a, b];
    assert key in ks && forall k :: k in front ==> k in ks;
    FillShard(c0, front, n);
    var put, after := OpPut(key, [], 1, 0), [OpPut(a, [], 1, 0), OpPut(b, [], 1, 0)];
    DoAllSnoc(c0, before, put);
    var c := DoAll(c0, before + [put]);
    SecondPutEvicts(DoAll(c0, before), front, key, a, b);
    DoNothing(c);
    DoAllSnoc(c, [], after[0]);
    assert after[..1] == [] + [after[0]];
    assert StateAt(c, after, 1) == Do(c, after[0]);
    KeptExactly(maxEntries, maxTtl, before, key, [], 1, 0, after, 0);
    KeptExactly(maxEntries, maxTtl, before, key, [], 1, 0, [], 0);
  }
}
