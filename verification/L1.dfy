/** The L1 cache: 64 shards, each a short list searched in order. Expired and
    evicted entries leave by swap-removal, so a shard's order means nothing. */
module L1 {
  import opened Octets
  import opened Results

  type Key = Bytes

  /** Times in seconds. */
  datatype Item = Item(raw: Bytes, stored: int, ttl: int)

  datatype Slot = Slot(key: Key, item: Item)

  type Shard = seq<Slot>

  const SHARDS: nat := 64

  datatype Cache = Cache(shards: seq<Shard>, maxPerShard: nat, maxTtl: int)

  // ---- the shard of a key --------------------------------------------------

  const FNV_PRIME: int := 16777619

  function FnvStep(h: u32, b: byte): u32 {
    XorLow(h, b) * FNV_PRIME % 0x1_0000_0000
  }

  function FnvFrom(h: u32, data: Bytes): u32
    decreases |data|
  {
    if data == [] then h else FnvFrom(FnvStep(h, data[0]), data[1..])
  }

  function Fnv32(data: Bytes): u32 {
    FnvFrom(2166136261, data)
  }

  method ComputeFnv32(data: Bytes) returns (h: u32)
    ensures h == Fnv32(data)
  {
    h := 2166136261;
    for i := 0 to |data|
      invariant FnvFrom(h, data[i..]) == Fnv32(data)
    {
      assert data[i..][0] == data[i] && data[i..][1..] == data[i + 1..];
      h := FnvStep(h, data[i]);
    }
  }

  function ShardOf(key: Key): (i: nat)
    ensures i < SHARDS
  {
    Fnv32(key) % SHARDS
  }

  // ---- operations on one shard ---------------------------------------------

  predicate Fresh(item: Item, maxTtl: int, now: int) {
    now - item.stored < item.ttl && now - item.stored < maxTtl
  }

  /** The first index of the key, or `|m|`. */
  function Find(m: Shard, key: Key): (i: nat)
    ensures i <= |m|
    ensures i < |m| ==> m[i].key == key
    ensures forall j :: 0 <= j < i ==> m[j].key != key
  {
    if m == [] || m[0].key == key then 0 else Find(m[1..], key) + 1
  }

  /** The last slot takes the place of the removed one. */
  function SwapRemove(m: Shard, i: nat): Shard
    requires i < |m|
  {
    m[i := m[|m| - 1]][..|m| - 1]
  }

  function Retain(m: Shard, keep: Slot -> bool): Shard {
    if m == [] then []
    else
      var front := Retain(m[..|m| - 1], keep);
      if keep(m[|m| - 1]) then front + [m[|m| - 1]] else front
  }

  function GetSlot(m: Shard, key: Key, maxTtl: int, now: int): (Shard, Option<Bytes>) {
    var i := Find(m, key);
    if i == |m| then (m, None)
    else if Fresh(m[i].item, maxTtl, now) then (m, Some(m[i].item.raw))
    else (SwapRemove(m, i), None)
  }

  /** Makes room in a full shard: the expired entries go, and if that frees
      nothing, the first one. */
  function MakeRoom(m: Shard, maxPerShard: nat, maxTtl: int, now: int): Shard {
    var m1 := if |m| >= maxPerShard then Retain(m, (s: Slot) => Fresh(s.item, maxTtl, now)) else m;
    if |m1| >= maxPerShard && m1 != [] then SwapRemove(m1, 0) else m1
  }

  function Store(m: Shard, s: Slot): Shard {
    var i := Find(m, s.key);
    if i < |m| then m[i := s] else m + [s]
  }

  // ---- operations on the cache ---------------------------------------------

  predicate Shaped(c: Cache) {
    |c.shards| == SHARDS && c.maxPerShard > 0
  }

  function New(maxEntries: nat, maxTtl: int): (c: Cache)
    ensures Shaped(c)
  {
    var entries := if maxEntries == 0 then 131072 else maxEntries;
    var perShard := if entries / SHARDS >= 64 then entries / SHARDS else 64;
    Cache(seq(SHARDS, i => []), perShard, if maxTtl <= 0 then 60 else maxTtl)
  }

  function Get(c: Cache, key: Key, now: int): (Cache, Option<Bytes>)
    requires Shaped(c)
  {
    var (m, r) := GetSlot(c.shards[ShardOf(key)], key, c.maxTtl, now);
    (c.(shards := c.shards[ShardOf(key) := m]), r)
  }

  function MakeItem(raw: Bytes, ttl: int, maxTtl: int, now: int): Item {
    Item(raw, now, if ttl <= maxTtl then ttl else maxTtl)
  }

  function Put(c: Cache, key: Key, raw: Bytes, ttl: int, now: int): Cache
    requires Shaped(c)
  {
    if ttl <= 0 then c
    else
      var room := MakeRoom(c.shards[ShardOf(key)], c.maxPerShard, c.maxTtl, now);
      c.(shards := c.shards[ShardOf(key) := Store(room, Slot(key, MakeItem(raw, ttl, c.maxTtl, now)))])
  }

  function Del(c: Cache, key: Key): Cache
    requires Shaped(c)
  {
    c.(shards := c.shards[ShardOf(key) := Retain(c.shards[ShardOf(key)], (s: Slot) => s.key != key)])
  }

  function Purged(m: Shard, prefix: Key): Shard {
    Retain(m, (s: Slot) => !(prefix <= s.key))
  }

  function Purge(c: Cache, prefix: Key): Cache
    requires Shaped(c)
  {
    c.(shards := seq(SHARDS, i requires 0 <= i < SHARDS => Purged(c.shards[i], prefix)))
  }

  function Total(shards: seq<Shard>): nat {
    if shards == [] then 0 else Total(shards[..|shards| - 1]) + |shards[|shards| - 1]|
  }

  // ---- the class -----------------------------------------------------------

  class L1Cache {
    var shards: seq<Shard>
    const maxPerShard: nat
    const maxTtl: int

    function View(): Cache
      reads this
    {
      Cache(shards, maxPerShard, maxTtl)
    }

    constructor (maxEntries: nat, maxTtl: int)
      ensures View() == New(maxEntries, maxTtl) && Shaped(View())
      ensures maxPerShard == if maxEntries == 0 then 2048 else if maxEntries < 4096 then 64 else maxEntries / 64
      ensures this.maxTtl == if maxTtl > 0 then maxTtl else 60
      ensures forall i :: 0 <= i < |shards| ==> shards[i] == []
    {
      var entries := if maxEntries == 0 then 131072 else maxEntries;
      this.maxTtl := if maxTtl <= 0 then 60 else maxTtl;
      maxPerShard := if entries / SHARDS >= 64 then entries / SHARDS else 64;
      shards := seq(SHARDS, i => []);
    }

    method Lookup(key: Key, now: int) returns (v: Option<Bytes>)
      requires Shaped(View())
      modifies this`shards
      ensures Shaped(View()) && (View(), v) == Get(old(View()), key, now)
    {
      hide Fresh;
      var h := ComputeFnv32(key);
      var n := h % SHARDS;
      var m := shards[n];
      assert shards == shards[n := m];
      for i := 0 to |m|
        invariant shards == old(shards) && m == shards[n]
        invariant forall j :: 0 <= j < i ==> m[j].key != key
      {
        if m[i].key == key {
          assert Find(m, key) == i;
          if Fresh(m[i].item, maxTtl, now) {
            return Some(m[i].item.raw);
          }
          shards := shards[n := SwapRemove(m, i)];
          return None;
        }
      }
      v := None;
    }

    method Insert(key: Key, raw: Bytes, ttl: int, now: int)
      requires Shaped(View())
      modifies this`shards
      ensures Shaped(View()) && View() == Put(old(View()), key, raw, ttl, now)
    {
      hide Fresh, Store, Retain, Fnv32;
      if ttl <= 0 {
        return;
      }
      var capped := if ttl <= maxTtl then ttl else maxTtl;
      var h := ComputeFnv32(key);
      var n := h % SHARDS;
      var m := shards[n];
      if |m| >= maxPerShard {
        m := RetainFresh(m, maxTtl, now);
      }
      if |m| >= maxPerShard && m != [] {
        m := SwapRemove(m, 0);
      }
      m := PutSlot(m, Slot(key, Item(raw, now, capped)));
      shards := shards[n := m];
    }

    method Remove(key: Key)
      requires Shaped(View())
      modifies this`shards
      ensures Shaped(View()) && View() == Del(old(View()), key)
    {
      var h := ComputeFnv32(key);
      var n := h % SHARDS;
      var m := shards[n];
      var kept := [];
      for i := 0 to |m|
        invariant kept == Retain(m[..i], (s: Slot) => s.key != key)
      {
        assert m[..i + 1][..i] == m[..i];
        if m[i].key != key {
          kept := kept + [m[i]];
        }
      }
      assert m[..|m|] == m;
      shards := shards[n := kept];
    }

    method PurgePrefix(prefix: Key) returns (n: nat)
      requires Shaped(View())
      modifies this`shards
      ensures Shaped(View()) && View() == Purge(old(View()), prefix)
      ensures n == Total(old(shards)) - Total(shards)
    {
      hide Purged;
      n := 0;
      for i := 0 to SHARDS
        invariant Shaped(View())
        invariant forall j :: 0 <= j < i ==> shards[j] == Purged(old(shards)[j], prefix)
        invariant forall j :: i <= j < SHARDS ==> shards[j] == old(shards)[j]
        invariant n == Total(old(shards)[..i]) - Total(shards[..i])
      {
        var kept := PurgeShard(shards[i], prefix);
        n := n + |shards[i]| - |kept|;
        ghost var was := shards;
        shards := shards[i := kept];
        assert old(shards)[..i + 1][..i] == old(shards)[..i];
        assert shards[..i + 1][..i] == was[..i];
      }
      assert old(shards)[..SHARDS] == old(shards) && shards[..SHARDS] == shards;
    }

    method Len() returns (n: nat)
      ensures n == Total(shards)
    {
      n := 0;
      for i := 0 to |shards|
        invariant n == Total(shards[..i])
      {
        assert shards[..i + 1][..i] == shards[..i];
        n := n + |shards[i]|;
      }
      assert shards[..|shards|] == shards;
    }
  }

  /** Overwrites the key's slot, or adds one at the end. */
  method PutSlot(m: Shard, s: Slot) returns (m': Shard)
    ensures m' == Store(m, s)
  {
    for i := 0 to |m|
      invariant forall j :: 0 <= j < i ==> m[j].key != s.key
    {
      if m[i].key == s.key {
        assert Find(m, s.key) == i;
        return m[i := s];
      }
    }
    m' := m + [s];
  }

  method RetainFresh(m: Shard, maxTtl: int, now: int) returns (kept: Shard)
    ensures kept == Retain(m, (s: Slot) => Fresh(s.item, maxTtl, now))
  {
    kept := [];
    for i := 0 to |m|
      invariant kept == Retain(m[..i], (s: Slot) => Fresh(s.item, maxTtl, now))
    {
      assert m[..i + 1][..i] == m[..i];
      if Fresh(m[i].item, maxTtl, now) {
        kept := kept + [m[i]];
      }
    }
    assert m[..|m|] == m;
  }

  method PurgeShard(m: Shard, prefix: Key) returns (kept: Shard)
    ensures kept == Purged(m, prefix) && |kept| <= |m|
  {
    kept := [];
    for i := 0 to |m|
      invariant kept == Purged(m[..i], prefix) && |kept| <= i
    {
      assert m[..i + 1][..i] == m[..i];
      if !(prefix <= m[i].key) {
        kept := kept + [m[i]];
      }
    }
    assert m[..|m|] == m;
  }
}
