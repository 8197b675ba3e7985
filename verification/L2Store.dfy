/** The L2 store: an append-only log with an in-memory index. Specification
    functions first, then the class that updates its fields in place. */
module L2Store {
  import opened Octets
  import opened Results
  import opened L2Log

  datatype Entry = Entry(offset: nat, valLen: u32, expireAt: i64)

  type Index = map<Key, Entry>

  /** `size` is the offset the next record is indexed under. */
  datatype Store = Store(log: Bytes, index: Index, size: nat, dead: nat)

  predicate Alive(expireAt: i64, now: i64) {
    expireAt == 0 || now < expireAt
  }

  function ExpireAt(now: i64, ttl: i64): i64 {
    WrapI64(now + WrapI64(ttl * 1000))
  }

  /** What an index entry costs in the log. */
  function EntryBytes(key: Key, e: Entry): nat {
    HEADER_LEN + |key| + e.valLen
  }

  function Get(s: Store, key: Key, now: i64): Option<Bytes> {
    if key in s.index && Alive(s.index[key].expireAt, now) then ValueAt(s.log, s.index[key].offset) else None
  }

  function Put(s: Store, key: Key, val: Bytes, ttl: i64, now: i64): Store {
    if ttl <= 0 then s
    else
      var r := Rec(key, val, ExpireAt(now, ttl));
      Store(s.log + RecBytes(r), s.index[key := Entry(s.size, Len32(val), r.expireAt)], s.size + |RecBytes(r)|,
            if key in s.index then s.dead + EntryBytes(key, s.index[key]) else s.dead)
  }

  /** No tombstone is written. */
  function Delete(s: Store, key: Key): Store {
    if key in s.index then s.(index := s.index - {key}, dead := s.dead + EntryBytes(key, s.index[key])) else s
  }

  function ReplayFrom(log: Bytes, off: nat, index: Index): Index
    decreases |log| - off
  {
    var r := RecAt(log, off);
    if r.None? then index
    else
      ValueOfRecord(log, off);
      ReplayFrom(log, off + RecSize(r.value), index[r.value.key := Entry(off, Len32(r.value.val), r.value.expireAt)])
  }

  function Replay(log: Bytes): Index {
    ReplayFrom(log, 0, map[])
  }

  /** Opening forgets the dead bytes. */
  function Open(log: Bytes): Store {
    Store(log, Replay(log), |log|, 0)
  }

  // ---- compaction: snapshot, copy, swap ------------------------------------

  function Live(s: Store, now: i64): set<nat> {
    set k | k in s.index && Alive(s.index[k].expireAt, now) :: s.index[k].offset
  }

  /** One step of the copying scan, at a record. */
  function CopyOne(log: Bytes, live: set<nat>, at: nat, out: Bytes, newIndex: Index): (Bytes, Index)
    requires RecAt(log, at).Some?
  {
    var r := RecAt(log, at).value;
    if at in live then (out + RecBytes(r), newIndex[r.key := Entry(|out|, Len32(r.val), r.expireAt)])
    else (out, newIndex)
  }

  function CopyFrom(log: Bytes, live: set<nat>, at: nat, out: Bytes, newIndex: Index): (Bytes, Index)
    decreases |log| - at
  {
    var r := RecAt(log, at);
    if r.None? then (out, newIndex)
    else
      ValueOfRecord(log, at);
      var (out', newIndex') := CopyOne(log, live, at, out, newIndex);
      CopyFrom(log, live, at + RecSize(r.value), out', newIndex')
  }

  /** The index is replaced wholesale. */
  function Swap(out: Bytes, newIndex: Index): Store {
    Store(out, newIndex, |out|, 0)
  }

  /** A compaction that nothing interrupts. */
  function Compact(s: Store, now: i64): Store {
    var (out, newIndex) := CopyFrom(s.log, Live(s, now), 0, [], map[]);
    Swap(out, newIndex)
  }

  // ---- the scans as they read ----------------------------------------------

  /** Which header reads come back short: each header is read by one call, which
      may return fewer bytes than asked for. */
  type ShortReads = nat -> bool

  const IN_FULL: ShortReads := off => false

  /** A short header ends the scan like the end of the file. */
  function ScanAt(log: Bytes, off: nat, short: ShortReads): Option<Rec> {
    if short(off) then None else RecAt(log, off)
  }

  function ReplayReads(log: Bytes, off: nat, index: Index, short: ShortReads): Index
    decreases |log| - off
  {
    var r := ScanAt(log, off, short);
    if r.None? then index
    else
      ValueOfRecord(log, off);
      ReplayReads(
        log, off + RecSize(r.value), index[r.value.key := Entry(off, Len32(r.value.val), r.value.expireAt)], short)
  }

  function CopyReads(
    log: Bytes, live: set<nat>, at: nat, out: Bytes, newIndex: Index, short: ShortReads): (Bytes, Index)
    decreases |log| - at
  {
    var r := ScanAt(log, at, short);
    if r.None? then (out, newIndex)
    else
      ValueOfRecord(log, at);
      var (out', newIndex') := CopyOne(log, live, at, out, newIndex);
      CopyReads(log, live, at + RecSize(r.value), out', newIndex', short)
  }

  lemma {:induction false} ReplayInFull(log: Bytes, off: nat, index: Index)
    ensures ReplayReads(log, off, index, IN_FULL) == ReplayFrom(log, off, index)
    decreases |log| - off
  {
    hide RecAt;
    if RecAt(log, off).None? {
    } else {
      ValueOfRecord(log, off);
      var r := RecAt(log, off).value;
      ReplayInFull(log, off + RecSize(r), index[r.key := Entry(off, Len32(r.val), r.expireAt)]);
    }
  }

  lemma {:induction false} CopyInFull(log: Bytes, live: set<nat>, at: nat, out: Bytes, newIndex: Index)
    ensures CopyReads(log, live, at, out, newIndex, IN_FULL) == CopyFrom(log, live, at, out, newIndex)
    decreases |log| - at
  {
    hide RecAt, RecBytes;
    if RecAt(log, at).None? {
    } else {
      ValueOfRecord(log, at);
      var (out', newIndex') := CopyOne(log, live, at, out, newIndex);
      CopyInFull(log, live, at + RecSize(RecAt(log, at).value), out', newIndex');
    }
  }

  // ---- the class -----------------------------------------------------------

  class L2 {
    var log: Bytes
    var index: Index
    var size: nat
    var deadBytes: nat

    function View(): Store
      reads this
    {
      Store(log, index, size, deadBytes)
    }

    /** `L2Store::open` on a file with these contents, every header read in full. */
    constructor (file: Bytes)
      ensures View() == Open(file)
    {
      var replayed := ReplayFile(file, IN_FULL);
      ReplayInFull(file, 0, map[]);
      log := file;
      index := replayed;
      size := |file|;
      deadBytes := 0;
    }

    method Lookup(key: Key, now: i64) returns (v: Option<Bytes>)
      ensures v == Get(View(), key, now)
    {
      if key !in index {
        return None;
      }
      var e := index[key];
      if e.expireAt != 0 && now >= e.expireAt {
        return None;
      }
      v := ValueAt(log, e.offset);
    }

    method Insert(key: Key, val: Bytes, ttl: i64, now: i64)
      modifies this
      ensures View() == Put(old(View()), key, val, ttl, now)
    {
      if ttl <= 0 {
        return;
      }
      var expireAt := ExpireAt(now, ttl);
      var rec := RecBytes(Rec(key, val, expireAt));
      var off := size;
      log := log + rec;
      size := size + |rec|;
      if key in index {
        deadBytes := deadBytes + EntryBytes(key, index[key]);
      }
      index := index[key := Entry(off, Len32(val), expireAt)];
    }

    method Remove(key: Key)
      modifies this
      ensures View() == Delete(old(View()), key)
    {
      if key in index {
        deadBytes := deadBytes + EntryBytes(key, index[key]);
        index := index - {key};
      }
    }

    /** First phase, under the lock. */
    method Snapshot(now: i64) returns (live: set<nat>)
      ensures live == Live(View(), now)
    {
      live := set k | k in index && Alive(index[k].expireAt, now) :: index[k].offset;
    }

    /** Third phase, under the lock. */
    method SwapIn(out: Bytes, newIndex: Index)
      modifies this
      ensures View() == Swap(out, newIndex)
    {
      log := out;
      size := |out|;
      deadBytes := 0;
      index := newIndex;
    }

    /** The three phases with nothing in between, every header read in full. */
    method CompactNow(now: i64)
      modifies this
      ensures View() == Compact(old(View()), now)
    {
      var live := Snapshot(now);
      var out, newIndex := CopyFile(log, live, IN_FULL);
      CopyInFull(log, live, 0, [], map[]);
      SwapIn(out, newIndex);
    }
  }

  method ReplayFile(file: Bytes, short: ShortReads) returns (index: Index)
    ensures index == ReplayReads(file, 0, map[], short)
  {
    hide RecAt;
    index := map[];
    var off := 0;
    while ScanAt(file, off, short).Some?
      invariant ReplayReads(file, off, index, short) == ReplayReads(file, 0, map[], short)
      decreases |file| - off
    {
      ValueOfRecord(file, off);
      var r := ScanAt(file, off, short).value;
      index := index[r.key := Entry(off, Len32(r.val), r.expireAt)];
      off := off + RecSize(r);
    }
  }

  /** Second phase, without the lock. */
  method CopyFile(file: Bytes, live: set<nat>, short: ShortReads) returns (out: Bytes, newIndex: Index)
    ensures (out, newIndex) == CopyReads(file, live, 0, [], map[], short)
  {
    hide RecAt, RecBytes;
    out, newIndex := [], map[];
    var at := 0;
    while ScanAt(file, at, short).Some?
      invariant CopyReads(file, live, at, out, newIndex, short) == CopyReads(file, live, 0, [], map[], short)
      decreases |file| - at
    {
      ValueOfRecord(file, at);
      var r := ScanAt(file, at, short).value;
      if at in live {
        newIndex := newIndex[r.key := Entry(|out|, Len32(r.val), r.expireAt)];
        out := out + RecBytes(r);
      }
      at := at + RecSize(r);
    }
  }
}
