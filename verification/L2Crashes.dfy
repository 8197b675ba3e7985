/** Runs with any number of crashes. Opening never cuts off a torn record, and
    every scan stops there: what is put after it is readable until the next
    reopen or compaction, which drops it. */
module L2Crashes {
  import opened Octets
  import opened Results
  import opened L2Log
  import opened L2Store
  import opened L2Compaction
  import L2Interleaving
  import opened L2Recovery
  import L2Reopen

  /** A crash in the middle of putting `r` leaves `torn` behind; the store is then
      opened again. */
  datatype Event = Op(call: Call) | Crash(torn: Bytes, r: Rec)

  /** `block` is where the first torn record stands. */
  datatype Disk = Disk(store: Store, block: Option<nat>)

  predicate EventFits(e: Event) {
    match e
    case Op(c) => CallFits(c)
    case Crash(torn, r) => TornTail(torn, r)
  }

  function Next(d: Disk, e: Event): Disk {
    match e
    case Op(c) => if c.op.OpCompact? then Disk(Compact(d.store, c.now), None) else d.(store := Do(d.store, c))
    case Crash(torn, _) =>
      Disk(Open(d.store.log + torn), if d.block.None? && torn != [] then Some(|d.store.log|) else d.block)
  }

  function Run(d: Disk, es: seq<Event>): Disk
    decreases |es|
  {
    if es == [] then d else Run(Next(d, es[0]), es[1..])
  }

  const FRESH: Disk := Disk(Open([]), None)

  /** What was appended to a torn record does not happen to complete it. */
  predicate Clear(d: Disk) {
    d.block.Some? ==> RecAt(d.store.log, d.block.value).None?
  }

  predicate AllClear(d: Disk, es: seq<Event>)
    decreases |es|
  {
    Clear(d) && (es == [] || AllClear(Next(d, es[0]), es[1..]))
  }

  /** The part of the log that scans get through. */
  function Prefix(d: Disk): Bytes {
    if d.block.Some? && d.block.value <= |d.store.log| then d.store.log[..d.block.value] else d.store.log
  }

  ghost predicate Sound(d: Disk) {
    && Clear(d)
    && (d.block.Some? ==> d.block.value < |d.store.log|)
    && Whole(Prefix(d))
    && d.store.size == |d.store.log|
    && IndexOk(d.store.index, d.store.log)
  }

  // ---- the fate of a key, from the events alone ----------------------------

  datatype Held = Held(val: Bytes, expireAt: i64)

  /** What the key reads as, what it would read as after a reopen, and whether
      scans reach the record it reads from. */
  datatype Fate = Fate(live: Option<Held>, logged: Option<Held>, reached: bool)

  const UNKNOWN: Fate := Fate(None, None, true)

  function BlockedBy(blocked: bool, e: Event): bool {
    match e
    case Op(c) => blocked && !c.op.OpCompact?
    case Crash(torn, _) => blocked || torn != []
  }

  function Follow(f: Fate, blocked: bool, e: Event, key: Key): Fate {
    match e
    case Crash(_, _) => Fate(f.logged, f.logged, true)
    case Op(c) =>
      match c.op
      case OpGet => f
      case OpPut(val, ttl) =>
        if c.key != key || ttl <= 0 then f
        else
          var held := Some(Held(val, ExpireAt(c.now, ttl)));
          if blocked then Fate(held, f.logged, false) else Fate(held, held, true)
      case OpDelete => if c.key == key then Fate(None, f.logged, true) else f
      case OpCompact =>
        if f.live.Some? && f.reached && Alive(f.live.value.expireAt, c.now) then Fate(f.live, f.live, true) else UNKNOWN
  }

  function FateFrom(f: Fate, blocked: bool, es: seq<Event>, key: Key): Fate
    decreases |es|
  {
    if es == [] then f else FateFrom(Follow(f, blocked, es[0], key), BlockedBy(blocked, es[0]), es[1..], key)
  }

  function FateOf(es: seq<Event>, key: Key): Fate {
    FateFrom(UNKNOWN, false, es, key)
  }

  function FoundAt(h: Option<Held>, now: i64): Option<Bytes> {
    if h.Some? && Alive(h.value.expireAt, now) then Some(h.value.val) else None
  }

  // ---- scans stop at the torn record ---------------------------------------

  /** Replay gets exactly through the whole part before it. */
  lemma ReplayBlocked(part: Bytes, log: Bytes)
    requires Whole(part) && part <= log && RecAt(log, |part|).None?
    ensures Replay(log) == Replay(part)
  {
    hide RecAt, Reaches;
    ReplayPasses(part, log, 0, map[]);
  }

  lemma {:induction false} NotBeyond(part: Bytes, log: Bytes, from: nat, off: nat)
    requires Reaches(part, from, |part|) && part <= log && RecAt(log, |part|).None? && Reaches(log, from, off)
    ensures off <= |part|
    decreases |log| - from
  {
    hide RecAt;
    if from == |part| {
    } else {
      NotPast(part, from);
      RecordGrows(part, log, from);
      ValueOfRecord(part, from);
      if from != off {
        NotBeyond(part, log, from + RecSize(RecAt(part, from).value), off);
      }
    }
  }

  lemma NotPast(log: Bytes, from: nat)
    requires Reaches(log, from, |log|)
    ensures from <= |log|
  {
    if from != |log| {
      ValueOfRecord(log, from);
    }
  }

  lemma PrefixReplay(d: Disk)
    requires Sound(d)
    ensures Prefix(d) <= d.store.log && Replay(d.store.log) == Replay(Prefix(d))
    ensures forall k :: k in Replay(d.store.log) ==> Reaches(d.store.log, 0, Replay(d.store.log)[k].offset)
    ensures forall off: nat :: d.block.Some? && Reaches(d.store.log, 0, off) ==> off <= d.block.value
    ensures IndexOk(Replay(d.store.log), d.store.log)
  {
    hide RecAt, Reaches, EntryOk, Replay, IndexOk;
    var part, log := Prefix(d), d.store.log;
    if d.block.Some? {
      ReplayBlocked(part, log);
      forall off: nat | Reaches(log, 0, off) ensures off <= |part| {
        NotBeyond(part, log, 0, off);
      }
    }
    ReplaySound(log);
  }

  lemma ReplaySound(log: Bytes)
    ensures forall k :: k in Replay(log) ==> Reaches(log, 0, Replay(log)[k].offset)
    ensures IndexOk(Replay(log), log)
  {
    hide RecAt, EntryOk;
    StartReached(log);
    L2Reopen.ReplayReaches(log, 0, map[]);
    L2Interleaving.ReplayOk(log, 0, map[]);
  }

  // ---- every event keeps the disk sound ------------------------------------

  lemma PutSound(d: Disk, key: Key, val: Bytes, ttl: i64, now: i64)
    requires Sound(d) && ttl > 0 && |key| < 0x1_0000_0000 && |val| < 0x1_0000_0000
    requires Clear(d.(store := Put(d.store, key, val, ttl, now)))
    ensures var s' := Put(d.store, key, val, ttl, now);
      && Sound(d.(store := s'))
      && Replay(s'.log) == (if d.block.Some? then Replay(d.store.log) else Replay(d.store.log)[key := s'.index[key]])
      && Stands(s'.log, s'.index[key], Rec(key, val, ExpireAt(now, ttl)))
      && (d.block.Some? ==> s'.index[key].offset > d.block.value)
  {
    hide RecAt, RecBytes, Replay, Reaches, ExpireAt;
    var r := Rec(key, val, ExpireAt(now, ttl));
    var s' := Put(d.store, key, val, ttl, now);
    AppendReads(d.store.log, r);
    RecBytesSize(r);
    PutIndexOk(d.store, key, val, ttl, now);
    if d.block.Some? {
      assert Prefix(d.(store := s')) == Prefix(d);
      ReplayBlocked(Prefix(d), s'.log);
      ReplayBlocked(Prefix(d), d.store.log);
    } else {
      ReplayAppend(d.store.log, r);
    }
  }

  lemma PutIndexOk(s: Store, key: Key, val: Bytes, ttl: i64, now: i64)
    requires IndexOk(s.index, s.log) && s.size == |s.log| && ttl > 0
    requires |key| < 0x1_0000_0000 && |val| < 0x1_0000_0000
    ensures IndexOk(Put(s, key, val, ttl, now).index, Put(s, key, val, ttl, now).log)
  {
    hide RecAt, RecBytes, ExpireAt;
    var s' := Put(s, key, val, ttl, now);
    AppendReads(s.log, Rec(key, val, ExpireAt(now, ttl)));
    forall k | k in s'.index ensures EntryOk(s'.log, k, s'.index[k]) {
      if k != key {
        EntryGrows(s.log, s'.log, k, s.index[k]);
      }
    }
  }

  lemma CompactSound(d: Disk, taken: i64)
    requires Sound(d)
    ensures Sound(Disk(Compact(d.store, taken), None))
    ensures Replay(Compact(d.store, taken).log) == Compact(d.store, taken).index
  {
    hide RecAt, EntryOk, Live, CopyFrom, Replay, Reaches;
    var s := d.store;
    CompactedReplays(s, taken);
    var c := Compact(s, taken);
    forall k | k in c.index ensures EntryOk(c.log, k, c.index[k]) {
      L2Reopen.CompactEntry(s, taken, k);
    }
  }

  lemma CrashSound(d: Disk, torn: Bytes, r: Rec)
    requires Sound(d) && TornTail(torn, r) && Clear(Next(d, Crash(torn, r)))
    ensures Sound(Next(d, Crash(torn, r)))
    ensures Replay(d.store.log + torn) == Replay(d.store.log)
  {
    hide RecAt, RecBytes, Replay, Reaches;
    var log := d.store.log + torn;
    var d' := Next(d, Crash(torn, r));
    ReplaySound(log);
    if d.block.Some? {
      assert Prefix(d') == Prefix(d);
      ReplayBlocked(Prefix(d), log);
      ReplayBlocked(Prefix(d), d.store.log);
    } else {
      ReplayTorn(d.store.log, torn, r);
      assert Prefix(d') == d.store.log by {
        if torn == [] {
          assert log == d.store.log;
        } else {
          assert log[..|d.store.log|] == d.store.log;
        }
      }
    }
  }

  // ---- and follows the fate of every key -----------------------------------

  predicate Stands(log: Bytes, e: Entry, r: Rec) {
    RecAt(log, e.offset) == Some(r) && e.expireAt == r.expireAt
  }

  predicate Holds(log: Bytes, index: Index, key: Key, h: Option<Held>) {
    if h.None? then key !in index else key in index && Stands(log, index[key], Rec(key, h.value.val, h.value.expireAt))
  }

  predicate HasFate(d: Disk, key: Key, f: Fate) {
    var s := d.store;
    && Holds(s.log, s.index, key, f.live)
    && Holds(s.log, Replay(s.log), key, f.logged)
    && (f.live.None? ==> f.reached)
    && (f.live.Some? && f.reached ==> key in Replay(s.log) && Replay(s.log)[key] == s.index[key])
    && (!f.reached ==> key in s.index && d.block.Some? && d.block.value < s.index[key].offset)
  }

  lemma HoldsGrows(log: Bytes, more: Bytes, index: Index, key: Key, h: Option<Held>)
    requires Holds(log, index, key, h) && log <= more
    ensures Holds(more, index, key, h)
  {
    hide RecAt;
    if h.Some? {
      RecordGrows(log, more, index[key].offset);
    }
  }

  lemma PutFate(d: Disk, c: Call, k: Key, f: Fate)
    requires Sound(d) && CallFits(c) && HasFate(d, k, f) && c.op.OpPut? && Clear(Next(d, Op(c)))
    ensures Sound(Next(d, Op(c))) && HasFate(Next(d, Op(c)), k, Follow(f, d.block.Some?, Op(c), k))
  {
    hide RecAt, RecBytes, Replay, ExpireAt, Stands, Whole, IndexOk, Clear;
    if c.op.ttl > 0 {
      PutSound(d, c.key, c.op.val, c.op.ttl, c.now);
      var s, s' := d.store, Put(d.store, c.key, c.op.val, c.op.ttl, c.now);
      HoldsGrows(s.log, s'.log, Replay(s.log), k, f.logged);
      HoldsGrows(s.log, s'.log, s.index, k, f.live);
    }
  }

  lemma DeleteFate(d: Disk, c: Call, k: Key, f: Fate)
    requires Sound(d) && HasFate(d, k, f) && c.op.OpDelete?
    ensures Sound(Next(d, Op(c))) && HasFate(Next(d, Op(c)), k, Follow(f, d.block.Some?, Op(c), k))
  {
    hide RecAt, Replay, Stands, Reaches, EntryOk;
  }

  /** Scans reach the record a key reads from exactly when its fate says so. */
  lemma ReachedExactly(d: Disk, k: Key, f: Fate)
    requires Sound(d) && HasFate(d, k, f) && f.live.Some?
    ensures Scannable(d.store, k) <==> f.reached
    ensures k in Replay(d.store.log) && Replay(d.store.log)[k] == d.store.index[k] <==> f.reached
  {
    hide RecAt, Replay, Stands, Reaches;
    PrefixReplay(d);
  }

  lemma CompactFate(d: Disk, c: Call, k: Key, f: Fate)
    requires Sound(d) && HasFate(d, k, f) && c.op.OpCompact?
    ensures Sound(Next(d, Op(c))) && HasFate(Next(d, Op(c)), k, Follow(f, d.block.Some?, Op(c), k))
  {
    hide RecAt, Replay, Reaches, Compact, Clear, Whole;
    CompactSound(d, c.now);
    CompactKeepsExactly(d.store, c.now, k);
    if f.live.Some? {
      ReachedExactly(d, k, f);
    }
    if k in Compact(d.store, c.now).index {
      L2Reopen.CompactEntry(d.store, c.now, k);
    }
  }

  lemma CrashFate(d: Disk, torn: Bytes, r: Rec, k: Key, f: Fate)
    requires Sound(d) && HasFate(d, k, f) && TornTail(torn, r) && Clear(Next(d, Crash(torn, r)))
    ensures Sound(Next(d, Crash(torn, r)))
    ensures HasFate(Next(d, Crash(torn, r)), k, Follow(f, d.block.Some?, Crash(torn, r), k))
  {
    hide RecAt, Replay, Stands, Reaches, Clear, Whole, IndexOk;
    CrashSound(d, torn, r);
    HoldsGrows(d.store.log, d.store.log + torn, Replay(d.store.log), k, f.logged);
  }

  lemma NextFate(d: Disk, e: Event, k: Key, f: Fate)
    requires Sound(d) && EventFits(e) && HasFate(d, k, f) && Clear(Next(d, e))
    ensures Sound(Next(d, e)) && HasFate(Next(d, e), k, Follow(f, d.block.Some?, e, k))
    ensures Next(d, e).block.Some? == BlockedBy(d.block.Some?, e)
  {
    hide Sound, HasFate, Clear, Follow, Put, Delete, Compact, Open;
    match e
    case Crash(torn, r) => CrashFate(d, torn, r, k, f);
    case Op(c) =>
      match c.op {
        case OpPut(_, _) => PutFate(d, c, k, f);
        case OpDelete => DeleteFate(d, c, k, f);
        case OpCompact => CompactFate(d, c, k, f);
        case OpGet => GetFate(d, c, k, f);
      }
  }

  lemma GetFate(d: Disk, c: Call, k: Key, f: Fate)
    requires c.op.OpGet?
    ensures Next(d, Op(c)) == d && Follow(f, d.block.Some?, Op(c), k) == f
  {
  }

  lemma {:induction false} RunFate(d: Disk, es: seq<Event>, k: Key, f: Fate)
    requires Sound(d) && HasFate(d, k, f) && AllClear(d, es) && forall e :: e in es ==> EventFits(e)
    ensures Sound(Run(d, es)) && HasFate(Run(d, es), k, FateFrom(f, d.block.Some?, es, k))
    decreases |es|
  {
    hide Sound, HasFate, Clear, Next, Follow, EventFits, BlockedBy;
    if es == [] {
    } else {
      assert es[0] in es;
      AllClearNext(d, es);
      NextFate(d, es[0], k, f);
      RunFate(Next(d, es[0]), es[1..], k, Follow(f, d.block.Some?, es[0], k));
    }
  }

  lemma AllClearNext(d: Disk, es: seq<Event>)
    requires AllClear(d, es) && es != []
    ensures Clear(Next(d, es[0])) && AllClear(Next(d, es[0]), es[1..])
  {
  }

  lemma FreshFate(k: Key)
    ensures Sound(FRESH) && HasFate(FRESH, k, UNKNOWN)
  {
    NothingWins();
  }

  // ---- what callers see ----------------------------------------------------

  lemma HoldsReads(s: Store, key: Key, h: Option<Held>, now: i64)
    requires Holds(s.log, s.index, key, h)
    ensures Get(s, key, now) == FoundAt(h, now)
  {
    hide RecAt, ValueAt;
    if h.Some? {
      ValueOfRecord(s.log, s.index[key].offset);
    }
  }

  /** Over any run of calls and any number of crashes, a key reads, now and after
      one more reopen, as its fate says; and the record it reads from survives
      that reopen, or is reached by a compaction, exactly when no torn record
      stood before it. */
  lemma CrashesExactly(es: seq<Event>, key: Key, now: i64)
    requires AllClear(FRESH, es) && forall e :: e in es ==> EventFits(e)
    ensures var s, f := Run(FRESH, es).store, FateOf(es, key);
      var again := Open(s.log);
      && Get(s, key, now) == FoundAt(f.live, now)
      && Get(again, key, now) == FoundAt(f.logged, now)
      && (key in s.index <==> f.live.Some?)
      && (key in s.index ==> (key in again.index && again.index[key] == s.index[key] <==> f.reached))
      && (key in s.index ==> (Scannable(s, key) <==> f.reached))
  {
    hide Sound, Run, AllClear, EventFits, FateFrom, Replay, Get, Reaches, Stands, Clear;
    FreshFate(key);
    RunFate(FRESH, es, key, UNKNOWN);
    var d, f := Run(FRESH, es), FateOf(es, key);
    HoldsReads(d.store, key, f.live, now);
    HoldsReads(Open(d.store.log), key, f.logged, now);
    if f.live.Some? {
      ReachedExactly(d, key, f);
    }
  }

  /** So one more reopen is faithful exactly when every key that is held is
      reached, and no key that is not held is still in the log. */
  lemma ReopenAgreesExactly(es: seq<Event>)
    requires AllClear(FRESH, es) && forall e :: e in es ==> EventFits(e)
    ensures var s := Run(FRESH, es).store;
      Open(s.log).index == s.index <==>
      forall k :: FateOf(es, k).reached && (FateOf(es, k).live.None? ==> FateOf(es, k).logged.None?)
  {
    hide Sound, Run, AllClear, EventFits, FateOf, Replay, Clear, Stands;
    var d := Run(FRESH, es);
    forall k ensures HasFate(d, k, FateOf(es, k)) && (FateOf(es, k).live.Some? ==>
      (k in Replay(d.store.log) && Replay(d.store.log)[k] == d.store.index[k] <==> FateOf(es, k).reached))
    {
      KeyFate(es, k);
    }
    SameIndexes(d, k => FateOf(es, k));
  }

  lemma KeyFate(es: seq<Event>, k: Key)
    requires AllClear(FRESH, es) && forall e :: e in es ==> EventFits(e)
    ensures var d, f := Run(FRESH, es), FateOf(es, k);
      && HasFate(d, k, f)
      && (f.live.Some? ==>
            (k in Replay(d.store.log) && Replay(d.store.log)[k] == d.store.index[k] <==> f.reached))
  {
    hide Sound, Run, AllClear, EventFits, FateFrom, Replay, Clear, HasFate;
    FreshFate(k);
    RunFate(FRESH, es, k, UNKNOWN);
    if FateOf(es, k).live.Some? {
      ReachedExactly(Run(FRESH, es), k, FateOf(es, k));
    }
  }

  lemma SameIndexes(d: Disk, fate: Key -> Fate)
    requires forall k :: HasFate(d, k, fate(k)) && (fate(k).live.Some? ==>
      (k in Replay(d.store.log) && Replay(d.store.log)[k] == d.store.index[k] <==> fate(k).reached))
    ensures Replay(d.store.log) == d.store.index <==>
      forall k :: fate(k).reached && (fate(k).live.None? ==> fate(k).logged.None?)
  {
    hide Replay, Stands;
    var again, index := Replay(d.store.log), d.store.index;
    if forall k :: fate(k).reached && (fate(k).live.None? ==> fate(k).logged.None?) {
      forall k ensures (k in again <==> k in index) && (k in index ==> again[k] == index[k]) {
        assert HasFate(d, k, fate(k));
      }
      assert again.Keys == index.Keys;
    } else {
      var k :| !(fate(k).reached && (fate(k).live.None? ==> fate(k).logged.None?));
      assert HasFate(d, k, fate(k));
    }
  }

  // ---- in particular -------------------------------------------------------

  lemma {:induction false} CallsAppend(s: Store, calls: seq<Call>)
    requires forall c :: c in calls ==> !c.op.OpCompact?
    ensures s.log <= DoAll(s, calls).log
    decreases |calls|
  {
    hide RecBytes;
    if calls == [] {
    } else {
      assert calls[0] in calls;
      CallsAppend(Do(s, calls[0]), calls[1..]);
    }
  }

  /** After a crash, the next reopen forgets everything since: whatever is put or
      deleted in between, it finds what the crash left. */
  lemma TornTailForgets(log: Bytes, torn: Bytes, calls: seq<Call>)
    requires Whole(log) && forall c :: c in calls ==> !c.op.OpCompact?
    requires RecAt(DoAll(Open(log + torn), calls).log, |log|).None?
    ensures Open(DoAll(Open(log + torn), calls).log).index == Replay(log)
  {
    hide RecAt, Reaches, Replay, DoAll;
    CallsAppend(Open(log + torn), calls);
    ReplayBlocked(log, DoAll(Open(log + torn), calls).log);
  }

  /** A record appended to a lone magic byte does not complete it: the lengths
      read across the two are far beyond the end. */
  lemma MagicBlocks(r: Rec)
    requires |r.key| < 0x100_0000 && |r.val| < 0x100_0000
    ensures RecAt([MAGIC] + RecBytes(r), 0).None?
  {
    hide Crc, LeI64, Le32, FromLe32, FromLeI64;
    var log := [MAGIC] + RecBytes(r);
    var k, v := Le32(|r.key|), Le32(|r.val|);
    SmallLe32(|r.key|);
    SmallLe32(|r.val|);
    assert log[..10] == [MAGIC, MAGIC] + k + v;
    assert log[1..5] == [MAGIC, k[0], k[1], k[2]];
    assert log[5..9] == [k[3], v[0], v[1], v[2]];
    ShiftedLe32(MAGIC, |r.key|);
    ShiftedLe32(0, |r.val|);
  }

  lemma SmallLe32(n: u32)
    requires n < 0x100_0000
    ensures Le32(n)[3] == 0
  {
  }

  lemma ShiftedLe32(b: byte, n: u32)
    requires n < 0x100_0000
    ensures var s := Le32(n); FromLe32([b, s[0], s[1], s[2]]) == b + 0x100 * n
  {
    var s := Le32(n);
    var t := [b, s[0], s[1], s[2]];
    assert t[..2] == [b, s[0]] && t[2..] == [s[1], s[2]];
  }

  function TornPut(key: Key, val: Bytes, now: i64): seq<Event> {
    var put := Call(OpPut(val, 60), key, now);
    [Crash([MAGIC], Rec(key, val, ExpireAt(now, 60))), Op(put)]
  }

  lemma TornPutRuns(key: Key, val: Bytes, now: i64)
    requires |key| < 0x100_0000 && |val| < 0x100_0000
    ensures var es := TornPut(key, val, now);
      && AllClear(FRESH, es) && (forall e :: e in es ==> EventFits(e))
      && Run(FRESH, es).store == Put(Open([MAGIC]), key, val, 60, now)
  {
    hide RecBytes, RecAt, Replay, ExpireAt;
    var es := TornPut(key, val, now);
    var r := es[0].r;
    assert FRESH.store.log + [MAGIC] == [MAGIC];
    var d1 := Next(FRESH, es[0]);
    var d2 := Next(d1, es[1]);
    OneByteTorn(r);
    TornIsNoRecord([], [MAGIC], r);
    MagicBlocks(r);
    assert es[1..] == [es[1]] && es[1..][1..] == [];
    assert Run(d2, []) == d2 && Run(d1, [es[1]]) == d2;
    assert AllClear(d2, []) && AllClear(d1, [es[1]]);
  }

  lemma TornPutFate(key: Key, val: Bytes, now: i64)
    ensures FateOf(TornPut(key, val, now), key) == Fate(Some(Held(val, ExpireAt(now, 60))), None, false)
  {
    hide ExpireAt;
    var es := TornPut(key, val, now);
    assert es[1..] == [es[1]] && es[1..][1..] == [];
    assert FateFrom(UNKNOWN, true, [es[1]], key) == Follow(UNKNOWN, true, es[1], key);
  }

  /** Such a crash: one byte of a record is left, any key is put, and the put is
      readable but neither a reopen nor a compaction keeps it. */
  lemma PutLostBehindTornByte(key: Key, val: Bytes, now: i64)
    requires |key| < 0x100_0000 && |val| < 0x100_0000 && 0 <= now < 0x7FFF_FFFF_FFFF_0000
    ensures var s := Put(Open([MAGIC]), key, val, 60, now);
      && Get(s, key, now) == Some(val)
      && key !in Open(s.log).index
      && key !in Compact(s, now).index
  {
    hide *;
    var es := TornPut(key, val, now);
    FoundNow(val, now);
    TornPutRuns(key, val, now);
    TornPutFate(key, val, now);
    CrashesExactly(es, key, now);
    KeyNotLogged(es, key);
    CompactKeepsExactly(Run(FRESH, es).store, now, key);
  }

  lemma FoundNow(val: Bytes, now: i64)
    requires 0 <= now < 0x7FFF_FFFF_FFFF_0000
    ensures FoundAt(Some(Held(val, ExpireAt(now, 60))), now) == Some(val)
  {
  }

  lemma KeyNotLogged(es: seq<Event>, key: Key)
    requires AllClear(FRESH, es) && (forall e :: e in es ==> EventFits(e)) && FateOf(es, key).logged.None?
    ensures var s := Run(FRESH, es).store;
      key !in Open(s.log).index && IndexOk(s.index, s.log)
  {
    hide Run, AllClear, EventFits, FateFrom, Replay, Clear, Whole, IndexOk;
    FreshFate(key);
    RunFate(FRESH, es, key, UNKNOWN);
  }

  lemma OneByteTorn(r: Rec)
    requires |r.key| < 0x100_0000 && |r.val| < 0x100_0000
    ensures TornTail([MAGIC], r)
  {
    hide Crc;
    RecBytesSize(r);
  }
}
