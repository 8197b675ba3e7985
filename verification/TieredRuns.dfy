/** Whole runs of the tiered cache, with restarts: coherence, staleness, and
    which deleted keys come back. */
module TieredRuns {
  import opened Octets
  import opened Results
  import L1
  import L1Runs
  import L2Log
  import L2Store
  import L2Recovery
  import L2Reopen
  import L2Crashes
  import opened Tiered
  import opened TieredOps

  /** `OpReopen` restarts the process: L1 is gone and L2 is opened on its own
      log. `OpLoseLocal` restarts it on an empty disk: the shared tier stays. */
  datatype Op =
    | OpGet(key: Key)
    | OpPut(key: Key, raw: Bytes, ttl: i64)
    | OpDel(key: Key)
    | OpCompact
    | OpReopen(maxEntries: nat, l1Ttl: int)
    | OpLoseLocal(maxEntries: nat, l1Ttl: int)

  datatype Event = Event(op: Op, now: Millis)

  function Do(t: Tiers, e: Event): (t': Tiers)
    requires L1.Shaped(t.l1)
    ensures L1.Shaped(t'.l1)
  {
    match e.op
    case OpGet(key) => Get(t, key, e.now).0
    case OpPut(key, raw, ttl) => Put(t, key, raw, ttl, e.now)
    case OpDel(key) => Del(t, key)
    case OpCompact => t.(l2 := L2Store.Compact(t.l2, e.now))
    case OpReopen(maxEntries, l1Ttl) => Tiers(L1.New(maxEntries, l1Ttl), L2Store.Open(t.l2.log), t.l3)
    case OpLoseLocal(maxEntries, l1Ttl) => Tiers(L1.New(maxEntries, l1Ttl), L2Store.Open([]), t.l3)
  }

  function Run(t: Tiers, es: seq<Event>): (t': Tiers)
    requires L1.Shaped(t.l1)
    ensures L1.Shaped(t'.l1)
    decreases |es|
  {
    if es == [] then t else Run(Do(t, es[0]), es[1..])
  }

  // ---- the reference -------------------------------------------------------

  /** `current` holds the last put of each key not deleted since. `logged` also
      holds what was deleted since the last compaction: a reopen makes it current
      again. */
  datatype Reference = Reference(current: History, logged: History)

  const NOTHING: Reference := Reference(map[], map[])

  function Remember(ref: Reference, e: Event): Reference {
    match e.op
    case OpGet(_) => ref
    case OpPut(key, raw, ttl) =>
      var last := Last(raw, e.now + ttl * 1000);
      if ttl > 0 then Reference(ref.current[key := last], ref.logged[key := last]) else ref
    case OpDel(key) => ref.(current := ref.current - {key})
    case OpCompact => ref.(logged := ref.current)
    case OpReopen(_, _) => ref.(current := ref.logged)
    case OpLoseLocal(_, _) => ref.(logged := ref.current)
  }

  function RememberFrom(ref: Reference, es: seq<Event>): Reference
    decreases |es|
  {
    if es == [] then ref else RememberFrom(Remember(ref, es[0]), es[1..])
  }

  function RememberAll(es: seq<Event>): Reference {
    RememberFrom(NOTHING, es)
  }

  // ---- what runs are considered --------------------------------------------

  /** Lengths fit the log's fields and times do not overflow. */
  predicate EventFits(e: Event) {
    && e.now + 60000 < 0x8000_0000_0000_0000
    && (e.op.OpPut? ==>
      |e.op.key| < 0x1_0000_0000 && |e.op.raw| < 0x1_0000_0000 &&
      (e.op.ttl > 0 ==> e.now + e.op.ttl * 1000 < 0x8000_0000_0000_0000))
  }

  predicate ClockRuns(es: seq<Event>, clock: Millis)
    decreases |es|
  {
    es == [] || (clock <= es[0].now && EventFits(es[0]) && ClockRuns(es[1..], es[0].now))
  }

  function EndOf(es: seq<Event>, clock: Millis): Millis {
    if es == [] then clock else es[|es| - 1].now
  }

  predicate KeepsLocal(es: seq<Event>) {
    forall e :: e in es ==> !e.op.OpLoseLocal?
  }

  predicate NeverReopens(es: seq<Event>) {
    forall e :: e in es ==> !e.op.OpReopen?
  }

  // ---- what L2 reads as, now and after a reopen ----------------------------

  datatype Views = Views(live: L2Recovery.Spec, logged: L2Recovery.Spec)

  function Follow(t: Tiers, v: Views, e: Event): Views
    requires L1.Shaped(t.l1)
  {
    match e.op
    case OpGet(key) => Views(AfterGet(t, v.live, key, e.now), AfterGet(t, v.logged, key, e.now))
    case OpPut(key, raw, ttl) =>
      if ttl > 0 then Views(L2Put(v.live, key, raw, ttl, e.now), L2Put(v.logged, key, raw, ttl, e.now)) else v
    case OpDel(key) => v.(live := v.live - {key})
    case OpCompact => v.(logged := v.live)
    case OpReopen(_, _) => v.(live := v.logged)
    case OpLoseLocal(_, _) => Views(map[], map[])
  }

  /** What a reopen would find is right for the history it brings back. */
  ghost predicate LoggedOk(t: Tiers, g: History, r: L2Recovery.Spec, clock: Millis) {
    && L2Recovery.Tidy(t.l2)
    && L2Recovery.ReadsAs(L2Store.Open(t.l2.log), r, clock)
    && (forall k :: L2Holds(r, g, t.l3, k))
    && (forall k :: Reasonable(g, k))
  }

  ghost predicate Within(h: History, g: History) {
    forall k :: k in h ==> k in g && g[k] == h[k]
  }

  ghost predicate Sound(t: Tiers, ref: Reference, v: Views, clock: Millis) {
    && Coherent(t, ref.current, v.live, clock)
    && LoggedOk(t, ref.logged, v.logged, clock)
    && Within(ref.current, ref.logged)
  }

  // ---- the log's side of each operation ------------------------------------

  lemma SameReads(a: L2Store.Store, b: L2Store.Store, m: L2Recovery.Spec, clock: Millis)
    requires a.log == b.log && a.index == b.index && L2Recovery.ReadsAs(a, m, clock)
    ensures L2Recovery.ReadsAs(b, m, clock)
  {
    hide L2Recovery.SpecGet;
    forall k, t | clock <= t ensures L2Store.Get(b, k, t) == L2Recovery.SpecGet(m, k, t) {
      assert L2Store.Get(a, k, t) == L2Recovery.SpecGet(m, k, t);
    }
  }

  lemma LoggedPutReads(
    s: L2Store.Store, r: L2Recovery.Spec, key: Key, raw: Bytes, ttl: i64, now: Millis, clock: Millis)
    requires L2Recovery.Tidy(s) && L2Recovery.ReadsAs(L2Store.Open(s.log), r, clock) && clock <= now && ttl > 0
    requires |key| < 0x1_0000_0000 && |raw| < 0x1_0000_0000
    ensures var s' := L2Store.Put(s, key, raw, ttl, now);
      L2Recovery.Tidy(s') && L2Recovery.ReadsAs(L2Store.Open(s'.log), L2Put(r, key, raw, ttl, now), now)
  {
    hide L2Recovery.ReadsAs, L2Store.Replay, L2Store.ExpireAt, L2Recovery.Whole;
    L2Reopen.OpenTidy(s);
    L2Recovery.TidyPut(s, key, raw, ttl, now);
    L2PutReads(L2Store.Open(s.log), r, key, raw, ttl, now, clock);
    var s' := L2Store.Put(s, key, raw, ttl, now);
    var reopened := L2Store.Put(L2Store.Open(s.log), key, raw, ttl, now);
    SameReads(reopened, L2Store.Open(s'.log), L2Put(r, key, raw, ttl, now), now);
  }

  lemma GetLogged(t: Tiers, ref: Reference, v: Views, clock: Millis, key: Key, now: Millis)
    requires Sound(t, ref, v, clock) && clock <= now && now + 60000 < 0x8000_0000_0000_0000
    ensures LoggedOk(Get(t, key, now).0, ref.logged, AfterGet(t, v.logged, key, now), now)
  {
    hide L1Runs.ShardOk, L1Holds, L2Holds, L1.Put, L1.Get, L2Store.Get, L2Store.Put, L2Recovery.Tidy,
      L2Recovery.ReadsAs, L2Store.ExpireAt, L2Store.Open, L2Put;
    ReadsLater(L2Store.Open(t.l2.log), v.logged, clock, now);
    assert L3Holds(t.l3, ref.current, key) && Reasonable(ref.current, key);
    var v3 := SharedGet(t.l3, key, now);
    if L1.Get(t.l1, key, Seconds(now)).1.None? && L2Store.Get(t.l2, key, now).None? && v3.Some? {
      LoggedPutReads(t.l2, v.logged, key, v3.value, PROMOTED_SECONDS, now, clock);
      L2PutHolds(ref.logged, v.logged, t.l3, key, v3.value, now);
    }
  }

  lemma PutLogged(
    t: Tiers, g: History, r: L2Recovery.Spec, clock: Millis, key: Key, raw: Bytes, ttl: i64, now: Millis)
    requires L1.Shaped(t.l1) && LoggedOk(t, g, r, clock) && clock <= now && ttl > 0
    requires now + ttl * 1000 < 0x8000_0000_0000_0000 && |key| < 0x1_0000_0000 && |raw| < 0x1_0000_0000
    ensures LoggedOk(
              Put(t, key, raw, ttl, now), g[key := Last(raw, now + ttl * 1000)], L2Put(r, key, raw, ttl, now), now)
  {
    hide L1.Put, L2Store.Put, L2Recovery.Tidy, L2Recovery.ReadsAs, L2Store.ExpireAt, L2Store.Open;
    ExpiryOf(now, ttl);
    LoggedPutReads(t.l2, r, key, raw, ttl, now, clock);
    var t', g', r' := Put(t, key, raw, ttl, now), g[key := Last(raw, now + ttl * 1000)], L2Put(r, key, raw, ttl, now);
    forall k ensures L2Holds(r', g', t'.l3, k) && Reasonable(g', k) {
      assert L2Holds(r, g, t.l3, k) && Reasonable(g, k);
    }
  }

  lemma DelLogged(t: Tiers, g: History, r: L2Recovery.Spec, clock: Millis, key: Key, now: Millis)
    requires L1.Shaped(t.l1) && LoggedOk(t, g, r, clock) && clock <= now
    ensures LoggedOk(Del(t, key), g, r, now)
  {
    hide L1.Del, L2Recovery.Tidy, L2Recovery.ReadsAs, L2Store.Open;
    L2Recovery.TidyDelete(t.l2, key);
    ReadsLater(L2Store.Open(t.l2.log), r, clock, now);
    var t' := Del(t, key);
    forall k ensures L2Holds(r, g, t'.l3, k) {
      assert L2Holds(r, g, t.l3, k);
    }
  }

  lemma CompactLogged(t: Tiers, h: History, m: L2Recovery.Spec, clock: Millis, now: Millis)
    requires Coherent(t, h, m, clock) && clock <= now
    ensures LoggedOk(t.(l2 := L2Store.Compact(t.l2, now)), h, m, now)
  {
    hide L1Runs.Inv, L1Holds, L3Holds, L2Recovery.Tidy, L2Recovery.ReadsAs, L2Store.Compact, L2Store.Replay;
    L2Recovery.TidyCompact(t.l2, now);
    L2Recovery.CompactReadsAs(t.l2, m, now, clock);
    var c := L2Store.Compact(t.l2, now);
    SameReads(c, L2Store.Open(c.log), m, now);
  }

  /** After a reopen everything logged is current. */
  lemma ReopenSound(t: Tiers, ref: Reference, v: Views, clock: Millis, maxEntries: nat, l1Ttl: int, now: Millis)
    requires Sound(t, ref, v, clock) && clock <= now
    ensures var t' := Tiers(L1.New(maxEntries, l1Ttl), L2Store.Open(t.l2.log), t.l3);
      Coherent(t', ref.logged, v.logged, now) && LoggedOk(t', ref.logged, v.logged, now)
  {
    hide L2Recovery.Tidy, L2Recovery.ReadsAs, L2Store.Replay;
    L1Runs.NewOk(maxEntries, l1Ttl);
    L2Reopen.OpenTidy(t.l2);
    ReadsLater(L2Store.Open(t.l2.log), v.logged, clock, now);
    forall k ensures L3Holds(t.l3, ref.logged, k) {
      assert L3Holds(t.l3, ref.current, k);
    }
  }

  lemma LoseSound(t: Tiers, ref: Reference, v: Views, clock: Millis, maxEntries: nat, l1Ttl: int, now: Millis)
    requires Sound(t, ref, v, clock)
    ensures var t' := Tiers(L1.New(maxEntries, l1Ttl), L2Store.Open([]), t.l3);
      Coherent(t', ref.current, map[], now) && LoggedOk(t', ref.current, map[], now)
  {
    hide L2Recovery.Tidy, L2Recovery.ReadsAs, L1Holds, L3Holds, Reasonable;
    EmptyTiers(maxEntries, l1Ttl, t.l3, ref.current, now);
  }

  /** Every operation and every restart keeps the tiers sound. */
  lemma DoSound(t: Tiers, ref: Reference, v: Views, clock: Millis, e: Event)
    requires Sound(t, ref, v, clock) && clock <= e.now && EventFits(e)
    ensures Sound(Do(t, e), Remember(ref, e), Follow(t, v, e), e.now)
    ensures Do(t, e).l3.Some? == t.l3.Some?
  {
    hide Coherent, LoggedOk, L2Store.Compact, L2Store.Put, L2Store.Delete, L2Store.Open, L1.Put, L1.Get, L1.Del,
      AfterGet, L2Put, L1.New;
    var h, m, g, r := ref.current, v.live, ref.logged, v.logged;
    CoherentShaped(t, h, m, clock);
    match e.op
    case OpGet(key) =>
      GetKeeps(t, h, m, clock, key, e.now);
      GetLogged(t, ref, v, clock, key, e.now);
    case OpPut(key, raw, ttl) =>
      if ttl > 0 {
        PutKeeps(t, h, m, clock, key, raw, ttl, e.now);
        PutLogged(t, g, r, clock, key, raw, ttl, e.now);
      } else {
        SoundLater(t, ref, v, clock, e.now);
      }
    case OpDel(key) =>
      DelKeeps(t, h, m, clock, key, e.now);
      DelLogged(t, g, r, clock, key, e.now);
    case OpCompact =>
      CompactKeeps(t, h, m, clock, e.now);
      CompactLogged(t, h, m, clock, e.now);
    case OpReopen(maxEntries, l1Ttl) => ReopenSound(t, ref, v, clock, maxEntries, l1Ttl, e.now);
    case OpLoseLocal(maxEntries, l1Ttl) => LoseSound(t, ref, v, clock, maxEntries, l1Ttl, e.now);
  }

  lemma SoundLater(t: Tiers, ref: Reference, v: Views, clock: Millis, now: Millis)
    requires Sound(t, ref, v, clock) && clock <= now
    ensures Sound(t, ref, v, now)
  {
    hide L1Runs.Inv, L1Holds, L2Holds, L3Holds, L2Recovery.Tidy, L2Recovery.ReadsAs, L2Store.Open;
    ReadsLater(t.l2, v.live, clock, now);
    ReadsLater(L2Store.Open(t.l2.log), v.logged, clock, now);
  }

  // ---- availability --------------------------------------------------------

  /** L2 holds everything put and not deleted, and would after a reopen hold
      everything that is logged. */
  ghost predicate L2Complete(ref: Reference, v: Views) {
    L2KeepsAll(ref.current, v.live) && L2KeepsAll(ref.logged, v.logged)
  }

  ghost predicate SharedComplete(l3: Shared, h: History) {
    l3.Some? && forall k :: k in h ==> k in l3.value
  }

  /** While L2 is complete the shared tier never has what L2 misses. */
  lemma NothingToPromote(t: Tiers, ref: Reference, v: Views, clock: Millis, key: Key, now: Millis)
    requires Sound(t, ref, v, clock) && clock <= now && L2Complete(ref, v)
    ensures L2Store.Get(t.l2, key, now).None? ==> SharedGet(t.l3, key, now).None?
  {
    hide L1Runs.Inv, L1Holds, L2Holds, L2Recovery.Tidy, L2Store.Get, LoggedOk;
    ReadsNow(t.l2, v.live, clock, key, now);
    assert L3Holds(t.l3, ref.current, key) && L2Keeps(ref.current, v.live, key) && Reasonable(ref.current, key);
  }

  lemma DoComplete(t: Tiers, ref: Reference, v: Views, clock: Millis, e: Event)
    requires Sound(t, ref, v, clock) && clock <= e.now && EventFits(e) && L2Complete(ref, v) && !e.op.OpLoseLocal?
    ensures L2Complete(Remember(ref, e), Follow(t, v, e))
  {
    hide L1Runs.Inv, L1Holds, L2Holds, L2Recovery.Tidy, L2Recovery.ReadsAs, L2Store.Get, L2Store.Open, L1.Get,
      L2Store.ExpireAt, Coherent, LoggedOk;
    CoherentShaped(t, ref.current, v.live, clock);
    match e.op
    case OpGet(key) =>
      NothingToPromote(t, ref, v, clock, key, e.now);
    case OpPut(key, raw, ttl) =>
      if ttl > 0 {
        ExpiryOf(e.now, ttl);
        PutComplete(ref.current, v.live, key, raw, ttl, e.now);
        PutComplete(ref.logged, v.logged, key, raw, ttl, e.now);
      }
    case OpDel(key) =>
      forall k ensures L2Keeps(ref.current - {key}, v.live - {key}, k) {
        assert L2Keeps(ref.current, v.live, k);
      }
    case OpCompact =>
    case OpReopen(_, _) =>
  }

  lemma PutComplete(h: History, m: L2Recovery.Spec, key: Key, raw: Bytes, ttl: i64, now: Millis)
    requires L2KeepsAll(h, m) && L2Store.ExpireAt(now, ttl) == now + ttl * 1000
    ensures L2KeepsAll(h[key := Last(raw, now + ttl * 1000)], L2Put(m, key, raw, ttl, now))
  {
    hide L2Store.ExpireAt;
    var h', m' := h[key := Last(raw, now + ttl * 1000)], L2Put(m, key, raw, ttl, now);
    forall k ensures L2Keeps(h', m', k) {
      assert L2Keeps(h, m, k);
    }
  }

  lemma DoShared(t: Tiers, ref: Reference, e: Event)
    requires L1.Shaped(t.l1) && SharedComplete(t.l3, ref.current) && !e.op.OpReopen?
    ensures SharedComplete(Do(t, e).l3, Remember(ref, e).current)
  {
    hide L1.Put, L1.Get, L1.Del, L2Store.Put, L2Store.Get, L2Store.Delete, L2Store.Compact, L2Store.Open, L1.New;
  }

  // ---- runs ----------------------------------------------------------------

  function FollowAll(t: Tiers, v: Views, es: seq<Event>): Views
    requires L1.Shaped(t.l1)
    decreases |es|
  {
    if es == [] then v else FollowAll(Do(t, es[0]), Follow(t, v, es[0]), es[1..])
  }

  lemma {:induction false} RunSound(t: Tiers, ref: Reference, v: Views, clock: Millis, es: seq<Event>)
    requires L1.Shaped(t.l1) && Sound(t, ref, v, clock) && ClockRuns(es, clock)
    ensures var t', ref', v' := Run(t, es), RememberFrom(ref, es), FollowAll(t, v, es);
      && Sound(t', ref', v', EndOf(es, clock))
      && t'.l3.Some? == t.l3.Some?
      && (L2Complete(ref, v) && KeepsLocal(es) ==> L2Complete(ref', v'))
      && (SharedComplete(t.l3, ref.current) && NeverReopens(es) ==> SharedComplete(t'.l3, ref'.current))
    decreases |es|
  {
    hide Sound, Do, Remember, Follow, EventFits, L2Complete, SharedComplete, L1.Shaped;
    if es == [] {
    } else {
      var e := es[0];
      assert KeepsLocal(es) ==> !e.op.OpLoseLocal? && KeepsLocal(es[1..]);
      assert NeverReopens(es) ==> !e.op.OpReopen? && NeverReopens(es[1..]);
      DoSound(t, ref, v, clock, e);
      if L2Complete(ref, v) && !e.op.OpLoseLocal? {
        DoComplete(t, ref, v, clock, e);
      }
      if SharedComplete(t.l3, ref.current) && !e.op.OpReopen? {
        DoShared(t, ref, e);
      }
      RunSound(Do(t, e), Remember(ref, e), Follow(t, v, e), e.now, es[1..]);
    }
  }

  /** A cache opened with nothing in any tier. */
  function Fresh(maxEntries: nat, l1Ttl: int, withShared: bool): (t: Tiers)
    ensures L1.Shaped(t.l1)
  {
    Tiers(L1.New(maxEntries, l1Ttl), L2Store.Open([]), if withShared then Some(map[]) else None)
  }

  const EMPTY_VIEWS: Views := Views(map[], map[])

  lemma FreshSound(maxEntries: nat, l1Ttl: int, withShared: bool, clock: Millis)
    ensures Sound(Fresh(maxEntries, l1Ttl, withShared), NOTHING, EMPTY_VIEWS, clock)
    ensures L2Complete(NOTHING, EMPTY_VIEWS)
    ensures withShared ==> SharedComplete(Fresh(maxEntries, l1Ttl, withShared).l3, NOTHING.current)
  {
    hide L2Recovery.Tidy, L2Recovery.ReadsAs, L1Holds, L2Store.Open, L1.New;
    var t := Fresh(maxEntries, l1Ttl, withShared);
    EmptyTiers(maxEntries, l1Ttl, t.l3, map[], clock);
    EmptyLog();
  }

  lemma EmptyLog()
    ensures L2Store.Open([]).log == []
  {
  }

  /** Over any run of gets, puts, deletes, uninterrupted compactions and restarts
      with or without the local disk, under a clock that does not run back: a hit
      is the current value of the key, served within a minute of its expiry, or
      two minutes with a shared tier; and until its expiry it is a hit, as long as
      the disk was kept, or there is a shared tier and L2 was not reopened. */
  lemma HitWindow(
    maxEntries: nat, l1Ttl: int, withShared: bool, clock: Millis, es: seq<Event>, key: Key, now: Millis)
    requires ClockRuns(es, clock) && EndOf(es, clock) <= now
    ensures var t, h := Run(Fresh(maxEntries, l1Ttl, withShared), es), RememberAll(es).current;
      var r := Get(t, key, now).1;
      var slack := if withShared then 120000 else 60000;
      && (r.Some? ==> key in h && r.value == h[key].raw && now < h[key].expireAt + slack)
      && (key in h && now < h[key].expireAt && (KeepsLocal(es) || (withShared && NeverReopens(es))) ==> r.Some?)
  {
    hide Coherent, LoggedOk, Run, RememberFrom, L1.New, L2Store.Open, L1.Shaped, Get, L2Keeps, KeepsLocal,
      NeverReopens, FollowAll, ClockRuns;
    var t0 := Fresh(maxEntries, l1Ttl, withShared);
    FreshSound(maxEntries, l1Ttl, withShared, clock);
    RunSound(t0, NOTHING, EMPTY_VIEWS, clock, es);
    var t, ref, v := Run(t0, es), RememberAll(es), FollowAll(t0, EMPTY_VIEWS, es);
    GetFinds(t, ref.current, v.live, EndOf(es, clock), key, now);
  }

  // ---- deleted keys that come back -----------------------------------------

  /** The event deletes the key while it is current. */
  predicate Removes(es: seq<Event>, i: nat, key: Key)
    requires i < |es|
  {
    es[i].op == OpDel(key) && key in RememberAll(es[..i]).current
  }

  /** After the event no deleted value of the key is left to come back. */
  predicate Settles(e: Event, key: Key) {
    match e.op
    case OpPut(k, _, ttl) => k == key && ttl > 0
    case OpCompact => true
    case OpReopen(_, _) => true
    case OpLoseLocal(_, _) => true
    case _ => false
  }

  predicate RemovedLast(es: seq<Event>, i: nat, key: Key)
    requires i < |es|
  {
    Removes(es, i, key) && forall j :: i < j < |es| ==> !Settles(es[j], key)
  }

  predicate Buried(ref: Reference, key: Key) {
    key in ref.logged && key !in ref.current
  }

  lemma {:induction false} RememberLast(ref: Reference, es: seq<Event>, e: Event)
    ensures RememberFrom(ref, es + [e]) == Remember(RememberFrom(ref, es), e)
    decreases |es|
  {
    hide Remember;
    if es == [] {
      assert es + [e] == [e] && [e][1..] == [];
    } else {
      assert (es + [e])[1..] == es[1..] + [e];
      RememberLast(Remember(ref, es[0]), es[1..], e);
    }
  }

  lemma {:induction false} AlwaysWithin(es: seq<Event>)
    ensures Within(RememberAll(es).current, RememberAll(es).logged)
    decreases |es|
  {
    if es == [] {
    } else {
      var n := |es| - 1;
      assert es == es[..n] + [es[n]];
      RememberLast(NOTHING, es[..n], es[n]);
      AlwaysWithin(es[..n]);
    }
  }

  /** A key is deleted but ready to come back exactly when some delete removed it
      and neither a put of the key with a positive ttl nor a compaction nor a
      restart followed. */
  lemma {:induction false} BuriedExactly(es: seq<Event>, key: Key)
    ensures Buried(RememberAll(es), key) <==> exists i :: 0 <= i < |es| && RemovedLast(es, i, key)
    decreases |es|
  {
    if es == [] {
    } else {
      var n := |es| - 1;
      var front, e := es[..n], es[n];
      assert es == front + [e];
      RememberLast(NOTHING, front, e);
      AlwaysWithin(front);
      BuriedExactly(front, key);
      assert RemovedLast(es, n, key) <==> Removes(es, n, key);
      forall i | 0 <= i < n
        ensures RemovedLast(es, i, key) <==> RemovedLast(front, i, key) && !Settles(e, key)
      {
        RemovedEarlier(es, n, i, key);
      }
    }
  }

  lemma RemovedEarlier(es: seq<Event>, n: nat, i: nat, key: Key)
    requires n == |es| - 1 && i < n
    ensures RemovedLast(es, i, key) <==> RemovedLast(es[..n], i, key) && !Settles(es[n], key)
  {
    hide RememberAll, Settles;
    var front := es[..n];
    assert front[..i] == es[..i];
    assert forall j :: i < j < n ==> front[j] == es[j];
  }

  /** What a restart on the same disk brings back. A key that was deleted hits
      afterwards only if it was left to come back, with the value it had; and if
      it was, it does hit until that value expires. Keys not deleted are served as
      before. */
  lemma ReopenBringsBack(
    maxEntries: nat, l1Ttl: int, withShared: bool, clock: Millis, es: seq<Event>, reopen: Event, key: Key, now: Millis)
    requires reopen.op.OpReopen? && ClockRuns(es + [reopen], clock) && reopen.now <= now
    requires key !in RememberAll(es).current
    ensures var t, g := Run(Fresh(maxEntries, l1Ttl, withShared), es + [reopen]), RememberAll(es).logged;
      var r := Get(t, key, now).1;
      && (r.Some? ==>
            Buried(RememberAll(es), key) && r.value == g[key].raw &&
            now < g[key].expireAt + (if withShared then 120000 else 60000))
      && (Buried(RememberAll(es), key) && now < g[key].expireAt && KeepsLocal(es) ==> r.Some?)
  {
    hide Run, RememberFrom, Get, Fresh, ClockRuns;
    RememberLast(NOTHING, es, reopen);
    HitWindow(maxEntries, l1Ttl, withShared, clock, es + [reopen], key, now);
    assert KeepsLocal(es) ==> KeepsLocal(es + [reopen]);
  }

  /** A restart that finds a torn record is no event of these runs, and with one
      the window does not hold: on a disk where a crash left one byte, a put hits,
      and after the next restart, before its expiry, it does not. */
  lemma TornLogForgets(maxEntries: nat, l1Ttl: int, key: Key, raw: Bytes, now: Millis)
    requires |key| < 0x100_0000 && |raw| < 0x100_0000 && now < 0x7FFF_FFFF_FFFF_0000
    ensures var torn := Tiers(L1.New(maxEntries, l1Ttl), L2Store.Open([L2Log.MAGIC]), None);
      var put := Do(torn, Event(OpPut(key, raw, 60), now));
      var again := Do(put, Event(OpReopen(maxEntries, l1Ttl), now));
      Get(put, key, now).1 == Some(raw) && Get(again, key, now).1 == None
  {
    hide L1.New, L1.Put, L1.Get, L2Store.Put, L2Store.Open, L1Runs.Inv, L1Runs.Peek, L2Store.Get, L1.Shaped;
    var c := L1.New(maxEntries, l1Ttl);
    L1Runs.NewOk(maxEntries, l1Ttl);
    NewMisses(maxEntries, l1Ttl, key, now);
    PutHits(c, key, raw, now);
    ForgottenByL2(key, raw, now);
  }

  lemma NewMisses(maxEntries: nat, l1Ttl: int, key: Key, now: Millis)
    ensures var c := L1.New(maxEntries, l1Ttl); L1.Shaped(c) && L1.Get(c, key, Seconds(now)).1.None?
  {
    hide L1.Get, L1Runs.Peek, L1.New, L1Runs.ShardOk;
    L1Runs.NewOk(maxEntries, l1Ttl);
    L1Runs.GetMeaning(L1.New(maxEntries, l1Ttl), key, Seconds(now));
    NewHoldsNothing(maxEntries, l1Ttl, key);
  }

  /** What was just put hits. */
  lemma PutHits(c: L1.Cache, key: Key, raw: Bytes, now: Millis)
    requires L1Runs.Inv(c) && c.maxTtl > 0
    ensures L1.Shaped(c) && L1.Shaped(L1.Put(c, key, raw, 60, Seconds(now)))
    ensures L1.Get(L1.Put(c, key, raw, 60, Seconds(now)), key, Seconds(now)).1 == Some(raw)
  {
    hide L1Runs.ShardOk, L1Runs.Peek, L1.Put, L1.Get, L1Runs.AllFresh;
    L1Runs.PutMeaning(c, key, raw, 60, Seconds(now));
    LimitAfterPut(c, key, raw, now);
    L1Runs.GetMeaning(L1.Put(c, key, raw, 60, Seconds(now)), key, Seconds(now));
  }

  lemma ForgottenByL2(key: Key, raw: Bytes, now: Millis)
    requires |key| < 0x100_0000 && |raw| < 0x100_0000 && now < 0x7FFF_FFFF_FFFF_0000
    ensures L2Store.Get(L2Store.Open(L2Store.Put(L2Store.Open([L2Log.MAGIC]), key, raw, 60, now).log), key, now) == None
  {
    hide L2Store.Put, L2Store.Open;
    L2Crashes.PutLostBehindTornByte(key, raw, now);
  }

  lemma NewHoldsNothing(maxEntries: nat, l1Ttl: int, key: Key)
    ensures L1Runs.Peek(L1.New(maxEntries, l1Ttl), key) == None
  {
  }

  // ---- values served after their expiry ------------------------------------

  predicate L1Punctual(c: L1.Cache, h: History, k: Key)
    requires L1.Shaped(c)
  {
    var p := L1Runs.Peek(c, k);
    k in h && p.Some? ==> 1000 * (p.value.stored + p.value.ttl) <= h[k].expireAt
  }

  predicate L2Punctual(h: History, m: L2Recovery.Spec, k: Key) {
    k in h && k in m ==> m[k].1 <= h[k].expireAt
  }

  /** Nothing serves the key past its expiry, now or after a reopen. */
  predicate Punctual(c: L1.Cache, ref: Reference, v: Views, k: Key)
    requires L1.Shaped(c)
  {
    L1Punctual(c, ref.current, k) && L2Punctual(ref.current, v.live, k) && L2Punctual(ref.logged, v.logged, k)
  }

  /** The get moves the key's value up a tier. */
  predicate Promotes(t: Tiers, key: Key, now: Millis)
    requires L1.Shaped(t.l1)
  {
    L1.Get(t.l1, key, Seconds(now)).1.None? && Get(t, key, now).1.Some?
  }

  /** The event neither puts, deletes nor promotes the key. */
  predicate Leaves(t: Tiers, e: Event, key: Key)
    requires L1.Shaped(t.l1)
  {
    match e.op
    case OpGet(k) => k == key ==> !Promotes(t, key, e.now)
    case OpPut(k, _, ttl) => !(k == key && ttl > 0)
    case OpDel(k) => k != key
    case _ => true
  }

  predicate AllLeave(t: Tiers, es: seq<Event>, key: Key)
    requires L1.Shaped(t.l1)
    decreases |es|
  {
    es == [] || (Leaves(t, es[0], key) && AllLeave(Do(t, es[0]), es[1..], key))
  }

  lemma GetPunctual(t: Tiers, ref: Reference, v: Views, clock: Millis, e: Event, key: Key)
    requires Sound(t, ref, v, clock) && L1.Shaped(t.l1) && Punctual(t.l1, ref, v, key) && e.op.OpGet?
    requires Leaves(t, e, key)
    ensures Punctual(Do(t, e).l1, ref, Follow(t, v, e), key)
  {
    hide L1Runs.ShardOk, L1Runs.Peek, L1.Get, L1.Put, L1.Fresh, L1.ShardOf, L2Store.Get, L2Store.Put, L1Runs.AllFresh,
      LoggedOk, L1Holds, L2Holds, L3Holds;
    var k, now := e.op.key, Seconds(e.now);
    L1Runs.GetMeaning(t.l1, k, now);
    var l1 := L1.Get(t.l1, k, now).0;
    if k != key {
      var v2, v3 := L2Store.Get(t.l2, k, e.now), SharedGet(t.l3, k, e.now);
      if v2.Some? {
        L1Runs.PutMeaning(l1, k, v2.value, PROMOTED_SECONDS, now);
      } else if v3.Some? {
        L1Runs.PutMeaning(l1, k, v3.value, PROMOTED_SECONDS, now);
      }
    }
  }

  lemma OtherPutPunctual(c: L1.Cache, h: History, k: Key, raw: Bytes, ttl: i64, now: Millis, last: Last, key: Key)
    requires L1Runs.Inv(c) && ttl > 0 && k != key && L1Punctual(c, h, key)
    ensures L1.Shaped(L1.Put(c, k, raw, ttl, Seconds(now)))
    ensures L1Punctual(L1.Put(c, k, raw, ttl, Seconds(now)), h[k := last], key)
  {
    hide L1Runs.ShardOk, L1Runs.Peek, L1.Put, L1.Fresh, L1.ShardOf, L1Runs.AllFresh;
    L1Runs.PutMeaning(c, k, raw, ttl, Seconds(now));
  }

  lemma OtherDelPunctual(c: L1.Cache, h: History, k: Key, key: Key)
    requires L1Runs.Inv(c) && k != key && L1Punctual(c, h, key)
    ensures L1.Shaped(L1.Del(c, k)) && L1Punctual(L1.Del(c, k), h - {k}, key)
  {
    hide L1Runs.ShardOk, L1Runs.Peek, L1.Del, L1.ShardOf;
    L1Runs.DelMeaning(c, k);
  }

  lemma CoherentInv(t: Tiers, h: History, m: L2Recovery.Spec, clock: Millis)
    requires Coherent(t, h, m, clock)
    ensures L1Runs.Inv(t.l1)
  {
  }

  lemma DoPunctual(t: Tiers, ref: Reference, v: Views, clock: Millis, e: Event, key: Key)
    requires Sound(t, ref, v, clock) && L1.Shaped(t.l1) && Punctual(t.l1, ref, v, key) && Leaves(t, e, key)
    ensures Punctual(Do(t, e).l1, Remember(ref, e), Follow(t, v, e), key)
  {
    hide L1Runs.Inv, L1Runs.Peek, L1Punctual, L1.Get, L1.Put, L1.Del, L2Store.Get, L2Store.Put, LoggedOk, Coherent,
      L2Store.Compact, L2Store.Delete, L2Store.Open, L2Store.ExpireAt, L1.New, Promotes;
    CoherentInv(t, ref.current, v.live, clock);
    match e.op
    case OpGet(_) => GetPunctual(t, ref, v, clock, e, key);
    case OpPut(k, raw, ttl) =>
      if ttl > 0 {
        OtherPutPunctual(t.l1, ref.current, k, raw, ttl, e.now, Last(raw, e.now + ttl * 1000), key);
      }
    case OpDel(k) => OtherDelPunctual(t.l1, ref.current, k, key);
    case OpCompact =>
    case OpReopen(maxEntries, l1Ttl) => NewPunctual(maxEntries, l1Ttl, ref.logged, key);
    case OpLoseLocal(maxEntries, l1Ttl) => NewPunctual(maxEntries, l1Ttl, ref.current, key);
  }

  lemma NewPunctual(maxEntries: nat, l1Ttl: int, h: History, key: Key)
    ensures L1.Shaped(L1.New(maxEntries, l1Ttl)) && L1Punctual(L1.New(maxEntries, l1Ttl), h, key)
  {
  }

  lemma {:induction false} RunPunctual(t: Tiers, ref: Reference, v: Views, clock: Millis, es: seq<Event>, key: Key)
    requires L1.Shaped(t.l1) && Sound(t, ref, v, clock) && ClockRuns(es, clock)
    requires Punctual(t.l1, ref, v, key) && AllLeave(t, es, key)
    ensures Punctual(Run(t, es).l1, RememberFrom(ref, es), FollowAll(t, v, es), key)
    ensures key in ref.current ==>
      key in RememberFrom(ref, es).current && RememberFrom(ref, es).current[key] == ref.current[key]
    decreases |es|
  {
    hide Sound, Do, Follow, EventFits, Punctual, L1.Shaped, Promotes;
    if es == [] {
    } else {
      DoSound(t, ref, v, clock, es[0]);
      DoPunctual(t, ref, v, clock, es[0], key);
      LeftAlone(t, ref, v, clock, es[0], key);
      RunPunctual(Do(t, es[0]), Remember(ref, es[0]), Follow(t, v, es[0]), es[0].now, es[1..], key);
    }
  }

  lemma LeftAlone(t: Tiers, ref: Reference, v: Views, clock: Millis, e: Event, key: Key)
    requires Sound(t, ref, v, clock) && L1.Shaped(t.l1) && Leaves(t, e, key)
    ensures var h := Remember(ref, e).current; key in ref.current ==> key in h && h[key] == ref.current[key]
  {
    hide Coherent, LoggedOk, Promotes;
  }

  /** Right after a put nothing serves the key past its expiry. */
  lemma PutPunctual(t: Tiers, ref: Reference, v: Views, clock: Millis, e: Event, key: Key)
    requires Sound(t, ref, v, clock) && L1.Shaped(t.l1) && clock <= e.now && EventFits(e)
    requires e.op.OpPut? && e.op.key == key && e.op.ttl > 0
    ensures Punctual(Do(t, e).l1, Remember(ref, e), Follow(t, v, e), key)
    ensures key in Remember(ref, e).current && Remember(ref, e).current[key] == Last(e.op.raw, e.now + e.op.ttl * 1000)
  {
    hide L1Runs.ShardOk, L1Runs.Peek, L1.Put, L1.ShardOf, L2Store.Put, L1Runs.AllFresh, LoggedOk, L1Holds, L2Holds,
      L3Holds, L2Store.ExpireAt, L1.Fresh;
    ExpiryOf(e.now, e.op.ttl);
    L1Runs.PutMeaning(t.l1, key, e.op.raw, e.op.ttl, Seconds(e.now));
  }

  lemma PunctualGet(t: Tiers, ref: Reference, v: Views, clock: Millis, key: Key, now: Millis)
    requires Sound(t, ref, v, clock) && L1.Shaped(t.l1) && clock <= now
    requires Punctual(t.l1, ref, v, key) && key in ref.current && Get(t, key, now).1.Some?
    ensures now < ref.current[key].expireAt
  {
    hide L1Runs.ShardOk, L1Runs.Peek, L1.Get, L1.Put, L1.ShardOf, L2Store.Get, L2Store.Put, L1Runs.AllFresh, LoggedOk,
      L1Holds, L2Recovery.Tidy, L2Recovery.ReadsAs;
    L1Runs.GetMeaning(t.l1, key, Seconds(now));
    ReadsNow(t.l2, v.live, clock, key, now);
    assert L2Holds(v.live, ref.current, t.l3, key) && L3Holds(t.l3, ref.current, key);
  }

  /** Only promotion serves a value past its expiry: if since its last put the key
      was neither deleted nor moved up a tier, a hit comes strictly before that
      put's ttl has run out, whatever else happened, restarts included. */
  lemma NoPromotionNoStaleHit(
    maxEntries: nat, l1Ttl: int, withShared: bool, clock: Millis, before: seq<Event>, put: Event, after: seq<Event>,
    key: Key, now: Millis)
    requires put.op.OpPut? && put.op.key == key && put.op.ttl > 0
    requires ClockRuns(before, clock) && ClockRuns([put] + after, EndOf(before, clock))
    requires EndOf([put] + after, clock) <= now
    requires AllLeave(Do(Run(Fresh(maxEntries, l1Ttl, withShared), before), put), after, key)
    requires Get(Run(Do(Run(Fresh(maxEntries, l1Ttl, withShared), before), put), after), key, now).1.Some?
    ensures var t := Run(Do(Run(Fresh(maxEntries, l1Ttl, withShared), before), put), after);
      Get(t, key, now).1 == Some(put.op.raw) && now < put.now + put.op.ttl * 1000
  {
    hide Coherent, LoggedOk, Within, Run, RememberFrom, Fresh, L1.Shaped, Get, FollowAll, Do, Remember, Follow,
      Punctual, AllLeave, EventFits, L2Complete, SharedComplete;
    var t0 := Fresh(maxEntries, l1Ttl, withShared);
    FreshSound(maxEntries, l1Ttl, withShared, clock);
    RunSound(t0, NOTHING, EMPTY_VIEWS, clock, before);
    var t1, ref1, v1 := Run(t0, before), RememberFrom(NOTHING, before), FollowAll(t0, EMPTY_VIEWS, before);
    assert ([put] + after)[1..] == after;
    DoSound(t1, ref1, v1, EndOf(before, clock), put);
    PutPunctual(t1, ref1, v1, EndOf(before, clock), put, key);
    var t2, ref2, v2 := Do(t1, put), Remember(ref1, put), Follow(t1, v1, put);
    RunSound(t2, ref2, v2, put.now, after);
    RunPunctual(t2, ref2, v2, put.now, after, key);
    var t3, ref3, v3 := Run(t2, after), RememberFrom(ref2, after), FollowAll(t2, v2, after);
    assert EndOf(after, put.now) == EndOf([put] + after, clock);
    PunctualGet(t3, ref3, v3, EndOf(after, put.now), key, now);
    GetFinds(t3, ref3.current, v3.live, EndOf(after, put.now), key, now);
  }

  /** Such a hit in a run: a value put for 100 seconds, promoted after 99, still
      hits after 150. */
  lemma StaleHitHappens(key: Key, raw: Bytes)
    requires |key| < 0x1_0000_0000 && |raw| < 0x1_0000_0000
    ensures var es := [Event(OpPut(key, raw, 100), 0), Event(OpGet(key), 99000)];
      Get(Run(Fresh(0, 60, false), es), key, 150000).1 == Some(raw)
  {
    hide Coherent, LoggedOk, Get, Do, Follow, Remember, L1.Get, L2Store.Get, L1.Shaped, L1Runs.Peek, L1.New, L1.Put;
    var es := [Event(OpPut(key, raw, 100), 0), Event(OpGet(key), 99000)];
    var t0 := Fresh(0, 60, false);
    var t1 := Do(t0, es[0]);
    FreshSound(0, 60, false, 0);
    DoSound(t0, NOTHING, EMPTY_VIEWS, 0, es[0]);
    AfterFirstPut(key, raw);
    PromotionOutlivesExpiry(t1, key, 99000, 150000);
    GetIsDo(t1, key, 99000);
    assert es[1..] == [es[1]] && es[1..][1..] == [];
    assert Run(t1, [es[1]]) == Run(Do(t1, es[1]), []) == Do(t1, es[1]);
  }

  lemma GetIsDo(t: Tiers, key: Key, now: Millis)
    requires L1.Shaped(t.l1)
    ensures Do(t, Event(OpGet(key), now)) == Get(t, key, now).0
  {
    hide Get;
  }

  /** 99 seconds after that put L1 has let the value go and L2 has not. */
  lemma AfterFirstPut(key: Key, raw: Bytes)
    requires |key| < 0x1_0000_0000 && |raw| < 0x1_0000_0000
    ensures var t := Do(Fresh(0, 60, false), Event(OpPut(key, raw, 100), 0));
      && L1Runs.Inv(t.l1) && t.l1.maxTtl >= 60
      && L1.Get(t.l1, key, Seconds(99000)).1.None?
      && L2Store.Get(t.l2, key, 99000) == Some(raw)
  {
    hide L1Runs.Peek, L1Runs.ShardOk, L1.Get, L1.ShardOf, L2Store.Get, L2Store.Put, L1Runs.AllFresh,
      L2Recovery.Tidy, L2Recovery.ReadsAs, L2Store.Open, L1.MakeRoom, L1.Store;
    var t0 := Fresh(0, 60, false);
    FreshSound(0, 60, false, 0);
    L1Runs.NewOk(0, 60);
    ExpiryOf(0, 100);
    L1Runs.PutMeaning(t0.l1, key, raw, 100, 0);
    var t := Put(t0, key, raw, 100, 0);
    L1Runs.GetMeaning(t.l1, key, 99);
    L2PutReads(t0.l2, map[], key, raw, 100, 0, 0);
    ReadsNow(t.l2, L2Put(map[], key, raw, 100, 0), 0, key, 99000);
  }
}
