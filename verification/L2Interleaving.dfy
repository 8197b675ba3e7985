/** Every interleaving of puts, deletes and the three compaction phases. */
module L2Interleaving {
  import opened Octets
  import opened Results
  import opened L2Log
  import opened L2Store
  import opened L2Compaction

  /** `seen` and `taken` remember the snapshot; the code keeps only `live`. */
  datatype Phase =
    | Idle
    | Scanning(seen: Store, taken: i64, live: set<nat>, at: nat, out: Bytes, newIndex: Index)
    | Ready(seen: Store, taken: i64, out: Bytes, newIndex: Index)

  /** `written` is every key with every value ever put under it. */
  datatype Sys = Sys(store: Store, phase: Phase, written: set<(Key, Bytes)>)

  datatype Step =
    | PutStep(key: Key, val: Bytes, ttl: i64, now: i64)
    | DeleteStep(key: Key)
    | SnapshotStep(now: i64)
    | ScanStep
    | SwapStep
    | AbortStep

  predicate StepFits(step: Step) {
    step.PutStep? ==> |step.key| < 0x1_0000_0000 && |step.val| < 0x1_0000_0000
  }

  /** A step that the phase does not allow does nothing. */
  function Next(s: Sys, step: Step): Sys {
    match step
    case PutStep(key, val, ttl, now) =>
      s.(store := Put(s.store, key, val, ttl, now), written := if ttl > 0 then s.written + {(key, val)} else s.written)
    case DeleteStep(key) => s.(store := Delete(s.store, key))
    case SnapshotStep(now) =>
      if s.phase.Idle? then s.(phase := Scanning(s.store, now, Live(s.store, now), 0, [], map[])) else s
    case ScanStep => if s.phase.Scanning? then s.(phase := Scan(s.store.log, s.phase)) else s
    case SwapStep => if s.phase.Ready? then s.(store := Swap(s.phase.out, s.phase.newIndex), phase := Idle) else s
    case AbortStep => s.(phase := Idle)
  }

  /** The scan reads the log as it is now. */
  function Scan(log: Bytes, p: Phase): Phase
    requires p.Scanning?
  {
    var r := RecAt(log, p.at);
    if r.None? then Ready(p.seen, p.taken, p.out, p.newIndex)
    else
      var (out, newIndex) := CopyOne(log, p.live, p.at, p.out, p.newIndex);
      p.(at := p.at + RecSize(r.value), out := out, newIndex := newIndex)
  }

  function Run(s: Sys, steps: seq<Step>): Sys
    decreases |steps|
  {
    if steps == [] then s else Run(Next(s, steps[0]), steps[1..])
  }

  // ---- the invariant -------------------------------------------------------

  ghost predicate StoreOk(s: Store, written: set<(Key, Bytes)>) {
    && IndexOk(s.index, s.log)
    && Known(s.index, s.log, written)
    && s.size == |s.log| >= Total(s.index) + s.dead
  }

  /** The file is exactly the indexed records plus the dead bytes. */
  ghost predicate Exact(s: Store) {
    s.size == Total(s.index) + s.dead
  }

  ghost predicate PhaseOk(s: Sys) {
    match s.phase
    case Idle => true
    case Scanning(seen, taken, live, at, out, newIndex) =>
      live == Live(seen, taken) && Copying(seen, taken, s.store.log, at, out, newIndex, s.written)
    case Ready(seen, taken, out, newIndex) =>
      && seen.log <= s.store.log
      && Copied(seen, taken, out, newIndex, s.written)
      && AllCopied(seen, taken, newIndex)
  }

  ghost predicate Inv(s: Sys) {
    StoreOk(s.store, s.written) && PhaseOk(s)
  }

  // ---- opening any file ----------------------------------------------------

  ghost function Values(index: Index, log: Bytes): set<(Key, Bytes)> {
    set k | k in index && EntryOk(log, k, index[k]) :: (k, RecAt(log, index[k].offset).value.val)
  }

  lemma ValuesKnown(index: Index, log: Bytes)
    ensures Known(index, log, Values(index, log))
  {
    hide EntryOk, RecAt;
  }

  lemma {:induction false} ReplayOk(log: Bytes, off: nat, index: Index)
    requires IndexOk(index, log) && off <= |log| && Total(index) <= off
    ensures IndexOk(ReplayFrom(log, off, index), log)
    ensures Total(ReplayFrom(log, off, index)) <= |log|
    decreases |log| - off
  {
    hide RecAt;
    if RecAt(log, off).None? {
    } else {
      ValueOfRecord(log, off);
      var r := RecAt(log, off).value;
      var e := Entry(off, Len32(r.val), r.expireAt);
      TotalInsert(index, r.key, e);
      TotalShrinks(index, r.key);
      ReplayOk(log, off + RecSize(r), index[r.key := e]);
    }
  }

  lemma TotalShrinks(index: Index, k: Key)
    ensures Total(index - {k}) <= Total(index)
  {
    if k in index {
      TotalRemove(index, k);
    } else {
      assert index - {k} == index;
    }
  }

  /** The system just after opening a file, whatever the file holds. */
  ghost function Opened(file: Bytes): Sys {
    Sys(Open(file), Idle, Values(Replay(file), file))
  }

  lemma OpenedInv(file: Bytes)
    ensures Inv(Opened(file))
    ensures file == [] ==> Exact(Opened(file).store)
  {
    hide EntryOk, RecAt, RecSize;
    ReplayOk(file, 0, map[]);
    ValuesKnown(Replay(file), file);
    if file == [] {
      NothingToRead();
      assert Replay(file) == map[];
    }
  }

  lemma NothingToRead()
    ensures RecAt([], 0) == None
  {
  }

  lemma PutIndexed(s: Store, key: Key, val: Bytes, ttl: i64, now: i64, written: set<(Key, Bytes)>)
    requires StoreOk(s, written) && ttl > 0 && |key| < 0x1_0000_0000 && |val| < 0x1_0000_0000
    ensures var s' := Put(s, key, val, ttl, now);
      IndexOk(s'.index, s'.log) && Known(s'.index, s'.log, written + {(key, val)}) && s.log <= s'.log
  {
    hide RecAt, RecBytes, ExpireAt, Total;
    var s' := Put(s, key, val, ttl, now);
    AppendReads(s.log, Rec(key, val, ExpireAt(now, ttl)));
    IndexGrows(s.index, s.log, s'.log, written);
  }

  lemma PutTotals(s: Store, key: Key, val: Bytes, ttl: i64, now: i64)
    requires s.size == |s.log| >= Total(s.index) + s.dead && ttl > 0
    requires |key| < 0x1_0000_0000 && |val| < 0x1_0000_0000
    ensures var s' := Put(s, key, val, ttl, now);
      s'.size == |s'.log| >= Total(s'.index) + s'.dead && (Exact(s) ==> Exact(s'))
  {
    hide RecBytes, ExpireAt, Total;
    var s' := Put(s, key, val, ttl, now);
    RecBytesSize(Rec(key, val, ExpireAt(now, ttl)));
    TotalInsert(s.index, key, s'.index[key]);
    if key in s.index {
      TotalRemove(s.index, key);
    } else {
      assert s.index - {key} == s.index;
    }
  }

  lemma PutKeeps(s: Store, key: Key, val: Bytes, ttl: i64, now: i64, written: set<(Key, Bytes)>)
    requires StoreOk(s, written) && ttl > 0 && |key| < 0x1_0000_0000 && |val| < 0x1_0000_0000
    ensures StoreOk(Put(s, key, val, ttl, now), written + {(key, val)})
    ensures s.log <= Put(s, key, val, ttl, now).log
    ensures Exact(s) ==> Exact(Put(s, key, val, ttl, now))
  {
    hide IndexOk, Known, Total, Put, Exact;
    PutIndexed(s, key, val, ttl, now, written);
    PutTotals(s, key, val, ttl, now);
  }

  lemma DeleteKeeps(s: Store, key: Key, written: set<(Key, Bytes)>)
    requires StoreOk(s, written)
    ensures StoreOk(Delete(s, key), written) && Delete(s, key).log == s.log
    ensures Exact(s) ==> Exact(Delete(s, key))
  {
    hide RecAt, EntryOk;
    if key in s.index {
      TotalRemove(s.index, key);
    }
  }

  lemma SwapKeeps(seen: Store, taken: i64, out: Bytes, newIndex: Index, written: set<(Key, Bytes)>)
    requires Copied(seen, taken, out, newIndex, written)
    ensures StoreOk(Swap(out, newIndex), written) && Exact(Swap(out, newIndex)) && Swap(out, newIndex).dead == 0
  {
    hide EntryOk, RecAt, Reaches;
  }

  lemma CopiedGrows(
    seen: Store, taken: i64, out: Bytes, newIndex: Index, written: set<(Key, Bytes)>, more: set<(Key, Bytes)>)
    requires Copied(seen, taken, out, newIndex, written) && written <= more
    ensures Copied(seen, taken, out, newIndex, more)
  {
    hide EntryOk, RecAt, Reaches, FromSeen;
  }

  lemma PhaseGrows(s: Sys, s': Sys)
    requires PhaseOk(s) && s'.phase == s.phase && s.store.log <= s'.store.log && s.written <= s'.written
    ensures PhaseOk(s')
  {
    hide Copying, Copied, AllCopied, Live;
    match s.phase
    case Idle =>
    case Scanning(seen, taken, live, at, out, newIndex) =>
      CopyingGrows(seen, taken, s.store.log, s'.store.log, at, out, newIndex, s.written);
      WrittenGrows(seen, taken, s'.store.log, at, out, newIndex, s.written, s'.written);
    case Ready(seen, taken, out, newIndex) =>
      CopiedGrows(seen, taken, out, newIndex, s.written, s'.written);
  }

  /** Every step keeps every index entry pointing at a complete record for its
      own key, holding a value once put under it, and the byte accounts. */
  lemma StepKeepsInv(s: Sys, step: Step)
    requires Inv(s) && StepFits(step)
    ensures Inv(Next(s, step))
    ensures Exact(s.store) || (step.SwapStep? && s.phase.Ready?) ==> Exact(Next(s, step).store)
  {
    hide StoreOk, Exact, Copying, Copied, AllCopied, Live, RecAt, Put, Delete, CopyOne, Swap;
    var s' := Next(s, step);
    match step
    case PutStep(key, val, ttl, now) =>
      if ttl > 0 {
        PutKeeps(s.store, key, val, ttl, now, s.written);
      } else {
        PutNothing(s.store, key, val, ttl, now);
      }
      PhaseGrows(s, s');
    case DeleteStep(key) =>
      DeleteKeeps(s.store, key, s.written);
      PhaseGrows(s, s');
    case SnapshotStep(now) =>
      if s.phase.Idle? {
        StoreIndexOk(s.store, s.written);
        CopyingStarts(s.store, now, s.written);
      }
    case ScanStep =>
      if s.phase.Scanning? {
        ScanKeeps(s);
      }
    case SwapStep =>
      if s.phase.Ready? {
        SwapKeeps(s.phase.seen, s.phase.taken, s.phase.out, s.phase.newIndex, s.written);
      }
    case AbortStep =>
  }

  lemma PutNothing(s: Store, key: Key, val: Bytes, ttl: i64, now: i64)
    requires ttl <= 0
    ensures Put(s, key, val, ttl, now) == s
  {
  }

  lemma StoreIndexOk(s: Store, written: set<(Key, Bytes)>)
    requires StoreOk(s, written)
    ensures IndexOk(s.index, s.log) && Known(s.index, s.log, written)
  {
  }

  lemma CopyingIsCopied(
    seen: Store, taken: i64, log: Bytes, at: nat, out: Bytes, newIndex: Index, written: set<(Key, Bytes)>)
    requires Copying(seen, taken, log, at, out, newIndex, written)
    ensures seen.log <= log && Copied(seen, taken, out, newIndex, written)
  {
  }

  lemma ScanKeeps(s: Sys)
    requires PhaseOk(s) && s.phase.Scanning?
    ensures PhaseOk(s.(phase := Scan(s.store.log, s.phase)))
  {
    hide Copying, Copied, AllCopied, Live, RecAt, CopyOne;
    var p, log := s.phase, s.store.log;
    if RecAt(log, p.at).None? {
      CopyEnds(p.seen, p.taken, log, p.at, p.out, p.newIndex, s.written);
      CopyingIsCopied(p.seen, p.taken, log, p.at, p.out, p.newIndex, s.written);
    } else {
      CopyOneKeeps(p.seen, p.taken, log, p.at, p.out, p.newIndex, s.written);
    }
  }

  predicate AllFit(steps: seq<Step>) {
    forall step :: step in steps ==> StepFits(step)
  }

  /** The invariant holds after any interleaving of steps. */
  lemma {:induction false} RunKeepsInv(s: Sys, steps: seq<Step>)
    requires Inv(s) && AllFit(steps)
    ensures Inv(Run(s, steps))
    ensures Exact(s.store) ==> Exact(Run(s, steps).store)
    decreases |steps|
  {
    hide Inv, Next, StepFits, Exact;
    if steps == [] {
    } else {
      assert steps[0] in steps;
      StepKeepsInv(s, steps[0]);
      RunKeepsInv(Next(s, steps[0]), steps[1..]);
    }
  }

  /** In every reachable state of a store opened on any file, torn or not, a
      hit returns a value once put under that very key, an unexpired indexed key
      is a hit, and the file is at least the indexed records plus the dead
      bytes: exactly that when the store was opened empty. */
  lemma ReachableHits(file: Bytes, steps: seq<Step>, key: Key, now: i64)
    requires AllFit(steps)
    ensures var s := Run(Opened(file), steps);
      && (Get(s.store, key, now).Some? ==> (key, Get(s.store, key, now).value) in s.written)
      && (key in s.store.index && Alive(s.store.index[key].expireAt, now) ==> Get(s.store, key, now).Some?)
      && s.store.size == |s.store.log| >= Total(s.store.index) + s.store.dead
      && (file == [] ==> s.store.size == Total(s.store.index) + s.store.dead)
  {
    hide Inv, Run, AllFit, Get, Alive, Opened;
    OpenedInv(file);
    RunKeepsInv(Opened(file), steps);
    HitsAreKnown(Run(Opened(file), steps), key, now);
  }

  lemma HitsAreKnown(s: Sys, key: Key, now: i64)
    requires Inv(s)
    ensures Get(s.store, key, now).Some? ==> (key, Get(s.store, key, now).value) in s.written
    ensures key in s.store.index && Alive(s.store.index[key].expireAt, now) ==> Get(s.store, key, now).Some?
    ensures s.store.size == |s.store.log| >= Total(s.store.index) + s.store.dead
  {
    hide RecAt, ValueAt, PhaseOk;
    if key in s.store.index {
      assert EntryOk(s.store.log, key, s.store.index[key]);
      ValueOfRecord(s.store.log, s.store.index[key].offset);
    }
  }

  // ---- from one snapshot to its swap ---------------------------------------

  predicate Between(step: Step) {
    step.PutStep? || step.DeleteStep? || step.ScanStep?
  }

  predicate Touches(step: Step, key: Key) {
    (step.PutStep? && step.key == key && step.ttl > 0) || (step.DeleteStep? && step.key == key)
  }

  ghost predicate SnapshotOf(s: Sys, seen: Store, taken: i64) {
    !s.phase.Idle? && s.phase.seen == seen && s.phase.taken == taken
  }

  lemma {:induction false} BetweenKeepsSnapshot(s: Sys, steps: seq<Step>, seen: Store, taken: i64)
    requires SnapshotOf(s, seen, taken) && forall step :: step in steps ==> Between(step)
    ensures SnapshotOf(Run(s, steps), seen, taken)
    decreases |steps|
  {
    hide Put, Delete, CopyOne, RecAt;
    if steps == [] {
    } else {
      assert steps[0] in steps;
      BetweenKeepsSnapshot(Next(s, steps[0]), steps[1..], seen, taken);
    }
  }

  predicate SameEntry(a: Index, b: Index, key: Key) {
    (key in a) == (key in b) && (key in a ==> a[key] == b[key])
  }

  lemma {:induction false} UntouchedEntry(s: Sys, steps: seq<Step>, key: Key)
    requires forall step :: step in steps ==> Between(step) && !Touches(step, key)
    ensures SameEntry(s.store.index, Run(s, steps).store.index, key)
    decreases |steps|
  {
    hide RecBytes, CopyOne, RecAt;
    if steps == [] {
    } else {
      assert steps[0] in steps;
      UntouchedEntry(Next(s, steps[0]), steps[1..], key);
    }
  }

  lemma {:induction false} BetweenOnlyAppends(s: Sys, steps: seq<Step>)
    requires forall step :: step in steps ==> Between(step)
    ensures s.store.log <= Run(s, steps).store.log
    decreases |steps|
  {
    hide RecBytes, CopyOne, RecAt;
    if steps == [] {
    } else {
      assert steps[0] in steps;
      BetweenOnlyAppends(Next(s, steps[0]), steps[1..]);
    }
  }

  lemma EntryReadsSame(a: Store, b: Store, key: Key, now: i64)
    requires IndexOk(a.index, a.log) && a.log <= b.log && SameEntry(a.index, b.index, key)
    ensures Get(b, key, now) == Get(a, key, now)
  {
    hide RecAt, ValueAt;
    if key in a.index {
      EntryGrows(a.log, b.log, key, a.index[key]);
      ValueOfRecord(a.log, a.index[key].offset);
      ValueOfRecord(b.log, a.index[key].offset);
    }
  }

  /** Whatever is put or deleted while a compaction runs, its swap makes every
      key read as at the snapshot. So a swap leaves a key's reading alone
      exactly when it already read so. */
  lemma SwapRestoresSnapshot(s: Sys, taken: i64, steps: seq<Step>, key: Key, now: i64)
    requires Inv(s) && s.phase.Idle? && Scannable(s.store, key) && taken <= now
    requires AllFit(steps) && forall step :: step in steps ==> Between(step)
    requires Run(Next(s, SnapshotStep(taken)), steps).phase.Ready?
    ensures var before := Run(Next(s, SnapshotStep(taken)), steps);
      var after := Next(before, SwapStep);
      && Get(after.store, key, now) == Get(s.store, key, now)
      && (Get(after.store, key, now) == Get(before.store, key, now) <==>
          Get(before.store, key, now) == Get(s.store, key, now))
  {
    hide StoreOk, Copied, Copying, Scannable, AllCopied, Run, Get, Live, Swap;
    var snap := Next(s, SnapshotStep(taken));
    StepKeepsInv(s, SnapshotStep(taken));
    RunKeepsInv(snap, steps);
    BetweenKeepsSnapshot(snap, steps, s.store, taken);
    var before := Run(snap, steps);
    var p := before.phase;
    SwapReads(s.store, taken, p.out, p.newIndex, before.written, key, now);
  }

  /** A key not written or deleted between snapshot and swap reads the same
      before and after. */
  lemma UntouchedKeySurvives(s: Sys, taken: i64, steps: seq<Step>, key: Key, now: i64)
    requires Inv(s) && s.phase.Idle? && Scannable(s.store, key) && taken <= now
    requires AllFit(steps) && forall step :: step in steps ==> Between(step) && !Touches(step, key)
    requires Run(Next(s, SnapshotStep(taken)), steps).phase.Ready?
    ensures var before := Run(Next(s, SnapshotStep(taken)), steps);
      Get(Next(before, SwapStep).store, key, now) == Get(before.store, key, now)
  {
    hide StoreOk, PhaseOk, Scannable, Run, Get, Live, StepFits, SameEntry;
    var snap := Next(s, SnapshotStep(taken));
    var before := Run(snap, steps);
    SwapRestoresSnapshot(s, taken, steps, key, now);
    UntouchedEntry(snap, steps, key);
    BetweenOnlyAppends(snap, steps);
    StoreIndexOk(s.store, s.written);
    EntryReadsSame(s.store, before.store, key, now);
  }

  /** A put acknowledged between snapshot and swap is lost: the key reads its
      old value again, or nothing. */
  lemma PutDuringCompactionLost(
    s: Sys, taken: i64, steps: seq<Step>, key: Key, val: Bytes, ttl: i64, putAt: i64, more: seq<Step>, now: i64)
    requires Inv(s) && s.phase.Idle? && Scannable(s.store, key) && taken <= now
    requires AllFit(steps) && AllFit(more) && StepFits(PutStep(key, val, ttl, putAt)) && ttl > 0
    requires forall step :: step in steps ==> Between(step)
    requires forall step :: step in more ==> Between(step) && !Touches(step, key)
    requires Alive(ExpireAt(putAt, ttl), now) && Get(s.store, key, now) != Some(val)
    requires Run(Next(s, SnapshotStep(taken)), steps + [PutStep(key, val, ttl, putAt)] + more).phase.Ready?
    ensures var before := Run(Next(s, SnapshotStep(taken)), steps + [PutStep(key, val, ttl, putAt)] + more);
      && Get(before.store, key, now) == Some(val)
      && Get(Next(before, SwapStep).store, key, now) != Some(val)
  {
    hide StoreOk, PhaseOk, Scannable, Run, Live, SameEntry, Get, Next, RecBytes, RecAt;
    var put := PutStep(key, val, ttl, putAt);
    var all := steps + [put] + more;
    assert forall step :: step in all ==> step in steps || step == put || step in more;
    var snap := Next(s, SnapshotStep(taken));
    SwapRestoresSnapshot(s, taken, all, key, now);
    var mid := Run(snap, steps);
    var after := Next(mid, put);
    StepKeepsInv(s, SnapshotStep(taken));
    RunKeepsInv(snap, steps);
    StepKeepsInv(mid, put);
    RunSplit(snap, steps, put, more);
    UntouchedEntry(after, more, key);
    BetweenOnlyAppends(after, more);
    StoreIndexOk(after.store, after.written);
    PutReads(mid, key, val, ttl, putAt, now);
    EntryReadsSame(after.store, Run(after, more).store, key, now);
  }

  /** A delete between snapshot and swap is undone: the key reads as before it. */
  lemma DeleteDuringCompactionUndone(
    s: Sys, taken: i64, steps: seq<Step>, key: Key, more: seq<Step>, now: i64)
    requires Inv(s) && s.phase.Idle? && Scannable(s.store, key) && taken <= now
    requires AllFit(steps) && AllFit(more)
    requires forall step :: step in steps ==> Between(step)
    requires forall step :: step in more ==> Between(step) && !Touches(step, key)
    requires Get(s.store, key, now).Some?
    requires Run(Next(s, SnapshotStep(taken)), steps + [DeleteStep(key)] + more).phase.Ready?
    ensures var before := Run(Next(s, SnapshotStep(taken)), steps + [DeleteStep(key)] + more);
      && Get(before.store, key, now) == None
      && Get(Next(before, SwapStep).store, key, now) == Get(s.store, key, now)
  {
    hide StoreOk, PhaseOk, Scannable, Run, Live, Next, RecAt, ValueAt;
    var del := DeleteStep(key);
    var all := steps + [del] + more;
    assert forall step :: step in all ==> step in steps || step == del || step in more;
    var snap := Next(s, SnapshotStep(taken));
    SwapRestoresSnapshot(s, taken, all, key, now);
    RunSplit(snap, steps, del, more);
    var after := Next(Run(snap, steps), del);
    DeletedKeyGone(Run(snap, steps), key);
    UntouchedEntry(after, more, key);
  }

  lemma DeletedKeyGone(s: Sys, key: Key)
    ensures key !in Next(s, DeleteStep(key)).store.index
  {
  }

  /** Such a put: into a store opened on nothing, while its compaction runs. */
  lemma PutLostInEmptyStore(key: Key, val: Bytes, ttl: i64, now: i64)
    requires StepFits(PutStep(key, val, ttl, now)) && ttl > 0 && Alive(ExpireAt(now, ttl), now)
    ensures var snap := Next(Opened([]), SnapshotStep(now));
      var before := Run(snap, [] + [PutStep(key, val, ttl, now)] + [ScanStep, ScanStep]);
      && before.phase.Ready?
      && Get(before.store, key, now) == Some(val)
      && Get(Next(before, SwapStep).store, key, now) == None
  {
    hide *;
    var put := PutStep(key, val, ttl, now);
    OpenedInv([]);
    NothingIndexed(key, now);
    ScanOverPut(key, val, ttl, now);
    TwoStepsAllowed([], key);
    PutDuringCompactionLost(Opened([]), now, [], key, val, ttl, now, [ScanStep, ScanStep], now);
    SwapRestoresEmpty(key, val, ttl, now);
  }

  lemma NothingIndexed(key: Key, now: i64)
    ensures var s := Opened([]); s.phase.Idle? && Scannable(s.store, key) && Get(s.store, key, now) == None
  {
    EmptyStore();
  }

  /** The scan copies nothing of a put it has not seen, in two steps. */
  lemma ScanOverPut(key: Key, val: Bytes, ttl: i64, now: i64)
    requires StepFits(PutStep(key, val, ttl, now)) && ttl > 0
    ensures var snap := Next(Opened([]), SnapshotStep(now));
      Run(snap, [] + [PutStep(key, val, ttl, now)] + [ScanStep, ScanStep]).phase.Ready?
  {
    hide RecAt, RecBytes, ExpireAt, ValueAt, Opened;
    EmptyStore();
    var put := PutStep(key, val, ttl, now);
    var snap := Next(Opened([]), SnapshotStep(now));
    var written := Next(snap, put);
    var r := Rec(key, val, ExpireAt(now, ttl));
    assert [] + RecBytes(r) == RecBytes(r);
    AppendReads([], r);
    RecBytesSize(r);
    var one := Next(written, ScanStep);
    NothingAtEnd(written.store.log);
    var two := Next(one, ScanStep);
    RunsThrough(snap, put, written, one, two);
  }

  lemma SwapRestoresEmpty(key: Key, val: Bytes, ttl: i64, now: i64)
    requires StepFits(PutStep(key, val, ttl, now)) && ttl > 0
    ensures var snap := Next(Opened([]), SnapshotStep(now));
      var before := Run(snap, [] + [PutStep(key, val, ttl, now)] + [ScanStep, ScanStep]);
      before.phase.Ready? ==> Get(Next(before, SwapStep).store, key, now) == None
  {
    hide *;
    var put := PutStep(key, val, ttl, now);
    var steps := [] + [put] + [ScanStep, ScanStep];
    OpenedInv([]);
    NothingIndexed(key, now);
    StepsAllowed(put, steps);
    if Run(Next(Opened([]), SnapshotStep(now)), steps).phase.Ready? {
      SwapRestoresSnapshot(Opened([]), now, steps, key, now);
    }
  }

  lemma StepsAllowed(put: Step, steps: seq<Step>)
    requires put.PutStep? && StepFits(put) && steps == [] + [put] + [ScanStep, ScanStep]
    ensures AllFit(steps) && forall step :: step in steps ==> Between(step)
  {
  }

  /** Such a delete: of the only key, while the compaction of its record runs. */
  lemma DeleteUndoneInSmallStore(key: Key, val: Bytes, ttl: i64, now: i64)
    requires StepFits(PutStep(key, val, ttl, now)) && ttl > 0 && Alive(ExpireAt(now, ttl), now)
    ensures var s := Next(Opened([]), PutStep(key, val, ttl, now));
      var before := Run(Next(s, SnapshotStep(now)), [] + [DeleteStep(key)] + [ScanStep, ScanStep]);
      && before.phase.Ready?
      && Get(before.store, key, now) == None
      && Get(Next(before, SwapStep).store, key, now) == Some(val)
  {
    hide *;
    var put := PutStep(key, val, ttl, now);
    var s := Next(Opened([]), put);
    OpenedInv([]);
    StepKeepsInv(Opened([]), put);
    PutReads(Opened([]), key, val, ttl, now, now);
    OneRecord(key, val, ttl, now);
    TwoStepsAllowed([], key);
    DeleteDuringCompactionUndone(s, now, [], key, [ScanStep, ScanStep], now);
  }

  /** After one put the store is one record, indexed at the start; a scan over it
      takes two steps. */
  lemma OneRecord(key: Key, val: Bytes, ttl: i64, now: i64)
    requires StepFits(PutStep(key, val, ttl, now)) && ttl > 0 && Alive(ExpireAt(now, ttl), now)
    ensures var s := Next(Opened([]), PutStep(key, val, ttl, now));
      && s.phase.Idle? && Scannable(s.store, key)
      && Run(Next(s, SnapshotStep(now)), [] + [DeleteStep(key)] + [ScanStep, ScanStep]).phase.Ready?
  {
    hide RecAt, RecBytes, ExpireAt, ValueAt, Opened;
    EmptyStore();
    var put, del := PutStep(key, val, ttl, now), DeleteStep(key);
    var s := Next(Opened([]), put);
    var r := Rec(key, val, ExpireAt(now, ttl));
    assert [] + RecBytes(r) == RecBytes(r);
    AppendReads([], r);
    RecBytesSize(r);
    var snap := Next(s, SnapshotStep(now));
    var a := Next(snap, del);
    var b := Next(a, ScanStep);
    NothingAtEnd(a.store.log);
    var c := Next(b, ScanStep);
    RunsThrough(snap, del, a, b, c);
  }

  lemma TwoStepsAllowed(none: seq<Step>, key: Key)
    requires none == []
    ensures AllFit(none) && AllFit([ScanStep, ScanStep])
    ensures forall step :: step in none ==> Between(step)
    ensures forall step :: step in [ScanStep, ScanStep] ==> Between(step) && !Touches(step, key)
  {
    assert forall step :: step in [ScanStep, ScanStep] ==> step == ScanStep;
  }

  lemma EmptyStore()
    ensures Opened([]).store == Store([], map[], 0, 0) && Opened([]).phase.Idle?
  {
    NothingToRead();
  }

  lemma NothingAtEnd(log: Bytes)
    ensures RecAt(log, |log|) == None
  {
  }

  lemma RunsThrough(snap: Sys, put: Step, a: Sys, b: Sys, c: Sys)
    requires a == Next(snap, put) && b == Next(a, ScanStep) && c == Next(b, ScanStep)
    ensures Run(snap, [] + [put] + [ScanStep, ScanStep]) == c
  {
    hide Next;
    var steps := [] + [put] + [ScanStep, ScanStep];
    assert steps[1..] == [ScanStep, ScanStep] && steps[1..][1..] == [ScanStep] && steps[1..][1..][1..] == [];
    assert Run(c, []) == c && Run(b, [ScanStep]) == c;
  }

  lemma PutReads(s: Sys, key: Key, val: Bytes, ttl: i64, putAt: i64, now: i64)
    requires Inv(s) && ttl > 0 && StepFits(PutStep(key, val, ttl, putAt)) && Alive(ExpireAt(putAt, ttl), now)
    ensures Get(Next(s, PutStep(key, val, ttl, putAt)).store, key, now) == Some(val)
  {
    hide RecAt, RecBytes, ValueAt, PhaseOk, ExpireAt;
    var r := Rec(key, val, ExpireAt(putAt, ttl));
    AppendReads(s.store.log, r);
    ValueOfRecord(s.store.log + RecBytes(r), |s.store.log|);
  }

  lemma {:induction false} RunSplit(s: Sys, a: seq<Step>, step: Step, b: seq<Step>)
    ensures Run(s, a + [step] + b) == Run(Next(Run(s, a), step), b)
    decreases |a|
  {
    hide Next;
    var all := a + [step] + b;
    if a == [] {
      assert all[0] == step && all[1..] == b;
    } else {
      assert all[0] == a[0] && all[1..] == a[1..] + [step] + b;
      RunSplit(Next(s, a[0]), a[1..], step, b);
    }
  }
}
