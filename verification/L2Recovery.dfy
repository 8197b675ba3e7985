/** Replay after a crash, uninterrupted compaction, and the store as a map from
    key to value and expiry. */
module L2Recovery {
  import opened Octets
  import opened Results
  import opened L2Log
  import opened L2Store
  import opened L2Compaction
  import opened L2Interleaving

  /** The log is complete records from start to end. */
  predicate Whole(log: Bytes) {
    Reaches(log, 0, |log|)
  }

  predicate TornTail(torn: Bytes, r: Rec) {
    Fits(r) && torn < RecBytes(r)
  }

  // ---- replay --------------------------------------------------------------

  lemma {:induction false} ReplayPasses(log: Bytes, more: Bytes, off: nat, index: Index)
    requires Reaches(log, off, |log|) && log <= more
    ensures ReplayFrom(more, off, index) == ReplayFrom(more, |log|, ReplayFrom(log, off, index))
    decreases |log| - off
  {
    hide RecAt;
    if off == |log| {
      NoneAtEnd(log);
    } else {
      RecordGrows(log, more, off);
      ValueOfRecord(log, off);
      var r := RecAt(log, off).value;
      ReplayPasses(log, more, off + RecSize(r), index[r.key := Entry(off, Len32(r.val), r.expireAt)]);
    }
  }

  lemma NoneAtEnd(log: Bytes)
    ensures RecAt(log, |log|) == None
  {
  }

  /** One more complete record updates exactly its key. */
  lemma ReplayAppend(log: Bytes, r: Rec)
    requires Whole(log) && Fits(r)
    ensures Replay(log + RecBytes(r)) == Replay(log)[r.key := Entry(|log|, Len32(r.val), r.expireAt)]
    ensures Whole(log + RecBytes(r))
  {
    hide RecAt, RecBytes, Reaches;
    var more := log + RecBytes(r);
    AppendReads(log, r);
    AppendReach(log, 0, r);
    RecBytesSize(r);
    ReplayPasses(log, more, 0, map[]);
    NoneAtEnd(more);
    var index := Replay(log)[r.key := Entry(|log|, Len32(r.val), r.expireAt)];
    assert ReplayFrom(more, |more|, index) == index;
  }

  /** A torn record changes nothing. */
  lemma ReplayTorn(log: Bytes, torn: Bytes, r: Rec)
    requires Whole(log) && TornTail(torn, r)
    ensures Replay(log + torn) == Replay(log)
  {
    hide RecAt, RecBytes, Reaches;
    TornIsNoRecord(log, torn, r);
    ReplayPasses(log, log + torn, 0, map[]);
  }

  // ---- the records of a log ------------------------------------------------

  function Flat(recs: seq<Rec>): Bytes {
    if recs == [] then [] else Flat(recs[..|recs| - 1]) + RecBytes(recs[|recs| - 1])
  }

  /** Where record `i` starts. */
  function OffsetOf(recs: seq<Rec>, i: nat): nat
    requires i <= |recs|
  {
    |Flat(recs[..i])|
  }

  predicate LastFor(recs: seq<Rec>, i: nat, key: Key)
    requires i < |recs|
  {
    recs[i].key == key && forall j :: i < j < |recs| ==> recs[j].key != key
  }

  /** Exactly the keys of the records, each with its last record. */
  ghost predicate LastWins(index: Index, recs: seq<Rec>) {
    && (forall k :: k in index ==> exists i :: 0 <= i < |recs| && recs[i].key == k)
    && (forall i :: 0 <= i < |recs| ==> recs[i].key in index)
    && forall i, k :: 0 <= i < |recs| && LastFor(recs, i, k) ==>
         k in index && index[k] == Entry(OffsetOf(recs, i), Len32(recs[i].val), recs[i].expireAt)
  }

  lemma LastWinsStep(index: Index, recs: seq<Rec>, r: Rec, off: nat)
    requires LastWins(index, recs) && off == |Flat(recs)|
    ensures LastWins(index[r.key := Entry(off, Len32(r.val), r.expireAt)], recs + [r])
  {
    hide Flat;
    var all := recs + [r];
    var e := Entry(off, Len32(r.val), r.expireAt);
    var index' := index[r.key := e];
    assert all[|recs|] == r && all[..|recs|] == recs;
    forall k | k in index' ensures exists i :: 0 <= i < |all| && all[i].key == k {
      if k != r.key {
        var i :| 0 <= i < |recs| && recs[i].key == k;
        assert all[i] == recs[i];
      }
    }
    forall i, k | 0 <= i < |all| && LastFor(all, i, k)
      ensures k in index' && index'[k] == Entry(OffsetOf(all, i), Len32(all[i].val), all[i].expireAt)
    {
      if i < |recs| {
        assert all[|recs|].key != k;
        assert forall j :: i < j < |recs| ==> all[j] == recs[j];
        assert LastFor(recs, i, k);
        assert all[..i] == recs[..i];
      }
    }
  }

  lemma {:induction false} ReplayRecords(recs: seq<Rec>)
    requires forall r :: r in recs ==> Fits(r)
    ensures Whole(Flat(recs)) && LastWins(Replay(Flat(recs)), recs)
  {
    hide RecAt, RecBytes, Reaches, LastWins;
    if recs == [] {
      NothingToRead();
      NothingWins();
    } else {
      var front, r := recs[..|recs| - 1], recs[|recs| - 1];
      assert recs == front + [r];
      ReplayRecords(front);
      ReplayAppend(Flat(front), r);
      LastWinsStep(Replay(Flat(front)), front, r, |Flat(front)|);
    }
  }

  lemma NothingWins()
    ensures Whole([]) && LastWins(map[], []) && Replay([]) == map[]
  {
    NothingToRead();
  }

  /** For any complete records followed by any strict prefix of one more, replay
      yields exactly the last-write-wins index of the complete records. */
  lemma CrashRecovery(recs: seq<Rec>, torn: Bytes, r: Rec)
    requires (forall x :: x in recs ==> Fits(x)) && TornTail(torn, r)
    ensures LastWins(Replay(Flat(recs) + torn), recs)
  {
    hide Replay, Flat, LastWins, TornTail;
    ReplayRecords(recs);
    ReplayTorn(Flat(recs), torn, r);
  }

  // ---- uninterrupted compaction --------------------------------------------

  lemma {:induction false} CopyFromCopies(
    seen: Store, taken: i64, at: nat, out: Bytes, newIndex: Index, written: set<(Key, Bytes)>)
    requires Copying(seen, taken, seen.log, at, out, newIndex, written)
    ensures var (out', newIndex') := CopyFrom(seen.log, Live(seen, taken), at, out, newIndex);
      Copied(seen, taken, out', newIndex', written) && AllCopied(seen, taken, newIndex')
    decreases |seen.log| - at
  {
    hide Copying, Copied, AllCopied, Live, CopyOne, RecAt;
    if RecAt(seen.log, at).None? {
      CopyEnds(seen, taken, seen.log, at, out, newIndex, written);
      CopyingIsCopied(seen, taken, seen.log, at, out, newIndex, written);
    } else {
      ValueOfRecord(seen.log, at);
      CopyOneKeeps(seen, taken, seen.log, at, out, newIndex, written);
      var (out', newIndex') := CopyOne(seen.log, Live(seen, taken), at, out, newIndex);
      CopyFromCopies(seen, taken, at + RecSize(RecAt(seen.log, at).value), out', newIndex', written);
    }
  }

  lemma {:induction false} ReachesOn(log: Bytes, from: nat, at: nat)
    requires Reaches(log, from, at) && RecAt(log, at).Some?
    ensures Reaches(log, from, at + RecSize(RecAt(log, at).value))
    decreases |log| - from
  {
    hide RecAt;
    ValueOfRecord(log, at);
    if from == at {
      assert Reaches(log, at + RecSize(RecAt(log, at).value), at + RecSize(RecAt(log, at).value));
    } else {
      ValueOfRecord(log, from);
      ReachesOn(log, from + RecSize(RecAt(log, from).value), at);
    }
  }

  /** The scan copies only keys whose record it reached. */
  lemma {:induction false} CopyFromReached(seen: Store, taken: i64, at: nat, out: Bytes, newIndex: Index)
    requires IndexOk(seen.index, seen.log) && Reaches(seen.log, 0, at)
    requires forall k :: k in newIndex ==> Scannable(seen, k)
    ensures forall k :: k in CopyFrom(seen.log, Live(seen, taken), at, out, newIndex).1 ==> Scannable(seen, k)
    decreases |seen.log| - at
  {
    hide RecAt, Reaches, RecBytes, Live;
    if RecAt(seen.log, at).None? {
    } else {
      ValueOfRecord(seen.log, at);
      ReachesOn(seen.log, 0, at);
      if at in Live(seen, taken) {
        var k := LiveKey(seen, taken, at);
        assert EntryOk(seen.log, k, seen.index[k]);
      }
      var (out', newIndex') := CopyOne(seen.log, Live(seen, taken), at, out, newIndex);
      CopyFromReached(seen, taken, at + RecSize(RecAt(seen.log, at).value), out', newIndex');
    }
  }

  /** A compaction nothing interrupts keeps exactly the unexpired keys whose
      records its scan reaches: one torn record loses everything after it. */
  lemma CompactKeepsExactly(s: Store, taken: i64, key: Key)
    requires IndexOk(s.index, s.log)
    ensures key in Compact(s, taken).index <==>
      key in s.index && Alive(s.index[key].expireAt, taken) && Scannable(s, key)
  {
    hide RecAt, Reaches, EntryOk, Live;
    var written := Values(s.index, s.log);
    ValuesKnown(s.index, s.log);
    CopyingStarts(s, taken, written);
    CopyFromCopies(s, taken, 0, [], map[], written);
    StartReached(s.log);
    CopyFromReached(s, taken, 0, [], map[]);
    var c := Compact(s, taken);
    if key in c.index {
      assert FromSeen(s, taken, c.log, c.index, key);
    }
  }

  lemma StartReached(log: Bytes)
    ensures Reaches(log, 0, 0)
  {
  }

  lemma {:induction false} CopyFromReplays(log: Bytes, live: set<nat>, at: nat, out: Bytes, newIndex: Index)
    requires Whole(out) && Replay(out) == newIndex
    ensures var (out', newIndex') := CopyFrom(log, live, at, out, newIndex); Whole(out') && Replay(out') == newIndex'
    decreases |log| - at
  {
    hide RecAt, RecBytes, Replay, Whole;
    if RecAt(log, at).None? {
    } else {
      ValueOfRecord(log, at);
      var r := RecAt(log, at).value;
      if at in live {
        ReplayAppend(out, r);
      }
      var (out', newIndex') := CopyOne(log, live, at, out, newIndex);
      CopyFromReplays(log, live, at + RecSize(r), out', newIndex');
    }
  }

  /** Replaying a compacted log gives exactly the compacted index. */
  lemma CompactedReplays(s: Store, taken: i64)
    ensures Whole(Compact(s, taken).log) && Replay(Compact(s, taken).log) == Compact(s, taken).index
  {
    hide Replay, Whole, CopyFrom;
    NothingWins();
    CopyFromReplays(s.log, Live(s, taken), 0, [], map[]);
  }

  // ---- runs without interleaving -------------------------------------------

  datatype Op = OpPut(val: Bytes, ttl: i64) | OpGet | OpDelete | OpCompact

  datatype Call = Call(op: Op, key: Key, now: i64)

  predicate CallFits(c: Call) {
    |c.key| < 0x1_0000_0000 && (c.op.OpPut? ==> |c.op.val| < 0x1_0000_0000)
  }

  function Do(s: Store, c: Call): Store {
    match c.op
    case OpPut(val, ttl) => Put(s, c.key, val, ttl, c.now)
    case OpGet => s
    case OpDelete => Delete(s, c.key)
    case OpCompact => Compact(s, c.now)
  }

  function DoAll(s: Store, calls: seq<Call>): Store
    decreases |calls|
  {
    if calls == [] then s else DoAll(Do(s, calls[0]), calls[1..])
  }

  /** A fully parseable store whose index repeats what replay would give, for
      every key it still holds. */
  ghost predicate Tidy(s: Store) {
    && Whole(s.log)
    && s.size == |s.log|
    && IndexOk(s.index, s.log)
    && (forall k :: k in s.index ==> Agrees(s, k))
  }

  predicate Agrees(s: Store, k: Key) {
    k in s.index && k in Replay(s.log) && Replay(s.log)[k] == s.index[k] && Scannable(s, k)
  }

  lemma TidyPut(s: Store, key: Key, val: Bytes, ttl: i64, now: i64)
    requires Tidy(s) && |key| < 0x1_0000_0000 && |val| < 0x1_0000_0000
    ensures Tidy(Put(s, key, val, ttl, now))
    ensures ttl > 0 ==>
      var s' := Put(s, key, val, ttl, now);
      Replay(s'.log) == Replay(s.log)[key := s'.index[key]]
  {
    hide RecAt, RecBytes, Replay, Reaches, ExpireAt;
    if ttl > 0 {
      var r := Rec(key, val, ExpireAt(now, ttl));
      var s' := Put(s, key, val, ttl, now);
      ReplayAppend(s.log, r);
      AppendReads(s.log, r);
      AppendReach(s.log, 0, r);
      forall k | k in s'.index ensures Agrees(s', k) && EntryOk(s'.log, k, s'.index[k]) {
        if k != key {
          assert Agrees(s, k) && EntryOk(s.log, k, s.index[k]);
          EntryGrows(s.log, s'.log, k, s.index[k]);
          ReachesGrows(s.log, s'.log, 0, s.index[k].offset);
        }
      }
    }
  }

  lemma TidyDelete(s: Store, key: Key)
    requires Tidy(s)
    ensures Tidy(Delete(s, key)) && Delete(s, key).log == s.log
  {
    hide RecAt, Replay, Reaches, EntryOk;
    var s' := Delete(s, key);
    forall k | k in s'.index ensures Agrees(s', k) && EntryOk(s'.log, k, s'.index[k]) {
      assert Agrees(s, k) && EntryOk(s.log, k, s.index[k]);
    }
  }

  lemma TidyCompact(s: Store, taken: i64)
    requires Tidy(s)
    ensures Tidy(Compact(s, taken)) && Replay(Compact(s, taken).log) == Compact(s, taken).index
  {
    hide RecAt, Replay, Reaches, EntryOk, Live, Whole, CopyFrom;
    var written := Values(s.index, s.log);
    ValuesKnown(s.index, s.log);
    CopyingStarts(s, taken, written);
    CopyFromCopies(s, taken, 0, [], map[], written);
    CompactedReplays(s, taken);
    var c := Compact(s, taken);
    forall k | k in c.index ensures Agrees(c, k) {
      assert FromSeen(s, taken, c.log, c.index, k);
    }
  }

  lemma TidyDo(s: Store, c: Call)
    requires Tidy(s) && CallFits(c)
    ensures Tidy(Do(s, c))
  {
    hide Tidy, Put, Delete, Compact, Replay;
    match c.op
    case OpPut(val, ttl) =>
      TidyPut(s, c.key, val, ttl, c.now);
      PutIndex(s, c.key, val, ttl, c.now);
    case OpGet =>
    case OpDelete => TidyDelete(s, c.key);
    case OpCompact => TidyCompact(s, c.now);
  }

  lemma PutIndex(s: Store, key: Key, val: Bytes, ttl: i64, now: i64)
    ensures var s' := Put(s, key, val, ttl, now);
      if ttl > 0 then key in s'.index && s'.index == s.index[key := s'.index[key]] else s' == s
  {
  }

  lemma EmptyTidy()
    ensures Tidy(Open([])) && Open([]).index == Replay(Open([]).log)
  {
    NothingWins();
  }

  // ---- the store is a map with expiry --------------------------------------

  type Spec = map<Key, (Bytes, i64)>

  function SpecGet(m: Spec, key: Key, now: i64): Option<Bytes> {
    if key in m && (m[key].1 == 0 || now < m[key].1) then Some(m[key].0) else None
  }

  function SpecDo(m: Spec, c: Call): Spec {
    match c.op
    case OpPut(val, ttl) => if ttl <= 0 then m else m[c.key := (val, ExpireAt(c.now, ttl))]
    case OpGet => m
    case OpDelete => m - {c.key}
    case OpCompact => m
  }

  function Answers(s: Store, calls: seq<Call>): seq<Option<Bytes>>
    decreases |calls|
  {
    if calls == [] then []
    else
      var c := calls[0];
      (if c.op.OpGet? then [Get(s, c.key, c.now)] else []) + Answers(Do(s, c), calls[1..])
  }

  function SpecAnswers(m: Spec, calls: seq<Call>): seq<Option<Bytes>>
    decreases |calls|
  {
    if calls == [] then []
    else
      var c := calls[0];
      (if c.op.OpGet? then [SpecGet(m, c.key, c.now)] else []) + SpecAnswers(SpecDo(m, c), calls[1..])
  }

  /** From `clock` on, the store reads as the map. */
  ghost predicate ReadsAs(s: Store, m: Spec, clock: i64) {
    forall k, t :: clock <= t ==> Get(s, k, t) == SpecGet(m, k, t)
  }

  lemma PutReadsAs(s: Store, m: Spec, key: Key, val: Bytes, ttl: i64, now: i64, clock: i64)
    requires Tidy(s) && ReadsAs(s, m, clock) && ttl > 0 && |key| < 0x1_0000_0000 && |val| < 0x1_0000_0000
    ensures ReadsAs(Put(s, key, val, ttl, now), m[key := (val, ExpireAt(now, ttl))], clock)
  {
    hide RecAt, RecBytes, Replay, Reaches, ValueAt, ExpireAt, Scannable;
    var r := Rec(key, val, ExpireAt(now, ttl));
    var s' := Put(s, key, val, ttl, now);
    AppendReads(s.log, r);
    ValueOfRecord(s'.log, |s.log|);
    forall k, t | clock <= t
      ensures Get(s', k, t) == SpecGet(m[key := (val, r.expireAt)], k, t)
    {
      if k != key {
        assert Get(s, k, t) == SpecGet(m, k, t);
        EntryReadsSame(s, s', k, t);
      }
    }
  }

  lemma CompactReadsAs(s: Store, m: Spec, taken: i64, clock: i64)
    requires Tidy(s) && ReadsAs(s, m, clock) && clock <= taken
    ensures ReadsAs(Compact(s, taken), m, taken)
  {
    hide RecAt, Reaches, EntryOk, Live, Replay, Whole, CopyFrom, Get, SpecGet;
    var written := Values(s.index, s.log);
    ValuesKnown(s.index, s.log);
    CopyingStarts(s, taken, written);
    CopyFromCopies(s, taken, 0, [], map[], written);
    var (out, newIndex) := CopyFrom(s.log, Live(s, taken), 0, [], map[]);
    forall k, t | taken <= t
      ensures Get(Compact(s, taken), k, t) == SpecGet(m, k, t)
    {
      if k in s.index {
        assert Agrees(s, k);
      }
      SwapReads(s, taken, out, newIndex, written, k, t);
    }
  }

  lemma DoReadsAs(s: Store, m: Spec, c: Call, clock: i64)
    requires Tidy(s) && CallFits(c) && ReadsAs(s, m, clock) && clock <= c.now
    ensures ReadsAs(Do(s, c), SpecDo(m, c), c.now)
  {
    hide Tidy, Put, Compact, ValueAt;
    match c.op
    case OpPut(val, ttl) =>
      if ttl > 0 {
        PutReadsAs(s, m, c.key, val, ttl, c.now, clock);
      } else {
        PutNothing(s, c.key, val, ttl, c.now);
      }
    case OpGet =>
    case OpDelete =>
      forall k, t | c.now <= t ensures Get(Delete(s, c.key), k, t) == SpecGet(m - {c.key}, k, t) {
        assert Get(s, k, t) == SpecGet(m, k, t);
      }
    case OpCompact => CompactReadsAs(s, m, c.now, clock);
  }

  predicate ClockRuns(calls: seq<Call>, clock: i64)
    decreases |calls|
  {
    calls == [] || (clock <= calls[0].now && ClockRuns(calls[1..], calls[0].now))
  }

  lemma {:induction false} AnswersAgree(s: Store, m: Spec, calls: seq<Call>, clock: i64)
    requires Tidy(s) && ReadsAs(s, m, clock) && ClockRuns(calls, clock) && forall c :: c in calls ==> CallFits(c)
    ensures Answers(s, calls) == SpecAnswers(m, calls)
    decreases |calls|
  {
    hide Tidy, Do, SpecDo, Get, SpecGet, Replay;
    if calls == [] {
    } else {
      var c := calls[0];
      assert c in calls;
      TidyDo(s, c);
      DoReadsAs(s, m, c, clock);
      AnswersAgree(Do(s, c), SpecDo(m, c), calls[1..], c.now);
    }
  }

  /** For any run of puts, gets, deletes and uninterrupted compactions on a
      store opened empty, under a clock that never runs back, every get answers
      as the plain map from key to value and expiry does. */
  lemma StoreRefinesMap(calls: seq<Call>, clock: i64)
    requires ClockRuns(calls, clock) && forall c :: c in calls ==> CallFits(c)
    ensures Answers(Open([]), calls) == SpecAnswers(map[], calls)
  {
    EmptyTidy();
    assert ReadsAs(Open([]), map[], clock) by {
      NothingWins();
    }
    hide Answers, SpecAnswers, Tidy, Replay;
    AnswersAgree(Open([]), map[], calls, clock);
  }
}
