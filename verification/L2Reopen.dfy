/** Which keys a reopen brings back. A delete only drops the index entry, so what
    replay finds depends on what came after it. */
module L2Reopen {
  import opened Octets
  import opened Results
  import opened L2Log
  import opened L2Store
  import opened L2Compaction
  import L2Interleaving
  import opened L2Recovery

  // ---- the fate of a key, from the calls alone -----------------------------

  /** A key is not in the log, or indexed, or deleted but still in the log. */
  datatype Fate = Absent | Indexed(val: Bytes, expireAt: i64) | Deleted(val: Bytes, expireAt: i64)

  function Follow(f: Fate, c: Call, key: Key): Fate {
    match c.op
    case OpPut(val, ttl) => if c.key == key && ttl > 0 then Indexed(val, ExpireAt(c.now, ttl)) else f
    case OpGet => f
    case OpDelete => if c.key == key && f.Indexed? then Deleted(f.val, f.expireAt) else f
    case OpCompact => if f.Indexed? && Alive(f.expireAt, c.now) then f else Absent
  }

  function FateFrom(f: Fate, calls: seq<Call>, key: Key): Fate
    decreases |calls|
  {
    if calls == [] then f else FateFrom(Follow(f, calls[0], key), calls[1..], key)
  }

  function FateOf(calls: seq<Call>, key: Key): Fate {
    FateFrom(Absent, calls, key)
  }

  /** The value of a key whose record is found, unless it has expired. */
  function FoundAt(f: Fate, now: i64): Option<Bytes> {
    if !f.Absent? && Alive(f.expireAt, now) then Some(f.val) else None
  }

  // ---- the store follows it ------------------------------------------------

  predicate Stands(log: Bytes, e: Entry, r: Rec) {
    RecAt(log, e.offset) == Some(r) && e.expireAt == r.expireAt
  }

  predicate HasFate(s: Store, key: Key, f: Fate) {
    match f
    case Absent => key !in s.index && key !in Replay(s.log)
    case Indexed(val, expireAt) => key in s.index && Stands(s.log, s.index[key], Rec(key, val, expireAt))
    case Deleted(val, expireAt) =>
      key !in s.index && key in Replay(s.log) && Stands(s.log, Replay(s.log)[key], Rec(key, val, expireAt))
  }

  lemma TidyKey(s: Store, key: Key)
    requires Tidy(s) && key in s.index
    ensures key in Replay(s.log) && Replay(s.log)[key] == s.index[key] && Scannable(s, key)
    ensures EntryOk(s.log, key, s.index[key])
  {
    hide Replay, Reaches, EntryOk;
    assert Agrees(s, key);
  }

  lemma StandsGrows(log: Bytes, more: Bytes, e: Entry, r: Rec)
    requires Stands(log, e, r) && log <= more
    ensures Stands(more, e, r)
  {
    hide RecAt;
    RecordGrows(log, more, e.offset);
  }

  lemma PutFate(s: Store, key: Key, val: Bytes, ttl: i64, now: i64, k: Key, f: Fate)
    requires Tidy(s) && |key| < 0x1_0000_0000 && |val| < 0x1_0000_0000 && ttl > 0 && HasFate(s, k, f)
    ensures HasFate(Put(s, key, val, ttl, now), k, if k == key then Indexed(val, ExpireAt(now, ttl)) else f)
  {
    hide RecAt, RecBytes, Replay, Reaches, ExpireAt, IndexOk, Whole;
    var r := Rec(key, val, ExpireAt(now, ttl));
    var s' := Put(s, key, val, ttl, now);
    TidyPut(s, key, val, ttl, now);
    AppendReads(s.log, r);
    if k != key && f.Indexed? {
      StandsGrows(s.log, s'.log, s.index[k], Rec(k, f.val, f.expireAt));
    } else if k != key && f.Deleted? {
      StandsGrows(s.log, s'.log, Replay(s.log)[k], Rec(k, f.val, f.expireAt));
    }
  }

  lemma DeleteFate(s: Store, key: Key, k: Key, f: Fate)
    requires Tidy(s) && HasFate(s, k, f)
    ensures HasFate(Delete(s, key), k, if k == key && f.Indexed? then Deleted(f.val, f.expireAt) else f)
  {
    hide RecAt, Replay, Reaches, Tidy;
    if k == key && f.Indexed? {
      TidyKey(s, key);
    }
  }

  /** A copied key holds the record it had. */
  lemma CompactEntry(s: Store, taken: i64, k: Key)
    requires IndexOk(s.index, s.log) && k in Compact(s, taken).index
    ensures k in s.index
    ensures var c := Compact(s, taken);
      RecAt(c.log, c.index[k].offset) == RecAt(s.log, s.index[k].offset) && EntryOk(c.log, k, c.index[k])
  {
    hide RecAt, Reaches, EntryOk, Live, Replay, CopyFrom;
    var written := L2Interleaving.Values(s.index, s.log);
    L2Interleaving.ValuesKnown(s.index, s.log);
    CopyingStarts(s, taken, written);
    CopyFromCopies(s, taken, 0, [], map[], written);
    var c := Compact(s, taken);
    assert FromSeen(s, taken, c.log, c.index, k);
  }

  lemma CompactFate(s: Store, taken: i64, k: Key, f: Fate)
    requires Tidy(s) && HasFate(s, k, f)
    ensures HasFate(Compact(s, taken), k, if f.Indexed? && Alive(f.expireAt, taken) then f else Absent)
  {
    hide RecAt, Reaches, Replay, Compact, Whole;
    CompactKeepsExactly(s, taken, k);
    CompactedReplays(s, taken);
    if f.Indexed? {
      TidyKey(s, k);
    }
    if k in Compact(s, taken).index {
      CompactEntry(s, taken, k);
    }
  }

  lemma DoFate(s: Store, c: Call, k: Key, f: Fate)
    requires Tidy(s) && CallFits(c) && HasFate(s, k, f)
    ensures HasFate(Do(s, c), k, Follow(f, c, k))
  {
    hide Tidy, Put, Delete, Compact, HasFate;
    match c.op
    case OpPut(val, ttl) =>
      if ttl > 0 {
        PutFate(s, c.key, val, ttl, c.now, k, f);
      } else {
        PutIndex(s, c.key, val, ttl, c.now);
      }
    case OpGet =>
    case OpDelete => DeleteFate(s, c.key, k, f);
    case OpCompact => CompactFate(s, c.now, k, f);
  }

  lemma {:induction false} RunFate(s: Store, calls: seq<Call>, k: Key, f: Fate)
    requires Tidy(s) && HasFate(s, k, f) && forall c :: c in calls ==> CallFits(c)
    ensures Tidy(DoAll(s, calls)) && HasFate(DoAll(s, calls), k, FateFrom(f, calls, k))
    decreases |calls|
  {
    hide Tidy, Do, HasFate, Follow, CallFits;
    if calls == [] {
    } else {
      assert calls[0] in calls;
      TidyDo(s, calls[0]);
      DoFate(s, calls[0], k, f);
      RunFate(Do(s, calls[0]), calls[1..], k, Follow(f, calls[0], k));
    }
  }

  lemma FateReached(calls: seq<Call>, k: Key)
    requires forall c :: c in calls ==> CallFits(c)
    ensures Tidy(DoAll(Open([]), calls)) && HasFate(DoAll(Open([]), calls), k, FateOf(calls, k))
  {
    hide Tidy, DoAll, CallFits;
    EmptyTidy();
    assert HasFate(Open([]), k, Absent) by {
      NothingWins();
    }
    RunFate(Open([]), calls, k, Absent);
  }

  // ---- a reopened store ----------------------------------------------------

  lemma {:induction false} ReplayReaches(log: Bytes, off: nat, index: Index)
    requires Reaches(log, 0, off) && forall k :: k in index ==> Reaches(log, 0, index[k].offset)
    ensures forall k :: k in ReplayFrom(log, off, index) ==> Reaches(log, 0, ReplayFrom(log, off, index)[k].offset)
    decreases |log| - off
  {
    hide RecAt, Reaches;
    if RecAt(log, off).None? {
    } else {
      ValueOfRecord(log, off);
      var r := RecAt(log, off).value;
      ReachesOn(log, 0, off);
      ReplayReaches(log, off + RecSize(r), index[r.key := Entry(off, Len32(r.val), r.expireAt)]);
    }
  }

  /** Opening a fully parseable log gives such a store again. */
  lemma OpenTidy(s: Store)
    requires Tidy(s)
    ensures Tidy(Open(s.log))
  {
    hide RecAt, EntryOk, Whole;
    StartReached(s.log);
    ReplayReaches(s.log, 0, map[]);
    L2Interleaving.ReplayOk(s.log, 0, map[]);
    var o := Open(s.log);
    forall k | k in o.index ensures Agrees(o, k) {
      assert Reaches(s.log, 0, o.index[k].offset);
    }
  }

  // ---- what a reopen finds -------------------------------------------------

  lemma StandsReads(log: Bytes, e: Entry, r: Rec)
    requires Stands(log, e, r)
    ensures ValueAt(log, e.offset) == Some(r.val)
  {
    ValueOfRecord(log, e.offset);
  }

  lemma FateReads(s: Store, torn: Bytes, r: Rec, k: Key, f: Fate, now: i64)
    requires Tidy(s) && HasFate(s, k, f) && TornTail(torn, r)
    ensures Get(s, k, now) == if f.Indexed? then FoundAt(f, now) else None
    ensures Get(Open(s.log + torn), k, now) == FoundAt(f, now)
    ensures k in s.index <==> f.Indexed?
    ensures var again := Open(s.log + torn).index;
      && (k in again <==> !f.Absent?)
      && (f.Indexed? ==> again[k] == s.index[k])
  {
    hide RecAt, Replay, Reaches, ValueAt, Whole, TornTail;
    ReplayTorn(s.log, torn, r);
    if f.Indexed? {
      TidyKey(s, k);
      StandsReads(s.log, s.index[k], Rec(k, f.val, f.expireAt));
      StandsGrows(s.log, s.log + torn, s.index[k], Rec(k, f.val, f.expireAt));
      StandsReads(s.log + torn, s.index[k], Rec(k, f.val, f.expireAt));
    } else if f.Deleted? {
      StandsGrows(s.log, s.log + torn, Replay(s.log)[k], Rec(k, f.val, f.expireAt));
      StandsReads(s.log + torn, Replay(s.log)[k], Rec(k, f.val, f.expireAt));
    }
  }

  /** A crash after any run, even in the middle of one more put: the reopened
      index agrees with the live one on every key the live one held, and equals
      it exactly when no key was left deleted with its record still in the log. */
  lemma ReopenAgrees(calls: seq<Call>, torn: Bytes, r: Rec)
    requires (forall c :: c in calls ==> CallFits(c)) && TornTail(torn, r)
    ensures var s := DoAll(Open([]), calls);
      var again := Open(s.log + torn);
      && (forall k :: k in s.index ==> k in again.index && again.index[k] == s.index[k])
      && (again.index == s.index <==> forall k :: !FateOf(calls, k).Deleted?)
  {
    hide DoAll, Open, TornTail, CallFits, Tidy, HasFate, FateOf, Get;
    var s := DoAll(Open([]), calls);
    var again := Open(s.log + torn);
    forall k
      ensures k in s.index <==> FateOf(calls, k).Indexed?
      ensures k in again.index <==> !FateOf(calls, k).Absent?
      ensures k in s.index ==> k in again.index && again.index[k] == s.index[k]
    {
      FateReached(calls, k);
      FateReads(s, torn, r, k, FateOf(calls, k), 0);
    }
    if forall k :: !FateOf(calls, k).Deleted? {
      assert again.index.Keys == s.index.Keys;
    } else {
      var k :| FateOf(calls, k).Deleted?;
      assert k in again.index && k !in s.index;
    }
  }

  /** A reopen changes what a key reads as exactly when the key was left deleted
      and has not expired; then it reads as what was deleted. Neither a torn tail
      nor the clock of the run matters. */
  lemma DeletedKeyReturns(calls: seq<Call>, torn: Bytes, r: Rec, key: Key, now: i64)
    requires (forall c :: c in calls ==> CallFits(c)) && TornTail(torn, r)
    ensures var s, f := DoAll(Open([]), calls), FateOf(calls, key);
      var again := Open(s.log + torn);
      && Get(s, key, now) == (if f.Indexed? then FoundAt(f, now) else None)
      && Get(again, key, now) == FoundAt(f, now)
      && (Get(again, key, now) != Get(s, key, now) <==> f.Deleted? && Alive(f.expireAt, now))
  {
    hide DoAll, Open, TornTail, CallFits, Tidy, HasFate, FateOf, Get;
    FateReached(calls, key);
    FateReads(DoAll(Open([]), calls), torn, r, key, FateOf(calls, key), now);
  }

  // ---- which deletes those are ---------------------------------------------

  /** The call deletes the key while it is indexed. */
  predicate Removes(calls: seq<Call>, i: nat, key: Key)
    requires i < |calls|
  {
    calls[i].op.OpDelete? && calls[i].key == key && FateOf(calls[..i], key).Indexed?
  }

  /** After the call no deleted record of the key is left to be found. */
  predicate Settles(c: Call, key: Key) {
    c.op.OpCompact? || (c.op.OpPut? && c.key == key && c.op.ttl > 0)
  }

  predicate RemovedLast(calls: seq<Call>, i: nat, key: Key)
    requires i < |calls|
  {
    Removes(calls, i, key) && forall j :: i < j < |calls| ==> !Settles(calls[j], key)
  }

  lemma {:induction false} FateOfLast(f: Fate, calls: seq<Call>, c: Call, key: Key)
    ensures FateFrom(f, calls + [c], key) == Follow(FateFrom(f, calls, key), c, key)
    decreases |calls|
  {
    hide Follow;
    if calls == [] {
      assert ([c] + [])[1..] == [];
      assert calls + [c] == [c];
    } else {
      assert (calls + [c])[1..] == calls[1..] + [c];
      FateOfLast(Follow(f, calls[0], key), calls[1..], c, key);
    }
  }

  /** A key is left deleted exactly when some delete took it out of the index and
      neither a put of the key with a positive ttl nor a compaction followed. */
  lemma {:induction false} DeletedExactly(calls: seq<Call>, key: Key)
    ensures FateOf(calls, key).Deleted? <==> exists i :: 0 <= i < |calls| && RemovedLast(calls, i, key)
    decreases |calls|
  {
    if calls == [] {
    } else {
      var n := |calls| - 1;
      var front, c := calls[..n], calls[n];
      assert calls == front + [c];
      FateOfLast(Absent, front, c, key);
      DeletedExactly(front, key);
      assert RemovedLast(calls, n, key) <==> Removes(calls, n, key);
      forall i | 0 <= i < n
        ensures RemovedLast(calls, i, key) <==> RemovedLast(front, i, key) && !Settles(c, key)
      {
        RemovedEarlier(calls, n, i, key);
      }
    }
  }

  lemma RemovedEarlier(calls: seq<Call>, n: nat, i: nat, key: Key)
    requires n == |calls| - 1 && i < n
    ensures RemovedLast(calls, i, key) <==> RemovedLast(calls[..n], i, key) && !Settles(calls[n], key)
  {
    hide FateOf, Settles;
    var front := calls[..n];
    assert front[..i] == calls[..i];
    assert forall j :: i < j < n ==> front[j] == calls[j];
  }

  /** So a reopen is faithful exactly when every delete that took a key out of
      the index was followed by a put of that key with a positive ttl or by a
      compaction. */
  lemma ReopenExactly(calls: seq<Call>, torn: Bytes, r: Rec)
    requires (forall c :: c in calls ==> CallFits(c)) && TornTail(torn, r)
    ensures var s := DoAll(Open([]), calls);
      Open(s.log + torn).index == s.index <==>
      forall i, key :: 0 <= i < |calls| && Removes(calls, i, key) ==>
        exists j :: i < j < |calls| && Settles(calls[j], key)
  {
    hide DoAll, Open, TornTail, CallFits, FateOf, Removes, Settles;
    ReopenAgrees(calls, torn, r);
    forall k ensures FateOf(calls, k).Deleted? <==> exists i :: 0 <= i < |calls| && RemovedLast(calls, i, k) {
      DeletedExactly(calls, k);
    }
    if i, key :| 0 <= i < |calls| && RemovedLast(calls, i, key) {
      assert FateOf(calls, key).Deleted?;
    } else {
      assert forall i, key :: 0 <= i < |calls| && Removes(calls, i, key) ==> !RemovedLast(calls, i, key);
    }
  }
}
