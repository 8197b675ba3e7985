/** Compaction as the three separate phases it is: between snapshot and swap the
    lock is free, so puts and deletes interleave with the copying scan. */
module L2Compaction {
  import opened Octets
  import opened Results
  import opened L2Log
  import opened L2Store
  import Slices

  // ---- indexes that point at complete records ------------------------------

  predicate EntryOk(log: Bytes, key: Key, e: Entry) {
    var r := RecAt(log, e.offset);
    r.Some? && r.value.key == key && r.value.expireAt == e.expireAt && |r.value.val| == e.valLen
  }

  ghost predicate IndexOk(index: Index, log: Bytes) {
    forall k :: k in index ==> EntryOk(log, k, index[k])
  }

  /** Every indexed value was put under its key. */
  ghost predicate Known(index: Index, log: Bytes, written: set<(Key, Bytes)>) {
    forall k :: k in index && EntryOk(log, k, index[k]) ==> (k, RecAt(log, index[k].offset).value.val) in written
  }

  // ---- bytes held by an index ----------------------------------------------

  ghost function Total(m: Index): nat {
    if m == map[] then 0 else var k :| k in m; EntryBytes(k, m[k]) + Total(m - {k})
  }

  lemma {:induction false} TotalRemove(m: Index, k: Key)
    requires k in m
    ensures Total(m) == EntryBytes(k, m[k]) + Total(m - {k})
    decreases |m|
  {
    var j :| j in m && Total(m) == EntryBytes(j, m[j]) + Total(m - {j});
    if j == k {
    } else {
      TotalRemove(m - {j}, k);
      TotalRemove(m - {k}, j);
      assert m - {j} - {k} == m - {k} - {j};
    }
  }

  lemma TotalInsert(m: Index, k: Key, e: Entry)
    ensures Total(m[k := e]) == EntryBytes(k, e) + Total(m - {k})
  {
    TotalRemove(m[k := e], k);
    assert m[k := e] - {k} == m - {k};
  }

  // ---- offsets a scan reaches ----------------------------------------------

  /** A scan standing at `from` gets to `off`. */
  predicate Reaches(log: Bytes, from: nat, off: nat)
    decreases |log| - from
  {
    from == off || (RecAt(log, from).Some? &&
                    (ValueOfRecord(log, from); Reaches(log, from + RecSize(RecAt(log, from).value), off)))
  }

  /** No torn or damaged record stands before the key's record. */
  predicate Scannable(s: Store, key: Key) {
    key in s.index ==> Reaches(s.log, 0, s.index[key].offset)
  }

  lemma {:induction false} ReachesGrows(log: Bytes, more: Bytes, from: nat, off: nat)
    requires Reaches(log, from, off) && log <= more
    ensures Reaches(more, from, off)
    decreases |log| - from
  {
    hide RecAt;
    if from == off {
    } else {
      RecordGrows(log, more, from);
      ValueOfRecord(log, from);
      ReachesGrows(log, more, from + RecSize(RecAt(log, from).value), off);
    }
  }

  lemma EntryGrows(log: Bytes, more: Bytes, k: Key, e: Entry)
    requires EntryOk(log, k, e) && log <= more
    ensures EntryOk(more, k, e) && RecAt(more, e.offset) == RecAt(log, e.offset)
  {
    hide RecAt;
    RecordGrows(log, more, e.offset);
  }

  lemma IndexGrows(index: Index, log: Bytes, more: Bytes, written: set<(Key, Bytes)>)
    requires IndexOk(index, log) && Known(index, log, written) && log <= more
    ensures IndexOk(index, more) && Known(index, more, written)
  {
    hide EntryOk, RecAt;
    forall k | k in index
      ensures EntryOk(more, k, index[k]) && RecAt(more, index[k].offset) == RecAt(log, index[k].offset)
    {
      EntryGrows(log, more, k, index[k]);
    }
  }

  /** A record appended to any log, torn or not, is readable at the old end. */
  lemma AppendReads(log: Bytes, r: Rec)
    requires Fits(r)
    ensures RecAt(log + RecBytes(r), |log|) == Some(r)
  {
    hide RecAt, RecBytes;
    Slices.StandsAtEnd(log, RecBytes(r), log + RecBytes(r));
    RecordReads(log + RecBytes(r), |log|, r);
  }

  // ---- the copying scan ----------------------------------------------------

  /** What the new file and index hold while the scan of `log` stands at `at`.
      `seen` is the store at the snapshot, taken at time `taken`. */
  ghost predicate Copied(seen: Store, taken: i64, out: Bytes, newIndex: Index, written: set<(Key, Bytes)>) {
    && IndexOk(seen.index, seen.log)
    && IndexOk(newIndex, out)
    && Known(newIndex, out, written)
    && |out| == Total(newIndex)
    && Reaches(out, 0, |out|)
    && (forall k :: k in newIndex ==> FromSeen(seen, taken, out, newIndex, k))
  }

  predicate FromSeen(seen: Store, taken: i64, out: Bytes, newIndex: Index, k: Key)
    requires k in newIndex
  {
    && k in seen.index
    && Alive(seen.index[k].expireAt, taken)
    && RecAt(out, newIndex[k].offset) == RecAt(seen.log, seen.index[k].offset)
    && Reaches(out, 0, newIndex[k].offset)
  }

  predicate Behind(seen: Store, newIndex: Index, at: nat, k: Key)
    requires k in newIndex
  {
    k in seen.index && seen.index[k].offset < at
  }

  /** Still to be copied, and ahead of the scan. */
  predicate Ahead(seen: Store, log: Bytes, at: nat, k: Key)
    requires k in seen.index
  {
    Reaches(log, at, seen.index[k].offset)
  }

  ghost predicate Copying(
    seen: Store, taken: i64, log: Bytes, at: nat, out: Bytes, newIndex: Index, written: set<(Key, Bytes)>)
  {
    && seen.log <= log
    && Copied(seen, taken, out, newIndex, written)
    && Known(seen.index, seen.log, written)
    && (forall k :: k in newIndex ==> Behind(seen, newIndex, at, k))
    && (forall k :: k in seen.index && Alive(seen.index[k].expireAt, taken) && Scannable(seen, k) ==>
         k in newIndex || Ahead(seen, log, at, k))
  }

  ghost predicate AllCopied(seen: Store, taken: i64, newIndex: Index) {
    forall k :: k in seen.index && Alive(seen.index[k].expireAt, taken) && Scannable(seen, k) ==> k in newIndex
  }

  lemma CopyingStarts(s: Store, taken: i64, written: set<(Key, Bytes)>)
    requires IndexOk(s.index, s.log) && Known(s.index, s.log, written)
    ensures Copying(s, taken, s.log, 0, [], map[], written)
  {
    hide EntryOk, RecAt;
  }

  /** Puts append to the log under the scan's feet; that changes nothing. */
  lemma CopyingGrows(
    seen: Store, taken: i64, log: Bytes, more: Bytes, at: nat, out: Bytes, newIndex: Index, written: set<(Key, Bytes)>)
    requires Copying(seen, taken, log, at, out, newIndex, written) && log <= more
    ensures Copying(seen, taken, more, at, out, newIndex, written)
  {
    hide Copied, Known, Reaches, FromSeen;
    forall k | k in seen.index && Alive(seen.index[k].expireAt, taken) && Scannable(seen, k) && k !in newIndex
      ensures Ahead(seen, more, at, k)
    {
      ReachesGrows(log, more, at, seen.index[k].offset);
    }
  }

  lemma WrittenGrows(
    seen: Store, taken: i64, log: Bytes, at: nat, out: Bytes, newIndex: Index,
    written: set<(Key, Bytes)>, more: set<(Key, Bytes)>)
    requires Copying(seen, taken, log, at, out, newIndex, written) && written <= more
    ensures Copying(seen, taken, log, at, out, newIndex, more)
  {
    hide EntryOk, RecAt, FromSeen, Reaches;
  }

  lemma LiveKey(seen: Store, taken: i64, at: nat) returns (k: Key)
    requires at in Live(seen, taken)
    ensures k in seen.index && Alive(seen.index[k].expireAt, taken) && seen.index[k].offset == at
  {
    k :| k in seen.index && Alive(seen.index[k].expireAt, taken) && seen.index[k].offset == at;
  }

  /** What the snapshot picks out: a record the scan meets is live exactly when
      it is the indexed record of its own key and had not expired. Superseded and
      deleted records are not. */
  lemma LiveRecord(seen: Store, taken: i64, at: nat)
    requires IndexOk(seen.index, seen.log) && RecAt(seen.log, at).Some?
    ensures var k := RecAt(seen.log, at).value.key;
      at in Live(seen, taken) <==>
      k in seen.index && seen.index[k].offset == at && Alive(RecAt(seen.log, at).value.expireAt, taken)
  {
    hide RecAt;
    var k := RecAt(seen.log, at).value.key;
    if at in Live(seen, taken) {
      var j := LiveKey(seen, taken, at);
      assert EntryOk(seen.log, j, seen.index[j]);
    } else if k in seen.index {
      assert EntryOk(seen.log, k, seen.index[k]);
    }
  }

  lemma NextReach(log: Bytes, at: nat, off: nat)
    requires Reaches(log, at, off) && RecAt(log, at).Some? && at != off
    ensures Reaches(log, at + RecSize(RecAt(log, at).value), off)
  {
  }

  lemma {:induction false} AppendReach(out: Bytes, from: nat, r: Rec)
    requires Fits(r) && Reaches(out, from, |out|)
    ensures Reaches(out + RecBytes(r), from, |out|)
    ensures Reaches(out + RecBytes(r), from, |out + RecBytes(r)|)
    decreases |out| - from
  {
    hide RecAt, RecBytes;
    var more := out + RecBytes(r);
    ReachesGrows(out, more, from, |out|);
    if from == |out| {
      AppendReads(out, r);
      RecBytesSize(r);
      assert Reaches(more, |more|, |more|);
    } else {
      RecordGrows(out, more, from);
      ValueOfRecord(out, from);
      AppendReach(out, from + RecSize(RecAt(out, from).value), r);
    }
  }

  lemma CopiedAreBehind(
    seen: Store, taken: i64, log: Bytes, at: nat, out: Bytes, newIndex: Index, written: set<(Key, Bytes)>, k: Key)
    requires Copying(seen, taken, log, at, out, newIndex, written)
    ensures k in newIndex ==> Behind(seen, newIndex, at, k)
  {
  }

  /** A copied record is what the snapshot indexed. */
  lemma AppendCopied(
    seen: Store, taken: i64, out: Bytes, newIndex: Index, written: set<(Key, Bytes)>, r: Rec)
    requires Copied(seen, taken, out, newIndex, written) && r.key !in newIndex && Fits(r)
    requires r.key in seen.index && Alive(seen.index[r.key].expireAt, taken)
    requires RecAt(seen.log, seen.index[r.key].offset) == Some(r) && (r.key, r.val) in written
    ensures Copied(
              seen, taken, out + RecBytes(r), newIndex[r.key := Entry(|out|, Len32(r.val), r.expireAt)], written)
  {
    hide RecAt, RecBytes, Reaches, Alive;
    var k, out' := r.key, out + RecBytes(r);
    var e := Entry(|out|, Len32(r.val), r.expireAt);
    AppendReads(out, r);
    AppendReach(out, 0, r);
    RecBytesSize(r);
    assert newIndex - {k} == newIndex;
    TotalInsert(newIndex, k, e);
    IndexGrows(newIndex, out, out', written);
    var newIndex' := newIndex[k := e];
    forall j | j in newIndex'
      ensures FromSeen(seen, taken, out', newIndex', j)
    {
      if j != k {
        assert FromSeen(seen, taken, out, newIndex, j);
        EntryGrows(out, out', j, newIndex[j]);
        ReachesGrows(out, out', 0, newIndex[j].offset);
      }
    }
  }

  /** Copying one live record: its key is new to the new index. */
  lemma CopyLive(
    seen: Store, taken: i64, log: Bytes, at: nat, out: Bytes, newIndex: Index, written: set<(Key, Bytes)>, k: Key)
    requires Copying(seen, taken, log, at, out, newIndex, written)
    requires RecAt(log, at).Some?
    requires k in seen.index && Alive(seen.index[k].expireAt, taken) && seen.index[k].offset == at
    ensures var r := RecAt(log, at).value;
      && r.key == k && k !in newIndex && r == RecAt(seen.log, at).value && Fits(r)
      && Copied(seen, taken, out + RecBytes(r), newIndex[k := Entry(|out|, Len32(r.val), r.expireAt)], written)
  {
    hide RecAt, RecBytes, Reaches, FromSeen, Alive, Total;
    assert EntryOk(seen.log, k, seen.index[k]);
    EntryGrows(seen.log, log, k, seen.index[k]);
    ValueOfRecord(log, at);
    CopiedAreBehind(seen, taken, log, at, out, newIndex, written, k);
    AppendCopied(seen, taken, out, newIndex, written, RecAt(log, at).value);
  }

  /** One step of the scan keeps the invariant. */
  lemma CopyOneKeeps(
    seen: Store, taken: i64, log: Bytes, at: nat, out: Bytes, newIndex: Index, written: set<(Key, Bytes)>)
    requires Copying(seen, taken, log, at, out, newIndex, written)
    requires RecAt(log, at).Some?
    ensures var (out', newIndex') := CopyOne(log, Live(seen, taken), at, out, newIndex);
      Copying(seen, taken, log, at + RecSize(RecAt(log, at).value), out', newIndex', written)
  {
    hide RecAt, RecBytes, Reaches, Copied, FromSeen, EntryOk, Known, Live;
    var (out', newIndex') := CopyOne(log, Live(seen, taken), at, out, newIndex);
    var next := at + RecSize(RecAt(log, at).value);
    if at in Live(seen, taken) {
      var k := LiveKey(seen, taken, at);
      CopyLive(seen, taken, log, at, out, newIndex, written, k);
      forall j | j in newIndex' ensures Behind(seen, newIndex', next, j) {
        if j != k {
          assert Behind(seen, newIndex, at, j);
        }
      }
    } else {
      forall j | j in newIndex' ensures Behind(seen, newIndex', next, j) {
        assert Behind(seen, newIndex, at, j);
      }
    }
    forall j | j in seen.index && Alive(seen.index[j].expireAt, taken) && Scannable(seen, j) && j !in newIndex'
      ensures Ahead(seen, log, next, j)
    {
      assert Ahead(seen, log, at, j);
      if seen.index[j].offset == at {
        InLive(seen, taken, j);
        var k := LiveKey(seen, taken, at);
        CopyLive(seen, taken, log, at, out, newIndex, written, k);
        CopyLive(seen, taken, log, at, out, newIndex, written, j);
      }
      NextReach(log, at, seen.index[j].offset);
    }
  }

  lemma InLive(seen: Store, taken: i64, k: Key)
    requires k in seen.index && Alive(seen.index[k].expireAt, taken)
    ensures seen.index[k].offset in Live(seen, taken)
  {
  }

  /** Where the scan stops, nothing reachable is left behind. */
  lemma CopyEnds(
    seen: Store, taken: i64, log: Bytes, at: nat, out: Bytes, newIndex: Index, written: set<(Key, Bytes)>)
    requires Copying(seen, taken, log, at, out, newIndex, written)
    requires RecAt(log, at).None?
    ensures AllCopied(seen, taken, newIndex)
  {
    hide RecAt, Known, FromSeen;
    forall k | k in seen.index && Alive(seen.index[k].expireAt, taken) && Scannable(seen, k)
      ensures k in newIndex
    {
      if k !in newIndex {
        assert Ahead(seen, log, at, k);
        assert EntryOk(seen.log, k, seen.index[k]);
        EntryGrows(seen.log, log, k, seen.index[k]);
      }
    }
  }

  /** After a swap, every key reads as it did at the snapshot, whatever was
      written in between. */
  lemma SwapReads(seen: Store, taken: i64, out: Bytes, newIndex: Index, written: set<(Key, Bytes)>, key: Key, now: i64)
    requires Copied(seen, taken, out, newIndex, written) && AllCopied(seen, taken, newIndex)
    requires Scannable(seen, key) && taken <= now
    ensures Get(Swap(out, newIndex), key, now) == Get(seen, key, now)
  {
    hide RecAt, ValueAt, Reaches, Known;
    if key in newIndex {
      assert FromSeen(seen, taken, out, newIndex, key);
      assert EntryOk(out, key, newIndex[key]) && EntryOk(seen.log, key, seen.index[key]);
      ValueOfRecord(out, newIndex[key].offset);
      ValueOfRecord(seen.log, seen.index[key].offset);
    }
  }

  /** Even when a torn record hides live ones, what a swap leaves reads as it
      did at the snapshot, or not at all. */
  lemma SwapNeverInvents(
    seen: Store, taken: i64, out: Bytes, newIndex: Index, written: set<(Key, Bytes)>, key: Key, now: i64)
    requires Copied(seen, taken, out, newIndex, written)
    ensures Get(Swap(out, newIndex), key, now).Some? ==> Get(Swap(out, newIndex), key, now) == Get(seen, key, now)
  {
    hide RecAt, ValueAt, Reaches, Known;
    if key in newIndex {
      assert FromSeen(seen, taken, out, newIndex, key);
      assert EntryOk(out, key, newIndex[key]) && EntryOk(seen.log, key, seen.index[key]);
      ValueOfRecord(out, newIndex[key].offset);
      ValueOfRecord(seen.log, seen.index[key].offset);
    }
  }
}
