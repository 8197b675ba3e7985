/** Scans whose header reads may come back short, on a log that is undamaged. */
module L2ShortReads {
  import opened Octets
  import opened Results
  import opened L2Log
  import opened L2Store
  import opened L2Compaction
  import opened L2Recovery
  import Slices

  /** Where the scan from `off` stops. */
  function StopAt(log: Bytes, off: nat, short: ShortReads): nat
    decreases |log| - off
  {
    var r := ScanAt(log, off, short);
    if r.None? then off
    else
      ValueOfRecord(log, off);
      StopAt(log, off + RecSize(r.value), short)
  }

  /** Cutting a log after a record leaves the record. */
  lemma RecordStays(log: Bytes, off: nat, m: nat)
    requires RecAt(log, off).Some? && off + RecSize(RecAt(log, off).value) <= m <= |log|
    ensures RecAt(log[..m], off) == RecAt(log, off)
  {
    hide RecAt, RecBytes;
    var r := RecAt(log, off).value;
    RecordStands(log, off);
    RecordFits(log, off);
    RecBytesSize(r);
    assert log[..m][off..off + RecSize(r)] == log[off..off + RecSize(r)];
    StandsThere(log[..m], off, RecBytes(r));
    RecordReads(log[..m], off, r);
  }

  lemma StandsThere(buf: Bytes, at: nat, w: Bytes)
    requires at + |w| <= |buf| && buf[at..at + |w|] == w
    ensures Slices.StandsAt(buf, at, w)
  {
    forall i | 0 <= i < |w| ensures buf[at + i] == w[i] {
      assert buf[at..at + |w|][i] == buf[at + i];
    }
  }

  lemma {:induction false} StopInside(log: Bytes, off: nat, short: ShortReads)
    requires off <= |log|
    ensures off <= StopAt(log, off, short) <= |log|
    decreases |log| - off
  {
    hide RecAt;
    if ScanAt(log, off, short).None? {
    } else {
      ValueOfRecord(log, off);
      StopInside(log, off + RecSize(RecAt(log, off).value), short);
    }
  }

  lemma {:induction false} ReadsPart(log: Bytes, off: nat, short: ShortReads, index: Index)
    requires off <= |log|
    ensures off <= StopAt(log, off, short) <= |log|
    ensures var m := StopAt(log, off, short);
      && Reaches(log[..m], off, m)
      && ReplayReads(log, off, index, short) == ReplayFrom(log[..m], off, index)
    decreases |log| - off
  {
    hide RecAt;
    StopInside(log, off, short);
    var m := StopAt(log, off, short);
    if ScanAt(log, off, short).None? {
      assert |log[..m]| == m;
      NoneAtEnd(log[..m]);
    } else {
      ValueOfRecord(log, off);
      var r := RecAt(log, off).value;
      StopInside(log, off + RecSize(r), short);
      RecordStays(log, off, m);
      ValueOfRecord(log[..m], off);
      ReadsPart(log, off + RecSize(r), short, index[r.key := Entry(off, Len32(r.val), r.expireAt)]);
    }
  }

  /** Replay is always that of the whole records up to where it stops. */
  lemma ReplayIsOfPart(log: Bytes, short: ShortReads)
    ensures StopAt(log, 0, short) <= |log|
    ensures var part := log[..StopAt(log, 0, short)];
      Whole(part) && ReplayReads(log, 0, map[], short) == Replay(part)
  {
    hide *;
    ReadsPart(log, 0, short, map[]);
    ReachedEnd(log, StopAt(log, 0, short));
  }

  lemma ReachedEnd(log: Bytes, m: nat)
    requires m <= |log| && Reaches(log[..m], 0, m)
    ensures Whole(log[..m]) && Replay(log[..m]) == ReplayFrom(log[..m], 0, map[])
  {
    hide Reaches, ReplayFrom;
  }

  lemma {:induction false} CopiesPart(
    log: Bytes, live: set<nat>, at: nat, out: Bytes, newIndex: Index, short: ShortReads)
    requires at <= |log|
    ensures at <= StopAt(log, at, short) <= |log|
    ensures CopyReads(log, live, at, out, newIndex, short)
      == CopyFrom(log[..StopAt(log, at, short)], live, at, out, newIndex)
    decreases |log| - at
  {
    hide RecAt, RecBytes;
    StopInside(log, at, short);
    var m := StopAt(log, at, short);
    if ScanAt(log, at, short).None? {
      NoneAtEnd(log[..m]);
    } else {
      ValueOfRecord(log, at);
      var r := RecAt(log, at).value;
      StopInside(log, at + RecSize(r), short);
      RecordStays(log, at, m);
      ValueOfRecord(log[..m], at);
      var (out', newIndex') := CopyOne(log, live, at, out, newIndex);
      CopiesPart(log, live, at + RecSize(r), out', newIndex', short);
    }
  }

  /** The copying scan of compaction copies from the same part. */
  lemma CopyIsOfPart(log: Bytes, live: set<nat>, short: ShortReads)
    ensures StopAt(log, 0, short) <= |log|
    ensures CopyReads(log, live, 0, [], map[], short)
      == CopyFrom(log[..StopAt(log, 0, short)], live, 0, [], map[])
  {
    CopiesPart(log, live, 0, [], map[], short);
  }

  // ---- when nothing is missed ----------------------------------------------

  /** No header of a record the scan would read comes back short. */
  ghost predicate NoneShort(log: Bytes, off: nat, short: ShortReads) {
    forall at: nat :: Reaches(log, off, at) && RecAt(log, at).Some? ==> !short(at)
  }

  /** Every entry under `from` or put there by the scan. */
  predicate Before(index: Index, off: nat) {
    forall k :: k in index ==> index[k].offset < off
  }

  lemma {:induction false} LaterEntry(log: Bytes, off: nat, index: Index, key: Key)
    requires key in index
    ensures key in ReplayFrom(log, off, index)
    ensures ReplayFrom(log, off, index)[key] == index[key] || ReplayFrom(log, off, index)[key].offset >= off
    decreases |log| - off
  {
    hide RecAt;
    if RecAt(log, off).None? {
    } else {
      ValueOfRecord(log, off);
      var r := RecAt(log, off).value;
      LaterEntry(log, off + RecSize(r), index[r.key := Entry(off, Len32(r.val), r.expireAt)], key);
    }
  }

  lemma {:induction false} MissedExactly(log: Bytes, off: nat, index: Index, short: ShortReads)
    requires Before(index, off)
    ensures ReplayReads(log, off, index, short) == ReplayFrom(log, off, index) <==> NoneShort(log, off, short)
    decreases |log| - off
  {
    hide RecAt;
    if RecAt(log, off).None? {
    } else {
      ValueOfRecord(log, off);
      var r := RecAt(log, off).value;
      var e := Entry(off, Len32(r.val), r.expireAt);
      var next := off + RecSize(r);
      assert Reaches(log, off, off);
      if short(off) {
        LaterEntry(log, next, index[r.key := e], r.key);
      } else {
        MissedExactly(log, next, index[r.key := e], short);
        forall at: nat ensures Reaches(log, off, at) <==> at == off || Reaches(log, next, at) {
        }
      }
    }
  }

  /** On any log, damaged or not, replay finds what reading in full would find
      exactly when no header of a record on its way comes back short. */
  lemma ReplayCompleteExactly(log: Bytes, short: ShortReads)
    ensures ReplayReads(log, 0, map[], short) == Replay(log) <==> NoneShort(log, 0, short)
  {
    hide Reaches, RecAt;
    MissedExactly(log, 0, map[], short);
  }

  /** In records: replay is that of those before the first short header. */
  lemma RecordsBeforeShort(recs: seq<Rec>, n: nat, short: ShortReads)
    requires (forall x :: x in recs ==> Fits(x)) && n < |recs|
    requires short(OffsetOf(recs, n)) && forall i :: 0 <= i < n ==> !short(OffsetOf(recs, i))
    ensures ReplayReads(Flat(recs), 0, map[], short) == Replay(Flat(recs[..n]))
  {
    hide RecAt, Reaches, Replay, Flat, StopAt, ReplayReads, Whole;
    NoRecords(recs);
    StopsAtRecord(recs, n, short, 0);
    FlatPrefix(recs, n);
    ReplayIsOfPart(Flat(recs), short);
    assert Flat(recs)[..|Flat(recs[..n])|] == Flat(recs[..n]);
  }

  lemma {:induction false} FlatPrefix(recs: seq<Rec>, n: nat)
    requires n <= |recs|
    ensures Flat(recs[..n]) <= Flat(recs)
    decreases |recs|
  {
    hide RecBytes;
    if n == |recs| {
      assert recs[..n] == recs;
    } else {
      FlatPrefix(recs[..|recs| - 1], n);
      assert recs[..|recs| - 1][..n] == recs[..n];
    }
  }

  lemma NoRecords(recs: seq<Rec>)
    ensures |Flat(recs[..0])| == 0
  {
  }

  lemma RecordAtOffset(recs: seq<Rec>, i: nat)
    requires i < |recs| && Fits(recs[i])
    ensures RecAt(Flat(recs), OffsetOf(recs, i)) == Some(recs[i])
    ensures OffsetOf(recs, i) + RecSize(recs[i]) == |Flat(recs[..i + 1])|
  {
    hide RecAt, RecBytes;
    assert recs[..i + 1][..i] == recs[..i];
    AppendReads(Flat(recs[..i]), recs[i]);
    RecBytesSize(recs[i]);
    FlatPrefix(recs, i + 1);
    RecordGrows(Flat(recs[..i + 1]), Flat(recs), OffsetOf(recs, i));
  }

  lemma {:induction false} StopsAtRecord(recs: seq<Rec>, n: nat, short: ShortReads, i: nat)
    requires (forall x :: x in recs ==> Fits(x)) && i <= n < |recs|
    requires short(OffsetOf(recs, n)) && forall j :: i <= j < n ==> !short(OffsetOf(recs, j))
    ensures StopAt(Flat(recs), |Flat(recs[..i])|, short) == |Flat(recs[..n])|
    decreases n - i
  {
    hide RecAt, Flat, RecSize;
    if i == n {
    } else {
      assert recs[i] in recs;
      RecordAtOffset(recs, i);
      StopsAtRecord(recs, n, short, i + 1);
    }
  }
}
