/** The audit chain over runs and restarts, and what a chain's last hash pins
    down. */
module AuditChain {
  import opened Octets
  import opened Text
  import opened Audit

  // ---- runs ----------------------------------------------------------------

  datatype Event =
    | Write(f: Fields, outcome: Outcome)
    | Restart(read: bool)

  function Do(sha: Sha, verifier: Bytes, l: Log, e: Event): Log {
    match e
    case Write(f, outcome) => Recorded(sha, l, f, verifier, outcome)
    case Restart(read) => Start(l.rows, read)
  }

  function Run(sha: Sha, verifier: Bytes, l: Log, es: seq<Event>): Log
    decreases |es|
  {
    if es == [] then l else Run(sha, verifier, Do(sha, verifier, l, es[0]), es[1..])
  }

  /** Every row holds its own hash and, as previous hash, that of the row before
      it, or genesis. */
  predicate Chain(sha: Sha, rows: seq<Stored>) {
    forall i :: 0 <= i < |rows| ==> Linked(sha, rows, i)
  }

  predicate Linked(sha: Sha, rows: seq<Stored>, i: nat)
    requires i < |rows|
  {
    && rows[i].row.prevHash == LastHash(rows[..i])
    && rows[i].row.entryHash == EntryHash(sha, rows[i].row.prevHash, rows[i].row.fields)
  }

  // ---- exactly which runs keep the chain -----------------------------------

  /** What outcomes alone tell: whether the table has rows, whether the writer
      chains to the last one, and whether the chain is unbroken. */
  datatype Track = Track(some: bool, inStep: bool, unbroken: bool)

  function Follow(t: Track, e: Event): Track {
    match e
    case Write(_, Inserted) => Track(true, true, t.unbroken && t.inStep)
    case Write(_, Unreported) => Track(true, false, t.unbroken && t.inStep)
    case Write(_, _) => t
    case Restart(read) => t.(inStep := read || !t.some)
  }

  function FollowAll(t: Track, es: seq<Event>): Track
    decreases |es|
  {
    if es == [] then t else FollowAll(Follow(t, es[0]), es[1..])
  }

  predicate Tracks(sha: Sha, l: Log, t: Track) {
    && t.some == (l.rows != [])
    && t.inStep == (l.prev == LastHash(l.rows))
    && t.unbroken == Chain(sha, l.rows)
    && (forall i :: 0 <= i < |l.rows| ==>
          l.rows[i].row.entryHash == EntryHash(sha, l.rows[i].row.prevHash, l.rows[i].row.fields))
  }

  lemma ChainGrows(sha: Sha, rows: seq<Stored>, s: Stored)
    requires s.row.entryHash == EntryHash(sha, s.row.prevHash, s.row.fields)
    ensures Chain(sha, rows + [s]) <==> Chain(sha, rows) && s.row.prevHash == LastHash(rows)
  {
    hide EntryHash, LastHash;
    var more := rows + [s];
    assert more[..|rows|] == rows && more[|rows|] == s;
    forall i | 0 <= i < |rows| ensures Linked(sha, more, i) == Linked(sha, rows, i) {
      assert more[..i] == rows[..i] && more[i] == rows[i];
    }
    if Chain(sha, more) {
      assert Linked(sha, more, |rows|);
      assert forall i :: 0 <= i < |rows| ==> Linked(sha, more, i);
    }
  }

  /** No row's hash is genesis or the hash it chains to. */
  predicate Distinct(rows: seq<Stored>) {
    forall i :: 0 <= i < |rows| ==>
      rows[i].row.entryHash != Genesis() && rows[i].row.entryHash != rows[i].row.prevHash
  }

  lemma DoTracks(sha: Sha, verifier: Bytes, l: Log, t: Track, e: Event)
    requires Tracks(sha, l, t) && Distinct(Do(sha, verifier, l, e).rows)
    ensures Tracks(sha, Do(sha, verifier, l, e), Follow(t, e))
  {
    hide Preimage, Hex, Chain, Genesis;
    match e
    case Restart(_) =>
    case Write(f, outcome) =>
      if outcome.Inserted? || outcome.Unreported? {
        var row := MakeAuditRow(sha, l.prev, f);
        ChainGrows(sha, l.rows, Stored(row, verifier));
        assert (l.rows + [Stored(row, verifier)])[|l.rows|].row == row;
      }
  }

  /** Rows are only ever added. */
  lemma {:induction false} RowsStay(sha: Sha, verifier: Bytes, l: Log, es: seq<Event>)
    ensures l.rows <= Run(sha, verifier, l, es).rows
    decreases |es|
  {
    hide EntryHash;
    if es == [] {
    } else {
      RowsStay(sha, verifier, Do(sha, verifier, l, es[0]), es[1..]);
    }
  }

  lemma {:induction false} RunTracks(sha: Sha, verifier: Bytes, l: Log, t: Track, es: seq<Event>)
    requires Tracks(sha, l, t) && Distinct(Run(sha, verifier, l, es).rows)
    ensures Tracks(sha, Run(sha, verifier, l, es), FollowAll(t, es))
    decreases |es|
  {
    hide Tracks, Do, Follow;
    if es == [] {
    } else {
      RowsStay(sha, verifier, Do(sha, verifier, l, es[0]), es[1..]);
      DoTracks(sha, verifier, l, t, es[0]);
      RunTracks(sha, verifier, Do(sha, verifier, l, es[0]), Follow(t, es[0]), es[1..]);
    }
  }

  /** After any run from an empty table, the rows form one unbroken chain from
      genesis exactly when every row that was added found the writer in step: no
      failed read of the last hash and no unreported insert came before it
      without a good read in between. Only the hashes of this run matter: none
      may be genesis or the hash it chains to. */
  lemma ChainUnbrokenExactly(sha: Sha, verifier: Bytes, read: bool, es: seq<Event>)
    requires Distinct(Run(sha, verifier, Start([], read), es).rows)
    ensures Chain(sha, Run(sha, verifier, Start([], read), es).rows) <==>
      FollowAll(Track(false, true, true), es).unbroken
  {
    hide Run, FollowAll, Distinct;
    RunTracks(sha, verifier, Start([], read), Track(false, true, true), es);
  }

  /** A failed read of the last hash breaks the chain: one insert, a restart that
      cannot read, another insert. Any hash will do that does not give genesis
      for the first row. */
  lemma FailedReadBreaksChain(sha: Sha, verifier: Bytes, f: Fields, g: Fields)
    requires EntryHash(sha, Genesis(), f) != Genesis()
    ensures var es := [Write(f, Inserted), Restart(false), Write(g, Inserted)];
      !Chain(sha, Run(sha, verifier, Start([], true), es).rows)
  {
    hide EntryHash, Genesis;
    var first := Stored(MakeAuditRow(sha, Genesis(), f), verifier);
    var second := Stored(MakeAuditRow(sha, Genesis(), g), verifier);
    var es := [Write(f, Inserted), Restart(false), Write(g, Inserted)];
    var l1 := Do(sha, verifier, Start([], true), es[0]);
    var l2 := Do(sha, verifier, l1, es[1]);
    var l3 := Do(sha, verifier, l2, es[2]);
    assert l1.rows == [first] && l3.rows == [first] + [second];
    assert es[1..][1..][1..] == [];
    assert Run(sha, verifier, l2, es[1..][1..]) == Run(sha, verifier, l3, []) == l3;
    assert Run(sha, verifier, Start([], true), es) == Run(sha, verifier, l1, es[1..]) == l3;
    ChainGrows(sha, [first], second);
  }

  predicate Smooth(es: seq<Event>) {
    forall e :: e in es ==> (e.Restart? ==> e.read) && (e.Write? ==> !e.outcome.Unreported?)
  }

  lemma {:induction false} SmoothKeepsChain(sha: Sha, verifier: Bytes, l: Log, es: seq<Event>)
    requires Chain(sha, l.rows) && l.prev == LastHash(l.rows) && Smooth(es)
    ensures Chain(sha, Run(sha, verifier, l, es).rows)
    ensures l.rows <= Run(sha, verifier, l, es).rows
    decreases |es|
  {
    hide Chain, EntryHash;
    if es == [] {
    } else {
      var e := es[0];
      assert e in es;
      var l' := Do(sha, verifier, l, e);
      if e.Write? && e.outcome.Inserted? {
        ChainGrows(sha, l.rows, Stored(MakeAuditRow(sha, l.prev, e.f), verifier));
      }
      SmoothKeepsChain(sha, verifier, l', es[1..]);
    }
  }

  /** Whatever the hash, over any run of inserts that succeed or fail and any
      restarts that read the last hash, the rows form one unbroken chain from
      genesis, and rows are only ever added. */
  lemma ChainUnbroken(sha: Sha, verifier: Bytes, es: seq<Event>, more: seq<Event>)
    requires Smooth(es + more)
    ensures var l := Run(sha, verifier, Start([], true), es);
      && Chain(sha, l.rows)
      && Chain(sha, Run(sha, verifier, l, more).rows)
      && l.rows <= Run(sha, verifier, l, more).rows
  {
    hide Run;
    assert forall e :: e in es ==> e in es + more;
    assert forall e :: e in more ==> e in es + more;
    var l := Run(sha, verifier, Start([], true), es);
    SmoothKeepsChain(sha, verifier, Start([], true), es);
    SmoothInStep(sha, verifier, Start([], true), es);
    SmoothKeepsChain(sha, verifier, l, more);
  }

  lemma {:induction false} SmoothInStep(sha: Sha, verifier: Bytes, l: Log, es: seq<Event>)
    requires l.prev == LastHash(l.rows) && Smooth(es)
    ensures var l' := Run(sha, verifier, l, es); l'.prev == LastHash(l'.rows)
    decreases |es|
  {
    hide EntryHash;
    if es == [] {
    } else {
      assert es[0] in es;
      SmoothInStep(sha, verifier, Do(sha, verifier, l, es[0]), es[1..]);
    }
  }

  // ---- the fields behind a text --------------------------------------------

  predicate NoBars(f: Fields) {
    BAR !in f.actor && BAR !in f.action && BAR !in f.target && BAR !in f.detail && BAR !in f.clientIp
  }

  function Bars(s: Bytes): nat {
    multiset(s)[BAR]
  }

  lemma BarsAround(a: Bytes, b: Bytes)
    ensures Bars(a + [BAR] + b) == Bars(a) + 1 + Bars(b)
  {
  }

  lemma NoBarsCounted(s: Bytes)
    ensures Bars(s) == 0 <==> BAR !in s
  {
    assert BAR in multiset(s) <==> BAR in s;
  }

  lemma TextsBars(f: Fields)
    ensures Bars(Texts(f)) == 4 + Bars(f.actor) + Bars(f.action) + Bars(f.target) + Bars(f.detail) + Bars(f.clientIp)
  {
    hide Bars;
    var d := f.detail + [BAR] + f.clientIp;
    var t := f.target + [BAR] + d;
    var a := f.action + [BAR] + t;
    BarsAround(f.actor, a);
    BarsAround(f.action, t);
    BarsAround(f.target, d);
    BarsAround(f.detail, f.clientIp);
  }

  lemma NoBarsSame(f: Fields, g: Fields)
    requires NoBars(f) && Texts(f) == Texts(g)
    ensures NoBars(g)
  {
    hide Bars, Texts;
    TextsBars(f);
    TextsBars(g);
    NoBarsCounted(f.actor);
    NoBarsCounted(f.action);
    NoBarsCounted(f.target);
    NoBarsCounted(f.detail);
    NoBarsCounted(f.clientIp);
    NoBarsCounted(g.actor);
    NoBarsCounted(g.action);
    NoBarsCounted(g.target);
    NoBarsCounted(g.detail);
    NoBarsCounted(g.clientIp);
  }

  lemma TextsInjective(f: Fields, g: Fields)
    requires NoBars(f) && Texts(f) == Texts(g) && f.ts == g.ts
    ensures f == g
  {
    NoBarsSame(f, g);
    var fd, gd := f.detail + [BAR] + f.clientIp, g.detail + [BAR] + g.clientIp;
    var ft, gt := f.target + [BAR] + fd, g.target + [BAR] + gd;
    var fa, ga := f.action + [BAR] + ft, g.action + [BAR] + gt;
    FirstSeparator(BAR, f.actor, fa, g.actor, ga);
    FirstSeparator(BAR, f.action, ft, g.action, gt);
    FirstSeparator(BAR, f.target, fd, g.target, gd);
    FirstSeparator(BAR, f.detail, f.clientIp, g.detail, g.clientIp);
  }

  /** Equal hashed texts have the same previous hash, time and joined fields. */
  lemma PreimageParts(prev: Bytes, f: Fields, prev': Bytes, g: Fields)
    requires BAR !in prev && BAR !in prev' && Preimage(prev, f) == Preimage(prev', g)
    ensures prev == prev' && f.ts == g.ts && Texts(f) == Texts(g)
  {
    hide Texts, Signed;
    var a, b := Signed(f.ts) + [BAR] + Texts(f), Signed(g.ts) + [BAR] + Texts(g);
    FirstSeparator(BAR, prev, a, prev', b);
    SignedPlain(f.ts);
    SignedPlain(g.ts);
    FirstSeparator(BAR, Signed(f.ts), Texts(f), Signed(g.ts), Texts(g));
    SignedInjective(f.ts, g.ts);
  }

  /** Moving a bar from inside a field to its edge changes no hashed text. */
  lemma BarMoves(prev: Bytes, f: Fields) returns (g: Fields)
    requires !NoBars(f)
    ensures g != f && Preimage(prev, g) == Preimage(prev, f)
  {
    if BAR in f.actor {
      var u, v := CutAtBar(f.actor);
      g := f.(actor := u, action := v + [BAR] + f.action);
      assert u + [BAR] + (v + [BAR] + f.action + [BAR] + After(f)) == f.actor + [BAR] + (f.action + [BAR] + After(f));
    } else if BAR in f.action {
      var u, v := CutAtBar(f.action);
      g := f.(action := u, target := v + [BAR] + f.target);
      assert u + [BAR] + (v + [BAR] + f.target + [BAR] + Last(f)) == f.action + [BAR] + (f.target + [BAR] + Last(f));
    } else if BAR in f.target {
      var u, v := CutAtBar(f.target);
      g := f.(target := u, detail := v + [BAR] + f.detail);
      assert u + [BAR] + (v + [BAR] + f.detail + [BAR] + f.clientIp)
          == f.target + [BAR] + (f.detail + [BAR] + f.clientIp);
    } else if BAR in f.detail {
      var u, v := CutAtBar(f.detail);
      g := f.(detail := u, clientIp := v + [BAR] + f.clientIp);
      assert u + [BAR] + (v + [BAR] + f.clientIp) == f.detail + [BAR] + f.clientIp;
    } else {
      var u, v := CutAtBar(f.clientIp);
      g := f.(detail := f.detail + [BAR] + u, clientIp := v);
      assert f.detail + [BAR] + u + [BAR] + v == f.detail + [BAR] + f.clientIp;
    }
  }

  function After(f: Fields): Bytes {
    f.target + [BAR] + Last(f)
  }

  function Last(f: Fields): Bytes {
    f.detail + [BAR] + f.clientIp
  }

  lemma CutAtBar(s: Bytes) returns (u: Bytes, v: Bytes)
    requires BAR in s
    ensures s == u + [BAR] + v && |u| < |s|
  {
    var i :| 0 <= i < |s| && s[i] == BAR;
    u, v := s[..i], s[i + 1..];
  }

  /** The hashed text pins the fields down. */
  ghost predicate Unambiguous(prev: Bytes, f: Fields) {
    forall g :: Preimage(prev, g) == Preimage(prev, f) ==> g == f
  }

  /** A row's hash covers its fields unambiguously exactly when none of its five
      texts contains a bar. */
  lemma UnambiguousExactly(prev: Bytes, f: Fields)
    requires BAR !in prev
    ensures Unambiguous(prev, f) <==> NoBars(f)
  {
    hide Preimage, Texts, NoBars;
    if NoBars(f) {
      forall g | Preimage(prev, g) == Preimage(prev, f) ensures g == f {
        PreimageParts(prev, f, prev, g);
        TextsInjective(f, g);
      }
    } else {
      var g := BarMoves(prev, f);
    }
  }

  // ---- tampering -----------------------------------------------------------

  lemma LastLinked(sha: Sha, rows: seq<Stored>)
    requires Chain(sha, rows) && rows != []
    ensures var n := |rows| - 1;
      && Chain(sha, rows[..n])
      && rows[n].row == MakeAuditRow(sha, LastHash(rows[..n]), rows[n].row.fields)
  {
    hide EntryHash, LastHash;
    var n := |rows| - 1;
    assert Linked(sha, rows, n);
    forall i | 0 <= i < n ensures Linked(sha, rows[..n], i) {
      assert Linked(sha, rows, i);
      assert rows[..n][..i] == rows[..i];
    }
  }

  lemma LastHashPlain(sha: Sha, rows: seq<Stored>)
    requires Chain(sha, rows)
    ensures BAR !in LastHash(rows)
  {
    if rows != [] {
      LastLinked(sha, rows);
    }
  }

  /** The text a row's hash was taken of. */
  function RowText(s: Stored): Bytes {
    Preimage(s.row.prevHash, s.row.fields)
  }

  /** Row by row, the same text was hashed. */
  ghost predicate SameTexts(a: seq<Stored>, b: seq<Stored>) {
    |a| == |b| && forall i :: 0 <= i < |a| ==> RowText(a[i]) == RowText(b[i])
  }

  /** Two rows hold different texts with one digest: a collision of the hash. */
  ghost predicate Collide(sha: Sha, a: seq<Stored>, b: seq<Stored>) {
    exists i, j :: 0 <= i < |a| && 0 <= j < |b| &&
      RowText(a[i]) != RowText(b[j]) && sha(RowText(a[i])) == sha(RowText(b[j]))
  }

  /** Some row's text hashes to all zeros. */
  ghost predicate HoldsGenesis(rows: seq<Stored>) {
    exists i :: 0 <= i < |rows| && rows[i].row.entryHash == Genesis()
  }

  /** What would let two tables share a last hash by accident. */
  ghost predicate HashBroken(sha: Sha, a: seq<Stored>, b: seq<Stored>) {
    Collide(sha, a, b) || HoldsGenesis(a) || HoldsGenesis(b)
  }

  lemma BrokenInPart(sha: Sha, a: seq<Stored>, m: nat, b: seq<Stored>, n: nat)
    requires m <= |a| && n <= |b| && HashBroken(sha, a[..m], b[..n])
    ensures HashBroken(sha, a, b)
  {
    hide RowText, Genesis;
    if HoldsGenesis(a[..m]) {
      var i :| 0 <= i < m && a[..m][i].row.entryHash == Genesis();
      assert a[i].row.entryHash == Genesis();
    } else if HoldsGenesis(b[..n]) {
      var i :| 0 <= i < n && b[..n][i].row.entryHash == Genesis();
      assert b[i].row.entryHash == Genesis();
    } else {
      var i, j :| 0 <= i < m && 0 <= j < n && RowText(a[..m][i]) != RowText(b[..n][j]) &&
        sha(RowText(a[..m][i])) == sha(RowText(b[..n][j]));
      assert RowText(a[i]) != RowText(b[j]) && sha(RowText(a[i])) == sha(RowText(b[j]));
    }
  }

  /** Whatever the hash: two chains that end in the same hash have the same
      length and hashed the same text in every row, unless their own rows show a
      collision of the hash, or a hash that is genesis. */
  lemma {:induction false} LastHashPinsTexts(sha: Sha, a: seq<Stored>, b: seq<Stored>)
    requires Chain(sha, a) && Chain(sha, b) && LastHash(a) == LastHash(b)
    ensures SameTexts(a, b) || HashBroken(sha, a, b)
    decreases |a|
  {
    hide Chain, Preimage, Genesis, LastHash, HashBroken;
    EmptyOrHash(a, b);
    if a == [] {
    } else if b != [] {
      var m, n := |a| - 1, |b| - 1;
      LastLinked(sha, a);
      LastLinked(sha, b);
      LastHashIsLast(a);
      LastHashIsLast(b);
      HexInjective(sha(RowText(a[m])), sha(RowText(b[n])));
      if RowText(a[m]) != RowText(b[n]) {
        CollisionFound(sha, a, b, m, n);
      } else {
        LastHashPlain(sha, a[..m]);
        LastHashPlain(sha, b[..n]);
        PreimageParts(a[m].row.prevHash, a[m].row.fields, b[n].row.prevHash, b[n].row.fields);
        LastHashPinsTexts(sha, a[..m], b[..n]);
        if HashBroken(sha, a[..m], b[..n]) {
          BrokenInPart(sha, a, m, b, n);
        } else {
          SameTextsGrow(a, b);
        }
      }
    }
  }

  lemma CollisionFound(sha: Sha, a: seq<Stored>, b: seq<Stored>, i: nat, j: nat)
    requires i < |a| && j < |b| && RowText(a[i]) != RowText(b[j]) && sha(RowText(a[i])) == sha(RowText(b[j]))
    ensures HashBroken(sha, a, b)
  {
    hide RowText;
    assert Collide(sha, a, b);
  }

  lemma LastHashIsLast(rows: seq<Stored>)
    requires rows != []
    ensures LastHash(rows) == rows[|rows| - 1].row.entryHash
  {
  }

  /** An empty table ends in genesis, so the other is empty too or holds it. */
  lemma EmptyOrHash(a: seq<Stored>, b: seq<Stored>)
    requires LastHash(a) == LastHash(b)
    ensures a == [] && b != [] ==> HoldsGenesis(b)
    ensures b == [] && a != [] ==> HoldsGenesis(a)
    ensures forall sha: Sha :: HoldsGenesis(a) || HoldsGenesis(b) ==> HashBroken(sha, a, b)
  {
    hide Genesis;
  }

  lemma SameTextsGrow(a: seq<Stored>, b: seq<Stored>)
    requires a != [] && b != [] && SameTexts(a[..|a| - 1], b[..|b| - 1])
    requires RowText(a[|a| - 1]) == RowText(b[|b| - 1])
    ensures SameTexts(a, b)
  {
    hide RowText;
    var m := |a| - 1;
    assert |a[..m]| == m && |b[..|b| - 1]| == |b| - 1;
    forall i | 0 <= i < |a| ensures RowText(a[i]) == RowText(b[i]) {
      if i < m {
        assert a[..m][i] == a[i] && b[..m][i] == b[i];
      }
    }
  }

  /** If, besides, the fields of one of the chains contain no bar, then the two
      have identical rows: short of a collision or a genesis hash among these very
      rows, an altered, dropped, inserted or reordered row anywhere shows in the
      last hash. Only the verifier column is not covered. */
  lemma LastHashPinsRows(sha: Sha, a: seq<Stored>, b: seq<Stored>)
    requires Chain(sha, a) && Chain(sha, b) && LastHash(a) == LastHash(b)
    requires forall i :: 0 <= i < |a| ==> NoBars(a[i].row.fields)
    ensures (|a| == |b| && forall i :: 0 <= i < |a| ==> a[i].row == b[i].row) || HashBroken(sha, a, b)
  {
    hide Preimage, Texts, NoBars, LastHash, HashBroken;
    LastHashPinsTexts(sha, a, b);
    if !HashBroken(sha, a, b) {
      forall i | 0 <= i < |a| ensures a[i].row == b[i].row {
        SameRow(sha, a, b, i);
      }
    }
  }

  lemma SameRow(sha: Sha, a: seq<Stored>, b: seq<Stored>, i: nat)
    requires Chain(sha, a) && Chain(sha, b) && i < |a| && i < |b|
    requires RowText(a[i]) == RowText(b[i]) && NoBars(a[i].row.fields)
    ensures a[i].row == b[i].row
  {
    hide Preimage, Texts, NoBars, LastHash;
    assert Linked(sha, a, i) && Linked(sha, b, i);
    PrefixChain(sha, a, i);
    PrefixChain(sha, b, i);
    LastHashPlain(sha, a[..i]);
    LastHashPlain(sha, b[..i]);
    PreimageParts(a[i].row.prevHash, a[i].row.fields, b[i].row.prevHash, b[i].row.fields);
    TextsInjective(a[i].row.fields, b[i].row.fields);
  }

  lemma PrefixChain(sha: Sha, rows: seq<Stored>, n: nat)
    requires Chain(sha, rows) && n <= |rows|
    ensures Chain(sha, rows[..n])
  {
    hide EntryHash, LastHash;
    forall i | 0 <= i < n ensures Linked(sha, rows[..n], i) {
      assert Linked(sha, rows, i);
      assert rows[..n][..i] == rows[..i];
    }
  }

  /** The verifier column can be changed without a trace. */
  lemma VerifierUncovered(sha: Sha, rows: seq<Stored>, i: nat, verifier: Bytes)
    requires Chain(sha, rows) && i < |rows|
    ensures var forged := rows[i := rows[i].(verifier := verifier)];
      Chain(sha, forged) && LastHash(forged) == LastHash(rows)
  {
    hide EntryHash;
    var forged := rows[i := rows[i].(verifier := verifier)];
    forall j | 0 <= j < |rows| ensures Linked(sha, forged, j) {
      assert Linked(sha, rows, j);
      assert forged[..j] == if j <= i then rows[..j] else rows[..j][i := forged[i]];
    }
  }
}
