/** The texts of the audit log read back: what is hashed, and what a hash looks
    like. */
module AuditText {
  import opened Octets
  import opened Text
  import opened Audit
  import opened AuditChain

  /** The number a signed decimal text stands for. */
  function NumberText(s: Bytes): int {
    if s != [] && s[0] == 45 then -NumberOf(s[1..]) else NumberOf(s)
  }

  lemma SignedReads(n: int)
    ensures NumberText(Signed(n)) == n
    ensures 124 !in Signed(n)
  {
    hide Decimal, NumberOf;
    SignOf(n);
    SignedPlain(n);
    NumberOfDecimal(if n < 0 then -n else n);
    if n < 0 {
      assert Signed(n)[1..] == Decimal(-n);
    }
  }

  /** When no text holds a bar, the hashed text splits at its bars into the
      previous hash, the time as a decimal number, and the five texts in the order
      actor, action, target, detail, client address. */
  lemma HashedPieces(prev: Bytes, f: Fields) returns (time: Bytes)
    requires NoBars(f) && 124 !in prev
    ensures Pieces(Preimage(prev, f)) == [prev, time, f.actor, f.action, f.target, f.detail, f.clientIp]
    ensures NumberText(time) == f.ts
  {
    hide Pieces, Signed;
    time := Signed(f.ts);
    SignedReads(f.ts);
    var d := f.detail + [124] + f.clientIp;
    var c := f.target + [124] + d;
    var b := f.action + [124] + c;
    var a := f.actor + [124] + b;
    assert Preimage(prev, f) == prev + [124] + (time + [124] + a);
    PieceFirst(prev, time + [124] + a);
    PieceFirst(time, a);
    PieceFirst(f.actor, b);
    PieceFirst(f.action, c);
    PieceFirst(f.target, d);
    PieceFirst(f.detail, f.clientIp);
    PieceAlone(f.clientIp);
  }

  /** The value of a lower-case hexadecimal digit. */
  function HexValue(b: byte): int {
    if 48 <= b <= 57 then b - 48 else if 97 <= b <= 102 then b - 87 else -1
  }

  /** Each byte is written as its two digits, the higher first. */
  lemma {:induction false} HexReads(s: Bytes, i: nat)
    requires i < |s|
    ensures |Hex(s)| == 2 * |s|
    ensures 0 <= HexValue(Hex(s)[2 * i]) < 16 && 0 <= HexValue(Hex(s)[2 * i + 1]) < 16
    ensures s[i] == 16 * HexValue(Hex(s)[2 * i]) + HexValue(Hex(s)[2 * i + 1])
  {
    hide Hex;
    HexLast(s);
    var m := |s| - 1;
    if i < m {
      HexReads(s[..m], i);
      assert Hex(s)[2 * i] == Hex(s)[..2 * m][2 * i] && Hex(s)[2 * i + 1] == Hex(s)[..2 * m][2 * i + 1];
    } else {
      assert s[m] == s[m] / 16 * 16 + s[m] % 16;
    }
  }

  /** The chain starts from sixty-four zeros, and every later hash is the digest of
      the hashed text in hexadecimal. */
  lemma ChainHashes(sha: Sha, rows: seq<Stored>, i: nat, k: nat)
    requires Chain(sha, rows) && i < |rows| && k < 32
    ensures |rows[0].row.prevHash| == 64 && forall j :: 0 <= j < 64 ==> rows[0].row.prevHash[j] == 48
    ensures i > 0 ==> rows[i].row.prevHash == rows[i - 1].row.entryHash
    ensures var r := rows[i].row;
      && |r.entryHash| == 64
      && sha(Preimage(r.prevHash, r.fields))[k] == 16 * HexValue(r.entryHash[2 * k]) + HexValue(r.entryHash[2 * k + 1])
  {
    hide Hex, HexValue;
    assert Linked(sha, rows, 0) && Linked(sha, rows, i);
    HexReads(sha(Preimage(rows[i].row.prevHash, rows[i].row.fields)), k);
  }

  // ---- the rows of a run ---------------------------------------------------

  /** What the table took of one event. */
  function TakenOf(e: Event): seq<Fields> {
    match e
    case Write(f, Inserted) => [f]
    case Write(f, Unreported) => [f]
    case _ => []
  }

  /** The fields of the inserts that were carried out, reported or not, in order. */
  function Taken(es: seq<Event>): seq<Fields> {
    if es == [] then [] else TakenOf(es[0]) + Taken(es[1..])
  }

  /** The rows hold these fields, and that verifier. */
  predicate Hold(rows: seq<Stored>, fs: seq<Fields>, verifier: Bytes) {
    |rows| == |fs| && forall i :: 0 <= i < |rows| ==> rows[i].row.fields == fs[i] && rows[i].verifier == verifier
  }

  lemma DoTaken(sha: Sha, verifier: Bytes, l: Log, e: Event) returns (added: seq<Stored>)
    ensures Do(sha, verifier, l, e).rows == l.rows + added && Hold(added, TakenOf(e), verifier)
  {
    hide EntryHash;
    added := [];
    if e.Write? && (e.outcome.Inserted? || e.outcome.Unreported?) {
      added := [Stored(MakeAuditRow(sha, l.prev, e.f), verifier)];
    }
  }

  lemma HoldMore(a: seq<Stored>, fs: seq<Fields>, b: seq<Stored>, gs: seq<Fields>, verifier: Bytes)
    requires Hold(a, fs, verifier) && Hold(b, gs, verifier)
    ensures Hold(a + b, fs + gs, verifier)
  {
  }

  /** Over any run the table holds what it held and then a row for every insert
      that was carried out, with the fields as they were given and the writer's
      verifier; nothing else. */
  lemma {:induction false} RowsAreTaken(sha: Sha, verifier: Bytes, l: Log, es: seq<Event>)
    returns (added: seq<Stored>)
    ensures Run(sha, verifier, l, es).rows == l.rows + added && Hold(added, Taken(es), verifier)
    decreases |es|
  {
    hide Do, TakenOf, Hold;
    added := [];
    if es == [] {
      NothingHeld(verifier);
    } else {
      var first := DoTaken(sha, verifier, l, es[0]);
      var rest := RowsAreTaken(sha, verifier, Do(sha, verifier, l, es[0]), es[1..]);
      added := first + rest;
      assert (l.rows + first) + rest == l.rows + added;
      HoldMore(first, TakenOf(es[0]), rest, Taken(es[1..]), verifier);
    }
  }

  lemma NothingHeld(verifier: Bytes)
    ensures Hold([], [], verifier)
  {
  }
}
