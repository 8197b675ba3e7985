/** The audit log: rows chained by hashes, written by one writer at a time. */
module Audit {
  import opened Octets
  import opened Text

  const BAR: byte := 124

  type Digest = s: Bytes | |s| == 32 witness seq(32, i => 0)

  /** SHA-256. Nothing is assumed of it but the length of its digests. */
  type Sha = Bytes -> Digest

  datatype Fields = Fields(
    ts: i64, actor: Bytes, action: Bytes, target: Bytes, detail: Bytes, clientIp: Bytes)

  datatype AuditRow = AuditRow(fields: Fields, prevHash: Bytes, entryHash: Bytes)

  /** A row of the table. */
  datatype Stored = Stored(row: AuditRow, verifier: Bytes)

  // ---- hashes --------------------------------------------------------------

  method HexEncode(s: Bytes) returns (r: Bytes)
    ensures r == Hex(s)
  {
    r := [];
    for i := 0 to |s|
      invariant r == Hex(s[..i])
    {
      assert s[..i + 1][..i] == s[..i];
      r := r + [HexDigit(s[i] / 16), HexDigit(s[i] % 16)];
    }
    assert s[..|s|] == s;
  }

  /** Sixty-four zeros. */
  function Genesis(): (g: Bytes)
    ensures |g| == 64 && BAR !in g
  {
    seq(64, i => 48)
  }

  function Texts(f: Fields): Bytes {
    f.actor + [BAR] + (f.action + [BAR] + (f.target + [BAR] + (f.detail + [BAR] + f.clientIp)))
  }

  /** The text that is hashed. */
  function Preimage(prev: Bytes, f: Fields): Bytes {
    prev + [BAR] + (Signed(f.ts) + [BAR] + Texts(f))
  }

  function EntryHash(sha: Sha, prev: Bytes, f: Fields): Bytes {
    Hex(sha(Preimage(prev, f)))
  }

  method ComputeHash(sha: Sha, prev: Bytes, f: Fields) returns (hash: Bytes)
    ensures hash == EntryHash(sha, prev, f)
  {
    var h := prev;
    h := h + [BAR];
    h := h + Signed(f.ts);
    h := h + [BAR];
    h := h + f.actor;
    h := h + [BAR];
    h := h + f.action;
    h := h + [BAR];
    h := h + f.target;
    h := h + [BAR];
    h := h + f.detail;
    h := h + [BAR];
    h := h + f.clientIp;
    assert h == Preimage(prev, f);
    hash := HexEncode(sha(h));
  }

  function MakeAuditRow(sha: Sha, prev: Bytes, f: Fields): AuditRow {
    AuditRow(f, prev, EntryHash(sha, prev, f))
  }

  // ---- the writer ----------------------------------------------------------

  /** What becomes of one insert. `Unreported` is one the table took although the
      writer was told that it failed. */
  datatype Outcome = Unavailable | Failed | Inserted | Unreported

  /** The table, and the hash the writer will chain to. */
  datatype Log = Log(rows: seq<Stored>, prev: Bytes)

  function LastHash(rows: seq<Stored>): Bytes {
    if rows == [] then Genesis() else rows[|rows| - 1].row.entryHash
  }

  /** A new process: the last hash is read back, or taken as genesis when the
      read fails. */
  function Start(rows: seq<Stored>, read: bool): Log {
    Log(rows, if read then LastHash(rows) else Genesis())
  }

  function Recorded(sha: Sha, l: Log, f: Fields, verifier: Bytes, outcome: Outcome): Log {
    var row := MakeAuditRow(sha, l.prev, f);
    match outcome
    case Unavailable => l
    case Failed => l
    case Inserted => Log(l.rows + [Stored(row, verifier)], row.entryHash)
    case Unreported => l.(rows := l.rows + [Stored(row, verifier)])
  }

  class AuditTable {
    var rows: seq<Stored>

    constructor ()
      ensures rows == []
    {
      rows := [];
    }

    method LastEntryHash() returns (hash: Bytes)
      ensures hash == LastHash(rows)
    {
      if rows == [] {
        return Genesis();
      }
      hash := rows[|rows| - 1].row.entryHash;
    }
  }

  class AuditWriter {
    const store: AuditTable
    const sha: Sha
    const verifier: Bytes
    var prevHash: Bytes

    function View(): Log
      reads this, store
    {
      Log(store.rows, prevHash)
    }

    constructor (store: AuditTable, sha: Sha, verifier: Bytes, read: bool)
      ensures this.store == store && this.sha == sha && this.verifier == verifier
      ensures View() == Start(store.rows, read)
    {
      var hash := Genesis();
      if read {
        hash := store.LastEntryHash();
      }
      this.store, this.sha, this.verifier, this.prevHash := store, sha, verifier, hash;
    }

    method Record(f: Fields, outcome: Outcome)
      modifies this`prevHash, store`rows
      ensures View() == Recorded(sha, old(View()), f, verifier, outcome)
    {
      if outcome.Unavailable? {
        return;
      }
      var entryHash := ComputeHash(sha, prevHash, f);
      if outcome.Inserted? || outcome.Unreported? {
        store.rows := store.rows + [Stored(AuditRow(f, prevHash, entryHash), verifier)];
      }
      if outcome.Inserted? {
        prevHash := entryHash;
      }
    }
  }
}
