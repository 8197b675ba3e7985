/** The L2 log: one record's bytes, reading a record at an offset, and scanning. */
module L2Log {
  import opened Octets
  import opened Results
  import opened Slices

  type Key = Bytes

  const MAGIC: byte := 0xA5

  /** magic, key length, value length, expiry, checksum */
  const HEADER_LEN: nat := 21

  datatype Rec = Rec(key: Key, val: Bytes, expireAt: i64)

  // ---- the checksum --------------------------------------------------------

  const FNV_PRIME: int := 0x100_0000_01b3

  function WrapU64(n: int): u64 {
    n % 0x1_0000_0000_0000_0000
  }

  function FnvStep(h: u64, b: byte): u64 {
    WrapU64(XorLow(h, b) * FNV_PRIME)
  }

  function FnvFrom(h: u64, data: Bytes): u64
    decreases |data|
  {
    if data == [] then h else FnvFrom(FnvStep(h, data[0]), data[1..])
  }

  function Fnv64(data: Bytes): u64 {
    FnvFrom(0xcbf2_9ce4_8422_2325, data)
  }

  method ComputeFnv64(data: Bytes) returns (h: u64)
    ensures h == Fnv64(data)
  {
    hide FnvStep;
    h := 0xcbf2_9ce4_8422_2325;
    for i := 0 to |data|
      invariant FnvFrom(h, data[i..]) == Fnv64(data)
    {
      assert data[i..][0] == data[i] && data[i..][1..] == data[i + 1..];
      h := FnvStep(h, data[i]);
    }
  }

  /** The checksum covers key, value and expiry, but not the lengths. */
  function Crc(body: Bytes, expireAt: i64): u32 {
    Fnv64(body + LeI64(expireAt)) % 0x1_0000_0000
  }

  // ---- one record ----------------------------------------------------------

  function Len32(s: Bytes): u32 {
    |s| % 0x1_0000_0000
  }

  function Header(klen: u32, vlen: u32, expireAt: i64, crc: u32): (h: Bytes)
    ensures |h| == HEADER_LEN
  {
    [MAGIC] + (Le32(klen) + (Le32(vlen) + (LeI64(expireAt) + Le32(crc))))
  }

  function RecBytes(r: Rec): Bytes {
    Header(Len32(r.key), Len32(r.val), r.expireAt, Crc(r.key + r.val, r.expireAt)) + (r.key + r.val)
  }

  predicate Fits(r: Rec) {
    |r.key| < 0x1_0000_0000 && |r.val| < 0x1_0000_0000
  }

  function RecSize(r: Rec): nat {
    HEADER_LEN + |r.key| + |r.val|
  }

  function KeyLenAt(log: Bytes, off: nat): u32
    requires off + HEADER_LEN <= |log|
  {
    FromLe32(log[off + 1..off + 5])
  }

  function ValLenAt(log: Bytes, off: nat): u32
    requires off + HEADER_LEN <= |log|
  {
    FromLe32(log[off + 5..off + 9])
  }

  /** `read_record`: None at the end, at a torn or damaged record. */
  function RecAt(log: Bytes, off: nat): Option<Rec> {
    if off + HEADER_LEN > |log| || log[off] != MAGIC then None
    else
      var klen, vlen := KeyLenAt(log, off), ValLenAt(log, off);
      var start := off + HEADER_LEN;
      if start + klen + vlen > |log| then None
      else
        var body := log[start..start + klen + vlen];
        var expireAt := FromLeI64(log[off + 9..off + 17]);
        if Crc(body, expireAt) != FromLe32(log[off + 17..off + 21]) then None
        else Some(Rec(body[..klen], body[klen..], expireAt))
  }

  /** What `get` returns from an offset: magic and lengths are looked at, key and
      checksum are not. */
  function ValueAt(log: Bytes, off: nat): Option<Bytes> {
    if off + HEADER_LEN > |log| || log[off] != MAGIC then None
    else
      var klen, vlen := KeyLenAt(log, off), ValLenAt(log, off);
      var start := off + HEADER_LEN;
      if start + klen + vlen > |log| then None else Some(log[start + klen..start + klen + vlen])
  }

  lemma ValueOfRecord(log: Bytes, off: nat)
    requires RecAt(log, off).Some?
    ensures ValueAt(log, off) == Some(RecAt(log, off).value.val)
    ensures off + RecSize(RecAt(log, off).value) <= |log| && Fits(RecAt(log, off).value)
  {
  }

  // ---- writing, then reading -----------------------------------------------

  lemma HeaderFields(log: Bytes, off: nat, klen: u32, vlen: u32, expireAt: i64, crc: u32)
    requires StandsAt(log, off, Header(klen, vlen, expireAt, crc))
    ensures off + HEADER_LEN <= |log| && log[off] == MAGIC
    ensures KeyLenAt(log, off) == klen && ValLenAt(log, off) == vlen
    ensures FromLeI64(log[off + 9..off + 17]) == expireAt && FromLe32(log[off + 17..off + 21]) == crc
  {
    hide StandsAt, FromLe32, FromLeI64, Le32, LeI64;
    var a, b, c, d := Le32(klen), Le32(vlen), LeI64(expireAt), Le32(crc);
    var m: Bytes := [MAGIC];
    StandsAtSplit(log, off, m, a + (b + (c + d)));
    StandsAtSplit(log, off + 1, a, b + (c + d));
    StandsAtSplit(log, off + 5, b, c + d);
    StandsAtSplit(log, off + 9, c, d);
    StandsAtSlice(log, off, m);
    StandsAtSlice(log, off + 1, a);
    StandsAtSlice(log, off + 5, b);
    StandsAtSlice(log, off + 9, c);
    StandsAtSlice(log, off + 17, d);
    assert log[off..off + 1][0] == log[off];
    StandsAtFits(log, off + 17, d);
  }

  /** A record that was written in full reads back, wherever it stands. */
  lemma RecordReads(log: Bytes, off: nat, r: Rec)
    requires Fits(r) && StandsAt(log, off, RecBytes(r))
    ensures RecAt(log, off) == Some(r)
  {
    hide StandsAt, FromLe32, FromLeI64, Crc, Header, KeyLenAt, ValLenAt;
    var body := r.key + r.val;
    var h := Header(Len32(r.key), Len32(r.val), r.expireAt, Crc(body, r.expireAt));
    StandsAtSplit(log, off, h, body);
    HeaderFields(log, off, Len32(r.key), Len32(r.val), r.expireAt, Crc(body, r.expireAt));
    StandsAtSlice(log, off + HEADER_LEN, body);
    StandsAtFits(log, off + HEADER_LEN, body);
  }

  lemma Le16Back(s: Bytes)
    requires |s| == 2
    ensures Le16(FromLe16(s)) == s
  {
  }

  lemma LeBack(s: Bytes)
    requires |s| == 4
    ensures Le32(FromLe32(s)) == s
  {
    hide FromLe16, Le16;
    Le16Back(s[..2]);
    Le16Back(s[2..]);
  }

  lemma LeI64Back(s: Bytes)
    requires |s| == 8
    ensures LeI64(FromLeI64(s)) == s
  {
    hide FromLe32, Le32;
    LeBack(s[..4]);
    LeBack(s[4..]);
  }

  lemma Cut(s: Bytes, i: nat, j: nat, k: nat)
    requires i <= j <= k <= |s|
    ensures s[i..k] == s[i..j] + s[j..k]
  {
  }

  /** What is read at an offset is exactly what stands there: reading accepts
      nothing but complete records. */
  lemma RecordStands(log: Bytes, off: nat)
    requires RecAt(log, off).Some?
    ensures var r := RecAt(log, off).value;
      && off + RecSize(r) <= |log|
      && log[off..off + RecSize(r)] == RecBytes(r)
      && StandsAt(log, off, RecBytes(r))
  {
    hide FromLe32, FromLeI64, Le32, LeI64, Crc;
    var r := RecAt(log, off).value;
    var n := RecSize(r);
    var s := log[off..off + n];
    LeBack(log[off + 1..off + 5]);
    LeBack(log[off + 5..off + 9]);
    LeI64Back(log[off + 9..off + 17]);
    LeBack(log[off + 17..off + 21]);
    var body := log[off + 21..off + n];
    assert r.key + r.val == body;
    assert log[off..off + 1] == [MAGIC];
    Cut(log, off, off + HEADER_LEN, off + n);
    Cut(log, off, off + 1, off + HEADER_LEN);
    Cut(log, off + 1, off + 5, off + HEADER_LEN);
    Cut(log, off + 5, off + 9, off + HEADER_LEN);
    Cut(log, off + 9, off + 17, off + HEADER_LEN);
    assert s == RecBytes(r);
    assert StandsAt(log, off, s);
  }

  lemma RecordGrows(log: Bytes, more: Bytes, off: nat)
    requires RecAt(log, off).Some? && log <= more
    ensures RecAt(more, off) == RecAt(log, off)
  {
    hide RecBytes, StandsAt, RecAt;
    RecordStands(log, off);
    var r := RecAt(log, off).value;
    StandsAtGrows(log, more, off, RecBytes(r));
    RecordFits(log, off);
    RecordReads(more, off, r);
  }

  lemma RecordFits(log: Bytes, off: nat)
    requires RecAt(log, off).Some?
    ensures Fits(RecAt(log, off).value)
  {
  }

  lemma RecBytesSize(r: Rec)
    ensures |RecBytes(r)| == RecSize(r)
  {
  }

  /** A strict prefix of a record, as a crash leaves it, is no record. */
  lemma TornIsNoRecord(log: Bytes, torn: Bytes, r: Rec)
    requires Fits(r) && torn < RecBytes(r)
    ensures RecAt(log + torn, |log|) == None
  {
    hide Crc, Header, KeyLenAt, ValLenAt, FromLe32, FromLeI64;
    var all, off := log + torn, |log|;
    if |torn| >= HEADER_LEN {
      var body := r.key + r.val;
      var h := Header(Len32(r.key), Len32(r.val), r.expireAt, Crc(body, r.expireAt));
      assert RecBytes(r) == h + body;
      assert forall i :: 0 <= i < HEADER_LEN ==> all[off + i] == torn[i] == RecBytes(r)[i] == h[i];
      HeaderFields(all, off, Len32(r.key), Len32(r.val), r.expireAt, Crc(body, r.expireAt));
    }
  }
}
