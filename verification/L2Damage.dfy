/** The record format byte by byte, and what the checksum catches: a record with
    one byte changed, lengths aside, is never read as a record. */
module L2Damage {
  import opened Octets
  import opened Results
  import opened L2Log

  const TWO32: int := 4294967296

  // ---- the format ----------------------------------------------------------

  /** Four bytes, the lowest first. */
  predicate IsLe32(s: Bytes, at: nat, v: int) {
    && at + 4 <= |s|
    && v == s[at] + 256 * (s[at + 1] as int) + 65536 * (s[at + 2] as int) + 16777216 * (s[at + 3] as int)
  }

  /** Eight bytes, the lowest first, the highest bit for the sign. */
  ghost predicate IsLeI64(s: Bytes, at: nat, v: int) {
    exists lo, hi :: HalvesAre(s, at, lo, hi) && v == Joined(lo, hi)
  }

  function Joined(lo: int, hi: int): int {
    lo + 4294967296 * (if hi >= 2147483648 then hi - 4294967296 else hi)
  }

  predicate HalvesAre(s: Bytes, at: nat, lo: int, hi: int) {
    IsLe32(s, at, lo) && IsLe32(s, at + 4, hi)
  }

  lemma Le32Bytes(v: u32)
    ensures IsLe32(Le32(v), 0, v)
  {
  }

  lemma LeI64Bytes(v: i64)
    ensures IsLeI64(LeI64(v), 0, v)
  {
    var u: int := if v < 0 then v + 0x1_0000_0000_0000_0000 else v;
    var lo, hi := u % 0x1_0000_0000, u / 0x1_0000_0000;
    Le32Bytes(lo);
    Le32Bytes(hi);
    var s := LeI64(v);
    assert s == Le32(lo) + Le32(hi);
    Le32Moved(s, 0, Le32(lo), lo);
    Le32Moved(s, 4, Le32(hi), hi);
    assert HalvesAre(s, 0, lo, hi);
  }

  lemma Le32Moved(s: Bytes, at: nat, w: Bytes, v: int)
    requires |w| == 4 && IsLe32(w, 0, v) && at + 4 <= |s| && s[at..at + 4] == w
    ensures IsLe32(s, at, v)
  {
    assert s[at] == w[0] && s[at + 1] == w[1] && s[at + 2] == w[2] && s[at + 3] == w[3];
  }

  lemma LeI64Moved(s: Bytes, at: nat, w: Bytes, v: int)
    requires |w| == 8 && IsLeI64(w, 0, v) && at + 8 <= |s| && s[at..at + 8] == w
    ensures IsLeI64(s, at, v)
  {
    var lo, hi :| HalvesAre(w, 0, lo, hi) && v == Joined(lo, hi);
    assert s[at..at + 4] == w[..4] && s[at + 4..at + 8] == w[4..];
    Le32Moved(s, at, w[..4], lo);
    Le32Moved(s, at + 4, w[4..], hi);
    assert HalvesAre(s, at, lo, hi);
  }

  /** A record in the file: 0xA5, both lengths, the expiry, the low half of the
      hash of key, value and expiry bytes, then key and value. */
  lemma RecordLayout(r: Rec)
    requires Fits(r)
    ensures var s, k := RecBytes(r), |r.key|;
      && |s| == 21 + k + |r.val| && s[0] == 165
      && IsLe32(s, 1, k) && IsLe32(s, 5, |r.val|) && IsLeI64(s, 9, r.expireAt)
      && IsLe32(s, 17, Fnv64(r.key + r.val + s[9..17]) % TWO32)
      && s[21..21 + k] == r.key && s[21 + k..] == r.val
  {
    hide Le32, LeI64, Fnv64, IsLe32, IsLeI64, RecBytes, Crc;
    var k, sum := |r.key|, Crc(r.key + r.val, r.expireAt);
    var a, b, c, d := Le32(Len32(r.key)), Le32(Len32(r.val)), LeI64(r.expireAt), Le32(sum);
    var s := RecBytes(r);
    FieldsStand(r, a, b, c, d);
    SumOf(r.key + r.val, r.expireAt, s[9..17]);
    Le32Bytes(Len32(r.key));
    Le32Bytes(Len32(r.val));
    Le32Bytes(sum);
    LeI64Bytes(r.expireAt);
    Le32Moved(s, 1, a, k);
    Le32Moved(s, 5, b, |r.val|);
    LeI64Moved(s, 9, c, r.expireAt);
    Le32Moved(s, 17, d, sum);
  }

  lemma SumOf(body: Bytes, expireAt: i64, expiry: Bytes)
    requires expiry == LeI64(expireAt)
    ensures Crc(body, expireAt) == Fnv64(body + expiry) % TWO32
  {
    hide Fnv64, LeI64;
  }

  lemma FieldsStand(r: Rec, a: Bytes, b: Bytes, c: Bytes, d: Bytes)
    requires a == Le32(Len32(r.key)) && b == Le32(Len32(r.val)) && c == LeI64(r.expireAt)
    requires d == Le32(Crc(r.key + r.val, r.expireAt))
    ensures var s, k := RecBytes(r), |r.key|;
      && |s| == 21 + k + |r.val| && s[0] == 165
      && s[1..5] == a && s[5..9] == b && s[9..17] == c && s[17..21] == d
      && s[21..21 + k] == r.key && s[21 + k..] == r.val
  {
    hide Le32, LeI64, Crc;
    var head, body := [165] + (a + (b + (c + d))), r.key + r.val;
    assert RecBytes(r) == head + body;
    HeadParts(a, b, c, d);
    HeadOf(head, body, 1, 5);
    HeadOf(head, body, 5, 9);
    HeadOf(head, body, 9, 17);
    HeadOf(head, body, 17, 21);
    BodyOf(head, r.key, r.val);
  }

  lemma HeadParts(a: Bytes, b: Bytes, c: Bytes, d: Bytes)
    requires |a| == 4 && |b| == 4 && |c| == 8 && |d| == 4
    ensures var head := [165] + (a + (b + (c + d)));
      |head| == 21 && head[1..5] == a && head[5..9] == b && head[9..17] == c && head[17..21] == d
  {
    var cd := c + d;
    var bcd := b + cd;
    var abcd := a + bcd;
    var head := [165] + abcd;
    assert head[1..] == abcd && head[5..] == bcd && head[9..] == cd;
    assert head[1..5] == abcd[..4] == a && head[5..9] == bcd[..4] == b;
    assert head[9..17] == cd[..8] == c && head[17..21] == cd[8..12] == d;
  }

  lemma BodyOf(head: Bytes, key: Bytes, val: Bytes)
    requires |head| == 21
    ensures var s := head + (key + val); s[21..21 + |key|] == key && s[21 + |key|..] == val
  {
  }

  lemma HeadOf(head: Bytes, body: Bytes, i: nat, j: nat)
    requires i <= j <= |head|
    ensures (head + body)[i..j] == head[i..j]
  {
  }

  // ---- the hash ------------------------------------------------------------

  lemma {:induction false} FnvFromSnoc(h: u64, data: Bytes, b: byte)
    ensures FnvFrom(h, data + [b]) == FnvStep(FnvFrom(h, data), b)
    decreases |data|
  {
    hide FnvStep;
    if data == [] {
      assert (data + [b])[1..] == [];
      assert FnvFrom(FnvStep(h, b), []) == FnvStep(h, b);
    } else {
      assert (data + [b])[1..] == data[1..] + [b];
      FnvFromSnoc(FnvStep(h, data[0]), data[1..], b);
    }
  }

  /** 64-bit FNV-1a: the offset basis for no data, and for one byte more that byte
      exclusive-or'ed in and the whole multiplied by the prime. */
  lemma Fnv64Laws(data: Bytes, b: byte)
    ensures Fnv64([]) == 14695981039346656037
    ensures Fnv64(data + [b]) == XorLow(Fnv64(data), b) * 1099511628211 % 18446744073709551616
  {
    hide XorLow;
    FnvFromSnoc(0xcbf2_9ce4_8422_2325, data, b);
  }

  /** Binary digits of a number in two parts. */
  lemma {:induction false} DigitsInParts(q: nat, r: nat, k: nat, i: nat)
    requires r < Pow2(k)
    ensures BitAt(q * Pow2(k) + r, i) == if i < k then BitAt(r, i) else BitAt(q, i - k)
    decreases k
  {
    if k == 0 {
      assert q * Pow2(k) + r == q;
    } else {
      var x := q * Pow2(k - 1);
      assert q * Pow2(k) == 2 * x;
      assert (2 * x + r) / 2 == x + r / 2 && (2 * x + r) % 2 == r % 2;
      if i > 0 {
        DigitsInParts(q, r / 2, k - 1, i - 1);
      }
    }
  }

  lemma EightDigits()
    ensures Pow2(ByteBits()) == 256 && ByteBits() == 8
  {
    assert Pow2(8) == 256;
  }

  lemma {:induction false} NoDigits(i: nat)
    ensures BitAt(0, i) == 0
  {
    if i > 0 {
      NoDigits(i - 1);
    }
  }

  /** What the hashes do with a byte: every binary digit of the result is one
      exactly when those of the hash and the byte differ. */
  lemma XorLowBitwise(h: nat, b: byte, i: nat)
    ensures BitAt(XorLow(h, b), i) == (if BitAt(h, i) == BitAt(b, i) then 0 else 1)
  {
    hide XorBits, BitAt, Pow2, ByteBits;
    var q, low := h / 0x100, h % 0x100;
    EightDigits();
    DigitsInParts(q, Xor8(low, b), ByteBits(), i);
    DigitsInParts(q, low, ByteBits(), i);
    DigitsInParts(0, b, ByteBits(), i);
    if i < 8 {
      XorBitwise(low, b, ByteBits(), i);
    } else {
      NoDigits(i - 8);
      BitIsDigit(q, i - 8);
    }
  }

  // ---- exclusive or loses nothing ------------------------------------------

  lemma {:induction false} XorBitsInjective(a: nat, a': nat, b: nat, b': nat, bits: nat)
    requires a < Pow2(bits) && a' < Pow2(bits) && b < Pow2(bits) && b' < Pow2(bits)
    requires XorBits(a, b, bits) == XorBits(a', b', bits)
    ensures a == a' <==> b == b'
    decreases bits
  {
    hide XorBits;
    if bits == 0 {
    } else {
      XorStep(a, b, bits);
      XorStep(a', b', bits);
      ParityTold(a, a', b, b');
      XorBitsInjective(a / 2, a' / 2, b / 2, b' / 2, bits - 1);
    }
  }

  lemma XorStep(a: nat, b: nat, bits: nat)
    requires bits > 0
    ensures XorBits(a, b, bits) % 2 == (a % 2 + b % 2) % 2
    ensures XorBits(a, b, bits) / 2 == XorBits(a / 2, b / 2, bits - 1)
  {
    LastDigit((a % 2 + b % 2) % 2, XorBits(a / 2, b / 2, bits - 1));
  }

  lemma LastDigit(digit: nat, rest: nat)
    requires digit < 2
    ensures (digit + 2 * rest) % 2 == digit && (digit + 2 * rest) / 2 == rest
  {
  }

  lemma ParityTold(a: nat, a': nat, b: nat, b': nat)
    requires (a % 2 + b % 2) % 2 == (a' % 2 + b' % 2) % 2
    ensures a % 2 == a' % 2 <==> b % 2 == b' % 2
  {
  }

  lemma Xor8Injective(a: byte, a': byte, b: byte, b': byte)
    requires Xor8(a, b) == Xor8(a', b')
    ensures a == a' <==> b == b'
  {
    EightDigits();
    XorBitsInjective(a, a', b, b', ByteBits());
  }

  // ---- the low half of the hash --------------------------------------------

  lemma XorLowMod(h: u64, b: byte)
    ensures XorLow(h, b) % TWO32 == XorLow(h % TWO32, b)
  {
    hide Xor8;
    var x, low := Xor8(h % 0x100, b), h % TWO32;
    assert low % 0x100 == h % 0x100;
    assert h / 0x100 * 0x100 == h / TWO32 * TWO32 + low / 0x100 * 0x100;
    assert 0 <= low / 0x100 * 0x100 + x < TWO32;
  }

  /** The low half of the prime, and what it takes to undo it modulo 2^32. */
  const PRIME_LOW: int := 435
  const INVERSE: int := 2952172923
  const TURNS: int := 299

  /** It is odd, so multiplying by it loses nothing. */
  lemma TimesPrimeInjective(a: int, b: int)
    requires 0 <= a < TWO32 && 0 <= b < TWO32 && a * PRIME_LOW % TWO32 == b * PRIME_LOW % TWO32
    ensures a == b
  {
    var k := a * PRIME_LOW / TWO32 - b * PRIME_LOW / TWO32;
    assert (a - b) * PRIME_LOW == k * TWO32;
    assert PRIME_LOW * INVERSE == 1 + TURNS * TWO32;
    assert a - b == (k * INVERSE - (a - b) * TURNS) * TWO32;
  }

  function LowStep(low: u32, b: byte): u32 {
    XorLow(low, b) * PRIME_LOW % TWO32
  }

  lemma LowOfStep(h: u64, b: byte)
    ensures FnvStep(h, b) % TWO32 == LowStep(h % TWO32, b)
  {
    hide XorLow;
    XorLowMod(h, b);
    var x, low := XorLow(h, b), XorLow(h % TWO32, b);
    TimesPrimeLow(x, low);
    ModTwice(x * FNV_PRIME);
  }

  lemma TimesPrimeLow(x: int, low: int)
    requires low == x % TWO32
    ensures x * FNV_PRIME % TWO32 == low * PRIME_LOW % TWO32
  {
    var high := x / TWO32;
    PrimeSplit(x, high, low);
    DropMultiple(x * 256 + high * PRIME_LOW, low * PRIME_LOW);
  }

  lemma PrimeSplit(x: int, high: int, low: int)
    requires x == high * TWO32 + low
    ensures x * FNV_PRIME == (x * 256 + high * PRIME_LOW) * TWO32 + low * PRIME_LOW
  {
  }

  lemma DropMultiple(k: int, r: int)
    ensures (k * TWO32 + r) % TWO32 == r % TWO32
  {
    var q := r / TWO32;
    assert k * TWO32 + r == (k + q) * TWO32 + r % TWO32;
  }

  lemma ModTwice(n: int)
    ensures WrapU64(n) % TWO32 == n % TWO32
  {
    var q := n / 0x1_0000_0000_0000_0000;
    DropMultiple(q * TWO32, WrapU64(n));
    assert n == q * TWO32 * TWO32 + WrapU64(n);
  }

  lemma XorLowInRange(h: u32, b: byte)
    ensures 0 <= XorLow(h, b) < TWO32
  {
    hide Xor8;
  }

  lemma XorLowInjective(h: u32, h': u32, b: byte, b': byte)
    requires XorLow(h, b) == XorLow(h', b')
    ensures h == h' <==> b == b'
  {
    hide Xor8;
    assert h / 0x100 == h' / 0x100 && Xor8(h % 0x100, b) == Xor8(h' % 0x100, b');
    Xor8Injective(h % 0x100, h' % 0x100, b, b');
  }

  /** A step keeps different states apart, and takes different bytes from one
      state to different ones. */
  lemma LowStepInjective(h: u32, h': u32, b: byte, b': byte)
    requires LowStep(h, b) == LowStep(h', b')
    ensures h == h' <==> b == b'
  {
    hide XorLow;
    XorLowInRange(h, b);
    XorLowInRange(h', b');
    TimesPrimeInjective(XorLow(h, b), XorLow(h', b'));
    XorLowInjective(h, h', b, b');
  }

  lemma {:induction false} StaysApart(h: u64, h': u64, data: Bytes)
    requires h % TWO32 != h' % TWO32
    ensures FnvFrom(h, data) % TWO32 != FnvFrom(h', data) % TWO32
    decreases |data|
  {
    hide FnvStep, LowStep;
    if data == [] {
    } else {
      var b := data[0];
      LowOfStep(h, b);
      LowOfStep(h', b);
      if LowStep(h % TWO32, b) == LowStep(h' % TWO32, b) {
        LowStepInjective(h % TWO32, h' % TWO32, b, b);
      }
      StaysApart(FnvStep(h, b), FnvStep(h', b), data[1..]);
    }
  }

  /** One byte changed changes the low half of the hash. */
  lemma {:induction false} OneByteShows(h: u64, data: Bytes, i: nat, b: byte)
    requires i < |data| && b != data[i]
    ensures FnvFrom(h, data) % TWO32 != FnvFrom(h, data[i := b]) % TWO32
    decreases |data|
  {
    hide FnvStep, LowStep;
    var changed := data[i := b];
    if i == 0 {
      LowOfStep(h, data[0]);
      LowOfStep(h, b);
      if LowStep(h % TWO32, data[0]) == LowStep(h % TWO32, b) {
        LowStepInjective(h % TWO32, h % TWO32, data[0], b);
      }
      assert changed[1..] == data[1..];
      StaysApart(FnvStep(h, data[0]), FnvStep(h, b), data[1..]);
    } else {
      assert changed[0] == data[0] && changed[1..] == data[1..][i - 1 := b];
      OneByteShows(FnvStep(h, data[0]), data[1..], i - 1, b);
    }
  }

  // ---- damaged records -----------------------------------------------------

  lemma Le16OfFrom(s: Bytes)
    requires |s| == 2
    ensures Le16(FromLe16(s)) == s
  {
  }

  lemma Le32OfFrom(s: Bytes)
    requires |s| == 4
    ensures Le32(FromLe32(s)) == s
  {
    hide Le16, FromLe16;
    var lo, hi := FromLe16(s[..2]), FromLe16(s[2..]);
    Le16OfFrom(s[..2]);
    Le16OfFrom(s[2..]);
    var v := lo + (hi as int) * 0x1_0000;
    assert v % 0x1_0000 == lo && v / 0x1_0000 == hi;
    assert s == s[..2] + s[2..];
  }

  /** The expiry that is read is written again as the same bytes. */
  lemma LeI64OfFrom(s: Bytes)
    requires |s| == 8
    ensures LeI64(FromLeI64(s)) == s
  {
    hide FromLe32, Le32;
    var lo, hi := FromLe32(s[..4]), FromLe32(s[4..]);
    Le32OfFrom(s[..4]);
    Le32OfFrom(s[4..]);
    var u := lo + (hi as int) * 0x1_0000_0000;
    assert u % 0x1_0000_0000 == lo && u / 0x1_0000_0000 == hi;
    assert s == s[..4] + s[4..];
  }

  /** The bytes the checksum of the record at `off` is taken over. */
  function Covered(log: Bytes, off: nat, size: nat): Bytes
    requires off + 21 <= off + size <= |log|
  {
    log[off + 21..off + size] + log[off + 9..off + 17]
  }

  lemma RecordSums(log: Bytes, off: nat)
    requires RecAt(log, off).Some?
    ensures var size := RecSize(RecAt(log, off).value);
      && size >= 21 && off + size <= |log| && log[off] == 165
      && Fnv64(Covered(log, off, size)) % TWO32 == FromLe32(log[off + 17..off + 21])
      && size == 21 + KeyLenAt(log, off) + ValLenAt(log, off)
  {
    hide Fnv64;
    LeI64OfFrom(log[off + 9..off + 17]);
  }

  /** A change of one covered byte is a change of one byte of the hashed text. */
  lemma CoveredChange(log: Bytes, off: nat, size: nat, i: nat, b: byte)
    requires off + 21 <= off + size <= |log| && i < |log| && b != log[i]
    requires off + 9 <= i < off + 17 || off + 21 <= i < off + size
    ensures var at := if i < off + 17 then size - 21 + (i - off - 9) else i - off - 21;
      && 0 <= at < |Covered(log, off, size)| && Covered(log, off, size)[at] != b
      && Covered(log[i := b], off, size) == Covered(log, off, size)[at := b]
  {
    var log': Bytes := log[i := b];
    var body: Bytes, expiry: Bytes := log[off + 21..off + size], log[off + 9..off + 17];
    var all: Bytes := body + expiry;
    if i < off + 17 {
      var changed: Bytes := expiry[i - off - 9 := b];
      assert log'[off + 21..off + size] == body && log'[off + 9..off + 17] == changed;
      assert body + changed == all[size - 21 + (i - off - 9) := b];
    } else {
      var changed: Bytes := body[i - off - 21 := b];
      assert log'[off + 21..off + size] == changed && log'[off + 9..off + 17] == expiry;
      assert changed + expiry == all[i - off - 21 := b];
    }
  }

  /** A record of which one byte was changed, outside its two length fields, is no
      record any more: every scan stops there. */
  lemma OneByteDamage(log: Bytes, off: nat, i: nat, b: byte)
    requires RecAt(log, off).Some?
    requires off <= i < off + RecSize(RecAt(log, off).value) <= |log| && b != log[i]
    requires !(off + 1 <= i < off + 9)
    ensures RecAt(log[i := b], off) == None
  {
    hide Fnv64, FromLe32, RecAt, Covered;
    var size, log' := RecSize(RecAt(log, off).value), log[i := b];
    RecordSums(log, off);
    if RecAt(log', off).Some? {
      RecordSums(log', off);
      assert log'[off + 1..off + 5] == log[off + 1..off + 5] && log'[off + 5..off + 9] == log[off + 5..off + 9];
      var sum, sum' := log[off + 17..off + 21], log'[off + 17..off + 21];
      if off + 17 <= i < off + 21 {
        assert Covered(log', off, size) == Covered(log, off, size) by {
          SameCovered(log, off, size, i, b);
        }
        SumChanges(log, off, i, b);
      } else if i != off {
        CoveredChange(log, off, size, i, b);
        assert sum == sum';
        var at := if i < off + 17 then size - 21 + (i - off - 9) else i - off - 21;
        OneByteOfHash(Covered(log, off, size), at, b);
      }
    }
  }

  lemma SameCovered(log: Bytes, off: nat, size: nat, i: nat, b: byte)
    requires off + 21 <= off + size <= |log| && off + 17 <= i < off + 21
    ensures Covered(log[i := b], off, size) == Covered(log, off, size)
  {
    assert log[i := b][off + 21..off + size] == log[off + 21..off + size];
    assert log[i := b][off + 9..off + 17] == log[off + 9..off + 17];
  }

  lemma SumChanges(log: Bytes, off: nat, i: nat, b: byte)
    requires off + 17 <= i < off + 21 <= |log| && b != log[i]
    ensures FromLe32(log[i := b][off + 17..off + 21]) != FromLe32(log[off + 17..off + 21])
  {
    hide FromLe32, Le32;
    var sum, sum' := log[off + 17..off + 21], log[i := b][off + 17..off + 21];
    assert sum[i - off - 17] != sum'[i - off - 17];
    Le32OfFrom(sum);
    Le32OfFrom(sum');
  }

  lemma OneByteOfHash(data: Bytes, i: nat, b: byte)
    requires i < |data| && b != data[i]
    ensures Fnv64(data) % TWO32 != Fnv64(data[i := b]) % TWO32
  {
    OneByteShows(0xcbf2_9ce4_8422_2325, data, i, b);
  }
}
