/** Bytes, fixed-width integers and their big- and little-endian forms. */
module Octets {

  type byte = x: int | 0 <= x < 0x100
  type u16 = x: int | 0 <= x < 0x1_0000
  type u32 = x: int | 0 <= x < 0x1_0000_0000
  type u64 = x: int | 0 <= x < 0x1_0000_0000_0000_0000
  type i64 = x: int | -0x8000_0000_0000_0000 <= x < 0x8000_0000_0000_0000
  type Bytes = seq<byte>

  // ---- big endian (DNS) ----------------------------------------------------

  function Be16(v: u16): (s: Bytes)
    ensures |s| == 2 && At16(s, 0) == v
  {
    [v / 0x100, v % 0x100]
  }

  function Be32(v: u32): (s: Bytes)
    ensures |s| == 4 && At32(s, 0) == v
  {
    Be16(v / 0x1_0000) + Be16(v % 0x1_0000)
  }

  function At16(s: Bytes, i: nat): u16
    requires i + 2 <= |s|
  {
    (s[i] as int) * 0x100 + s[i + 1]
  }

  function At32(s: Bytes, i: nat): u32
    requires i + 4 <= |s|
  {
    (At16(s, i) as int) * 0x1_0000 + At16(s, i + 2)
  }

  // ---- little endian (the L2 log) ------------------------------------------

  function Le16(v: u16): (s: Bytes)
    ensures |s| == 2 && FromLe16(s) == v
  {
    [v % 0x100, v / 0x100]
  }

  function FromLe16(s: Bytes): u16
    requires |s| == 2
  {
    s[0] + (s[1] as int) * 0x100
  }

  function Le32(v: u32): (s: Bytes)
    ensures |s| == 4 && FromLe32(s) == v
  {
    var lo, hi := Le16(v % 0x1_0000), Le16(v / 0x1_0000);
    assert (lo + hi)[..2] == lo && (lo + hi)[2..] == hi;
    lo + hi
  }

  function FromLe32(s: Bytes): u32
    requires |s| == 4
  {
    FromLe16(s[..2]) + (FromLe16(s[2..]) as int) * 0x1_0000
  }

  /** Two's complement of a signed 64-bit integer. */
  function LeI64(v: i64): (s: Bytes)
    ensures |s| == 8 && FromLeI64(s) == v
  {
    var u: u64 := if v < 0 then v + 0x1_0000_0000_0000_0000 else v;
    var lo, hi := Le32(u % 0x1_0000_0000), Le32(u / 0x1_0000_0000);
    assert (lo + hi)[..4] == lo && (lo + hi)[4..] == hi;
    lo + hi
  }

  function FromLeI64(s: Bytes): i64
    requires |s| == 8
  {
    var u: u64 := FromLe32(s[..4]) + (FromLe32(s[4..]) as int) * 0x1_0000_0000;
    if u >= 0x8000_0000_0000_0000 then u - 0x1_0000_0000_0000_0000 else u
  }

  /** Wrapping i64 arithmetic, as in a release build. */
  function WrapI64(v: int): i64 {
    (v + 0x8000_0000_0000_0000) % 0x1_0000_0000_0000_0000 - 0x8000_0000_0000_0000
  }

  // ---- exclusive or of two bytes, for the FNV hashes -----------------------

  function Pow2(n: nat): nat {
    if n == 0 then 1 else 2 * Pow2(n - 1)
  }

  function XorBits(a: nat, b: nat, bits: nat): (r: nat)
    decreases bits
    ensures r < Pow2(bits)
  {
    if bits == 0 then 0 else (a % 2 + b % 2) % 2 + 2 * XorBits(a / 2, b / 2, bits - 1)
  }

  function ByteBits(): nat {
    8
  }

  function Xor8(a: byte, b: byte): byte {
    assert Pow2(ByteBits()) == 0x100 by {
      assert Pow2(8) == 0x100;
    }
    XorBits(a, b, ByteBits())
  }

  /** Binary digit `i` of a number. */
  function BitAt(n: nat, i: nat): nat {
    if i == 0 then n % 2 else BitAt(n / 2, i - 1)
  }

  /** Each binary digit of the result is one exactly when those of the operands
      differ. */
  lemma {:induction false} XorBitwise(a: nat, b: nat, bits: nat, i: nat)
    requires i < bits
    ensures BitAt(XorBits(a, b, bits), i) == (if BitAt(a, i) == BitAt(b, i) then 0 else 1)
    decreases bits
  {
    BitIsDigit(a, i);
    BitIsDigit(b, i);
    if i == 0 {
      assert XorBits(a, b, bits) % 2 == (a % 2 + b % 2) % 2;
    } else {
      assert XorBits(a, b, bits) / 2 == XorBits(a / 2, b / 2, bits - 1);
      XorBitwise(a / 2, b / 2, bits - 1, i - 1);
    }
  }

  lemma {:induction false} BitIsDigit(n: nat, i: nat)
    ensures BitAt(n, i) < 2
    decreases i
  {
    if i == 0 {
    } else {
      BitIsDigit(n / 2, i - 1);
    }
  }

  /** A hash with the byte exclusive-or'ed into its low byte. */
  function XorLow(h: nat, b: byte): nat {
    hide Xor8, XorBits, Pow2;
    h / 0x100 * 0x100 + Xor8(h % 0x100, b)
  }
}
