/** Text joined with separators, and decimal numbers. */
module Text {
  import opened Octets

  predicate IsDigit(b: byte) {
    48 <= b <= 57
  }

  function Decimal(n: nat): Bytes {
    if n < 10 then [48 + n] else Decimal(n / 10) + [48 + n % 10]
  }

  /** The number a decimal text stands for. */
  function NumberOf(s: Bytes): int {
    if s == [] then 0 else NumberOf(s[..|s| - 1]) * 10 + (s[|s| - 1] as int - 48)
  }

  lemma {:induction false} NumberOfDecimal(n: nat)
    ensures NumberOf(Decimal(n)) == n
  {
    if n < 10 {
      assert NumberOf([]) == 0;
    } else {
      NumberOfDecimal(n / 10);
      assert Decimal(n)[..|Decimal(n)| - 1] == Decimal(n / 10);
    }
  }

  lemma DecimalInjective(m: nat, n: nat)
    requires Decimal(m) == Decimal(n)
    ensures m == n
  {
    NumberOfDecimal(m);
    NumberOfDecimal(n);
  }

  lemma {:induction false} DecimalDigits(n: nat)
    ensures forall b :: b in Decimal(n) ==> IsDigit(b)
  {
    if n < 10 {
    } else {
      DecimalDigits(n / 10);
    }
  }

  /** An optional sign, then digits. */
  function Signed(n: int): Bytes {
    if n < 0 then [45] + Decimal(-n) else Decimal(n)
  }

  lemma SignOf(n: int)
    ensures Signed(n) != []
    ensures Signed(n)[0] == 45 <==> n < 0
  {
    if n >= 0 {
      DecimalDigits(n);
      assert Decimal(n)[0] in Decimal(n);
    }
  }

  lemma SignedInjective(m: int, n: int)
    requires Signed(m) == Signed(n)
    ensures m == n
  {
    SignOf(m);
    SignOf(n);
    if m < 0 {
      assert Signed(m)[1..] == Decimal(-m) && Signed(n)[1..] == Decimal(-n);
      DecimalInjective(-m, -n);
    } else {
      DecimalInjective(m, n);
    }
  }

  lemma SignedPlain(n: int)
    ensures forall b :: b in Signed(n) ==> IsDigit(b) || b == 45
  {
    DecimalDigits(if n < 0 then -n else n);
  }

  lemma SeparatorInside(sep: byte, a: Bytes, b: Bytes, a': Bytes, b': Bytes)
    requires a + [sep] + b == a' + [sep] + b'
    ensures |b| < |b'| ==> sep in b'
    ensures |a| < |a'| ==> sep in a'
  {
    var s := a + [sep] + b;
    var t := a' + [sep] + b';
    assert s[|a|] == sep;
    if |b| < |b'| {
      assert t[|a|] == b'[|a| - |a'| - 1];
    } else if |a| < |a'| {
      assert t[|a|] == a'[|a|];
    }
  }

  lemma SameParts(sep: byte, a: Bytes, b: Bytes, a': Bytes, b': Bytes)
    requires a + [sep] + b == a' + [sep] + b' && |a| == |a'|
    ensures a == a' && b == b'
  {
    var s := a + [sep] + b;
    var t := a' + [sep] + b';
    assert s[..|a|] == a && t[..|a'|] == a';
    assert s[|a| + 1..] == b && t[|a'| + 1..] == b';
  }

  lemma SameLength(sep: byte, a: Bytes, b: Bytes, a': Bytes, b': Bytes)
    requires a + [sep] + b == a' + [sep] + b'
    ensures |a| + |b| == |a'| + |b'|
  {
    assert |a + [sep] + b| == |a| + 1 + |b|;
  }

  /** Text ends at its last separator: what precedes may contain separators,
      what follows may not. */
  lemma LastSeparator(sep: byte, a: Bytes, b: Bytes, a': Bytes, b': Bytes)
    requires sep !in b && sep !in b' && a + [sep] + b == a' + [sep] + b'
    ensures a == a' && b == b'
  {
    SameLength(sep, a, b, a', b');
    SeparatorInside(sep, a, b, a', b');
    SeparatorInside(sep, a', b', a, b);
    SameParts(sep, a, b, a', b');
  }

  /** The same from the front: what precedes may not contain separators. */
  lemma FirstSeparator(sep: byte, a: Bytes, b: Bytes, a': Bytes, b': Bytes)
    requires sep !in a && sep !in a' && a + [sep] + b == a' + [sep] + b'
    ensures a == a' && b == b'
  {
    SeparatorInside(sep, a, b, a', b');
    SeparatorInside(sep, a', b', a, b);
    SameParts(sep, a, b, a', b');
  }

  // ---- text between bars ---------------------------------------------------

  /** The pieces between bars, like `str::split('|')`: never empty. */
  function Pieces(s: Bytes): (ps: seq<Bytes>)
    ensures ps != []
  {
    if s == [] then [[]]
    else
      var rest := Pieces(s[1..]);
      if s[0] == 124 then [[]] + rest else [[s[0]] + rest[0]] + rest[1..]
  }

  lemma {:induction false} PieceAlone(s: Bytes)
    requires 124 !in s
    ensures Pieces(s) == [s]
  {
    if s == [] {
    } else {
      assert s[0] in s && forall b :: b in s[1..] ==> b in s;
      PieceAlone(s[1..]);
      assert [s[0]] + s[1..] == s;
    }
  }

  lemma {:induction false} PieceFirst(s: Bytes, more: Bytes)
    requires 124 !in s
    ensures Pieces(s + [124] + more) == [s] + Pieces(more)
  {
    var all := s + [124] + more;
    if s == [] {
      assert all[1..] == more;
    } else {
      assert s[0] in s && forall b :: b in s[1..] ==> b in s;
      PieceFirst(s[1..], more);
      assert all[1..] == s[1..] + [124] + more;
      assert [s[0]] + s[1..] == s;
    }
  }

  // ---- hexadecimal ---------------------------------------------------------

  predicate IsHexDigit(b: byte) {
    48 <= b <= 57 || 97 <= b <= 102
  }

  function HexDigit(d: int): byte
    requires 0 <= d < 16
  {
    if d < 10 then 48 + d else 87 + d
  }

  function Hex(s: Bytes): (r: Bytes)
    ensures |r| == 2 * |s|
    ensures forall b :: b in r ==> IsHexDigit(b)
  {
    if s == [] then [] else Hex(s[..|s| - 1]) + [HexDigit(s[|s| - 1] / 16), HexDigit(s[|s| - 1] % 16)]
  }

  lemma HexPair(x: byte, y: byte)
    requires HexDigit(x / 16) == HexDigit(y / 16) && HexDigit(x % 16) == HexDigit(y % 16)
    ensures x == y
  {
    assert x == x / 16 * 16 + x % 16 && y == y / 16 * 16 + y % 16;
  }

  lemma HexLast(s: Bytes)
    requires s != []
    ensures var m := |s| - 1;
      && Hex(s)[..2 * m] == Hex(s[..m])
      && Hex(s)[2 * m] == HexDigit(s[m] / 16) && Hex(s)[2 * m + 1] == HexDigit(s[m] % 16)
  {
    hide HexDigit;
  }

  lemma {:induction false} HexInjective(a: Bytes, b: Bytes)
    requires Hex(a) == Hex(b)
    ensures a == b
  {
    hide Hex, HexDigit;
    if a == [] {
    } else {
      var m := |a| - 1;
      HexLast(a);
      HexLast(b);
      HexInjective(a[..m], b[..m]);
      HexPair(a[m], b[m]);
      assert a == a[..m] + [a[m]] && b == b[..m] + [b[m]];
    }
  }
}
