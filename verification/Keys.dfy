/** Cache keys and singleflight keys. */
module Keys {
  import opened Octets
  import opened Results
  import opened Names
  import opened NameForms
  import opened Messages
  import opened Text

  datatype Address = Address4(ip4: Ipv4) | Address6(ip6: Ipv6)

  /** The client-subnet option (section 6 of RFC 7871). */
  datatype EcsInfo = EcsInfo(family: u16, sourcePrefix: byte, scopePrefix: byte, address: Option<Address>)

  // ---- the option's bytes --------------------------------------------------

  function AddressBytes(address: Option<Address>): Bytes {
    match address
    case None => []
    case Some(Address4(ip)) => ip
    case Some(Address6(ip)) => ip
  }

  function EncodeEcs(e: EcsInfo): Bytes {
    Be16(e.family) + [e.sourcePrefix, e.scopePrefix] + AddressBytes(e.address)
  }

  /** Whatever does not hold an address of its family decodes to none. */
  function DecodeEcs(data: Bytes): EcsInfo {
    if |data| < 4 then EcsInfo(0, 0, 0, None)
    else
      var family, rest := At16(data, 0), data[4..];
      var address :=
        if family == 1 && |rest| >= 4 then Some(Address4(rest[..4]))
        else if family == 2 && |rest| >= 16 then Some(Address6(rest[..16]))
        else None;
      EcsInfo(family, data[2], data[3], address)
  }

  /** The option's bytes: family, the two prefix lengths, and the address. */
  lemma EcsLayout(e: EcsInfo)
    ensures var s := EncodeEcs(e);
      && |s| >= 4 && e.family == s[1] + 256 * (s[0] as int) && s[2] == e.sourcePrefix && s[3] == e.scopePrefix
      && (e.address.None? ==> |s| == 4)
      && (e.address.Some? ==> if e.address.value.Address4? then s[4..] == e.address.value.ip4
                              else s[4..] == e.address.value.ip6)
  {
    var s := EncodeEcs(e);
    assert s[0] == Be16(e.family)[0] && s[1] == Be16(e.family)[1];
    assert s[4..] == AddressBytes(e.address);
  }

  /** An option survives exactly when its address, if any, is of its family. */
  lemma EcsRoundTrip(e: EcsInfo)
    ensures DecodeEcs(EncodeEcs(e)) == e <==>
      e.address.None? || (e.family == 1 && e.address.value.Address4?) || (e.family == 2 && e.address.value.Address6?)
  {
    var s, a := EncodeEcs(e), AddressBytes(e.address);
    assert s[0] == Be16(e.family)[0] && s[1] == Be16(e.family)[1];
    assert s[2] == e.sourcePrefix && s[3] == e.scopePrefix && s[4..] == a;
    assert |a| == 4 ==> a[..4] == a;
    assert |a| == 16 ==> a[..16] == a;
  }

  // ---- keys ----------------------------------------------------------------

  const BAR: byte := 124
  const SLASH: byte := 47
  const COLON: byte := 58

  /** How the standard library writes an IPv6 address. */
  type Ipv6Text = Ipv6 -> Bytes

  /** All that is used of it: different addresses look different, and the text
      has a colon but neither bar nor slash. */
  ghost predicate Writes(v6: Ipv6Text) {
    && (forall a, b :: v6(a) == v6(b) ==> a == b)
    && (forall a :: COLON in v6(a) && BAR !in v6(a) && SLASH !in v6(a))
  }

  function Ipv4Text(ip: Ipv4): Bytes {
    Decimal(ip[0]) + [DOT] + Decimal(ip[1]) + [DOT] + Decimal(ip[2]) + [DOT] + Decimal(ip[3])
  }

  function AddressText(v6: Ipv6Text, a: Address): Bytes {
    match a
    case Address4(ip) => Ipv4Text(ip)
    case Address6(ip) => v6(ip)
  }

  function CacheToken(v6: Ipv6Text, e: EcsInfo): Bytes {
    if e.address.None? then [] else AddressText(v6, e.address.value) + [SLASH] + Decimal(e.sourcePrefix)
  }

  function TokenOf(v6: Ipv6Text, ecs: Option<EcsInfo>): Bytes {
    if ecs.Some? then CacheToken(v6, ecs.value) else []
  }

  /** `cache_key` of the pipeline. */
  function CacheKey(qname: Name, qtype: u16, token: Bytes): Bytes {
    CanonicalName(qname) + [BAR] + Decimal(qtype) + [BAR] + token
  }

  /** The key `resolve` files a flight under. */
  function FlightKey(v6: Ipv6Text, qname: Name, qtype: u16, ecs: Option<EcsInfo>): Bytes {
    CanonicalName(qname) + [BAR] + Decimal(qtype) + [BAR] + TokenOf(v6, ecs)
  }

  /** The client subnet a request is answered for. */
  function Subnet(ecs: Option<EcsInfo>): Option<(Address, byte)> {
    if ecs.Some? && ecs.value.address.Some? then Some((ecs.value.address.value, ecs.value.sourcePrefix)) else None
  }

  lemma Ipv4TextBytes(ip: Ipv4)
    ensures forall b :: b in Ipv4Text(ip) ==> IsDigit(b) || b == DOT
  {
    DecimalDigits(ip[0]);
    DecimalDigits(ip[1]);
    DecimalDigits(ip[2]);
    DecimalDigits(ip[3]);
  }

  lemma Ipv4TextInjective(a: Ipv4, b: Ipv4)
    requires Ipv4Text(a) == Ipv4Text(b)
    ensures a == b
  {
    hide Decimal;
    OctetText(a[3], b[3], Decimal(a[0]) + [DOT] + Decimal(a[1]) + [DOT] + Decimal(a[2]),
      Decimal(b[0]) + [DOT] + Decimal(b[1]) + [DOT] + Decimal(b[2]));
    OctetText(a[2], b[2], Decimal(a[0]) + [DOT] + Decimal(a[1]), Decimal(b[0]) + [DOT] + Decimal(b[1]));
    OctetText(a[1], b[1], Decimal(a[0]), Decimal(b[0]));
    DecimalInjective(a[0], b[0]);
  }

  lemma OctetText(m: byte, n: byte, s: Bytes, t: Bytes)
    requires s + [DOT] + Decimal(m) == t + [DOT] + Decimal(n)
    ensures s == t && m == n
  {
    hide Decimal;
    DecimalDigits(m);
    DecimalDigits(n);
    LastSeparator(DOT, s, Decimal(m), t, Decimal(n));
    DecimalInjective(m, n);
  }

  lemma AddressTextInjective(v6: Ipv6Text, a: Address, b: Address)
    requires Writes(v6) && AddressText(v6, a) == AddressText(v6, b)
    ensures a == b
  {
    hide Ipv4Text;
    match (a, b)
    case (Address4(x), Address4(y)) => Ipv4TextInjective(x, y);
    case (Address6(x), Address6(y)) =>
    case (Address4(x), Address6(y)) => Ipv4TextBytes(x);
    case (Address6(x), Address4(y)) => Ipv4TextBytes(y);
  }

  lemma TokenPlain(v6: Ipv6Text, ecs: Option<EcsInfo>)
    requires Writes(v6)
    ensures BAR !in TokenOf(v6, ecs)
  {
    hide Ipv4Text, Decimal;
    if ecs.Some? && ecs.value.address.Some? {
      DecimalDigits(ecs.value.sourcePrefix);
      if ecs.value.address.value.Address4? {
        Ipv4TextBytes(ecs.value.address.value.ip4);
      }
    }
  }

  /** The token stands for exactly the subnet. */
  lemma TokenMeansSubnet(v6: Ipv6Text, a: Option<EcsInfo>, b: Option<EcsInfo>)
    requires Writes(v6)
    ensures TokenOf(v6, a) == TokenOf(v6, b) <==> Subnet(a) == Subnet(b)
  {
    hide Ipv4Text, Decimal, AddressText;
    var s, t := Subnet(a), Subnet(b);
    if s.Some? && t.Some? && TokenOf(v6, a) == TokenOf(v6, b) {
      DecimalDigits(s.value.1);
      DecimalDigits(t.value.1);
      LastSeparator(
        SLASH, AddressText(v6, s.value.0), Decimal(s.value.1), AddressText(v6, t.value.0), Decimal(t.value.1));
      DecimalInjective(s.value.1, t.value.1);
      AddressTextInjective(v6, s.value.0, t.value.0);
    }
  }

  /** Reading a key from the right, it has one name, type and token, even when
      the name contains bars. */
  lemma KeyParts(n: Name, t: u16, e: Bytes, n': Name, t': u16, e': Bytes)
    requires BAR !in e && BAR !in e'
    ensures CacheKey(n, t, e) == CacheKey(n', t', e') <==>
      CanonicalName(n) == CanonicalName(n') && t == t' && e == e'
  {
    hide CanonicalName, Decimal;
    if CacheKey(n, t, e) == CacheKey(n', t', e') {
      DecimalDigits(t);
      DecimalDigits(t');
      LastSeparator(BAR, CanonicalName(n) + [BAR] + Decimal(t), e, CanonicalName(n') + [BAR] + Decimal(t'), e');
      LastSeparator(BAR, CanonicalName(n), Decimal(t), CanonicalName(n'), Decimal(t'));
      DecimalInjective(t, t');
    }
  }

  /** A key as text: for a name without bars it splits at its bars into the
      canonical name, the type as a decimal number and the token. */
  lemma KeyReads(n: Name, t: u16, e: Bytes) returns (digits: Bytes)
    requires 124 !in n && 124 !in e
    ensures Pieces(CacheKey(n, t, e)) == [CanonicalName(n), digits, e]
    ensures NumberOf(digits) == t
  {
    hide CanonicalName, Decimal, Pieces, NumberOf;
    digits := Decimal(t);
    NumberOfDecimal(t);
    DecimalDigits(t);
    CanonicalPlain(n);
    assert CacheKey(n, t, e) == CanonicalName(n) + [124] + (digits + [124] + e);
    PieceFirst(CanonicalName(n), digits + [124] + e);
    PieceFirst(digits, e);
    PieceAlone(e);
  }

  lemma CanonicalPlain(n: Name)
    requires 124 !in n
    ensures 124 !in CanonicalName(n)
  {
    hide CanonicalName;
    var p := CanonicalParts(n);
    CanonicalFromParts(n, p);
    var c := CanonicalName(n);
    forall i | 0 <= i < |c| ensures c[i] != 124 {
      if i < |p.core| {
        assert p.core[i] == n[|p.pre| + i];
      }
    }
  }

  /** An IPv4 address as text: four decimal numbers between dots. */
  lemma Ipv4Reads(ip: Ipv4) returns (octets: seq<Bytes>)
    ensures |octets| == 4 && Split(Ipv4Text(ip)) == octets
    ensures forall i :: 0 <= i < 4 ==> NumberOf(octets[i]) == ip[i]
  {
    hide Decimal, NumberOf, Split;
    octets := [Decimal(ip[0]), Decimal(ip[1]), Decimal(ip[2]), Decimal(ip[3])];
    OctetReads(ip[0]);
    OctetReads(ip[1]);
    OctetReads(ip[2]);
    OctetReads(ip[3]);
    var c := octets[2] + [DOT] + octets[3];
    var b := octets[1] + [DOT] + c;
    assert Ipv4Text(ip) == octets[0] + [DOT] + b;
    SplitAtDot(octets[0], b);
    SplitAtDot(octets[1], c);
    SplitAtDot(octets[2], octets[3]);
    SplitWithoutDot(octets[3]);
  }

  lemma OctetReads(n: byte)
    ensures NoDot(Decimal(n)) && NumberOf(Decimal(n)) == n
  {
    hide Decimal, NumberOf;
    DecimalDigits(n);
    NumberOfDecimal(n);
  }

  /** Two requests share a cache entry exactly when they ask for the same name
      up to case, outer white space and final dots, the same type, and for the same client subnet;
      the singleflight key tells them apart in exactly the same way, so no
      flight ever serves the request of another cache key. */
  lemma KeyUnambiguous(v6: Ipv6Text, n: Name, t: u16, e: Option<EcsInfo>, n': Name, t': u16, e': Option<EcsInfo>)
    requires Writes(v6)
    ensures var same := SameName(n, n') && t == t' && Subnet(e) == Subnet(e');
      && (CacheKey(n, t, TokenOf(v6, e)) == CacheKey(n', t', TokenOf(v6, e')) <==> same)
      && (FlightKey(v6, n, t, e) == FlightKey(v6, n', t', e') <==> same)
      && (FlightKey(v6, n, t, e) == CacheKey(n', t', TokenOf(v6, e')) <==> same)
  {
    hide CanonicalName, Decimal, TokenOf, Subnet, Writes, SameName;
    SameNameExactly(n, n');
    TokenPlain(v6, e);
    TokenPlain(v6, e');
    TokenMeansSubnet(v6, e, e');
    KeyParts(n, t, TokenOf(v6, e), n', t', TokenOf(v6, e'));
  }

  /** Such a text exists: a colon and the bytes in hexadecimal. */
  lemma WritesPossible()
    ensures exists v6: Ipv6Text :: Writes(v6)
  {
    hide Hex;
    var v6: Ipv6Text := ip => [COLON] + Hex(ip);
    forall a: Ipv6, b: Ipv6 | v6(a) == v6(b) ensures a == b {
      assert ([COLON] + Hex(a))[1..] == Hex(a) && ([COLON] + Hex(b))[1..] == Hex(b);
      HexInjective(a, b);
    }
    forall a: Ipv6 ensures COLON in v6(a) && BAR !in v6(a) && SLASH !in v6(a) {
      assert v6(a)[0] == COLON;
      assert forall b :: b in v6(a) ==> b == COLON || IsHexDigit(b);
    }
    assert Writes(v6);
  }
}
