/** Encoding then parsing a message. */
module RoundTrip {
  import opened Octets
  import opened Results
  import opened Names
  import opened Slices
  import opened NameDecoding
  import opened Compression
  import opened Messages

  // ---- well-formed messages ------------------------------------------------

  /** Two names share a non-root suffix exactly when both have labels and their
      last labels agree. */
  predicate ShareSuffix(a: Name, b: Name) {
    var x, y := NameLabels(a), NameLabels(b);
    x != [] && y != [] && x[|x| - 1] == y[|y| - 1]
  }

  predicate KnownType(rtype: u16) {
    || rtype == TYPE_A || rtype == TYPE_AAAA || IsNameType(rtype) || rtype == TYPE_MX || rtype == TYPE_SOA
    || rtype == TYPE_TXT || rtype == TYPE_SRV || rtype == TYPE_CAA || rtype == TYPE_RRSIG || rtype == TYPE_NSEC
    || rtype == TYPE_OPT
  }

  /** The RDATA variant is the one the type parses to, its names are good, and
      its length-prefixed parts fit their prefix. */
  predicate GoodRData(rtype: u16, d: RData) {
    match d
    case A(_) => rtype == TYPE_A
    case Aaaa(_) => rtype == TYPE_AAAA
    case NameData(name) => IsNameType(rtype) && GoodName(name)
    case Mx(_, exchange) => rtype == TYPE_MX && GoodName(exchange)
    case Soa(mname, rname, _, _, _, _, _) => rtype == TYPE_SOA && GoodName(mname) && GoodName(rname)
    case Txt(strings) => rtype == TYPE_TXT && forall s :: s in strings ==> |s| < 0x100
    case Srv(_, _, _, target) => rtype == TYPE_SRV && GoodName(target)
    case Caa(_, tag, _) => rtype == TYPE_CAA && |tag| < 0x100
    case Rrsig(_, _, _, _, _, _, _, signer, _) => rtype == TYPE_RRSIG && GoodName(signer)
    case Nsec(next, _) => rtype == TYPE_NSEC && GoodName(next)
    case Raw(_) => !KnownType(rtype)
    case Opt(_, _, _, _, options) => rtype == TYPE_OPT && forall o :: o in options ==> |o.data| < 0x1_0000
  }

  function RDataLength(d: RData): nat {
    match d
    case Opt(_, _, _, _, options) => |OptionsBytes(options)|
    case _ => var bytes := RDataBytes(d); if bytes.Some? then |bytes.value| else 0
  }

  predicate GoodRecord(r: Record) {
    && GoodName(r.name)
    && GoodRData(r.rtype, r.data)
    && RDataLength(r.data) < 0x1_0000
  }

  /** An SOA whose names share a suffix is compressed by a wrong offset. */
  predicate SoaSafe(r: Record) {
    r.data.Soa? ==> !ShareSuffix(r.data.mname, r.data.rname)
  }

  ghost predicate GoodRecords(rs: seq<Record>) {
    |rs| < 0x1_0000 && forall r :: r in rs ==> GoodRecord(r)
  }

  ghost predicate GoodQuestions(qs: seq<Question>) {
    |qs| < 0x1_0000 && forall q :: q in qs ==> GoodName(q.name)
  }

  ghost predicate GoodMessage(m: Message) {
    GoodQuestions(m.questions) && GoodRecords(m.answers) && GoodRecords(m.authority) && GoodRecords(m.additional)
  }

  // ---- what comes back -----------------------------------------------------

  /** A record as `read_record` returns it: an OPT record's fields are in its
      class and ttl only. */
  function Flattened(r: Record): Record {
    if r.rtype == TYPE_OPT && r.data.Opt? then
      Record(r.name, r.rtype, r.data.udpSize, PackedTtl(r.data), Opt(0, 0, 0, 0, r.data.options))
    else r
  }

  function FlattenAll(rs: seq<Record>): (out: seq<Record>)
    ensures |out| == |rs|
  {
    if rs == [] then [] else [Flattened(rs[0])] + FlattenAll(rs[1..])
  }

  /** A message as it comes back from the wire, if its SOA records do. */
  function Normalized(m: Message): Message {
    var additional := RecoverAll(FlattenAll(m.additional));
    Message(m.header.(opcode := m.header.opcode % 0x10, rcode := FoldedRcode(m.header.rcode, additional)),
            m.questions, FlattenAll(m.answers), FlattenAll(m.authority), additional)
  }

  // ---- RDATA ---------------------------------------------------------------

  lemma {:induction false} TxtReads(strings: seq<Bytes>)
    requires forall s :: s in strings ==> |s| < 0x100
    ensures ParseTxt(TxtBytes(strings)) == Ok(strings)
  {
    if strings == [] {
    } else {
      var s, rest := strings[0], strings[1..];
      assert s in strings;
      var w := TxtBytes(strings);
      assert w == [Len8(s)] + s + TxtBytes(rest);
      assert w[0] == |s| && w[1..1 + |s|] == s && w[1 + |s|..] == TxtBytes(rest);
      TxtReads(rest);
      assert [s] + rest == strings;
    }
  }

  lemma OptionReads(o: OptOption, more: Bytes)
    requires |o.data| < 0x1_0000
    ensures var w := OptionBytes(o) + more;
      && |w| >= 4 + |o.data| && At16(w, 0) == o.code && At16(w, 2) == |o.data|
      && w[4..4 + |o.data|] == o.data && w[4 + |o.data|..] == more
  {
    var w := OptionBytes(o) + more;
    var a, b := Be16(o.code), Be16(Len16(|o.data|));
    assert w == a + b + o.data + more;
    assert w[0] == a[0] && w[1] == a[1] && w[2] == b[0] && w[3] == b[1];
  }

  lemma {:induction false} OptionsRead(options: seq<OptOption>)
    requires forall o :: o in options ==> |o.data| < 0x1_0000
    ensures ParseOptions(OptionsBytes(options)) == Ok(options)
  {
    if options == [] {
    } else {
      var o, rest := options[0], options[1..];
      assert o in options;
      OptionReads(o, OptionsBytes(rest));
      OptionsRead(rest);
      assert [o] + rest == options;
    }
  }

  /** A good name written by its own encoder is never compressed. */
  lemma NameAloneIsFull(name: Name)
    requires GoodName(name)
    ensures NameAlone(name) == Some(Wire(NameLabels(name)))
  {
    GoodNameLabels(name);
    NameBytesWritten(EMPTY, name);
    assert FindSuffix(EMPTY.names, NameLabels(name), 0) == |NameLabels(name)|;
    assert [] + Wire(NameLabels(name)) == Wire(NameLabels(name));
  }

  lemma FullNameAt(buf: Bytes, at: nat, name: Name)
    requires GoodName(name) && FullAt(buf, at, NameLabels(name))
    ensures NameAt(buf, at) == Ok((name, at + |Wire(NameLabels(name))|))
  {
    hide *;
    GoodNameLabels(name);
    ReadFull(buf, at, NameLabels(name), StepLimit());
    NameAtFrom(buf, at, NameLabels(name));
  }

  lemma At16Stands(buf: Bytes, at: nat, v: u16)
    requires StandsAt(buf, at, Be16(v))
    ensures at + 2 <= |buf| && At16(buf, at) == v
  {
    var w := Be16(v);
    assert buf[at + 0] == w[0] && buf[at + 1] == w[1];
  }

  lemma At32Stands(buf: Bytes, at: nat, v: u32)
    requires StandsAt(buf, at, Be32(v))
    ensures at + 4 <= |buf| && At32(buf, at) == v
  {
    var w := Be32(v);
    assert buf[at + 0] == w[0] && buf[at + 1] == w[1] && buf[at + 2] == w[2] && buf[at + 3] == w[3];
  }

  // ---- the two names of an SOA ---------------------------------------------

  lemma {:induction false} PutFullKeys(e: Enc, ls: seq<Label>, key: Name)
    requires ShortLabels(ls) && key in PutFull(e, ls).enc.names && key !in e.names
    ensures exists j :: 0 <= j < |ls| && key == Dotted(ls[j..])
    decreases |ls|
  {
    if ls == [] {
    } else {
      assert ls[0] in ls && ShortLabel(ls[0]);
      assert forall l :: l in ls[1..] ==> l in ls;
      if key == Dotted(ls) {
        assert ls[0..] == ls;
      } else {
        PutFullKeys(PutOne(e, ls), ls[1..], key);
        var j :| 0 <= j < |ls| - 1 && key == Dotted(ls[1..][j..]);
        assert ls[1..][j..] == ls[j + 1..];
      }
    }
  }

  lemma {:induction false} PutFullLastKey(e: Enc, ls: seq<Label>)
    requires ls != [] && ShortLabels(ls) && |e.out| + 64 * |ls| <= MAX_OFFSET
    ensures Dotted(ls[|ls| - 1..]) in PutFull(e, ls).enc.names
    decreases |ls|
  {
    assert ls[0] in ls && ShortLabel(ls[0]);
    assert forall l :: l in ls[1..] ==> l in ls;
    var one := PutOne(e, ls);
    if |ls| == 1 {
      assert ls[0..] == ls;
      PutFullKeepsKey(one, ls[1..], Dotted(ls));
    } else {
      assert |one.out| <= |e.out| + 64;
      assert ls[1..][|ls| - 2..] == ls[|ls| - 1..];
      PutFullLastKey(one, ls[1..]);
    }
  }

  lemma NameAloneState(name: Name)
    requires GoodName(name)
    ensures PutName(EMPTY, name) == PutFull(EMPTY, NameLabels(name))
    ensures PutName(EMPTY, name).ok && TableOk(PutName(EMPTY, name).enc)
    ensures PutName(EMPTY, name).enc.out == Wire(NameLabels(name))
  {
    NameAloneIsFull(name);
    GoodNameLabels(name);
    NameBytesWritten(EMPTY, name);
    PutFullKeepsTable(EMPTY, NameLabels(name));
  }

  lemma RecordedSuffixIsShared(mname: Name, rname: Name, k: nat)
    requires GoodName(mname) && GoodName(rname) && k < |NameLabels(rname)|
    requires Dotted(NameLabels(rname)[k..]) in PutName(EMPTY, mname).enc.names
    ensures ShareSuffix(mname, rname)
  {
    hide PutName, PutFull, NameLabels, GoodName, TableOk, Dotted, FindSuffix, Wire;
    var lm, lr := NameLabels(mname), NameLabels(rname);
    GoodNameLabels(mname);
    GoodNameLabels(rname);
    NameAloneState(mname);
    PutFullKeys(EMPTY, lm, Dotted(lr[k..]));
    var j :| 0 <= j < |lm| && Dotted(lr[k..]) == Dotted(lm[j..]);
    assert forall l :: l in lr[k..] ==> l in lr;
    assert forall l :: l in lm[j..] ==> l in lm;
    DottedInjective(lr[k..], lm[j..]);
    assert lr[|lr| - 1] == lr[k..][|lr| - k - 1];
    assert lm[|lm| - 1] == lm[j..][|lm| - j - 1];
  }

  lemma SharedSuffixIsRecorded(mname: Name, rname: Name)
    requires GoodName(mname) && GoodName(rname) && ShareSuffix(mname, rname)
    ensures Dotted(NameLabels(rname)[|NameLabels(rname)| - 1..]) in PutName(EMPTY, mname).enc.names
  {
    hide NameLabels, PutName, PutFull, GoodName, Dotted, Wire, TableOk;
    var lm, lr := NameLabels(mname), NameLabels(rname);
    GoodNameLabels(mname);
    NameAloneState(mname);
    PutFullLastKey(EMPTY, lm);
    assert lm[|lm| - 1..] == [lm[|lm| - 1]] == lr[|lr| - 1..];
  }

  /** The second SOA name meets a recorded suffix exactly when the names share
      one. */
  lemma SoaCompressionGuard(mname: Name, rname: Name)
    requires GoodName(mname) && GoodName(rname)
    ensures var m, lr := PutName(EMPTY, mname).enc, NameLabels(rname);
      FindSuffix(m.names, lr, 0) < |lr| <==> ShareSuffix(mname, rname)
  {
    hide PutName, GoodName, Dotted, NameLabels;
    var m, lr := PutName(EMPTY, mname).enc, NameLabels(rname);
    var k := FindSuffix(m.names, lr, 0);
    if k < |lr| {
      RecordedSuffixIsShared(mname, rname, k);
    }
    if ShareSuffix(mname, rname) {
      SharedSuffixIsRecorded(mname, rname);
      assert Dotted(lr[|lr| - 1..]) in m.names;
    }
  }

  lemma SoaNamesInFull(mname: Name, rname: Name)
    requires GoodName(mname) && GoodName(rname) && !ShareSuffix(mname, rname)
    ensures SoaNames(mname, rname) == Some(Wire(NameLabels(mname)) + Wire(NameLabels(rname)))
  {
    NameAloneState(mname);
    SoaCompressionGuard(mname, rname);
    GoodNameLabels(rname);
    NameBytesWritten(PutName(EMPTY, mname).enc, rname);
  }

  // ---- RDATA, variant by variant -------------------------------------------

  lemma NameReads(buf: Bytes, start: nat, name: Name, more: Bytes)
    requires GoodName(name) && StandsAt(buf, start, Wire(NameLabels(name)) + more)
    ensures NameAt(buf, start) == Ok((name, start + |Wire(NameLabels(name))|))
    ensures StandsAt(buf, start + |Wire(NameLabels(name))|, more)
  {
    hide *;
    StandsAtSplit(buf, start, Wire(NameLabels(name)), more);
    FullAtFrom(buf, start, NameLabels(name));
    FullNameAt(buf, start, name);
  }

  lemma MxShape(d: RData)
    requires d.Mx? && GoodName(d.exchange)
    ensures RDataBytes(d) == Some(Be16(d.preference) + (Wire(NameLabels(d.exchange)) + []))
  {
    hide NameLabels, Wire, NameAlone, GoodName;
    NameAloneIsFull(d.exchange);
    var w := Wire(NameLabels(d.exchange));
    assert Be16(d.preference) + w + [] == Be16(d.preference) + (w + []);
  }

  lemma MxParses(buf: Bytes, start: nat, len: nat, d: RData)
    requires d.Mx? && StandsAt(buf, start, Be16(d.preference)) && len >= 2 && start + len <= |buf|
    requires NameAt(buf, start + 2).Ok? && NameAt(buf, start + 2).value.0 == d.exchange
    ensures ParseRData(buf, start, len, TYPE_MX) == Ok(d)
  {
    At16Stands(buf, start, d.preference);
    var s := buf[start..start + len];
    assert forall i :: 0 <= i < 2 ==> s[i] == buf[start + i];
  }

  lemma MxReads(buf: Bytes, start: nat, d: RData)
    requires d.Mx? && GoodRData(TYPE_MX, d) && RDataBytes(d).Some? && StandsAt(buf, start, RDataBytes(d).value)
    ensures ParseRData(buf, start, |RDataBytes(d).value|, TYPE_MX) == Ok(d)
  {
    hide NameLabels, Wire, StandsAt, NameAt, ParseRData, RDataBytes, GoodName;
    MxShape(d);
    StandsAtSplit(buf, start, Be16(d.preference), Wire(NameLabels(d.exchange)) + []);
    NameReads(buf, start + 2, d.exchange, []);
    StandsAtFits(buf, start, RDataBytes(d).value);
    MxParses(buf, start, |RDataBytes(d).value|, d);
  }

  lemma SrvShape(d: RData)
    requires d.Srv? && GoodName(d.target)
    ensures RDataBytes(d) == Some(SrvHead(d) + (Wire(NameLabels(d.target)) + []))
    ensures |SrvHead(d)| == 6
  {
    hide NameLabels, Wire, NameAlone, GoodName;
    NameAloneIsFull(d.target);
    var w := Wire(NameLabels(d.target));
    assert SrvHead(d) + w + [] == SrvHead(d) + (w + []);
  }

  lemma SrvParses(buf: Bytes, start: nat, len: nat, d: RData)
    requires d.Srv? && StandsAt(buf, start, SrvHead(d)) && len >= 6 && start + len <= |buf|
    requires NameAt(buf, start + 6).Ok? && NameAt(buf, start + 6).value.0 == d.target
    ensures ParseRData(buf, start, len, TYPE_SRV) == Ok(d)
  {
    hide NameAt;
    var a, b, c := Be16(d.priority), Be16(d.weight), Be16(d.port);
    assert SrvHead(d) == a + (b + c);
    StandsAtSplit(buf, start, a, b + c);
    StandsAtSplit(buf, start + 2, b, c);
    At16Stands(buf, start, d.priority);
    At16Stands(buf, start + 2, d.weight);
    At16Stands(buf, start + 4, d.port);
    var s := buf[start..start + len];
    assert forall i :: 0 <= i < 6 ==> s[i] == buf[start + i];
    assert At16(s, 0) == d.priority && At16(s, 2) == d.weight && At16(s, 4) == d.port;
  }

  lemma SrvReads(buf: Bytes, start: nat, d: RData)
    requires d.Srv? && GoodRData(TYPE_SRV, d) && RDataBytes(d).Some? && StandsAt(buf, start, RDataBytes(d).value)
    ensures ParseRData(buf, start, |RDataBytes(d).value|, TYPE_SRV) == Ok(d)
  {
    hide NameLabels, Wire, SrvHead, StandsAt, NameAt, ParseRData, RDataBytes, GoodName;
    SrvShape(d);
    StandsAtSplit(buf, start, SrvHead(d), Wire(NameLabels(d.target)) + []);
    NameReads(buf, start + 6, d.target, []);
    StandsAtFits(buf, start, RDataBytes(d).value);
    SrvParses(buf, start, |RDataBytes(d).value|, d);
  }

  lemma CaaReads(buf: Bytes, start: nat, d: RData)
    requires d.Caa? && GoodRData(TYPE_CAA, d) && StandsAt(buf, start, RDataBytes(d).value)
    ensures ParseRData(buf, start, |RDataBytes(d).value|, TYPE_CAA) == Ok(d)
  {
    var v := RDataBytes(d).value;
    StandsAtSlice(buf, start, v);
    assert v == [d.caaFlags, Len8(d.tag)] + d.tag + d.value;
    assert v[2..2 + |d.tag|] == d.tag && v[2 + |d.tag|..] == d.value;
  }

  lemma NsecShape(d: RData)
    requires d.Nsec? && GoodName(d.next)
    ensures RDataBytes(d) == Some(Wire(NameLabels(d.next)) + d.bitmaps)
  {
    hide NameLabels, Wire, NameAlone, GoodName;
    NameAloneIsFull(d.next);
    assert [] + Wire(NameLabels(d.next)) + d.bitmaps == Wire(NameLabels(d.next)) + d.bitmaps;
  }

  lemma NsecReads(buf: Bytes, start: nat, d: RData)
    requires d.Nsec? && GoodRData(TYPE_NSEC, d) && RDataBytes(d).Some? && StandsAt(buf, start, RDataBytes(d).value)
    ensures ParseRData(buf, start, |RDataBytes(d).value|, TYPE_NSEC) == Ok(d)
  {
    hide NameLabels, Wire, StandsAt, NameAt, RDataBytes, GoodName;
    NsecShape(d);
    NameReads(buf, start, d.next, d.bitmaps);
    StandsAtFits(buf, start, RDataBytes(d).value);
    StandsAtSlice(buf, start + |Wire(NameLabels(d.next))|, d.bitmaps);
  }

  lemma RrsigShape(d: RData)
    requires d.Rrsig? && GoodName(d.signer)
    ensures RDataBytes(d) == Some(RrsigHead(d) + (Wire(NameLabels(d.signer)) + d.signature))
    ensures |RrsigHead(d)| == 18
  {
    hide NameLabels, Wire, NameAlone, GoodName;
    NameAloneIsFull(d.signer);
    var w := Wire(NameLabels(d.signer));
    assert RrsigHead(d) + w + d.signature == RrsigHead(d) + (w + d.signature);
  }

  lemma RrsigParses(buf: Bytes, start: nat, len: nat, d: RData)
    requires d.Rrsig? && StandsAt(buf, start, RrsigHead(d)) && len >= 18 && start + len <= |buf|
    requires NameAt(buf, start + 18).Ok? && NameAt(buf, start + 18).value.0 == d.signer
    requires var p := NameAt(buf, start + 18).value.1;
      p <= start + len && buf[p..start + len] == d.signature
    ensures ParseRData(buf, start, len, TYPE_RRSIG) == Ok(d)
  {
    RrsigHeadReads(buf, start, d);
  }

  lemma RrsigReads(buf: Bytes, start: nat, d: RData)
    requires d.Rrsig? && GoodRData(TYPE_RRSIG, d) && RDataBytes(d).Some? && StandsAt(buf, start, RDataBytes(d).value)
    ensures ParseRData(buf, start, |RDataBytes(d).value|, TYPE_RRSIG) == Ok(d)
  {
    hide NameLabels, Wire, RrsigHead, StandsAt, NameAt, ParseRData, RDataBytes, GoodName;
    var w, head := Wire(NameLabels(d.signer)), RrsigHead(d);
    RrsigShape(d);
    StandsAtSplit(buf, start, head, w + d.signature);
    NameReads(buf, start + 18, d.signer, d.signature);
    StandsAtSlice(buf, start + 18 + |w|, d.signature);
    StandsAtFits(buf, start, RDataBytes(d).value);
    RrsigParses(buf, start, |RDataBytes(d).value|, d);
  }

  lemma RrsigHeadReads(buf: Bytes, start: nat, d: RData)
    requires d.Rrsig? && StandsAt(buf, start, RrsigHead(d))
    ensures start + 18 <= |buf|
    ensures At16(buf, start) == d.typeCovered && buf[start + 2] == d.algorithm && buf[start + 3] == d.labels
    ensures At32(buf, start + 4) == d.originalTtl && At32(buf, start + 8) == d.expiration
    ensures At32(buf, start + 12) == d.inception && At16(buf, start + 16) == d.keyTag
  {
    var a, b := Be16(d.typeCovered), [d.algorithm, d.labels];
    var c, e, f, g := Be32(d.originalTtl), Be32(d.expiration), Be32(d.inception), Be16(d.keyTag);
    assert RrsigHead(d) == a + (b + (c + (e + (f + g))));
    StandsAtSplit(buf, start, a, b + (c + (e + (f + g))));
    StandsAtSplit(buf, start + 2, b, c + (e + (f + g)));
    StandsAtSplit(buf, start + 4, c, e + (f + g));
    StandsAtSplit(buf, start + 8, e, f + g);
    StandsAtSplit(buf, start + 12, f, g);
    At16Stands(buf, start, d.typeCovered);
    assert buf[start + 2 + 0] == b[0] && buf[start + 2 + 1] == b[1];
    At32Stands(buf, start + 4, d.originalTtl);
    At32Stands(buf, start + 8, d.expiration);
    At32Stands(buf, start + 12, d.inception);
    At16Stands(buf, start + 16, d.keyTag);
  }

  lemma SoaTailReads(buf: Bytes, p: nat, d: RData)
    requires d.Soa? && StandsAt(buf, p, SoaTail(d))
    ensures p + 20 <= |buf|
    ensures At32(buf, p) == d.serial && At32(buf, p + 4) == d.refresh && At32(buf, p + 8) == d.retry
    ensures At32(buf, p + 12) == d.expire && At32(buf, p + 16) == d.minimum
  {
    hide StandsAt, At32;
    var a, b, c, e, f := Be32(d.serial), Be32(d.refresh), Be32(d.retry), Be32(d.expire), Be32(d.minimum);
    assert SoaTail(d) == a + (b + (c + (e + f)));
    StandsAtSplit(buf, p, a, b + (c + (e + f)));
    StandsAtSplit(buf, p + 4, b, c + (e + f));
    StandsAtSplit(buf, p + 8, c, e + f);
    StandsAtSplit(buf, p + 12, e, f);
    At32Stands(buf, p, d.serial);
    At32Stands(buf, p + 4, d.refresh);
    At32Stands(buf, p + 8, d.retry);
    At32Stands(buf, p + 12, d.expire);
    At32Stands(buf, p + 16, d.minimum);
  }

  lemma SoaShape(d: RData)
    requires d.Soa? && GoodName(d.mname) && GoodName(d.rname) && !ShareSuffix(d.mname, d.rname)
    ensures RDataBytes(d) == Some(Wire(NameLabels(d.mname)) + (Wire(NameLabels(d.rname)) + SoaTail(d)))
  {
    hide NameLabels, Wire, SoaNames, SoaTail, GoodName, ShareSuffix;
    SoaNamesInFull(d.mname, d.rname);
    var m, r, t := Wire(NameLabels(d.mname)), Wire(NameLabels(d.rname)), SoaTail(d);
    assert [] + (m + r) + t == m + (r + t);
  }

  lemma SoaParses(buf: Bytes, start: nat, len: nat, d: RData, p1: nat, p: nat)
    requires d.Soa? && start + len <= |buf|
    requires NameAt(buf, start) == Ok((d.mname, p1)) && NameAt(buf, p1) == Ok((d.rname, p))
    requires StandsAt(buf, p, SoaTail(d))
    ensures ParseRData(buf, start, len, TYPE_SOA) == Ok(d)
  {
    hide NameAt, StandsAt, SoaTail, At32;
    SoaTailReads(buf, p, d);
  }

  lemma SoaReads(buf: Bytes, start: nat, d: RData)
    requires d.Soa? && GoodRData(TYPE_SOA, d) && !ShareSuffix(d.mname, d.rname)
    requires RDataBytes(d).Some? && StandsAt(buf, start, RDataBytes(d).value)
    ensures ParseRData(buf, start, |RDataBytes(d).value|, TYPE_SOA) == Ok(d)
  {
    hide NameLabels, Wire, SoaTail, StandsAt, NameAt, ParseRData, RDataBytes, GoodName, ShareSuffix;
    var m, r, t := Wire(NameLabels(d.mname)), Wire(NameLabels(d.rname)), SoaTail(d);
    SoaShape(d);
    NameReads(buf, start, d.mname, r + t);
    NameReads(buf, start + |m|, d.rname, t);
    StandsAtFits(buf, start, RDataBytes(d).value);
    SoaParses(buf, start, |RDataBytes(d).value|, d, start + |m|, start + |m| + |r|);
  }

  lemma NameDataReads(buf: Bytes, start: nat, rtype: u16, d: RData)
    requires d.NameData? && GoodRData(rtype, d) && RDataBytes(d).Some? && StandsAt(buf, start, RDataBytes(d).value)
    ensures ParseRData(buf, start, |RDataBytes(d).value|, rtype) == Ok(d)
  {
    NameAloneIsFull(d.target);
    FullNameAt(buf, start, d.target);
  }

  lemma AddressReads(buf: Bytes, start: nat, rtype: u16, d: RData)
    requires (d.A? || d.Aaaa?) && GoodRData(rtype, d) && StandsAt(buf, start, RDataBytes(d).value)
    ensures ParseRData(buf, start, |RDataBytes(d).value|, rtype) == Ok(d)
  {
    StandsAtSlice(buf, start, RDataBytes(d).value);
  }

  lemma TxtRDataReads(buf: Bytes, start: nat, d: RData)
    requires d.Txt? && GoodRData(TYPE_TXT, d) && StandsAt(buf, start, RDataBytes(d).value)
    ensures ParseRData(buf, start, |RDataBytes(d).value|, TYPE_TXT) == Ok(d)
  {
    StandsAtSlice(buf, start, RDataBytes(d).value);
    TxtReads(d.strings);
  }

  lemma RawReads(buf: Bytes, start: nat, rtype: u16, d: RData)
    requires d.Raw? && GoodRData(rtype, d) && StandsAt(buf, start, RDataBytes(d).value)
    ensures ParseRData(buf, start, |RDataBytes(d).value|, rtype) == Ok(d)
  {
    StandsAtSlice(buf, start, RDataBytes(d).value);
  }

  /** Every good RDATA but OPT's reads back from wherever it stands. */
  lemma RDataReads(buf: Bytes, start: nat, rtype: u16, d: RData)
    requires GoodRData(rtype, d) && !d.Opt? && (d.Soa? ==> !ShareSuffix(d.mname, d.rname))
    requires RDataBytes(d).Some? && StandsAt(buf, start, RDataBytes(d).value)
    ensures ParseRData(buf, start, |RDataBytes(d).value|, rtype) == Ok(d)
  {
    hide StandsAt, RDataBytes, GoodName, ShareSuffix;
    StandsAtSlice(buf, start, RDataBytes(d).value);
    match d
    case A(_) => AddressReads(buf, start, rtype, d);
    case Aaaa(_) => AddressReads(buf, start, rtype, d);
    case NameData(_) => NameDataReads(buf, start, rtype, d);
    case Mx(_, _) => MxReads(buf, start, d);
    case Soa(_, _, _, _, _, _, _) => SoaReads(buf, start, d);
    case Txt(strings) => TxtRDataReads(buf, start, d);
    case Srv(_, _, _, _) => SrvReads(buf, start, d);
    case Caa(_, _, _) => CaaReads(buf, start, d);
    case Rrsig(_, _, _, _, _, _, _, _, _) => RrsigReads(buf, start, d);
    case Nsec(_, _) => NsecReads(buf, start, d);
    case Raw(_) => RawReads(buf, start, rtype, d);
  }

  lemma RDataEncodes(rtype: u16, d: RData)
    requires GoodRData(rtype, d) && !d.Opt? && (d.Soa? ==> !ShareSuffix(d.mname, d.rname))
    ensures RDataBytes(d).Some?
  {
    match d
    case NameData(name) => NameAloneIsFull(name);
    case Mx(_, exchange) => NameAloneIsFull(exchange);
    case Soa(mname, rname, _, _, _, _, _) => SoaNamesInFull(mname, rname);
    case Srv(_, _, _, target) => NameAloneIsFull(target);
    case Rrsig(_, _, _, _, _, _, _, signer, _) => NameAloneIsFull(signer);
    case Nsec(next, _) => NameAloneIsFull(next);
    case _ =>
  }

  // ---- records -------------------------------------------------------------

  /** What follows the owner name, for RDATA already in bytes. */
  function TailBytes(rtype: u16, class_: u16, ttl: u32, rdata: Bytes): Bytes {
    Be16(rtype) + (Be16(class_) + (Be32(ttl) + (Be16(Len16(|rdata|)) + rdata)))
  }

  lemma TailFields(buf: Bytes, p: nat, rtype: u16, class_: u16, ttl: u32, rdata: Bytes)
    requires |rdata| < 0x1_0000 && StandsAt(buf, p, TailBytes(rtype, class_, ttl, rdata))
    ensures U16At(buf, p) == Ok(rtype) && U16At(buf, p + 2) == Ok(class_)
    ensures U32At(buf, p + 4) == Ok(ttl) && U16At(buf, p + 8) == Ok(|rdata|)
    ensures StandsAt(buf, p + 10, rdata) && p + 10 + |rdata| <= |buf|
  {
    hide StandsAt;
    var a, b, c, d := Be16(rtype), Be16(class_), Be32(ttl), Be16(Len16(|rdata|));
    StandsAtSplit(buf, p, a, b + (c + (d + rdata)));
    StandsAtSplit(buf, p + 2, b, c + (d + rdata));
    StandsAtSplit(buf, p + 4, c, d + rdata);
    StandsAtSplit(buf, p + 8, d, rdata);
    At16Stands(buf, p, rtype);
    At16Stands(buf, p + 2, class_);
    At32Stands(buf, p + 4, ttl);
    At16Stands(buf, p + 8, Len16(|rdata|));
    StandsAtFits(buf, p + 10, rdata);
  }

  lemma RecordParses(buf: Bytes, pos: nat, name: Name, p: nat, rtype: u16, class_: u16, ttl: u32, rdata: Bytes)
    requires NameAt(buf, pos) == Ok((name, p))
    requires |rdata| < 0x1_0000 && StandsAt(buf, p, TailBytes(rtype, class_, ttl, rdata))
    ensures p + 10 + |rdata| <= |buf|
    ensures var d := ParseRData(buf, p + 10, |rdata|, rtype);
      RecordAt(buf, pos) ==
        if d.Ok? then Ok((Record(name, rtype, class_, ttl, d.value), p + 10 + |rdata|)) else Err(d.error)
  {
    hide NameAt, StandsAt, TailBytes, ParseRData, U16At, U32At;
    TailFields(buf, p, rtype, class_, ttl, rdata);
  }

  lemma OptTail(r: Record)
    requires r.rtype == TYPE_OPT && r.data.Opt?
    ensures var payload := OptionsBytes(r.data.options);
      RecordTail(r).Some?
      && Be16(r.rtype) + RecordTail(r).value == TailBytes(TYPE_OPT, r.data.udpSize, PackedTtl(r.data), payload)
  {
    hide OptionsBytes;
    var payload := OptionsBytes(r.data.options);
    var a, b, c, d := Be16(r.rtype), Be16(r.data.udpSize), Be32(PackedTtl(r.data)), Be16(Len16(|payload|));
    assert a + (b + c + d + payload) == a + (b + (c + (d + payload)));
  }

  lemma PlainTail(r: Record)
    requires !r.data.Opt? && RDataBytes(r.data).Some?
    ensures RecordTail(r).Some?
      && Be16(r.rtype) + RecordTail(r).value == TailBytes(r.rtype, r.class_, r.ttl, RDataBytes(r.data).value)
  {
    hide RDataBytes;
    var rdata := RDataBytes(r.data).value;
    var a, b, c, d := Be16(r.rtype), Be16(r.class_), Be32(r.ttl), Be16(Len16(|rdata|));
    assert a + (b + c + d + rdata) == a + (b + (c + (d + rdata)));
  }

  lemma OptPayloadReads(buf: Bytes, start: nat, d: RData)
    requires d.Opt? && GoodRData(TYPE_OPT, d) && StandsAt(buf, start, OptionsBytes(d.options))
    requires start + |OptionsBytes(d.options)| <= |buf|
    ensures ParseRData(buf, start, |OptionsBytes(d.options)|, TYPE_OPT) == Ok(Opt(0, 0, 0, 0, d.options))
  {
    hide OptionsBytes, StandsAt;
    StandsAtSlice(buf, start, OptionsBytes(d.options));
    OptionsRead(d.options);
  }

  /** The fields a good record is written with. */
  function WireFields(r: Record): (u16, u32, Bytes) {
    if r.data.Opt? then (r.data.udpSize, PackedTtl(r.data), OptionsBytes(r.data.options))
    else (r.class_, r.ttl, if RDataBytes(r.data).Some? then RDataBytes(r.data).value else [])
  }

  lemma RecordTailShape(r: Record)
    requires GoodRecord(r) && SoaSafe(r)
    ensures RecordTail(r).Some?
    ensures var (class_, ttl, rdata) := WireFields(r);
      |rdata| < 0x1_0000 && Be16(r.rtype) + RecordTail(r).value == TailBytes(r.rtype, class_, ttl, rdata)
  {
    hide RecordTail, RDataBytes, OptionsBytes, TailBytes, GoodName, ShareSuffix;
    if r.data.Opt? {
      OptTail(r);
    } else {
      RDataEncodes(r.rtype, r.data);
      PlainTail(r);
    }
  }

  lemma TailReads(buf: Bytes, pos: nat, p: nat, r: Record)
    requires GoodRecord(r) && SoaSafe(r) && NameAt(buf, pos) == Ok((r.name, p))
    requires var (class_, ttl, rdata) := WireFields(r);
      StandsAt(buf, p, TailBytes(r.rtype, class_, ttl, rdata))
    ensures RecordAt(buf, pos) == Ok((Flattened(r), p + 10 + |WireFields(r).2|))
  {
    hide NameAt, StandsAt, TailBytes, RDataBytes, OptionsBytes, GoodName, ParseRData, RecordAt, ShareSuffix;
    var (class_, ttl, rdata) := WireFields(r);
    if r.data.Opt? {
      TailFields(buf, p, r.rtype, class_, ttl, rdata);
      OptPayloadReads(buf, p + 10, r.data);
      RecordParses(buf, pos, r.name, p, r.rtype, class_, ttl, rdata);
    } else {
      RDataEncodes(r.rtype, r.data);
      TailFields(buf, p, r.rtype, class_, ttl, rdata);
      RDataReads(buf, p + 10, r.rtype, r.data);
      RecordParses(buf, pos, r.name, p, r.rtype, class_, ttl, rdata);
    }
  }

  /** A good record is written, its owner name compressed against everything
      before it, and reads back from any buffer that starts with the output. */
  lemma RecordRoundTrip(e: Enc, r: Record, buf: Bytes)
    requires TableOk(e) && GoodRecord(r) && SoaSafe(r)
    requires PutRecord(e, r).Some? && PutRecord(e, r).value.out <= buf
    ensures e.out <= PutRecord(e, r).value.out && TableOk(PutRecord(e, r).value)
    ensures RecordAt(buf, |e.out|) == Ok((Flattened(r), |PutRecord(e, r).value.out|))
  {
    hide PutName, TableOk, GoodName, GoodRData, NameAt, StandsAt, TailBytes, RecordTail, RecordAt, Flattened,
      WireFields, SoaSafe;
    var w := PutName(e, r.name);
    var (class_, ttl, rdata) := WireFields(r);
    var tail := TailBytes(r.rtype, class_, ttl, rdata);
    RecordTailShape(r);
    TailLength(r.rtype, class_, ttl, rdata);
    assert w.enc.out <= w.enc.out + tail <= buf;
    NameRoundTrip(e, r.name, buf);
    TableGrows(w.enc, w.enc.out + tail);
    StandsAtEnd(w.enc.out, tail, buf);
    TailReads(buf, |e.out|, |w.enc.out|, r);
  }

  lemma TailLength(rtype: u16, class_: u16, ttl: u32, rdata: Bytes)
    ensures |TailBytes(rtype, class_, ttl, rdata)| == 10 + |rdata|
  {
  }

  // ---- questions -----------------------------------------------------------

  lemma QuestionRoundTrip(e: Enc, q: Question, buf: Bytes)
    requires TableOk(e) && GoodName(q.name)
    requires PutQuestion(e, q).Some? && PutQuestion(e, q).value.out <= buf
    ensures e.out <= PutQuestion(e, q).value.out && TableOk(PutQuestion(e, q).value)
    ensures QuestionAt(buf, |e.out|) == Ok((q, |PutQuestion(e, q).value.out|))
  {
    hide PutName, TableOk, GoodName, NameAt, StandsAt;
    var w := PutName(e, q.name);
    var tail := Be16(q.qtype) + Be16(q.qclass);
    assert w.enc.out <= w.enc.out + tail <= buf;
    NameRoundTrip(e, q.name, buf);
    TableGrows(w.enc, w.enc.out + tail);
    StandsAtEnd(w.enc.out, tail, buf);
    StandsAtSplit(buf, |w.enc.out|, Be16(q.qtype), Be16(q.qclass));
    At16Stands(buf, |w.enc.out|, q.qtype);
    At16Stands(buf, |w.enc.out| + 2, q.qclass);
  }

  lemma QuestionEncodes(e: Enc, q: Question)
    requires TableOk(e) && GoodName(q.name)
    ensures PutQuestion(e, q).Some?
  {
    hide PutName, TableOk, GoodName;
    NameRoundTrip(e, q.name, PutName(e, q.name).enc.out);
  }

  lemma {:induction false} QuestionsRoundTrip(e: Enc, qs: seq<Question>)
    requires TableOk(e) && forall q :: q in qs ==> GoodName(q.name)
    ensures PutQuestions(e, qs).Some?
    ensures e.out <= PutQuestions(e, qs).value.out && TableOk(PutQuestions(e, qs).value)
    ensures forall buf: Bytes :: PutQuestions(e, qs).value.out <= buf ==>
      QuestionsAt(buf, |e.out|, |qs|) == Ok((qs, |PutQuestions(e, qs).value.out|))
    decreases |qs|
  {
    hide TableOk, GoodName, PutQuestion, QuestionAt;
    if qs == [] {
    } else {
      var q, rest := qs[0], qs[1..];
      assert q in qs;
      QuestionEncodes(e, q);
      var next := PutQuestion(e, q).value;
      QuestionRoundTrip(e, q, next.out);
      QuestionsRoundTrip(next, rest);
      var end := PutQuestions(next, rest).value.out;
      forall buf: Bytes | end <= buf
        ensures QuestionsAt(buf, |e.out|, |qs|) == Ok((qs, |end|))
      {
        QuestionRoundTrip(e, q, buf);
        assert [q] + rest == qs;
      }
    }
  }

  // ---- the header ----------------------------------------------------------

  /** One binary digit of a number, from what stands above and below it. */
  lemma DigitAt(n: u16, weight: nat, high: nat, digit: nat, low: nat)
    requires weight > 0 && digit < 2 && low < weight && n == (2 * high + digit) * weight + low
    ensures FlagSet(n, weight) <==> digit == 1
  {
    assert (2 * high + digit) * weight <= n < (2 * high + digit + 1) * weight;
    DivIs(n, weight, 2 * high + digit);
  }

  lemma DivIs(n: nat, d: nat, q: nat)
    requires d > 0 && q * d <= n < (q + 1) * d
    ensures n / d == q
  {
    var k := n / d;
    assert k * d <= n < (k + 1) * d;
    Spaced(k, q, d);
    Spaced(q, k, d);
  }

  lemma Spaced(a: nat, b: nat, d: nat)
    ensures a < b ==> (a + 1) * d <= b * d
  {
    if a < b {
      assert (b - a - 1) * d >= 0;
    }
  }

  lemma UpperDigits(n: u16, qr: nat, op: nat, aa: nat, tc: nat, rd: nat, low: nat)
    requires qr < 2 && op < 0x10 && aa < 2 && tc < 2 && rd < 2 && low < 0x100
    requires n == qr * 0x8000 + op * 0x800 + aa * 0x400 + tc * 0x200 + rd * 0x100 + low
    ensures (FlagSet(n, 0x8000) <==> qr == 1) && n / 0x800 % 0x10 == op && (FlagSet(n, 0x400) <==> aa == 1)
    ensures (FlagSet(n, 0x200) <==> tc == 1) && (FlagSet(n, 0x100) <==> rd == 1)
  {
    hide FlagSet;
    DigitAt(n, 0x8000, 0, qr, op * 0x800 + aa * 0x400 + tc * 0x200 + rd * 0x100 + low);
    var h := qr * 0x10 + op;
    DivIs(n, 0x800, h);
    DigitAt(n, 0x400, h, aa, tc * 0x200 + rd * 0x100 + low);
    DigitAt(n, 0x200, 2 * h + aa, tc, rd * 0x100 + low);
    DigitAt(n, 0x100, 4 * h + 2 * aa + tc, rd, low);
  }

  lemma LowerDigits(n: u16, high: nat, ra: nat, ad: nat, cd: nat, rcode: nat)
    requires ra < 2 && ad < 2 && cd < 2 && rcode < 0x10
    requires n == high * 0x100 + ra * 0x80 + ad * 0x20 + cd * 0x10 + rcode
    ensures (FlagSet(n, 0x80) <==> ra == 1) && (FlagSet(n, 0x20) <==> ad == 1) && (FlagSet(n, 0x10) <==> cd == 1)
    ensures n % 0x10 == rcode
  {
    hide FlagSet;
    DigitAt(n, 0x80, high, ra, ad * 0x20 + cd * 0x10 + rcode);
    DigitAt(n, 0x20, 4 * high + 2 * ra, ad, cd * 0x10 + rcode);
    DigitAt(n, 0x10, 8 * high + 4 * ra + ad, cd, rcode);
  }

  lemma FlagBitsSum(h: Header)
    ensures FlagBits(h) ==
      Bit(h.qr, 1) * 0x8000 + h.opcode % 0x10 * 0x800 + Bit(h.aa, 1) * 0x400 + Bit(h.tc, 1) * 0x200 +
      Bit(h.rd, 1) * 0x100 + Bit(h.ra, 1) * 0x80 + Bit(h.ad, 1) * 0x20 + Bit(h.cd, 1) * 0x10 + h.rcode % 0x10
  {
  }

  lemma BitOne(b: bool)
    ensures Bit(b, 1) < 2 && (Bit(b, 1) == 1 <==> b)
  {
  }

  lemma UpperFlags(h: Header)
    ensures var n := FlagBits(h);
      && (FlagSet(n, 0x8000) <==> h.qr) && n / 0x800 % 0x10 == h.opcode % 0x10 && (FlagSet(n, 0x400) <==> h.aa)
      && (FlagSet(n, 0x200) <==> h.tc) && (FlagSet(n, 0x100) <==> h.rd)
  {
    hide FlagBits, FlagSet, Bit;
    FlagBitsSum(h);
    BitOne(h.qr);
    BitOne(h.aa);
    BitOne(h.tc);
    BitOne(h.rd);
    BitOne(h.ra);
    BitOne(h.ad);
    BitOne(h.cd);
    UpperDigits(FlagBits(h), Bit(h.qr, 1), h.opcode % 0x10, Bit(h.aa, 1), Bit(h.tc, 1), Bit(h.rd, 1),
      Bit(h.ra, 1) * 0x80 + Bit(h.ad, 1) * 0x20 + Bit(h.cd, 1) * 0x10 + h.rcode % 0x10);
  }

  lemma LowerFlags(h: Header)
    ensures var n := FlagBits(h);
      && (FlagSet(n, 0x80) <==> h.ra) && (FlagSet(n, 0x20) <==> h.ad) && (FlagSet(n, 0x10) <==> h.cd)
      && n % 0x10 == h.rcode % 0x10
  {
    hide FlagBits, FlagSet, Bit;
    FlagBitsSum(h);
    BitOne(h.ra);
    BitOne(h.ad);
    BitOne(h.cd);
    LowerDigits(FlagBits(h),
      Bit(h.qr, 1) * 0x80 + h.opcode % 0x10 * 8 + Bit(h.aa, 1) * 4 + Bit(h.tc, 1) * 2 + Bit(h.rd, 1),
      Bit(h.ra, 1), Bit(h.ad, 1), Bit(h.cd, 1), h.rcode % 0x10);
  }

  lemma FlagsRead(h: Header)
    ensures HeaderOf(h.id, FlagBits(h)) == h.(opcode := h.opcode % 0x10, rcode := h.rcode % 0x10)
  {
    hide FlagBits, FlagSet;
    UpperFlags(h);
    LowerFlags(h);
  }

  lemma HeaderReads(m: Message, buf: Bytes)
    requires HeaderBytes(m) <= buf
    ensures At16(buf, 0) == m.header.id && At16(buf, 2) == FlagBits(m.header)
    ensures At16(buf, 4) == Len16(|m.questions|) && At16(buf, 6) == Len16(|m.answers|)
    ensures At16(buf, 8) == Len16(|m.authority|) && At16(buf, 10) == Len16(|m.additional|)
  {
    hide FlagBits;
    var a, b := Be16(m.header.id), Be16(FlagBits(m.header));
    var c, d := Be16(Len16(|m.questions|)), Be16(Len16(|m.answers|));
    var e, f := Be16(Len16(|m.authority|)), Be16(Len16(|m.additional|));
    var w := HeaderBytes(m);
    assert w == a + b + c + d + e + f;
    assert forall i :: 0 <= i < 12 ==> buf[i] == w[i];
    assert w[0] == a[0] && w[1] == a[1] && w[2] == b[0] && w[3] == b[1] && w[4] == c[0] && w[5] == c[1];
    assert w[6] == d[0] && w[7] == d[1] && w[8] == e[0] && w[9] == e[1] && w[10] == f[0] && w[11] == f[1];
  }

  // ---- messages ------------------------------------------------------------

  lemma EmptyTable(out: Bytes)
    ensures TableOk(Enc(out, map[]))
  {
  }

  lemma GoodCounts(m: Message)
    requires GoodMessage(m)
    ensures Len16(|m.questions|) == |m.questions| && Len16(|m.answers|) == |m.answers|
    ensures Len16(|m.authority|) == |m.authority| && Len16(|m.additional|) == |m.additional|
  {
  }

  lemma FoldedRcodeLow(rcode: byte, rs: seq<Record>)
    ensures FoldedRcode(rcode % 0x10, rs) == FoldedRcode(rcode, rs)
  {
  }

  // ---- exactly which messages survive --------------------------------------

  /** An additional OPT's class and ttl repeat its packed fields. */
  predicate OptAgrees(r: Record) {
    r.data.Opt? ==> r.class_ == r.data.udpSize && r.ttl == PackedTtl(r.data)
  }

  /** An OPT in another section must leave its fields in class and ttl. */
  predicate OptBare(r: Record) {
    r.data.Opt? ==> r.class_ == 0 && r.ttl == 0 && r.data == Opt(0, 0, 0, 0, r.data.options)
  }

  /** Checkable before encoding: a 4-bit opcode, an rcode whose upper bits are
      the first OPT's extended rcode, OPT fields written twice consistently. */
  ghost predicate FieldsAgree(m: Message) {
    && m.header.opcode < 0x10
    && m.header.rcode == FoldedRcode(m.header.rcode, m.additional)
    && (forall r :: r in m.answers ==> OptBare(r))
    && (forall r :: r in m.authority ==> OptBare(r))
    && (forall r :: r in m.additional ==> OptAgrees(r))
  }

  lemma PackedFields(d: RData)
    requires d.Opt?
    ensures var t := PackedTtl(d);
      t / 0x100_0000 == d.extRcode && t / 0x1_0000 % 0x100 == d.version && t % 0x1_0000 == d.flags
  {
  }

  lemma RecoveredFlattened(r: Record)
    requires GoodRecord(r)
    ensures Recovered(Flattened(r)) ==
      if r.data.Opt? then r.(class_ := r.data.udpSize, ttl := PackedTtl(r.data)) else r
    ensures Recovered(Flattened(r)) == r <==> OptAgrees(r)
    ensures Flattened(r) == r <==> OptBare(r)
  {
    hide GoodName, RDataLength;
    if r.data.Opt? {
      PackedFields(r.data);
    }
  }

  lemma {:induction false} FlattenAllFixed(rs: seq<Record>)
    requires forall r :: r in rs ==> GoodRecord(r)
    ensures FlattenAll(rs) == rs <==> forall r :: r in rs ==> OptBare(r)
    ensures RecoverAll(FlattenAll(rs)) == rs <==> forall r :: r in rs ==> OptAgrees(r)
  {
    hide GoodRecord, OptBare, OptAgrees, Flattened, Recovered;
    if rs == [] {
    } else {
      assert rs[0] in rs;
      RecoveredFlattened(rs[0]);
      FlattenAllFixed(rs[1..]);
      assert FlattenAll(rs)[0] == Flattened(rs[0]) && FlattenAll(rs)[1..] == FlattenAll(rs[1..]);
      assert RecoverAll(FlattenAll(rs))[0] == Recovered(Flattened(rs[0]));
      assert RecoverAll(FlattenAll(rs))[1..] == RecoverAll(FlattenAll(rs[1..]));
      assert rs == [rs[0]] + rs[1..];
      assert forall r :: r in rs <==> r == rs[0] || r in rs[1..];
    }
  }

  lemma {:induction false} RcodeSeesNoClass(rcode: byte, rs: seq<Record>)
    requires forall r :: r in rs ==> GoodRecord(r)
    ensures FoldedRcode(rcode, RecoverAll(FlattenAll(rs))) == FoldedRcode(rcode, rs)
  {
    hide GoodName, RDataLength;
    if rs == [] {
    } else {
      assert rs[0] in rs;
      RecoveredFlattened(rs[0]);
      RcodeSeesNoClass(rcode, rs[1..]);
      assert RecoverAll(FlattenAll(rs))[0] == Recovered(Flattened(rs[0]));
      assert RecoverAll(FlattenAll(rs))[1..] == RecoverAll(FlattenAll(rs[1..]));
    }
  }
}
