/** The encoder as it runs: it appends to `out` and records suffix offsets. */
module DnsEncoder {
  import opened Octets
  import opened Results
  import opened Names
  import opened Compression
  import opened Messages

  class Encoder {
    var out: Bytes
    var nameMap: map<Name, u16>

    function View(): Enc
      reads this
    {
      Enc(out, nameMap)
    }

    constructor ()
      ensures View() == EMPTY
    {
      out := [];
      nameMap := map[];
    }

    method Emit(more: Bytes)
      modifies this
      ensures View() == Append(old(View()), more)
    {
      out := out + more;
    }

    method WriteName(name: Name) returns (ok: bool)
      modifies this
      ensures Wrote(View(), ok) == PutName(old(View()), name)
    {
      hide CanonicalName, TrimDots, Split, Join, PointerBytes;
      var c := CanonicalName(name);
      if c == ROOT {
        out := out + [0];
        return true;
      }
      var labels := Split(TrimDots(c));
      assert labels == NameLabels(name);
      var i := 0;
      while i < |labels|
        invariant 0 <= i <= |labels|
        invariant FindSuffix(nameMap, labels, 0) == FindSuffix(nameMap, labels, i)
      {
        var suffix := Dotted(labels[i..]);
        if suffix in nameMap {
          var off := nameMap[suffix];
          ok := WriteLabels(labels[..i]);
          if ok {
            out := out + PointerBytes(off);
          }
          return;
        }
        i := i + 1;
      }
      ok := WriteInFull(labels);
    }

    /** The labels before a pointer. */
    method WriteLabels(labels: seq<Label>) returns (ok: bool)
      modifies `out
      ensures (out, ok) == PutLabels(old(out), labels)
    {
      var i := 0;
      while i < |labels|
        invariant 0 <= i <= |labels|
        invariant PutLabels(out, labels[i..]) == PutLabels(old(out), labels)
      {
        assert labels[i..][1..] == labels[i + 1..];
        if |labels[i]| > 63 {
          return false;
        }
        out := out + OneLabel(labels[i]);
        i := i + 1;
      }
      ok := true;
    }

    method WriteInFull(labels: seq<Label>) returns (ok: bool)
      modifies this
      ensures Wrote(View(), ok) == PutFull(old(View()), labels)
    {
      hide Join;
      var i := 0;
      while i < |labels|
        invariant 0 <= i <= |labels|
        invariant PutFull(View(), labels[i..]) == PutFull(old(View()), labels)
      {
        assert labels[i..][1..] == labels[i + 1..] && labels[i..][0] == labels[i];
        if |labels[i]| > 63 {
          return false;
        }
        var labelStart := |out|;
        out := out + OneLabel(labels[i]);
        if labelStart <= MAX_OFFSET {
          nameMap := nameMap[Dotted(labels[i..]) := labelStart];
        }
        i := i + 1;
      }
      out := out + [0];
      ok := true;
    }

    /** A failed write leaves what it had already emitted; the message is then
        given up. */
    method WriteQuestion(q: Question) returns (ok: bool)
      modifies this
      ensures ok == PutQuestion(old(View()), q).Some?
      ensures ok ==> View() == PutQuestion(old(View()), q).value
    {
      hide PutName;
      ok := WriteName(q.name);
      if ok {
        ghost var e := View();
        Emit(Be16(q.qtype));
        Emit(Be16(q.qclass));
        assert e.out + Be16(q.qtype) + Be16(q.qclass) == e.out + (Be16(q.qtype) + Be16(q.qclass));
      }
    }

    method WriteRecord(r: Record) returns (ok: bool)
      modifies this
      ensures ok == PutRecord(old(View()), r).Some?
      ensures ok ==> View() == PutRecord(old(View()), r).value
    {
      hide PutName, RDataBytes, OptionsBytes;
      ok := WriteName(r.name);
      if !ok {
        return;
      }
      ghost var e := View();
      Emit(Be16(r.rtype));
      if r.rtype == TYPE_OPT && r.data.Opt? {
        Emit(Be16(r.data.udpSize));
        Emit(Be32(PackedTtl(r.data)));
        var payload := EncodeOptions(r.data.options);
        Emit(Be16(Len16(|payload|)));
        Emit(payload);
        Regroup(e.out, Be16(r.rtype), Be16(r.data.udpSize), Be32(PackedTtl(r.data)), Be16(Len16(|payload|)), payload);
        return;
      }
      Emit(Be16(r.class_));
      Emit(Be32(r.ttl));
      var rdata := EncodeRData(r.data);
      if rdata.None? {
        return false;
      }
      Emit(Be16(Len16(|rdata.value|)));
      Emit(rdata.value);
      Regroup(e.out, Be16(r.rtype), Be16(r.class_), Be32(r.ttl), Be16(Len16(|rdata.value|)), rdata.value);
    }
  }

  lemma Regroup(out: Bytes, a: Bytes, b: Bytes, c: Bytes, d: Bytes, f: Bytes)
    ensures out + a + b + c + d + f == out + (a + (b + c + d + f))
  {
  }

  method EncodeOptions(options: seq<OptOption>) returns (out: Bytes)
    ensures out == OptionsBytes(options)
  {
    out := [];
    for i := 0 to |options|
      invariant out + OptionsBytes(options[i..]) == OptionsBytes(options)
    {
      var o := options[i];
      assert options[i..][0] == o && options[i..][1..] == options[i + 1..];
      out := out + OptionBytes(o);
    }
    assert options[|options|..] == [];
  }

  method EncodeTxt(strings: seq<Bytes>) returns (out: Bytes)
    ensures out == TxtBytes(strings)
  {
    out := [];
    for i := 0 to |strings|
      invariant out + TxtBytes(strings[i..]) == TxtBytes(strings)
    {
      var s := strings[i];
      assert strings[i..][0] == s && strings[i..][1..] == strings[i + 1..];
      out := out + [Len8(s)] + s;
    }
    assert strings[|strings|..] == [];
  }

  method EncodeNameAlone(name: Name) returns (r: Option<Bytes>)
    ensures r == NameAlone(name)
  {
    hide PutName;
    var tmp := new Encoder();
    var ok := tmp.WriteName(name);
    r := if ok then Some(tmp.out) else None;
  }

  method EncodeSoaNames(mname: Name, rname: Name) returns (r: Option<Bytes>)
    ensures r == SoaNames(mname, rname)
  {
    hide PutName;
    var tmp := new Encoder();
    var ok := tmp.WriteName(mname);
    if !ok {
      return None;
    }
    ok := tmp.WriteName(rname);
    r := if ok then Some(tmp.out) else None;
  }

  method EncodeRData(d: RData) returns (r: Option<Bytes>)
    ensures r == RDataBytes(d)
  {
    hide NameAlone, SoaNames, SrvHead, RrsigHead, SoaTail, TxtBytes;
    match d
    case A(ip) => r := Some(ip);
    case Aaaa(ip) => r := Some(ip);
    case NameData(name) => r := EncodeNameAlone(name);
    case Mx(preference, exchange) =>
      var n := EncodeNameAlone(exchange);
      r := Wrap(Be16(preference), n, []);
    case Soa(mname, rname, _, _, _, _, _) =>
      var n := EncodeSoaNames(mname, rname);
      r := Wrap([], n, SoaTail(d));
    case Txt(strings) =>
      var s := EncodeTxt(strings);
      r := Some(s);
    case Srv(_, _, _, target) =>
      var n := EncodeNameAlone(target);
      r := Wrap(SrvHead(d), n, []);
    case Caa(flags, tag, value) => r := Some([flags, Len8(tag)] + tag + value);
    case Rrsig(_, _, _, _, _, _, _, signer, signature) =>
      var n := EncodeNameAlone(signer);
      r := Wrap(RrsigHead(d), n, signature);
    case Nsec(next, bitmaps) =>
      var n := EncodeNameAlone(next);
      r := Wrap([], n, bitmaps);
    case Raw(raw) => r := Some(raw);
    case Opt(_, _, _, _, _) => r := None;
  }

  method WriteRecords(enc: Encoder, rs: seq<Record>) returns (ok: bool)
    modifies enc
    ensures ok == PutRecords(old(enc.View()), rs).Some?
    ensures ok ==> enc.View() == PutRecords(old(enc.View()), rs).value
  {
    hide PutRecord;
    var i := 0;
    while i < |rs|
      invariant 0 <= i <= |rs|
      invariant PutRecords(enc.View(), rs[i..]) == PutRecords(old(enc.View()), rs)
    {
      assert rs[i..][0] == rs[i] && rs[i..][1..] == rs[i + 1..];
      ok := enc.WriteRecord(rs[i]);
      if !ok {
        return;
      }
      i := i + 1;
    }
    ok := true;
  }

  /** `Message::encode`. */
  method EncodeMessage(m: Message) returns (r: Option<Bytes>)
    ensures r == Encode(m)
  {
    hide PutRecords, PutQuestion, HeaderBytes;
    var enc := new Encoder();
    enc.Emit(HeaderBytes(m));
    assert enc.View() == Enc(HeaderBytes(m), map[]);
    ghost var e := enc.View();
    var i := 0;
    while i < |m.questions|
      invariant 0 <= i <= |m.questions|
      invariant PutQuestions(enc.View(), m.questions[i..]) == PutQuestions(e, m.questions)
    {
      assert m.questions[i..][0] == m.questions[i] && m.questions[i..][1..] == m.questions[i + 1..];
      var ok := enc.WriteQuestion(m.questions[i]);
      if !ok {
        return None;
      }
      i := i + 1;
    }
    var ok := WriteRecords(enc, m.answers);
    if !ok {
      return None;
    }
    ok := WriteRecords(enc, m.authority);
    if !ok {
      return None;
    }
    ok := WriteRecords(enc, m.additional);
    r := if ok then Some(enc.out) else None;
  }
}
