/** Serving a cached message under another client's id. */
module CacheHit {
  import opened Octets
  import opened Results
  import opened Names
  import opened Compression
  import opened Messages
  import opened RoundTrip
  import opened MessageRoundTrip

  /** The bytes with the id field replaced; too short a buffer is left alone. */
  function Patched(s: Bytes, id: u16): (r: Bytes)
    ensures |r| == |s|
  {
    if |s| >= 2 then Be16(id) + s[2..] else s
  }

  method PatchId(bytes: array<byte>, id: u16)
    modifies bytes
    ensures bytes[..] == Patched(old(bytes[..]), id)
  {
    if bytes.Length >= 2 {
      bytes[0] := id / 0x100;
      bytes[1] := id % 0x100;
    }
  }

  /** Two encoder states that differ at most in the first two bytes. */
  predicate Twins(a: Enc, b: Enc) {
    |a.out| == |b.out| && |a.out| >= 2 && a.out[2..] == b.out[2..] && a.names == b.names
  }

  lemma TwinsAppend(a: Enc, b: Enc, more: Bytes)
    requires Twins(a, b)
    ensures Twins(Append(a, more), Append(b, more))
  {
    assert (a.out + more)[2..] == a.out[2..] + more;
    assert (b.out + more)[2..] == b.out[2..] + more;
  }

  lemma {:induction false} TwinLabels(a: Bytes, b: Bytes, ls: seq<Names.Label>)
    requires |a| == |b| && |a| >= 2 && a[2..] == b[2..]
    ensures var x, y := PutLabels(a, ls), PutLabels(b, ls);
      x.1 == y.1 && |x.0| == |y.0| && |x.0| >= 2 && x.0[2..] == y.0[2..]
    decreases |ls|
  {
    if ls == [] {
    } else if |ls[0]| <= 63 {
      var w := OneLabel(ls[0]);
      assert (a + w)[2..] == a[2..] + w && (b + w)[2..] == b[2..] + w;
      TwinLabels(a + w, b + w, ls[1..]);
    }
  }

  lemma {:induction false} TwinFull(a: Enc, b: Enc, ls: seq<Names.Label>)
    requires Twins(a, b)
    ensures PutFull(a, ls).ok == PutFull(b, ls).ok && Twins(PutFull(a, ls).enc, PutFull(b, ls).enc)
    decreases |ls|
  {
    if ls == [] {
      TwinsAppend(a, b, [0]);
    } else if |ls[0]| <= 63 {
      TwinsAppend(a, b, OneLabel(ls[0]));
      TwinFull(PutOne(a, ls), PutOne(b, ls), ls[1..]);
    }
  }

  lemma TwinName(a: Enc, b: Enc, name: Names.Name)
    requires Twins(a, b)
    ensures PutName(a, name).ok == PutName(b, name).ok && Twins(PutName(a, name).enc, PutName(b, name).enc)
  {
    hide NameLabels, Dotted, PutFull, PutLabels, PointerBytes;
    var ls := NameLabels(name);
    var k := FindSuffix(a.names, ls, 0);
    if k < |ls| {
      var off := a.names[Dotted(ls[k..])];
      TwinLabels(a.out, b.out, ls[..k]);
      var x, y := PutLabels(a.out, ls[..k]), PutLabels(b.out, ls[..k]);
      TwinsAppend(a.(out := x.0), b.(out := y.0), PointerBytes(off));
    } else {
      TwinFull(a, b, ls);
    }
  }

  predicate TwinOptions(a: Option<Enc>, b: Option<Enc>) {
    a.Some? == b.Some? && (a.Some? ==> Twins(a.value, b.value))
  }

  lemma TwinRecord(a: Enc, b: Enc, r: Record)
    requires Twins(a, b)
    ensures TwinOptions(PutRecord(a, r), PutRecord(b, r))
  {
    hide PutName, RecordTail, Twins;
    TwinName(a, b, r.name);
    if RecordTail(r).Some? {
      TwinsAppend(PutName(a, r.name).enc, PutName(b, r.name).enc, Be16(r.rtype) + RecordTail(r).value);
    }
  }

  lemma {:induction false} TwinRecords(a: Enc, b: Enc, rs: seq<Record>)
    requires Twins(a, b)
    ensures TwinOptions(PutRecords(a, rs), PutRecords(b, rs))
    decreases |rs|
  {
    hide PutRecord, Twins;
    if rs == [] {
    } else {
      TwinRecord(a, b, rs[0]);
      if PutRecord(a, rs[0]).Some? {
        TwinRecords(PutRecord(a, rs[0]).value, PutRecord(b, rs[0]).value, rs[1..]);
      }
    }
  }

  lemma {:induction false} TwinQuestions(a: Enc, b: Enc, qs: seq<Question>)
    requires Twins(a, b)
    ensures TwinOptions(PutQuestions(a, qs), PutQuestions(b, qs))
    decreases |qs|
  {
    hide PutName, Twins;
    if qs == [] {
    } else {
      var q := qs[0];
      TwinName(a, b, q.name);
      TwinsAppend(PutName(a, q.name).enc, PutName(b, q.name).enc, Be16(q.qtype) + Be16(q.qclass));
      if PutQuestion(a, q).Some? {
        TwinQuestions(PutQuestion(a, q).value, PutQuestion(b, q).value, qs[1..]);
      }
    }
  }

  lemma TwinBody(a: Enc, b: Enc, m: Message)
    requires Twins(a, b)
    ensures TwinOptions(PutBody(a, m), PutBody(b, m))
  {
    hide PutQuestions, PutRecords, Twins;
    TwinQuestions(a, b, m.questions);
    var qa, qb := PutQuestions(a, m.questions), PutQuestions(b, m.questions);
    if qa.Some? {
      TwinRecords(qa.value, qb.value, m.answers);
      var aa, ab := PutRecords(qa.value, m.answers), PutRecords(qb.value, m.answers);
      if aa.Some? {
        TwinRecords(aa.value, ab.value, m.authority);
        var na, nb := PutRecords(aa.value, m.authority), PutRecords(ab.value, m.authority);
        if na.Some? {
          TwinRecords(na.value, nb.value, m.additional);
        }
      }
    }
  }

  lemma TwinHeaders(m: Message, id: u16)
    ensures var h, g := HeaderBytes(m), HeaderBytes(m.(header := m.header.(id := id)));
      h[2..] == g[2..] && g[..2] == Be16(id)
  {
    hide FlagBits;
    var m' := m.(header := m.header.(id := id));
    assert FlagBits(m'.header) == FlagBits(m.header) by {
      FlagsIgnoreId(m.header, id);
    }
    var rest := Be16(FlagBits(m.header)) + Be16(Len16(|m.questions|)) + Be16(Len16(|m.answers|))
      + Be16(Len16(|m.authority|)) + Be16(Len16(|m.additional|));
    assert HeaderBytes(m) == Be16(m.header.id) + rest;
    assert HeaderBytes(m') == Be16(id) + rest;
  }

  lemma FlagsIgnoreId(h: Header, id: u16)
    ensures FlagBits(h.(id := id)) == FlagBits(h)
  {
  }

  lemma {:induction false} RecordsOnlyAppend(e: Enc, rs: seq<Record>)
    requires PutRecords(e, rs).Some?
    ensures e.out <= PutRecords(e, rs).value.out
    decreases |rs|
  {
    hide PutName, RecordTail;
    if rs == [] {
    } else {
      NameOnlyAppends(e, rs[0].name);
      RecordsOnlyAppend(PutRecord(e, rs[0]).value, rs[1..]);
    }
  }

  lemma {:induction false} QuestionsOnlyAppend(e: Enc, qs: seq<Question>)
    requires PutQuestions(e, qs).Some?
    ensures e.out <= PutQuestions(e, qs).value.out
    decreases |qs|
  {
    hide PutName;
    if qs == [] {
    } else {
      NameOnlyAppends(e, qs[0].name);
      QuestionsOnlyAppend(PutQuestion(e, qs[0]).value, qs[1..]);
    }
  }

  lemma {:induction false} FullOnlyAppends(e: Enc, ls: seq<Names.Label>)
    ensures e.out <= PutFull(e, ls).enc.out
    decreases |ls|
  {
    if ls == [] {
    } else if |ls[0]| <= 63 {
      FullOnlyAppends(PutOne(e, ls), ls[1..]);
    }
  }

  lemma NameOnlyAppends(e: Enc, name: Names.Name)
    ensures e.out <= PutName(e, name).enc.out
  {
    hide NameLabels, Dotted, PutFull, PutLabels, PointerBytes;
    var ls := NameLabels(name);
    FullOnlyAppends(e, ls);
    PutLabelsAppends(e.out, ls[..FindSuffix(e.names, ls, 0)]);
  }

  /** Patching the id of an encoded message gives the encoding of the message
      with that id: for every message, good or not. */
  lemma PatchedEncoding(m: Message, id: u16)
    ensures var m' := m.(header := m.header.(id := id));
      && Encode(m').Some? == Encode(m).Some?
      && (Encode(m).Some? ==> Patched(Encode(m).value, id) == Encode(m').value)
  {
    hide HeaderBytes, PutQuestions, PutRecords;
    var m' := m.(header := m.header.(id := id));
    var a, b := Enc(HeaderBytes(m), map[]), Enc(HeaderBytes(m'), map[]);
    TwinHeaders(m, id);
    TwinBody(a, b, m);
    assert PutBody(b, m') == PutBody(b, m);
    if Encode(m).Some? {
      BodyOnlyAppends(b, m);
      var out := PutBody(b, m).value.out;
      assert out[..2] == b.out[..2];
      assert out == out[..2] + out[2..];
    }
  }

  lemma BodyOnlyAppends(e: Enc, m: Message)
    requires PutBody(e, m).Some?
    ensures e.out <= PutBody(e, m).value.out
  {
    hide PutQuestions, PutRecords;
    QuestionsOnlyAppend(e, m.questions);
    var q := PutQuestions(e, m.questions).value;
    RecordsOnlyAppend(q, m.answers);
    var an := PutRecords(q, m.answers).value;
    RecordsOnlyAppend(an, m.authority);
    RecordsOnlyAppend(PutRecords(an, m.authority).value, m.additional);
  }

  /** A cached hit parses to the stored message with only its id changed,
      exactly when the stored message's fields agree and its SOA records survive
      under the new id. */
  lemma CacheHitParses(m: Message, id: u16)
    requires GoodMessage(m)
    ensures Encode(m).Some?
    ensures var bytes := Patched(Encode(m).value, id);
      Parse(bytes) == Ok(m.(header := m.header.(id := id))) <==> FieldsAgree(m) && SoasSurvive(bytes, m)
  {
    hide GoodRecords, GoodQuestions, Encode, Parse, FoldedRcode, OptBare, OptAgrees, Patched, AllSoasSurvive;
    RoundTripExactly(m);
    PatchedEncoding(m, id);
    RoundTripExactly(m.(header := m.header.(id := id)));
  }
}
