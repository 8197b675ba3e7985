/** Whole messages, encoded and parsed. */
module MessageRoundTrip {
  import opened Octets
  import opened Results
  import opened Names
  import NameDecoding
  import opened Compression
  import opened Messages
  import opened RoundTrip
  import opened SoaRoundTrip

  // ---- one record, good or not ---------------------------------------------

  lemma SoaTailShape(r: Record)
    requires GoodRecord(r) && r.data.Soa? && ShareSuffix(r.data.mname, r.data.rname)
    ensures RDataBytes(r.data).Some? && RecordTail(r).Some?
  {
    hide GoodName, ShareSuffix, RDataBytes, LabelsBefore, PointerOf;
    SharedShape(r.data);
  }

  /** Every good record is written, and keeps the compression table right. */
  lemma RecordWritten(e: Enc, r: Record)
    requires TableOk(e) && GoodRecord(r)
    ensures PutRecord(e, r).Some?
    ensures e.out <= PutRecord(e, r).value.out && TableOk(PutRecord(e, r).value)
  {
    hide TableOk, GoodName, PutName, RecordTail, ShareSuffix, RDataLength;
    if SoaSafe(r) {
      RecordTailShape(r);
    } else {
      SoaTailShape(r);
    }
    var w := PutName(e, r.name);
    NameRoundTrip(e, r.name, w.enc.out);
    TableGrows(w.enc, w.enc.out + (Be16(r.rtype) + RecordTail(r).value));
  }

  /** It reads back exactly when its SOA does, and never past its end. */
  lemma RecordExactly(e: Enc, r: Record, buf: Bytes)
    requires TableOk(e) && GoodRecord(r)
    requires PutRecord(e, r).Some? && PutRecord(e, r).value.out <= buf
    ensures var x, end := RecordAt(buf, |e.out|), |PutRecord(e, r).value.out|;
      && (x.Ok? ==> x.value.1 == end)
      && (SoaSurvives(buf, r) ==> x == Ok((Flattened(r), end)))
      && (x.Ok? && (x.value.0 == r || Recovered(x.value.0) == r) ==> SoaSurvives(buf, r))
  {
    hide TableOk, GoodRecord, PutRecord, RecordAt, ShareSuffix, SpellsSuffix;
    if r.data.Soa? {
      SoaExactly(e, r, buf);
    } else {
      RecordRoundTrip(e, r, buf);
    }
  }

  // ---- a section -----------------------------------------------------------

  ghost predicate AllSoasSurvive(buf: Bytes, rs: seq<Record>) {
    forall r :: r in rs ==> SoaSurvives(buf, r)
  }

  lemma {:induction false} RecordsWritten(e: Enc, rs: seq<Record>)
    requires TableOk(e) && forall r :: r in rs ==> GoodRecord(r)
    ensures PutRecords(e, rs).Some?
    ensures e.out <= PutRecords(e, rs).value.out && TableOk(PutRecords(e, rs).value)
    decreases |rs|
  {
    hide TableOk, GoodRecord, PutRecord;
    if rs == [] {
    } else {
      assert rs[0] in rs;
      RecordWritten(e, rs[0]);
      RecordsWritten(PutRecord(e, rs[0]).value, rs[1..]);
    }
  }

  lemma {:induction false} RecordsExactly(e: Enc, rs: seq<Record>, buf: Bytes)
    requires TableOk(e) && forall r :: r in rs ==> GoodRecord(r)
    requires PutRecords(e, rs).Some? && PutRecords(e, rs).value.out <= buf
    ensures var x, end := RecordsAt(buf, |e.out|, |rs|), |PutRecords(e, rs).value.out|;
      && (x.Ok? ==> x.value.1 == end)
      && (AllSoasSurvive(buf, rs) ==> x == Ok((FlattenAll(rs), end)))
      && (x.Ok? && (x.value.0 == rs || RecoverAll(x.value.0) == rs) ==> AllSoasSurvive(buf, rs))
    decreases |rs|
  {
    hide TableOk, GoodRecord, PutRecord, RecordAt, Flattened, Recovered, SoaSurvives;
    if rs == [] {
    } else {
      var r, rest := rs[0], rs[1..];
      assert r in rs;
      assert forall t :: t in rs <==> t == r || t in rest;
      RecordWritten(e, r);
      var next := PutRecord(e, r).value;
      RecordsWritten(next, rest);
      RecordExactly(e, r, buf);
      RecordsExactly(next, rest, buf);
      HeadAndRest(buf, |e.out|, rs);
    }
  }

  /** A section parsed right is its first record and the rest parsed right. */
  lemma HeadAndRest(buf: Bytes, pos: nat, rs: seq<Record>)
    requires rs != []
    ensures var x, first := RecordsAt(buf, pos, |rs|), RecordAt(buf, pos);
      x.Ok? ==>
        && first.Ok?
        && var rest := RecordsAt(buf, first.value.1, |rs| - 1);
        && rest.Ok? && rest.value.1 == x.value.1
        && (x.value.0 == rs ==> first.value.0 == rs[0] && rest.value.0 == rs[1..])
        && (RecoverAll(x.value.0) == rs ==>
              Recovered(first.value.0) == rs[0] && RecoverAll(rest.value.0) == rs[1..])
  {
    hide RecordAt, Recovered;
    var x, first := RecordsAt(buf, pos, |rs|), RecordAt(buf, pos);
    if x.Ok? {
      var rest := RecordsAt(buf, first.value.1, |rs| - 1).value.0;
      assert x.value.0 == [first.value.0] + rest;
      assert x.value.0[0] == first.value.0 && x.value.0[1..] == rest;
    }
  }

  // ---- the message ---------------------------------------------------------

  ghost predicate SoasSurvive(buf: Bytes, m: Message) {
    AllSoasSurvive(buf, m.answers) && AllSoasSurvive(buf, m.authority) && AllSoasSurvive(buf, m.additional)
  }

  lemma BodyWritten(e: Enc, m: Message)
    requires TableOk(e) && GoodMessage(m)
    ensures PutBody(e, m).Some? && e.out <= PutBody(e, m).value.out
  {
    hide TableOk, GoodRecord, GoodName, PutQuestions, PutRecords;
    QuestionsRoundTrip(e, m.questions);
    var e1 := PutQuestions(e, m.questions).value;
    RecordsWritten(e1, m.answers);
    var e2 := PutRecords(e1, m.answers).value;
    RecordsWritten(e2, m.authority);
    RecordsWritten(PutRecords(e2, m.authority).value, m.additional);
  }

  /** The four sections as the parser meets them. */
  datatype Sections = Sections(
    qs: Result<(seq<Question>, nat), NameDecoding.ParseError>, an: Result<(seq<Record>, nat), NameDecoding.ParseError>,
    ns: Result<(seq<Record>, nat), NameDecoding.ParseError>, ar: Result<(seq<Record>, nat), NameDecoding.ParseError>)

  function EndOf<T>(r: Result<(T, nat), NameDecoding.ParseError>): nat {
    if r.Ok? then r.value.1 else 0
  }

  function SectionsAt(buf: Bytes, pos: nat, m: Message): Sections {
    var qs := QuestionsAt(buf, pos, |m.questions|);
    var an := RecordsAt(buf, EndOf(qs), |m.answers|);
    var ns := RecordsAt(buf, EndOf(an), |m.authority|);
    Sections(qs, an, ns, RecordsAt(buf, EndOf(ns), |m.additional|))
  }

  predicate SectionsMatch(s: Sections, m: Message) {
    && s.an.Ok? && s.an.value.0 == m.answers
    && s.ns.Ok? && s.ns.value.0 == m.authority
    && s.ar.Ok? && RecoverAll(s.ar.value.0) == m.additional
  }

  /** When every SOA reads, all sections do; when the sections read as written,
      every SOA does. */
  lemma BodyExactly(e: Enc, m: Message, buf: Bytes)
    requires TableOk(e) && GoodMessage(m) && PutBody(e, m).Some? && PutBody(e, m).value.out <= buf
    ensures var s := SectionsAt(buf, |e.out|, m);
      && s.qs.Ok? && s.qs.value.0 == m.questions
      && (SoasSurvive(buf, m) ==>
            s.an.Ok? && s.an.value.0 == FlattenAll(m.answers) &&
            s.ns.Ok? && s.ns.value.0 == FlattenAll(m.authority) &&
            s.ar.Ok? && s.ar.value.0 == FlattenAll(m.additional))
      && (SectionsMatch(s, m) ==> SoasSurvive(buf, m))
  {
    hide TableOk, GoodRecord, GoodName, PutQuestions, PutRecords, QuestionsAt, RecordsAt, FlattenAll, RecoverAll,
      AllSoasSurvive;
    QuestionsRoundTrip(e, m.questions);
    var e1 := PutQuestions(e, m.questions).value;
    RecordsWritten(e1, m.answers);
    var e2 := PutRecords(e1, m.answers).value;
    RecordsWritten(e2, m.authority);
    var e3 := PutRecords(e2, m.authority).value;
    RecordsWritten(e3, m.additional);
    RecordsExactly(e1, m.answers, buf);
    RecordsExactly(e2, m.authority, buf);
    RecordsExactly(e3, m.additional, buf);
  }

  /** What the parser makes of its sections. */
  lemma ParseSections(m: Message, buf: Bytes)
    requires GoodMessage(m) && HeaderBytes(m) <= buf
    ensures var s := SectionsAt(buf, 12, m);
      if s.qs.Ok? && s.an.Ok? && s.ns.Ok? && s.ar.Ok? then
        var additional := RecoverAll(s.ar.value.0);
        Parse(buf) == Ok(Message(
          m.header.(opcode := m.header.opcode % 0x10, rcode := FoldedRcode(m.header.rcode, additional)),
          s.qs.value.0, s.an.value.0, s.ns.value.0, additional))
      else Parse(buf).Err?
  {
    hide GoodQuestions, GoodRecords, GoodMessage, QuestionsAt, RecordsAt, RecoverAll, FoldedRcode, HeaderOf, FlagBits,
      HeaderBytes;
    HeaderReads(m, buf);
    FlagsRead(m.header);
    GoodCounts(m);
    var ar := SectionsAt(buf, 12, m).ar;
    if ar.Ok? {
      FoldedRcodeLow(m.header.rcode, RecoverAll(ar.value.0));
    }
  }

  lemma GoodBodies(m: Message)
    requires GoodMessage(m)
    ensures Encode(m).Some? && HeaderBytes(m) <= Encode(m).value
    ensures var s := SectionsAt(Encode(m).value, 12, m);
      && s.qs.Ok? && s.qs.value.0 == m.questions
      && (SoasSurvive(Encode(m).value, m) ==>
            s.an.Ok? && s.an.value.0 == FlattenAll(m.answers) &&
            s.ns.Ok? && s.ns.value.0 == FlattenAll(m.authority) &&
            s.ar.Ok? && s.ar.value.0 == FlattenAll(m.additional))
      && (SectionsMatch(s, m) ==> SoasSurvive(Encode(m).value, m))
  {
    hide GoodMessage, PutBody, SectionsAt, FlattenAll, RecoverAll, SoasSurvive, HeaderBytes;
    var e := Enc(HeaderBytes(m), map[]);
    EmptyTable(HeaderBytes(m));
    BodyWritten(e, m);
    BodyExactly(e, m, Encode(m).value);
  }

  /** Every good message encodes; when its SOA records read, it parses back to
      its normalized form: the same questions and records, names compressed
      across all four sections. */
  lemma ParseOfEncode(m: Message)
    requires GoodMessage(m)
    ensures Encode(m).Some?
    ensures SoasSurvive(Encode(m).value, m) ==> Parse(Encode(m).value) == Ok(Normalized(m))
  {
    hide GoodMessage, Encode, Parse, SectionsAt, FlattenAll, RecoverAll, FoldedRcode, SoasSurvive, HeaderBytes;
    GoodBodies(m);
    ParseSections(m, Encode(m).value);
  }

  /** A good message survives encoding and parsing exactly when its fields agree
      and every SOA whose names share a suffix is spelled right by chance. */
  lemma RoundTripExactly(m: Message)
    requires GoodMessage(m)
    ensures Encode(m).Some?
    ensures Parse(Encode(m).value) == Ok(m) <==> FieldsAgree(m) && SoasSurvive(Encode(m).value, m)
  {
    hide GoodRecord, GoodQuestions, Encode, Parse, FlattenAll, RecoverAll, FoldedRcode, OptBare, OptAgrees, SectionsAt,
      SoasSurvive, HeaderBytes;
    ParseOfEncode(m);
    GoodBodies(m);
    ParseSections(m, Encode(m).value);
    FlattenAllFixed(m.answers);
    FlattenAllFixed(m.authority);
    FlattenAllFixed(m.additional);
    RcodeSeesNoClass(m.header.rcode, m.additional);
  }

  /** No shared suffix, no chance needed. */
  lemma SafeSoasSurvive(buf: Bytes, m: Message)
    requires forall r :: r in m.answers + m.authority + m.additional ==> SoaSafe(r)
    ensures SoasSurvive(buf, m)
  {
    hide SpellsSuffix, ShareSuffix;
    assert forall r :: r in m.answers || r in m.authority || r in m.additional ==>
      r in m.answers + m.authority + m.additional;
  }

  /** The BADVERS reply (`badvers` in src/resolve/mod.rs) sets rcode 16 and
      carries no OPT record: it comes back as NOERROR, whatever was asked. */
  lemma BadversLost(id: u16, qs: seq<Question>)
    requires GoodQuestions(qs)
    ensures var h := Header(id, true, 0, false, false, false, false, false, false, 16);
      var m := Message(h, qs, [], [], []);
      GoodMessage(m) && Encode(m).Some? && Parse(Encode(m).value) == Ok(m.(header := h.(rcode := 0)))
  {
    hide Encode, Parse, GoodQuestions;
    var h := Header(id, true, 0, false, false, false, false, false, false, 16);
    var m := Message(h, qs, [], [], []);
    ParseOfEncode(m);
    SafeSoasSurvive(Encode(m).value, m);
  }
}
