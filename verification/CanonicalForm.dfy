/** Messages whose names are not canonical: the encoder writes every name in its
    canonical form, so the round trip holds for them up to that form. */
module CanonicalForm {
  import opened Octets
  import opened Results
  import opened Names
  import opened NameForms
  import opened Compression
  import opened Messages
  import opened RoundTrip
  import opened MessageRoundTrip

  // ---- canonicalizing twice changes nothing --------------------------------

  lemma CanonicalTwice(name: Name)
    ensures CanonicalName(CanonicalName(name)) == CanonicalName(name)
  {
    hide CanonicalName, PartsOf, Folded;
    var p := CanonicalParts(name);
    var c := CanonicalName(name);
    var low := c[..|c| - 1];
    var q := NameParts([], low, [46], []);
    CanonicalPieces(name, p, q);
    assert PartsOf(c, q) && SameUpToCase(q.core, p.core);
    SameNameExactly(c, name);
  }

  lemma CanonicalPieces(name: Name, p: NameParts, q: NameParts)
    requires PartsOf(name, p) && CanonicalName(name) != []
    requires q == NameParts([], CanonicalName(name)[..|CanonicalName(name)| - 1], [46], [])
    ensures PartsOf(CanonicalName(name), q) && SameUpToCase(q.core, p.core)
  {
    hide CanonicalName;
    CanonicalFromParts(name, p);
    if p.core == [] {
      assert q.core == [];
    }
  }

  /** The encoder sees only the canonical form of a name. */
  lemma WritesCanonical(e: Enc, name: Name)
    ensures PutName(e, CanonicalName(name)) == PutName(e, name)
  {
    CanonicalTwice(name);
  }

  // ---- whole messages ------------------------------------------------------

  function CanonicalRData(d: RData): RData {
    match d
    case NameData(target) => NameData(CanonicalName(target))
    case Mx(preference, exchange) => Mx(preference, CanonicalName(exchange))
    case Soa(mname, rname, serial, refresh, retry, expire, minimum) =>
      Soa(CanonicalName(mname), CanonicalName(rname), serial, refresh, retry, expire, minimum)
    case Srv(priority, weight, port, target) => Srv(priority, weight, port, CanonicalName(target))
    case Rrsig(covered, algorithm, labels, ttl, expiration, inception, keyTag, signer, signature) =>
      Rrsig(covered, algorithm, labels, ttl, expiration, inception, keyTag, CanonicalName(signer), signature)
    case Nsec(next, bitmaps) => Nsec(CanonicalName(next), bitmaps)
    case _ => d
  }

  function CanonicalRecord(r: Record): Record {
    r.(name := CanonicalName(r.name), data := CanonicalRData(r.data))
  }

  function CanonicalRecords(rs: seq<Record>): seq<Record> {
    seq(|rs|, i requires 0 <= i < |rs| => CanonicalRecord(rs[i]))
  }

  function CanonicalQuestions(qs: seq<Question>): seq<Question> {
    seq(|qs|, i requires 0 <= i < |qs| => qs[i].(name := CanonicalName(qs[i].name)))
  }

  function CanonicalMessage(m: Message): Message {
    Message(m.header, CanonicalQuestions(m.questions), CanonicalRecords(m.answers), CanonicalRecords(m.authority),
            CanonicalRecords(m.additional))
  }

  lemma RDataSame(d: RData)
    ensures RDataBytes(CanonicalRData(d)) == RDataBytes(d)
  {
    hide PutName, CanonicalName;
    match d
    case NameData(target) => WritesCanonical(EMPTY, target);
    case Mx(_, exchange) => WritesCanonical(EMPTY, exchange);
    case Soa(mname, rname, _, _, _, _, _) =>
      WritesCanonical(EMPTY, mname);
      WritesCanonical(PutName(EMPTY, mname).enc, rname);
    case Srv(_, _, _, target) => WritesCanonical(EMPTY, target);
    case Rrsig(_, _, _, _, _, _, _, signer, _) => WritesCanonical(EMPTY, signer);
    case Nsec(next, _) => WritesCanonical(EMPTY, next);
    case _ =>
  }

  lemma RecordSame(e: Enc, r: Record)
    ensures PutRecord(e, CanonicalRecord(r)) == PutRecord(e, r)
  {
    hide PutName, CanonicalName, RDataBytes, OptionsBytes;
    WritesCanonical(e, r.name);
    RDataSame(r.data);
  }

  lemma {:induction false} RecordsSame(e: Enc, rs: seq<Record>)
    ensures PutRecords(e, CanonicalRecords(rs)) == PutRecords(e, rs)
    decreases |rs|
  {
    hide PutRecord, CanonicalRecord;
    if rs == [] {
    } else {
      RecordSame(e, rs[0]);
      assert CanonicalRecords(rs)[1..] == CanonicalRecords(rs[1..]);
      if PutRecord(e, rs[0]).Some? {
        RecordsSame(PutRecord(e, rs[0]).value, rs[1..]);
      }
    }
  }

  lemma {:induction false} QuestionsSame(e: Enc, qs: seq<Question>)
    ensures PutQuestions(e, CanonicalQuestions(qs)) == PutQuestions(e, qs)
    decreases |qs|
  {
    hide PutName, CanonicalName;
    if qs == [] {
    } else {
      WritesCanonical(e, qs[0].name);
      assert CanonicalQuestions(qs)[1..] == CanonicalQuestions(qs[1..]);
      if PutQuestion(e, qs[0]).Some? {
        QuestionsSame(PutQuestion(e, qs[0]).value, qs[1..]);
      }
    }
  }

  lemma EncodesCanonical(m: Message)
    ensures Encode(CanonicalMessage(m)) == Encode(m)
  {
    hide PutQuestions, PutRecords, CanonicalQuestions, CanonicalRecords, FlagBits;
    var e := Enc(HeaderBytes(m), map[]);
    assert HeaderBytes(CanonicalMessage(m)) == HeaderBytes(m) by {
      SameCounts(m);
    }
    QuestionsSame(e, m.questions);
    if PutQuestions(e, m.questions).Some? {
      var e1 := PutQuestions(e, m.questions).value;
      RecordsSame(e1, m.answers);
      if PutRecords(e1, m.answers).Some? {
        var e2 := PutRecords(e1, m.answers).value;
        RecordsSame(e2, m.authority);
        if PutRecords(e2, m.authority).Some? {
          RecordsSame(PutRecords(e2, m.authority).value, m.additional);
        }
      }
    }
  }

  lemma SameCounts(m: Message)
    ensures var c := CanonicalMessage(m);
      && |c.questions| == |m.questions| && |c.answers| == |m.answers|
      && |c.authority| == |m.authority| && |c.additional| == |m.additional|
  {
  }

  /** The round trip for names in any case, with or without the final dot: the
      message comes back with its names canonical, and otherwise unchanged
      exactly when its fields agree and its SOA records survive. */
  lemma RoundTripCanonical(m: Message)
    requires GoodMessage(CanonicalMessage(m))
    ensures Encode(m).Some?
    ensures var c := CanonicalMessage(m);
      Parse(Encode(m).value) == Ok(c) <==> FieldsAgree(c) && SoasSurvive(Encode(m).value, c)
  {
    hide GoodMessage, Encode, Parse, FieldsAgree, SoasSurvive, CanonicalMessage;
    EncodesCanonical(m);
    RoundTripExactly(CanonicalMessage(m));
  }
}
