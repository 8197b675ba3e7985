/** The message format as a grammar over the bytes of a buffer: which messages a
    buffer holds. Sections 4.1.1 to 4.1.4 of RFC 1035, section 6.1.3 of RFC 6891,
    with this parser's liberties: RDATA names may leave the RDATA, record types
    it does not know are opaque, and nothing need follow the last record.
    The parser succeeds exactly on the messages of this grammar. */
module WireGrammar {
  import opened Octets
  import opened Results
  import opened Names
  import opened NameDecoding
  import opened Messages

  // ---- names and numbers ---------------------------------------------------

  /** Every label followed by a dot. */
  function Labelled(ls: seq<Label>): Bytes {
    if ls == [] then [] else ls[0] + [46] + Labelled(ls[1..])
  }

  /** A name starting at `at` ends before `end`: after its root byte or its first
      pointer. */
  ghost predicate NameEnds(buf: Bytes, at: nat, end: nat)
    decreases |buf| - at
  {
    && at < |buf|
    && if buf[at] == 0 then end == at + 1
       else if buf[at] < 64 then NameEnds(buf, at + 1 + buf[at], end)
       else end == at + 2
  }

  /** Labels and pointers from `at` on spell the name, in at most 256 steps. */
  ghost predicate NameIs(buf: Bytes, at: nat, name: Name, end: nat) {
    exists ls: seq<Label>, steps: nat ::
      && steps <= 256 && Spells(buf, at, ls, steps)
      && name == (if ls == [] then [46] else Labelled(ls))
      && NameEnds(buf, at, end)
  }

  predicate Is16(buf: Bytes, at: nat, v: int) {
    at + 2 <= |buf| && v == buf[at + 1] + 256 * (buf[at] as int)
  }

  predicate Is32(buf: Bytes, at: nat, v: int) {
    && at + 4 <= |buf|
    && v == buf[at + 3] + 256 * (buf[at + 2] as int) + 65536 * (buf[at + 1] as int) + 16777216 * (buf[at] as int)
  }

  // ---- RDATA ---------------------------------------------------------------

  /** The strings with a length byte each, and nothing else. */
  predicate StringsAre(s: Bytes, strings: seq<Bytes>)
    decreases |strings|
  {
    if strings == [] then s == []
    else
      var n := |strings[0]|;
      s != [] && s[0] == n && 1 + n <= |s| && s[1..1 + n] == strings[0] && StringsAre(s[1 + n..], strings[1..])
  }

  /** The options with code and length each, and fewer than four bytes more. */
  predicate OptionsAre(s: Bytes, options: seq<OptOption>)
    decreases |options|
  {
    if options == [] then |s| < 4
    else
      var o := options[0];
      var n := |o.data|;
      && Is16(s, 0, o.code) && Is16(s, 2, n) && 4 + n <= |s| && s[4..4 + n] == o.data
      && OptionsAre(s[4 + n..], options[1..])
  }

  ghost predicate NameThere(buf: Bytes, at: nat, name: Name) {
    exists end: nat :: NameIs(buf, at, name, end)
  }

  /** A name that ends at or before `end`, and the bytes between. */
  ghost predicate NameThenRest(buf: Bytes, at: nat, name: Name, rest: Bytes, end: nat)
    requires end <= |buf|
  {
    exists p: nat :: NameIs(buf, at, name, p) && p <= end && rest == buf[p..end]
  }

  predicate SoaNumbers(buf: Bytes, q: nat, d: RData)
    requires d.Soa?
  {
    && Is32(buf, q, d.serial) && Is32(buf, q + 4, d.refresh) && Is32(buf, q + 8, d.retry)
    && Is32(buf, q + 12, d.expire) && Is32(buf, q + 16, d.minimum)
  }

  /** Two names in a row and five numbers, inside the buffer but not necessarily
      inside the RDATA. */
  ghost predicate SoaIs(buf: Bytes, at: nat, d: RData)
    requires d.Soa?
  {
    exists p: nat, q: nat :: NameIs(buf, at, d.mname, p) && NameIs(buf, p, d.rname, q) && SoaNumbers(buf, q, d)
  }

  ghost predicate RrsigIs(buf: Bytes, at: nat, len: nat, d: RData)
    requires d.Rrsig? && at + len <= |buf|
  {
    && len >= 18
    && Is16(buf, at, d.typeCovered) && d.algorithm == buf[at + 2] && d.labels == buf[at + 3]
    && Is32(buf, at + 4, d.originalTtl) && Is32(buf, at + 8, d.expiration) && Is32(buf, at + 12, d.inception)
    && Is16(buf, at + 16, d.keyTag)
    && NameThenRest(buf, at + 18, d.signer, d.signature, at + len)
  }

  ghost predicate CaaIs(s: Bytes, d: RData)
    requires d.Caa?
  {
    && |s| >= 2 + |d.tag|
    && s[0] == d.caaFlags && s[1] == |d.tag| && s[2..2 + |d.tag|] == d.tag && s[2 + |d.tag|..] == d.value
  }

  /** The RDATA of each type, by its number. A name in it is read from the whole
      buffer, so its pointers and labels may lie outside the RDATA. */
  ghost predicate RDataIs(buf: Bytes, at: nat, len: nat, rtype: int, d: RData)
    requires at + len <= |buf|
  {
    var s := buf[at..at + len];
    match rtype
    case 1 => len == 4 && d.A? && d.ip4 == s
    case 28 => len == 16 && d.Aaaa? && d.ip6 == s
    case 2 => d.NameData? && NameThere(buf, at, d.target)
    case 5 => d.NameData? && NameThere(buf, at, d.target)
    case 12 => d.NameData? && NameThere(buf, at, d.target)
    case 39 => d.NameData? && NameThere(buf, at, d.target)
    case 15 => len >= 2 && d.Mx? && Is16(buf, at, d.preference) && NameThere(buf, at + 2, d.exchange)
    case 6 => d.Soa? && SoaIs(buf, at, d)
    case 16 => d.Txt? && StringsAre(s, d.strings)
    case 33 =>
      && len >= 6 && d.Srv?
      && Is16(buf, at, d.priority) && Is16(buf, at + 2, d.weight) && Is16(buf, at + 4, d.port)
      && NameThere(buf, at + 6, d.target)
    case 257 => d.Caa? && CaaIs(s, d)
    case 46 => d.Rrsig? && RrsigIs(buf, at, len, d)
    case 47 => d.Nsec? && NameThenRest(buf, at, d.next, d.bitmaps, at + len)
    case 41 =>
      && d.Opt? && d.udpSize == 0 && d.extRcode == 0 && d.version == 0 && d.flags == 0
      && OptionsAre(s, d.options)
    case _ => d.Raw? && d.raw == s
  }

  // ---- questions, records, messages ----------------------------------------

  ghost predicate QuestionIs(buf: Bytes, at: nat, q: Question, end: nat) {
    exists p: nat ::
      NameIs(buf, at, q.name, p) && Is16(buf, p, q.qtype) && Is16(buf, p + 2, q.qclass) && end == p + 4
  }

  /** The owner name ends at `p`; ten bytes of fields, then the RDATA. */
  ghost predicate RecordFrom(buf: Bytes, p: nat, r: Record, end: nat) {
    && Is16(buf, p, r.rtype) && Is16(buf, p + 2, r.class_) && Is32(buf, p + 4, r.ttl)
    && p + 10 <= end <= |buf| && Is16(buf, p + 8, end - p - 10)
    && RDataIs(buf, p + 10, end - p - 10, r.rtype, r.data)
  }

  ghost predicate RecordIs(buf: Bytes, at: nat, r: Record, end: nat) {
    exists p: nat :: NameIs(buf, at, r.name, p) && RecordFrom(buf, p, r, end)
  }

  ghost predicate QuestionsAre(buf: Bytes, at: nat, qs: seq<Question>, end: nat)
    decreases |qs|
  {
    if qs == [] then end == at
    else exists p: nat :: QuestionIs(buf, at, qs[0], p) && QuestionsAre(buf, p, qs[1..], end)
  }

  ghost predicate RecordsAre(buf: Bytes, at: nat, rs: seq<Record>, end: nat)
    decreases |rs|
  {
    if rs == [] then end == at
    else exists p: nat :: RecordIs(buf, at, rs[0], p) && RecordsAre(buf, p, rs[1..], end)
  }

  /** An additional record as it stands in the buffer and as it is returned: an
      OPT record gets size, extended rcode, version and flags from its class and
      ttl. */
  predicate ReturnedAs(wire: Record, r: Record) {
    if wire.rtype == 41 && wire.data.Opt? then
      && r == wire.(data := r.data) && r.data.Opt? && r.data.options == wire.data.options
      && r.data.udpSize == wire.class_
      && wire.ttl == 16777216 * (r.data.extRcode as int) + 65536 * (r.data.version as int) + r.data.flags
    else r == wire
  }

  /** The first record of type OPT is number `i`. */
  predicate FirstOpt(rs: seq<Record>, i: int) {
    0 <= i < |rs| && rs[i].rtype == 41 && forall j :: 0 <= j < i ==> rs[j].rtype != 41
  }

  /** The extended rcode's low four bits of the first OPT record, or zero. */
  ghost predicate ExtendedBy(rs: seq<Record>, ext: int) {
    || (ext == 0 && forall r :: r in rs ==> r.rtype != 41)
    || exists i :: FirstOpt(rs, i) && ext == if rs[i].data.Opt? then rs[i].data.extRcode % 16 else 0
  }

  ghost predicate HeaderIs(buf: Bytes, h: Header, additional: seq<Record>)
    requires |buf| >= 12
  {
    && Is16(buf, 0, h.id)
    && h.qr == (buf[2] / 128 % 2 == 1) && h.opcode == buf[2] / 8 % 16
    && h.aa == (buf[2] / 4 % 2 == 1) && h.tc == (buf[2] / 2 % 2 == 1) && h.rd == (buf[2] % 2 == 1)
    && h.ra == (buf[3] / 128 % 2 == 1) && h.ad == (buf[3] / 32 % 2 == 1) && h.cd == (buf[3] / 16 % 2 == 1)
    && exists ext :: ExtendedBy(additional, ext) && h.rcode == buf[3] % 16 + 16 * ext
  }

  /** The sections follow the header, each with the count of records it says. */
  ghost predicate SectionsAre(buf: Bytes, m: Message, wire: seq<Record>) {
    && Is16(buf, 4, |m.questions|) && Is16(buf, 6, |m.answers|) && Is16(buf, 8, |m.authority|) && Is16(buf, 10, |wire|)
    && exists p: nat, q: nat, r: nat, end: nat ::
      && QuestionsAre(buf, 12, m.questions, p) && RecordsAre(buf, p, m.answers, q)
      && RecordsAre(buf, q, m.authority, r) && RecordsAre(buf, r, wire, end)
  }

  ghost predicate MessageIs(buf: Bytes, m: Message) {
    && |buf| >= 12
    && HeaderIs(buf, m.header, m.additional)
    && exists wire: seq<Record> ::
      && |wire| == |m.additional|
      && (forall i :: 0 <= i < |wire| ==> ReturnedAs(wire[i], m.additional[i]))
      && SectionsAre(buf, m, wire)
  }

  // ---- the parser meets the grammar: names ---------------------------------

  lemma {:induction false} LabelledIsDotted(ls: seq<Label>)
    requires ls != []
    ensures Labelled(ls) == Dotted(ls)
  {
    if |ls| == 1 {
      assert Labelled(ls[1..]) == [];
    } else {
      LabelledIsDotted(ls[1..]);
    }
  }

  lemma {:induction false} NameEndsExactly(buf: Bytes, at: nat, fuel: nat, end: nat)
    requires Walk(buf, at, fuel).Ok?
    ensures NameEnds(buf, at, end) <==> end == After(buf, at)
    decreases fuel
  {
    if 0 < buf[at] < 64 {
      NameEndsExactly(buf, at + 1 + buf[at], fuel - 1, end);
    }
  }

  lemma NameExactly(buf: Bytes, at: nat)
    ensures forall name, end: nat :: NameIs(buf, at, name, end) <==> NameAt(buf, at) == Ok((name, end))
    ensures NameAt(buf, at).Ok? ==> NameAt(buf, at).value.1 <= |buf|
  {
    hide Walk, After, Spells, Dotted, Labelled, NameEnds;
    NameAtMeetsGrammar(buf, at);
    forall name, end: nat | NameIs(buf, at, name, end) ensures NameAt(buf, at).Ok? {
      NameOfSpelling(buf, at, name, end);
    }
    if NameAt(buf, at).Ok? {
      var ls: seq<Label>, steps: nat :| steps <= StepLimit() && Spells(buf, at, ls, steps);
      var (name, end) := NameAt(buf, at).value;
      if ls != [] {
        LabelledIsDotted(ls);
      }
      forall e: nat ensures NameEnds(buf, at, e) <==> e == end {
        NameEndsExactly(buf, at, StepLimit(), e);
      }
      RootText();
      assert NameEnds(buf, at, end);
      assert NameIs(buf, at, name, end);
      forall name', end': nat | NameIs(buf, at, name', end') ensures name' == name && end' == end {
        NameOfSpelling(buf, at, name', end');
      }
    }
  }

  lemma RootText()
    ensures Dotted([]) == [46]
  {
  }

  lemma NameOfSpelling(buf: Bytes, at: nat, name: Name, end: nat)
    requires NameIs(buf, at, name, end)
    ensures NameAt(buf, at).Ok? && NameAt(buf, at).value.0 == name && NameEnds(buf, at, end)
  {
    hide Walk, After, Spells, Dotted, Labelled, NameEnds;
    NameAtMeetsGrammar(buf, at);
    var ls: seq<Label>, steps: nat :| steps <= 256 && Spells(buf, at, ls, steps)
      && name == (if ls == [] then [46] else Labelled(ls)) && NameEnds(buf, at, end);
    if ls != [] {
      LabelledIsDotted(ls);
    }
    RootText();
  }

  lemma NameThereExactly(buf: Bytes, at: nat)
    ensures forall name :: NameThere(buf, at, name) <==> NameAt(buf, at).Ok? && NameAt(buf, at).value.0 == name
  {
    hide NameIs, NameAt;
    NameExactly(buf, at);
  }

  lemma NameThenRestExactly(buf: Bytes, at: nat, name: Name, rest: Bytes, end: nat)
    requires end <= |buf|
    ensures NameThenRest(buf, at, name, rest, end) <==>
      (NameAt(buf, at).Ok? && NameAt(buf, at).value.0 == name
       && NameAt(buf, at).value.1 <= end && rest == buf[NameAt(buf, at).value.1..end])
  {
    hide NameIs, NameAt;
    NameExactly(buf, at);
  }

  // ---- names that do not parse ---------------------------------------------

  /** Following `n` labels and pointers leads from `at` to `p`. */
  predicate StepsTo(buf: Bytes, at: nat, n: nat, p: nat)
    decreases n
  {
    if n == 0 then p == at
    else
      && at < |buf|
      && ((1 <= buf[at] <= 63 && at + 1 + buf[at] <= |buf| && StepsTo(buf, at + 1 + buf[at], n - 1, p))
          || (buf[at] >= 192 && at + 1 < |buf| && StepsTo(buf, (buf[at] as int - 192) * 256 + buf[at + 1], n - 1, p)))
  }

  /** What is wrong at `p`, after `n` steps. */
  predicate NameFault(buf: Bytes, p: nat, n: nat, e: ParseError) {
    match e
    case NameLoop => n == 256
    case NamePastEnd => n < 256 && p >= |buf|
    case TruncatedPointer => n < 256 && p + 1 == |buf| && buf[p] >= 192
    case BadLabelLength => n < 256 && p < |buf| && 64 <= buf[p] < 192
    case BadLabel => n < 256 && p < |buf| && 1 <= buf[p] <= 63 && p + 1 + buf[p] > |buf|
    case _ => false
  }

  lemma {:induction false} WalkFault(buf: Bytes, at: nat, fuel: nat) returns (n: nat, p: nat)
    requires fuel <= 256 && Walk(buf, at, fuel).Err?
    ensures StepsTo(buf, at, n, p) && NameFault(buf, p, n + 256 - fuel, Walk(buf, at, fuel).error)
    decreases fuel
  {
    n, p := 0, at;
    if fuel > 0 && at < |buf| {
      var len := buf[at];
      if len >= 0xC0 && at + 1 < |buf| {
        var m, r := WalkFault(buf, PointerAt(buf, at), fuel - 1);
        n, p := m + 1, r;
      } else if 0 < len < 0x40 && at + 1 + len <= |buf| {
        var m, r := WalkFault(buf, at + 1 + len, fuel - 1);
        n, p := m + 1, r;
      }
    }
  }

  lemma FaultHere(buf: Bytes, at: nat, fuel: nat, e: ParseError)
    requires fuel <= 256 && NameFault(buf, at, 256 - fuel, e)
    ensures Walk(buf, at, fuel) == Err(e)
  {
  }

  lemma {:induction false} FaultFound(buf: Bytes, at: nat, fuel: nat, n: nat, p: nat, e: ParseError)
    requires n <= fuel <= 256 && StepsTo(buf, at, n, p) && NameFault(buf, p, n + 256 - fuel, e)
    ensures Walk(buf, at, fuel) == Err(e)
    decreases n
  {
    hide NameFault;
    if n == 0 {
      FaultHere(buf, at, fuel, e);
    } else {
      if buf[at] >= 192 {
        FaultFound(buf, PointerAt(buf, at), fuel - 1, n - 1, p, e);
      } else {
        FaultFound(buf, at + 1 + buf[at], fuel - 1, n - 1, p, e);
      }
    }
  }

  /** Reading a name fails exactly when labels and pointers lead to a fault of that
      kind in fewer than 256 steps, or to anything in 256. */
  lemma NameFailsExactly(buf: Bytes, at: nat, e: ParseError)
    ensures NameAt(buf, at) == Err(e) <==>
      exists n: nat, p: nat :: n <= 256 && StepsTo(buf, at, n, p) && NameFault(buf, p, n, e)
  {
    hide Walk, StepsTo, NameFault, After, Dotted;
    if NameAt(buf, at) == Err(e) {
      var n, p := WalkFault(buf, at, StepLimit());
      FaultInside(buf, p, n, e);
    }
    forall n: nat, p: nat | n <= 256 && StepsTo(buf, at, n, p) && NameFault(buf, p, n, e)
      ensures Walk(buf, at, StepLimit()) == Err(e)
    {
      FaultFound(buf, at, StepLimit(), n, p, e);
    }
  }

  lemma FaultInside(buf: Bytes, p: nat, n: nat, e: ParseError)
    ensures NameFault(buf, p, n, e) ==> n <= 256
  {
  }

  // ---- numbers and RDATA ---------------------------------------------------

  lemma Exactly16(buf: Bytes, at: nat)
    ensures forall v: u16 :: U16At(buf, at) == Ok(v) <==> Is16(buf, at, v)
    ensures forall v: int :: at + 2 <= |buf| ==> (v == At16(buf, at) <==> Is16(buf, at, v))
  {
  }

  lemma Exactly32(buf: Bytes, at: nat)
    ensures forall v: u32 :: U32At(buf, at) == Ok(v) <==> Is32(buf, at, v)
    ensures forall v: int :: at + 4 <= |buf| ==> (v == At32(buf, at) <==> Is32(buf, at, v))
  {
  }

  lemma {:induction false} StringsExactly(s: Bytes, strings: seq<Bytes>)
    ensures ParseTxt(s) == Ok(strings) <==> StringsAre(s, strings)
    decreases |strings|
  {
    if strings == [] {
    } else if s != [] && |s| - 1 >= s[0] {
      StringsExactly(s[1 + s[0]..], strings[1..]);
      assert strings == [strings[0]] + strings[1..];
      var rest := ParseTxt(s[1 + s[0]..]);
      if rest.Ok? {
        assert ([s[1..1 + s[0]]] + rest.value)[1..] == rest.value;
      }
    }
  }

  lemma {:induction false} OptionsExactly(s: Bytes, options: seq<OptOption>)
    ensures ParseOptions(s) == Ok(options) <==> OptionsAre(s, options)
    decreases |options|
  {
    hide At16;
    if options == [] {
    } else if |s| >= 4 && |s| - 4 >= At16(s, 2) {
      Exactly16(s, 0);
      Exactly16(s, 2);
      var n := At16(s, 2);
      OptionsExactly(s[4 + n..], options[1..]);
      assert options == [options[0]] + options[1..];
      var rest := ParseOptions(s[4 + n..]);
      if rest.Ok? {
        assert ([OptOption(At16(s, 0), s[4..4 + n])] + rest.value)[1..] == rest.value;
      }
    } else if |s| >= 4 {
      Exactly16(s, 2);
    }
  }

  lemma SoaNumbersExactly(buf: Bytes, q: nat, d: RData)
    requires d.Soa?
    ensures SoaNumbers(buf, q, d) <==>
      (q + 20 <= |buf|
       && d.serial == At32(buf, q) && d.refresh == At32(buf, q + 4) && d.retry == At32(buf, q + 8)
       && d.expire == At32(buf, q + 12) && d.minimum == At32(buf, q + 16))
  {
    hide At32;
    Exactly32(buf, q);
    Exactly32(buf, q + 4);
    Exactly32(buf, q + 8);
    Exactly32(buf, q + 12);
    Exactly32(buf, q + 16);
  }

  lemma SoaExactly(buf: Bytes, at: nat, d: RData)
    requires d.Soa?
    ensures ParseSoa(buf, at) == Ok(d) <==> SoaIs(buf, at, d)
  {
    hide NameAt, NameIs, At32, SoaNumbers;
    NameExactly(buf, at);
    if NameAt(buf, at).Ok? {
      var p := NameAt(buf, at).value.1;
      NameExactly(buf, p);
      if NameAt(buf, p).Ok? {
        SoaNumbersExactly(buf, NameAt(buf, p).value.1, d);
      }
    }
  }

  lemma RrsigExactly(buf: Bytes, at: nat, len: nat, d: RData)
    requires d.Rrsig? && at + len <= |buf|
    ensures ParseRrsig(buf, at, len) == Ok(d) <==> RrsigIs(buf, at, len, d)
  {
    hide NameAt, NameThenRest, At16, At32, Is16, Is32;
    if len >= 18 {
      Exactly16(buf, at);
      Exactly32(buf, at + 4);
      Exactly32(buf, at + 8);
      Exactly32(buf, at + 12);
      Exactly16(buf, at + 16);
      NameThenRestExactly(buf, at + 18, d.signer, d.signature, at + len);
    }
  }

  lemma CaaExactly(s: Bytes, d: RData)
    requires d.Caa?
    ensures ParseCaa(s) == Ok(d) <==> CaaIs(s, d)
  {
  }

  /** Two bytes of the RDATA are two bytes of the buffer. */
  lemma FieldInside(buf: Bytes, at: nat, len: nat, i: nat, v: int)
    requires at + len <= |buf| && i + 2 <= len
    ensures v == At16(buf[at..at + len], i) <==> Is16(buf, at + i, v)
  {
  }

  /** RDATA made of names: one name, MX and SRV. */
  lemma NamesExactly(buf: Bytes, at: nat, len: nat, rtype: u16, d: RData)
    requires at + len <= |buf| && (rtype in {2, 5, 12, 39, 15, 33})
    ensures ParseRData(buf, at, len, rtype) == Ok(d) <==> RDataIs(buf, at, len, rtype, d)
  {
    hide NameAt, NameThere, At16, Is16, ParseTxt, ParseOptions, ParseSoa, ParseRrsig, ParseNsec, ParseCaa;
    if rtype == 15 {
      NameThereExactly(buf, at + 2);
      if len >= 2 && d.Mx? {
        FieldInside(buf, at, len, 0, d.preference);
      }
    } else if rtype == 33 {
      NameThereExactly(buf, at + 6);
      if len >= 6 && d.Srv? {
        FieldInside(buf, at, len, 0, d.priority);
        FieldInside(buf, at, len, 2, d.weight);
        FieldInside(buf, at, len, 4, d.port);
      }
    } else {
      NameThereExactly(buf, at);
    }
  }

  /** RDATA parsing by type succeeds exactly on the grammar of the type. */
  lemma RDataExactly(buf: Bytes, at: nat, len: nat, rtype: u16, d: RData)
    requires at + len <= |buf|
    ensures ParseRData(buf, at, len, rtype) == Ok(d) <==> RDataIs(buf, at, len, rtype, d)
  {
    hide NameAt, NameThere, NameThenRest, At16, Is16, ParseTxt, ParseOptions, ParseSoa, ParseRrsig, ParseCaa, SoaIs,
      RrsigIs, CaaIs, StringsAre, OptionsAre;
    if rtype in {2, 5, 12, 39, 15, 33} {
      NamesExactly(buf, at, len, rtype, d);
    } else {
      OtherRData(buf, at, len, rtype, d);
    }
  }

  lemma OtherRData(buf: Bytes, at: nat, len: nat, rtype: u16, d: RData)
    requires at + len <= |buf| && !(rtype in {2, 5, 12, 39, 15, 33})
    ensures ParseRData(buf, at, len, rtype) == Ok(d) <==> RDataIs(buf, at, len, rtype, d)
  {
    hide NameAt, NameThere, NameThenRest, At16, Is16, ParseTxt, ParseOptions, ParseSoa, ParseRrsig, ParseCaa, SoaIs,
      RrsigIs, CaaIs, StringsAre, OptionsAre;
    var s := buf[at..at + len];
    SoaKind(buf, at);
    RrsigKind(buf, at, len);
    CaaKind(s);
    match d
    case Txt(strings) => StringsExactly(s, strings);
    case Opt(_, _, _, _, options) => OptionsExactly(s, options);
    case Soa(_, _, _, _, _, _, _) => SoaExactly(buf, at, d);
    case Rrsig(_, _, _, _, _, _, _, _, _) => RrsigExactly(buf, at, len, d);
    case Caa(_, _, _) => CaaExactly(s, d);
    case Nsec(next, bitmaps) => NameThenRestExactly(buf, at, next, bitmaps, at + len);
    case _ =>
  }

  lemma SoaKind(buf: Bytes, at: nat)
    ensures ParseSoa(buf, at).Ok? ==> ParseSoa(buf, at).value.Soa?
  {
    hide NameAt;
  }

  lemma RrsigKind(buf: Bytes, at: nat, len: nat)
    requires at + len <= |buf|
    ensures ParseRrsig(buf, at, len).Ok? ==> ParseRrsig(buf, at, len).value.Rrsig?
  {
    hide NameAt;
  }

  lemma CaaKind(s: Bytes)
    ensures ParseCaa(s).Ok? ==> ParseCaa(s).value.Caa?
  {
  }

  /** Unchecked indexing fails exactly when SOA numbers would leave the buffer, or
      when the name in an RRSIG or NSEC ends behind the RDATA. */
  ghost predicate RDataPanics(buf: Bytes, at: nat, len: nat, rtype: int) {
    || (rtype == 6 && exists m: Name, r: Name, p: nat, q: nat ::
          NameIs(buf, at, m, p) && NameIs(buf, p, r, q) && q + 20 > |buf|)
    || (rtype == 46 && len >= 18 && NameEndsBehind(buf, at + 18, at + len))
    || (rtype == 47 && NameEndsBehind(buf, at, at + len))
  }

  ghost predicate NameEndsBehind(buf: Bytes, at: nat, end: nat) {
    exists name: Name, p: nat :: NameIs(buf, at, name, p) && p > end
  }

  lemma {:induction false} NamesNeverPanic(buf: Bytes, at: nat, fuel: nat)
    ensures Walk(buf, at, fuel) != Err(Panic)
    decreases fuel
  {
    if fuel > 0 && at < |buf| {
      var len := buf[at];
      if len >= 0xC0 && at + 1 < |buf| {
        NamesNeverPanic(buf, PointerAt(buf, at), fuel - 1);
      } else if 0 < len < 0x40 && at + 1 + len <= |buf| {
        NamesNeverPanic(buf, at + 1 + len, fuel - 1);
      }
    }
  }

  lemma NameNeverPanics(buf: Bytes, at: nat)
    ensures NameAt(buf, at) != Err(Panic)
  {
    hide Walk, After, Dotted;
    NamesNeverPanic(buf, at, StepLimit());
  }

  lemma {:induction false} TxtNeverPanics(s: Bytes)
    ensures ParseTxt(s) != Err(Panic)
  {
    if s == [] {
    } else if |s| - 1 >= s[0] {
      TxtNeverPanics(s[1 + s[0]..]);
    }
  }

  lemma {:induction false} OptionsNeverPanic(s: Bytes)
    ensures ParseOptions(s) != Err(Panic)
  {
    if |s| >= 4 && |s| - 4 >= At16(s, 2) {
      OptionsNeverPanic(s[4 + At16(s, 2)..]);
    }
  }

  lemma EndsBehindExactly(buf: Bytes, at: nat, end: nat)
    ensures NameEndsBehind(buf, at, end) <==> NameAt(buf, at).Ok? && NameAt(buf, at).value.1 > end
    ensures NameAt(buf, at) != Err(Panic)
  {
    hide NameAt, NameIs;
    NameExactly(buf, at);
    NameNeverPanics(buf, at);
    if NameAt(buf, at).Ok? {
      assert NameIs(buf, at, NameAt(buf, at).value.0, NameAt(buf, at).value.1);
    }
  }

  lemma SoaPanics(buf: Bytes, at: nat)
    ensures ParseSoa(buf, at) == Err(Panic) <==> RDataPanics(buf, at, 0, 6)
  {
    hide NameAt, NameIs, NameEndsBehind;
    NameExactly(buf, at);
    NameNeverPanics(buf, at);
    if NameAt(buf, at).Ok? {
      var (m, p) := NameAt(buf, at).value;
      NameExactly(buf, p);
      NameNeverPanics(buf, p);
      if NameAt(buf, p).Ok? {
        var (r, q) := NameAt(buf, p).value;
        assert NameIs(buf, at, m, p) && NameIs(buf, p, r, q);
      }
    }
  }

  lemma RDataPanicsExactly(buf: Bytes, at: nat, len: nat, rtype: u16)
    requires at + len <= |buf|
    ensures ParseRData(buf, at, len, rtype) == Err(Panic) <==> RDataPanics(buf, at, len, rtype)
  {
    hide NameAt, NameIs, NameEndsBehind, ParseTxt, ParseOptions, ParseSoa, At16, At32;
    NameNeverPanics(buf, at);
    NameNeverPanics(buf, at + 2);
    NameNeverPanics(buf, at + 6);
    TxtNeverPanics(buf[at..at + len]);
    OptionsNeverPanic(buf[at..at + len]);
    SoaPanics(buf, at);
    EndsBehindExactly(buf, at, at + len);
    EndsBehindExactly(buf, at + 18, at + len);
  }

  // ---- questions and records -----------------------------------------------

  lemma QuestionExactly(buf: Bytes, at: nat)
    ensures forall q, end: nat :: QuestionIs(buf, at, q, end) <==> QuestionAt(buf, at) == Ok((q, end))
  {
    hide NameAt, NameIs, At16, Is16;
    NameExactly(buf, at);
    if NameAt(buf, at).Ok? {
      var p := NameAt(buf, at).value.1;
      Exactly16(buf, p);
      Exactly16(buf, p + 2);
    }
  }

  /** The part of `RecordAt` after the owner name. */
  function RecordRest(buf: Bytes, name: Name, p: nat): Result<(Record, nat), ParseError> {
    var rtype :- U16At(buf, p);
    var class_ :- U16At(buf, p + 2);
    var ttl :- U32At(buf, p + 4);
    var rdlen :- U16At(buf, p + 8);
    var start := p + 10;
    if start + rdlen > |buf| then Err(RdataPastEnd)
    else
      var data :- ParseRData(buf, start, rdlen, rtype);
      Ok((Record(name, rtype, class_, ttl, data), start + rdlen))
  }

  lemma RecordRestExactly(buf: Bytes, name: Name, p: nat, r: Record, end: nat)
    requires r.name == name
    ensures RecordFrom(buf, p, r, end) <==> RecordRest(buf, name, p) == Ok((r, end))
  {
    hide ParseRData, RDataIs, Is16, Is32;
    Exactly16(buf, p);
    Exactly16(buf, p + 2);
    Exactly32(buf, p + 4);
    Exactly16(buf, p + 8);
    if p + 10 <= end <= |buf| {
      RDataExactly(buf, p + 10, end - p - 10, r.rtype, r.data);
    }
  }

  lemma RecordExactly(buf: Bytes, at: nat, r: Record, end: nat)
    ensures RecordIs(buf, at, r, end) <==> RecordAt(buf, at) == Ok((r, end))
  {
    hide NameAt, NameIs, RecordFrom, ParseRData;
    NameExactly(buf, at);
    if NameAt(buf, at).Ok? {
      var (name, p) := NameAt(buf, at).value;
      if r.name == name {
        RecordRestExactly(buf, name, p, r, end);
      }
    }
  }

  lemma {:induction false} QuestionsExactly(buf: Bytes, at: nat, qs: seq<Question>, end: nat)
    ensures QuestionsAre(buf, at, qs, end) <==> QuestionsAt(buf, at, |qs|) == Ok((qs, end))
    decreases |qs|
  {
    hide QuestionAt, QuestionIs;
    if qs == [] {
    } else {
      QuestionExactly(buf, at);
      assert qs == [qs[0]] + qs[1..];
      if QuestionAt(buf, at).Ok? {
        var (q, p) := QuestionAt(buf, at).value;
        QuestionsExactly(buf, p, qs[1..], end);
        var rest := QuestionsAt(buf, p, |qs| - 1);
        if rest.Ok? {
          assert ([q] + rest.value.0)[1..] == rest.value.0;
        }
      }
    }
  }

  lemma {:induction false} RecordsExactly(buf: Bytes, at: nat, rs: seq<Record>, end: nat)
    ensures RecordsAre(buf, at, rs, end) <==> RecordsAt(buf, at, |rs|) == Ok((rs, end))
    decreases |rs|
  {
    hide RecordAt, RecordIs;
    if rs == [] {
    } else {
      forall p: nat ensures RecordIs(buf, at, rs[0], p) <==> RecordAt(buf, at) == Ok((rs[0], p)) {
        RecordExactly(buf, at, rs[0], p);
      }
      assert rs == [rs[0]] + rs[1..];
      if RecordAt(buf, at).Ok? {
        var (r, p) := RecordAt(buf, at).value;
        RecordsExactly(buf, p, rs[1..], end);
        var rest := RecordsAt(buf, p, |rs| - 1);
        if rest.Ok? {
          assert ([r] + rest.value.0)[1..] == rest.value.0;
        }
      }
    }
  }

  // ---- whole messages ------------------------------------------------------

  /** The flags of the first byte. */
  lemma HighFlags(hi: byte, lo: byte)
    ensures var flags := lo + 256 * (hi as int);
      && flags / 0x8000 == hi / 128 && flags / 0x800 == hi / 8
      && flags / 0x400 == hi / 4 && flags / 0x200 == hi / 2 && flags / 0x100 == hi
  {
  }

  lemma LowFlags(hi: byte, lo: byte)
    ensures var flags := lo + 256 * (hi as int);
      && flags / 0x80 == lo / 128 + 2 * (hi as int) && flags / 0x20 == lo / 32 + 2 * (4 * (hi as int))
      && flags / 0x10 == lo / 16 + 2 * (8 * (hi as int)) && flags % 0x10 == lo % 16
  {
  }

  lemma HighFlagBytes(hi: byte, lo: byte)
    ensures var flags := lo + 256 * (hi as int);
      && FlagSet(flags, 0x8000) == (hi / 128 % 2 == 1) && flags / 0x800 % 0x10 == hi / 8 % 16
      && FlagSet(flags, 0x400) == (hi / 4 % 2 == 1) && FlagSet(flags, 0x200) == (hi / 2 % 2 == 1)
      && FlagSet(flags, 0x100) == (hi % 2 == 1)
  {
    hide FlagSet;
    HighFlags(hi, lo);
    var flags := lo + 256 * (hi as int);
    FlagIs(flags, 0x8000, hi / 128, 0);
    FlagIs(flags, 0x400, hi / 4, 0);
    FlagIs(flags, 0x200, hi / 2, 0);
    FlagIs(flags, 0x100, hi, 0);
  }

  lemma LowFlagBytes(hi: byte, lo: byte)
    ensures var flags := lo + 256 * (hi as int);
      && FlagSet(flags, 0x80) == (lo / 128 % 2 == 1) && FlagSet(flags, 0x20) == (lo / 32 % 2 == 1)
      && FlagSet(flags, 0x10) == (lo / 16 % 2 == 1) && flags % 0x10 == lo % 16
  {
    hide FlagSet;
    LowFlags(hi, lo);
    var flags := lo + 256 * (hi as int);
    FlagIs(flags, 0x80, lo / 128, hi);
    FlagIs(flags, 0x20, lo / 32, 4 * (hi as int));
    FlagIs(flags, 0x10, lo / 16, 8 * (hi as int));
  }

  lemma FlagIs(flags: u16, weight: nat, digits: nat, above: nat)
    requires weight > 0 && flags / weight == digits + 2 * above
    ensures FlagSet(flags, weight) == (digits % 2 == 1)
  {
  }

  function Extension(rs: seq<Record>): int {
    if Edns(rs).Some? && Edns(rs).value.data.Opt? then Edns(rs).value.data.extRcode % 16 else 0
  }

  lemma {:induction false} ExtendedExactly(rs: seq<Record>, ext: int)
    ensures ExtendedBy(rs, ext) <==> ext == Extension(rs)
    decreases |rs|
  {
    if rs == [] {
    } else if rs[0].rtype == 41 {
      assert rs[0] in rs;
    } else {
      ExtendedExactly(rs[1..], ext);
      ExtendedTail(rs, ext);
    }
  }

  lemma FirstOptTail(rs: seq<Record>, i: int)
    requires rs != [] && rs[0].rtype != 41
    ensures FirstOpt(rs, i + 1) <==> FirstOpt(rs[1..], i)
  {
    var tail := rs[1..];
    assert forall j :: 0 <= j < |tail| ==> tail[j] == rs[j + 1];
    if FirstOpt(rs, i + 1) {
      assert rs[i + 1] == tail[i];
    }
  }

  lemma ExtendedTail(rs: seq<Record>, ext: int)
    requires rs != [] && rs[0].rtype != 41
    ensures ExtendedBy(rs, ext) <==> ExtendedBy(rs[1..], ext)
  {
    hide FirstOpt;
    var tail := rs[1..];
    assert forall r :: r in rs <==> r == rs[0] || r in tail;
    forall i ensures FirstOpt(rs, i) <==> FirstOpt(tail, i - 1) {
      FirstOptTail(rs, i - 1);
    }
    forall i ensures FirstOpt(tail, i) ==> 0 <= i < |tail| && FirstOpt(rs, i + 1) && rs[i + 1] == tail[i] {
      FirstOptTail(rs, i);
      FirstOptInside(tail, i);
    }
    forall i ensures FirstOpt(rs, i) ==> 0 <= i < |rs| {
      FirstOptInside(rs, i);
    }
  }

  lemma FirstOptInside(rs: seq<Record>, i: int)
    ensures FirstOpt(rs, i) ==> 0 <= i < |rs|
  {
  }

  lemma RcodeExactly(rcode: int, low: byte, additional: seq<Record>)
    requires low < 16
    ensures (exists ext :: ExtendedBy(additional, ext) && rcode == low + 16 * ext) <==>
      rcode == FoldedRcode(low, additional)
  {
    hide ExtendedBy, Edns;
    forall ext ensures ExtendedBy(additional, ext) <==> ext == Extension(additional) {
      ExtendedExactly(additional, ext);
    }
    assert ExtendedBy(additional, Extension(additional));
  }

  lemma HeaderExactly(buf: Bytes, h: Header, additional: seq<Record>)
    requires |buf| >= 12
    ensures var wire := HeaderOf(At16(buf, 0), At16(buf, 2));
      HeaderIs(buf, h, additional) <==> h == wire.(rcode := FoldedRcode(wire.rcode, additional))
  {
    hide FlagSet, ExtendedBy, FoldedRcode;
    HighFlagBytes(buf[2], buf[3]);
    LowFlagBytes(buf[2], buf[3]);
    RcodeExactly(h.rcode, buf[3] % 16, additional);
  }

  lemma OneRecovered(wire: Record, r: Record)
    ensures ReturnedAs(wire, r) <==> r == Recovered(wire)
  {
    if wire.rtype == 41 && wire.data.Opt? && r.data.Opt? {
      TtlParts(wire.ttl, r.data.extRcode, r.data.version, r.data.flags);
    }
  }

  lemma TtlParts(ttl: u32, a: byte, b: byte, c: u16)
    ensures ttl == 16777216 * (a as int) + 65536 * (b as int) + c <==>
      a == ttl / 0x100_0000 && b == ttl / 0x1_0000 % 0x100 && c == ttl % 0x1_0000
  {
  }

  lemma {:induction false} AllRecovered(wire: seq<Record>, rs: seq<Record>)
    requires |wire| == |rs|
    ensures (forall i :: 0 <= i < |wire| ==> ReturnedAs(wire[i], rs[i])) <==> rs == RecoverAll(wire)
    decreases |wire|
  {
    hide ReturnedAs, Recovered;
    if wire == [] {
    } else {
      OneRecovered(wire[0], rs[0]);
      AllRecovered(wire[1..], rs[1..]);
      assert rs == [rs[0]] + rs[1..];
      assert RecoverAll(wire)[1..] == RecoverAll(wire[1..]);
      assert (forall i :: 0 <= i < |wire| ==> ReturnedAs(wire[i], rs[i])) <==>
        (ReturnedAs(wire[0], rs[0]) && forall i :: 0 <= i < |wire| - 1 ==> ReturnedAs(wire[1..][i], rs[1..][i])) by {
        forall i | 0 < i < |wire| ensures wire[i] == wire[1..][i - 1] && rs[i] == rs[1..][i - 1] {
        }
      }
    }
  }

  lemma SectionsExactly(buf: Bytes, m: Message, wire: seq<Record>)
    requires |buf| >= 12
    ensures SectionsAre(buf, m, wire) <==> SectionsOf(buf) == Ok((m.questions, m.answers, m.authority, wire))
  {
    hide QuestionsAre, RecordsAre, QuestionsAt, RecordsAt, At16, Is16;
    Exactly16(buf, 4);
    Exactly16(buf, 6);
    Exactly16(buf, 8);
    Exactly16(buf, 10);
    forall at: nat, end: nat
      ensures QuestionsAre(buf, at, m.questions, end) <==> QuestionsAt(buf, at, |m.questions|) == Ok((m.questions, end))
    {
      QuestionsExactly(buf, at, m.questions, end);
    }
    forall at: nat, rs: seq<Record>, end: nat
      ensures RecordsAre(buf, at, rs, end) <==> RecordsAt(buf, at, |rs|) == Ok((rs, end))
    {
      RecordsExactly(buf, at, rs, end);
    }
    if SectionsOf(buf) == Ok((m.questions, m.answers, m.authority, wire)) {
      SectionCounts(buf);
      var p := QuestionsAt(buf, 12, At16(buf, 4)).value.1;
      var q := RecordsAt(buf, p, At16(buf, 6)).value.1;
      var r := RecordsAt(buf, q, At16(buf, 8)).value.1;
      var end := RecordsAt(buf, r, At16(buf, 10)).value.1;
      assert QuestionsAre(buf, 12, m.questions, p) && RecordsAre(buf, p, m.answers, q)
        && RecordsAre(buf, q, m.authority, r) && RecordsAre(buf, r, wire, end);
    }
  }

  lemma {:induction false} QuestionCount(buf: Bytes, at: nat, n: nat)
    ensures QuestionsAt(buf, at, n).Ok? ==> |QuestionsAt(buf, at, n).value.0| == n
    decreases n
  {
    hide QuestionAt;
    if n > 0 && QuestionAt(buf, at).Ok? {
      QuestionCount(buf, QuestionAt(buf, at).value.1, n - 1);
    }
  }

  lemma {:induction false} RecordCount(buf: Bytes, at: nat, n: nat)
    ensures RecordsAt(buf, at, n).Ok? ==> |RecordsAt(buf, at, n).value.0| == n
    decreases n
  {
    hide RecordAt;
    if n > 0 && RecordAt(buf, at).Ok? {
      RecordCount(buf, RecordAt(buf, at).value.1, n - 1);
    }
  }

  /** Each section has as many entries as the header counts. */
  lemma SectionCounts(buf: Bytes)
    requires |buf| >= 12 && SectionsOf(buf).Ok?
    ensures var (qs, an, ns, ar) := SectionsOf(buf).value;
      |qs| == At16(buf, 4) && |an| == At16(buf, 6) && |ns| == At16(buf, 8) && |ar| == At16(buf, 10)
  {
    hide QuestionsAt, RecordsAt, At16;
    QuestionCount(buf, 12, At16(buf, 4));
    var p := QuestionsAt(buf, 12, At16(buf, 4)).value.1;
    RecordCount(buf, p, At16(buf, 6));
    var q := RecordsAt(buf, p, At16(buf, 6)).value.1;
    RecordCount(buf, q, At16(buf, 8));
    RecordCount(buf, RecordsAt(buf, q, At16(buf, 8)).value.1, At16(buf, 10));
  }

  type Sections = (seq<Question>, seq<Record>, seq<Record>, seq<Record>)

  /** The sections as `Parse` reads them, before OPT fields are recovered. */
  function SectionsOf(buf: Bytes): Result<Sections, ParseError>
    requires |buf| >= 12
  {
    var (qs, p1) :- QuestionsAt(buf, 12, At16(buf, 4));
    var (an, p2) :- RecordsAt(buf, p1, At16(buf, 6));
    var (ns, p3) :- RecordsAt(buf, p2, At16(buf, 8));
    var (ar, _) :- RecordsAt(buf, p3, At16(buf, 10));
    Ok((qs, an, ns, ar))
  }

  /** For every buffer: the parser returns a message exactly when the buffer holds
      that message by the grammar. */
  lemma ParseExactly(buf: Bytes, m: Message)
    ensures Parse(buf) == Ok(m) <==> MessageIs(buf, m)
  {
    hide SectionsAre, HeaderIs, HeaderOf, FoldedRcode, ReturnedAs, RecoverAll, QuestionsAt, RecordsAt, At16;
    if |buf| >= 12 {
      HeaderExactly(buf, m.header, m.additional);
      forall wire ensures SectionsAre(buf, m, wire) <==>
        SectionsOf(buf) == Ok((m.questions, m.answers, m.authority, wire))
      {
        SectionsExactly(buf, m, wire);
      }
      forall wire | |wire| == |m.additional|
        ensures (forall i :: 0 <= i < |wire| ==> ReturnedAs(wire[i], m.additional[i])) <==>
          m.additional == RecoverAll(wire)
      {
        AllRecovered(wire, m.additional);
      }
    }
  }
}
