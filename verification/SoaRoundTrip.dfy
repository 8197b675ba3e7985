/** The SOA compression fault: `encode_rdata` writes both SOA names through one
    scratch encoder, so the second name's pointer is an offset into the RDATA,
    while `read_name` takes it as an offset into the message. */
module SoaRoundTrip {
  import opened Octets
  import opened Results
  import opened Names
  import opened Slices
  import opened NameDecoding
  import opened Compression
  import opened Messages
  import opened RoundTrip

  /** How many labels of `rname` are written before the pointer. */
  function LabelsBefore(d: RData): nat
    requires d.Soa?
  {
    FindSuffix(PutName(EMPTY, d.mname).enc.names, NameLabels(d.rname), 0)
  }

  /** The pointer that ends a compressed `rname`. */
  function PointerOf(d: RData): u16
    requires d.Soa? && LabelsBefore(d) < |NameLabels(d.rname)|
  {
    PutName(EMPTY, d.mname).enc.names[Dotted(NameLabels(d.rname)[LabelsBefore(d)..])]
  }

  /** The message happens to spell the shared suffix at the pointer's value
      taken as an absolute offset, in the steps the reader has left. */
  ghost predicate SpellsSuffix(buf: Bytes, d: RData)
    requires d.Soa?
  {
    var ls, k := NameLabels(d.rname), LabelsBefore(d);
    k < |ls| <= 254 && SpellsText(buf, PointerOf(d), StepLimit() - k - 1, Dotted(ls[k..]))
  }

  ghost predicate SpellsText(buf: Bytes, at: nat, bound: nat, text: Name) {
    exists ls: seq<Label>, steps: nat :: steps <= bound && Spells(buf, at, ls, steps) && Dotted(ls) == text
  }

  lemma WalkSpellsText(buf: Bytes, at: nat, bound: nat, text: Name)
    ensures SpellsText(buf, at, bound, text) <==>
      Walk(buf, at, bound).Ok? && Dotted(Walk(buf, at, bound).value) == text
  {
    hide Spells, Walk, Dotted;
    if Walk(buf, at, bound).Ok? {
      var steps := WalkSound(buf, at, bound);
    }
    forall ls: seq<Label>, steps: nat | steps <= bound && Spells(buf, at, ls, steps)
      ensures Walk(buf, at, bound) == Ok(ls)
    {
      WalkComplete(buf, at, ls, steps, bound);
    }
  }

  /** What it takes for a record to come back: an SOA whose names share a suffix
      needs the message to spell it by chance. */
  ghost predicate SoaSurvives(buf: Bytes, r: Record) {
    r.data.Soa? && ShareSuffix(r.data.mname, r.data.rname) ==> SpellsSuffix(buf, r.data)
  }

  lemma {:induction false} WalkGivesShortLabels(buf: Bytes, at: nat, fuel: nat)
    requires Walk(buf, at, fuel).Ok?
    ensures ShortLabels(Walk(buf, at, fuel).value)
    decreases fuel
  {
    if buf[at] == 0 {
    } else if buf[at] >= 0xC0 {
      WalkGivesShortLabels(buf, PointerAt(buf, at), fuel - 1);
    } else {
      WalkGivesShortLabels(buf, at + 1 + buf[at], fuel - 1);
    }
  }

  /** Common leading labels do not change whether two texts agree. */
  lemma DottedTail(a: seq<Label>, x: seq<Label>, y: seq<Label>)
    requires ShortLabels(x) && ShortLabels(y) && y != []
    ensures Dotted(a + x) == Dotted(a + y) <==> Dotted(x) == Dotted(y)
  {
    JoinNotEmpty(y);
    if a == [] {
      assert a + x == x && a + y == y;
    } else {
      DottedAppend(a, y);
      if x == [] {
        assert a + x == a;
      } else {
        DottedAppend(a, x);
        var head := Join(a) + [DOT];
        assert Dotted(a + x)[|head|..] == Dotted(x);
        assert Dotted(a + y)[|head|..] == Dotted(y);
      }
    }
  }

  /** How the second name of an SOA is written when it shares a suffix. */
  lemma SharedNameWritten(d: RData)
    requires d.Soa? && GoodName(d.mname) && GoodName(d.rname) && ShareSuffix(d.mname, d.rname)
    ensures LabelsBefore(d) < |NameLabels(d.rname)| && PointerOf(d) <= MAX_OFFSET
    ensures var pre := NameLabels(d.rname)[..LabelsBefore(d)];
      SoaNames(d.mname, d.rname) ==
      Some(Wire(NameLabels(d.mname)) + LabelBytes(pre) + PointerBytes(PointerOf(d)))
  {
    hide Wire, PutFull, GoodName, ShareSuffix, NameLabels, LabelBytes, PointerBytes, PutName, TableOk, FullAt;
    NameAloneState(d.mname);
    SoaCompressionGuard(d.mname, d.rname);
    NameBytesWritten(PutName(EMPTY, d.mname).enc, d.rname);
  }

  lemma SharedShape(d: RData)
    requires d.Soa? && GoodName(d.mname) && GoodName(d.rname) && ShareSuffix(d.mname, d.rname)
    ensures LabelsBefore(d) < |NameLabels(d.rname)| && PointerOf(d) <= MAX_OFFSET
    ensures var pre := NameLabels(d.rname)[..LabelsBefore(d)];
      RDataBytes(d) == Some(Wire(NameLabels(d.mname)) + ((LabelBytes(pre) + PointerBytes(PointerOf(d))) + SoaTail(d)))
  {
    hide Wire, SoaTail, GoodName, ShareSuffix, NameLabels, LabelBytes, PointerBytes, SoaNames, LabelsBefore, PointerOf;
    SharedNameWritten(d);
    var l := LabelBytes(NameLabels(d.rname)[..LabelsBefore(d)]);
    PartsRegroup(Wire(NameLabels(d.mname)), l, PointerBytes(PointerOf(d)), SoaTail(d));
  }

  lemma PartsRegroup(w: Bytes, l: Bytes, p: Bytes, t: Bytes)
    ensures [] + (w + l + p) + t == w + ((l + p) + t)
  {
  }

  /** What the second name reads as. */
  lemma SharedNameReads(buf: Bytes, p1: nat, d: RData)
    requires d.Soa? && GoodName(d.mname) && GoodName(d.rname) && ShareSuffix(d.mname, d.rname)
    requires LabelsBefore(d) < |NameLabels(d.rname)| && PointerOf(d) <= MAX_OFFSET
    requires StandsAt(buf, p1, LabelBytes(NameLabels(d.rname)[..LabelsBefore(d)]) + PointerBytes(PointerOf(d)))
    ensures NameAt(buf, p1).Ok? && NameAt(buf, p1).value.0 == d.rname <==> SpellsSuffix(buf, d)
    ensures NameAt(buf, p1).Ok? ==>
      NameAt(buf, p1).value.1 == p1 + |LabelBytes(NameLabels(d.rname)[..LabelsBefore(d)])| + 2
  {
    hide Wire, ShareSuffix, NameLabels, GoodName, LabelBytes, PointerBytes, LabelsBefore, PointerOf, StandsAt, Walk,
      SpellsText, After, Dotted, ShortLabel, LowerLabel;
    var lr, k := NameLabels(d.rname), LabelsBefore(d);
    GoodNameLabels(d.rname);
    assert forall l :: l in lr[..k] ==> l in lr;
    assert forall l :: l in lr[k..] ==> l in lr;
    assert lr[..k] + lr[k..] == lr;
    WalkCompressed(buf, p1, lr[..k], PointerOf(d), StepLimit());
    var r := Walk(buf, PointerOf(d), StepLimit() - k - 1);
    WalkSpellsText(buf, PointerOf(d), StepLimit() - k - 1, Dotted(lr[k..]));
    if r.Ok? {
      WalkGivesShortLabels(buf, PointerOf(d), StepLimit() - k - 1);
      DottedTail(lr[..k], r.value, lr[k..]);
    }
  }

  lemma SharedRDataReads(buf: Bytes, start: nat, d: RData)
    requires d.Soa? && GoodName(d.mname) && GoodName(d.rname) && ShareSuffix(d.mname, d.rname)
    requires RDataBytes(d).Some? && StandsAt(buf, start, RDataBytes(d).value)
    requires start + |RDataBytes(d).value| <= |buf|
    ensures ParseRData(buf, start, |RDataBytes(d).value|, TYPE_SOA) == Ok(d) <==> SpellsSuffix(buf, d)
  {
    hide NameLabels, Wire, SoaTail, StandsAt, NameAt, RDataBytes, GoodName, ShareSuffix, LabelsBefore, PointerOf,
      LabelBytes, PointerBytes, SpellsSuffix;
    SharedShape(d);
    var w, t := Wire(NameLabels(d.mname)), SoaTail(d);
    var p := LabelBytes(NameLabels(d.rname)[..LabelsBefore(d)]) + PointerBytes(PointerOf(d));
    NameReads(buf, start, d.mname, p + t);
    StandsAtSplit(buf, start + |w|, p, t);
    SharedNameReads(buf, start + |w|, d);
    SoaTailReads(buf, start + |w| + |p|, d);
  }

  /** A record holding an SOA survives exactly when its two names share no
      suffix, or the message happens to spell the shared suffix at the very
      offset the pointer carries. */
  lemma SoaExactly(e: Enc, r: Record, buf: Bytes)
    requires TableOk(e) && GoodRecord(r) && r.data.Soa?
    requires PutRecord(e, r).Some? && PutRecord(e, r).value.out <= buf
    ensures RecordAt(buf, |e.out|).Ok? ==> RecordAt(buf, |e.out|).value.1 == |PutRecord(e, r).value.out|
    ensures RecordAt(buf, |e.out|).Ok? && RecordAt(buf, |e.out|).value.0 == r <==> SoaSurvives(buf, r)
  {
    hide PutName, TableOk, GoodName, NameAt, StandsAt, TailBytes, RecordTail, RecordAt, RDataBytes, ShareSuffix,
      LabelsBefore, SpellsSuffix, NameLabels, ParseRData, Flattened, SoaSafe;
    var d := r.data;
    if !ShareSuffix(d.mname, d.rname) {
      SafeSoa(r);
      RecordRoundTrip(e, r, buf);
    } else {
      SharedShape(d);
      PlainTail(r);
      var w, rdata := PutName(e, r.name), RDataBytes(d).value;
      var tail := TailBytes(r.rtype, r.class_, r.ttl, rdata);
      TailLength(r.rtype, r.class_, r.ttl, rdata);
      assert w.enc.out <= w.enc.out + tail <= buf;
      NameRoundTrip(e, r.name, buf);
      StandsAtEnd(w.enc.out, tail, buf);
      var p := |w.enc.out|;
      RecordParses(buf, |e.out|, r.name, p, r.rtype, r.class_, r.ttl, rdata);
      TailFields(buf, p, r.rtype, r.class_, r.ttl, rdata);
      SharedRDataReads(buf, p + 10, d);
    }
  }

  lemma SafeSoa(r: Record)
    requires r.data.Soa? && !ShareSuffix(r.data.mname, r.data.rname)
    ensures SoaSafe(r) && Flattened(r) == r
  {
  }

  // ---- a message that does not survive -------------------------------------

  const LETTER: Name := [97, DOT]

  function LostRecord(): Record {
    Record(ROOT, TYPE_SOA, 1, 0, Soa(LETTER, LETTER, 0, 0, 0, 0, 0))
  }

  function LostMessage(): Message {
    Message(Header(0, true, 0, false, false, false, false, false, false, 0), [], [], [LostRecord()], [])
  }

  lemma SmallNames()
    ensures GoodName(ROOT) && NameLabels(ROOT) == []
    ensures GoodName(LETTER) && NameLabels(LETTER) == [[97]]
  {
    var a: Bytes := [97];
    assert TrimStart(LETTER) == LETTER && TrimEnd(LETTER) == LETTER;
    assert LETTER[..1] == a;
    assert TrimDots(LETTER) == a;
    assert LowerAll(a) == a by {
      assert a[1..] == [];
    }
    assert CanonicalName(LETTER) == LETTER;
    assert Split(a) == [a] by {
      assert NoDot(a);
      SplitWithoutDot(a);
    }
    assert ROOT[..0] == [];
    assert TrimStart(ROOT) == ROOT && TrimEnd(ROOT) == ROOT;
    assert TrimDots(ROOT) == [];
  }

  lemma LostPointer()
    ensures var d := LostRecord().data;
      ShareSuffix(d.mname, d.rname) && LabelsBefore(d) == 0 && PointerOf(d) == 0
  {
    var d := LostRecord().data;
    SmallNames();
    NameAloneState(LETTER);
    SoaCompressionGuard(LETTER, LETTER);
    var ls: seq<Label> := [[97]];
    assert ls[0..] == ls && ls[1..] == [];
    assert PutFull(EMPTY, ls) == PutFull(PutOne(EMPTY, ls), []);
    assert PutFull(EMPTY, ls).enc.names[Dotted(ls)] == 0;
  }

  lemma IdIsNoName(buf: Bytes)
    requires |buf| > 0 && buf[0] == 0
    ensures !SpellsSuffix(buf, LostRecord().data)
  {
    hide PutName, FindSuffix, ShareSuffix, GoodName, LabelsBefore, PointerOf;
    SmallNames();
    LostPointer();
    assert Walk(buf, 0, StepLimit() - 1) == Ok([]);
    WalkSpellsText(buf, 0, StepLimit() - 1, LETTER);
    var ls: seq<Label> := [[97]];
    assert ls[0..] == ls;
  }

  /** A one-SOA message with both names "a." and id 0 does not come back: the
      pointer to offset 0 reads the message id. */
  lemma SoaLost()
    ensures var m := LostMessage();
      FieldsAgree(m) && Encode(m).Some? && Parse(Encode(m).value) != Ok(m)
  {
    hide Encode, Parse, HeaderBytes, PutRecord, RecordAt, SpellsSuffix, GoodRecord, LabelsBefore, PointerOf, TableOk,
      GoodName, ShareSuffix;
    var m, r := LostMessage(), LostRecord();
    LostPointer();
    LostEncodes(m, r);
    var buf := Encode(m).value;
    var e := Enc(HeaderBytes(m), map[]);
    EmptyTable(HeaderBytes(m));
    HeaderReads(m, buf);
    assert HeaderBytes(m) <= buf;
    IdIsNoName(buf);
    SoaExactly(e, r, buf);
    if Parse(buf) == Ok(m) {
      LostParses(m, r, buf);
    }
  }

  lemma LostEncodes(m: Message, r: Record)
    requires m == LostMessage() && r == LostRecord()
    ensures var e := Enc(HeaderBytes(m), map[]);
      && PutRecord(e, r).Some? && HeaderBytes(m) <= PutRecord(e, r).value.out
      && Encode(m) == Some(PutRecord(e, r).value.out)
      && GoodRecord(r)
  {
    hide HeaderBytes, GoodName, NameLabels, PutName, SoaTail, LabelBytes, PointerBytes, ShareSuffix, FindSuffix;
    var e := Enc(HeaderBytes(m), map[]);
    SmallNames();
    LostPointer();
    SharedShape(r.data);
    LostLength();
    PlainTail(r);
    EmptyTable(HeaderBytes(m));
    NameRoundTrip(e, ROOT, PutName(e, ROOT).enc.out);
    assert m.authority[1..] == [];
  }

  lemma LostLength()
    ensures RDataBytes(LostRecord().data).Some? && |RDataBytes(LostRecord().data).value| == 25
  {
    hide PutName, FindSuffix, ShareSuffix, GoodName;
    SmallNames();
    LostPointer();
    SharedShape(LostRecord().data);
    assert LabelBytes([[97]]) == OneLabel([97]) + LabelBytes([]) by {
      assert [[97]][1..] == [];
    }
  }

  lemma LostParses(m: Message, r: Record, buf: Bytes)
    requires m == LostMessage() && r == LostRecord() && HeaderBytes(m) <= buf && Parse(buf) == Ok(m)
    ensures RecordAt(buf, 12).Ok? && RecordAt(buf, 12).value.0 == r
  {
    hide RecordAt, HeaderBytes, HeaderOf, FoldedRcode;
    HeaderReads(m, buf);
    assert At16(buf, 4) == 0 && At16(buf, 6) == 0 && At16(buf, 8) == 1 && At16(buf, 10) == 0;
    assert QuestionsAt(buf, 12, 0) == Ok(([], 12));
    assert RecordsAt(buf, 12, 0) == Ok(([], 12));
    var one := RecordsAt(buf, 12, 1);
    assert one.Ok? && one.value.0 == m.authority;
    assert one.value.0[0] == RecordAt(buf, 12).value.0;
  }
}
