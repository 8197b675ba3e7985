/** The name writer and its compression table (section 4.1.4 of RFC 1035). */
module Compression {
  import opened Octets
  import opened Results
  import opened Names
  import opened Slices
  import opened NameDecoding

  const MAX_OFFSET: nat := 0x3FFF

  /** The encoder's bytes and its table from suffix text to offset. */
  datatype Enc = Enc(out: Bytes, names: map<Name, u16>)

  /** The state after a write, and whether the write succeeded. A failed write
      keeps what it had already emitted. */
  datatype Wrote = Wrote(enc: Enc, ok: bool)

  // ---- what write_name does ------------------------------------------------

  /** The first index from `i` whose suffix is in the table, or `|ls|`. */
  function FindSuffix(names: map<Name, u16>, ls: seq<Label>, i: nat): (k: nat)
    requires i <= |ls|
    ensures i <= k <= |ls|
    ensures k < |ls| ==> Dotted(ls[k..]) in names
    ensures forall j :: i <= j < k ==> Dotted(ls[j..]) !in names
    decreases |ls| - i
  {
    if i == |ls| || Dotted(ls[i..]) in names then i else FindSuffix(names, ls, i + 1)
  }

  function PutLabels(out: Bytes, ls: seq<Label>): (Bytes, bool)
    decreases |ls|
  {
    if ls == [] then (out, true)
    else if |ls[0]| > 63 then (out, false)
    else PutLabels(out + OneLabel(ls[0]), ls[1..])
  }

  function PutFull(e: Enc, ls: seq<Label>): Wrote
    decreases |ls|
  {
    if ls == [] then Wrote(e.(out := e.out + [0]), true)
    else if |ls[0]| > 63 then Wrote(e, false)
    else PutFull(PutOne(e, ls), ls[1..])
  }

  /** One label of a full name, recorded under the suffix it starts. */
  function PutOne(e: Enc, ls: seq<Label>): Enc
    requires ls != []
  {
    var start := |e.out|;
    Enc(e.out + OneLabel(ls[0]), if start <= MAX_OFFSET then e.names[Dotted(ls) := start] else e.names)
  }

  function PointerBytes(off: u16): (s: Bytes)
    ensures |s| == 2
  {
    Be16(0xC000 + off % 0x4000)
  }

  function PutName(e: Enc, name: Name): Wrote {
    var ls := NameLabels(name);
    var k := FindSuffix(e.names, ls, 0);
    if k < |ls| then
      var (out, ok) := PutLabels(e.out, ls[..k]);
      Wrote(e.(out := if ok then out + PointerBytes(e.names[Dotted(ls[k..])]) else out), ok)
    else PutFull(e, ls)
  }

  // ---- the compression table's invariant -----------------------------------

  function KeyLabels(key: Name): seq<Label> {
    if key == [] then [] else Split(key[..|key| - 1])
  }

  /** The entry's offset fits a pointer, and a full copy of exactly the suffix
      named by the key stands there. */
  predicate EntryOk(out: Bytes, key: Name, off: u16) {
    var ls := KeyLabels(key);
    && key == Dotted(ls)
    && ShortLabels(ls)
    && off <= MAX_OFFSET
    && off < |out|
    && FullAt(out, off, ls)
  }

  ghost predicate TableOk(e: Enc) {
    forall key :: key in e.names ==> EntryOk(e.out, key, e.names[key])
  }

  lemma FullAtGrows(out: Bytes, more: Bytes, at: nat, ls: seq<Label>)
    requires FullAt(out, at, ls) && out <= more
    ensures FullAt(more, at, ls)
  {
    StandsAtGrows(out, more, at, Wire(ls));
  }

  lemma EntryGrows(out: Bytes, more: Bytes, key: Name, off: u16)
    requires EntryOk(out, key, off) && out <= more
    ensures EntryOk(more, key, off)
  {
    FullAtGrows(out, more, off, KeyLabels(key));
  }

  /** Later appends keep every entry. */
  lemma TableGrows(e: Enc, out: Bytes)
    requires TableOk(e) && e.out <= out
    ensures TableOk(e.(out := out))
  {
    forall key | key in e.names
      ensures EntryOk(out, key, e.names[key])
    {
      EntryGrows(e.out, out, key, e.names[key]);
    }
  }

  lemma KeyLabelsOf(ls: seq<Label>)
    requires ls != [] && NoDots(ls)
    ensures KeyLabels(Dotted(ls)) == ls
  {
    SplitJoin(ls);
    assert Dotted(ls)[..|Dotted(ls)| - 1] == Join(ls);
  }

  lemma {:induction false} PutFullOut(e: Enc, ls: seq<Label>)
    requires forall l :: l in ls ==> |l| <= 63
    ensures PutFull(e, ls).ok
    ensures PutFull(e, ls).enc.out == e.out + Wire(ls)
    decreases |ls|
  {
    if ls == [] {
    } else {
      assert ls[0] in ls;
      assert forall l :: l in ls[1..] ==> l in ls;
      var one := PutOne(e, ls);
      PutFullOut(one, ls[1..]);
      calc {
        PutFull(one, ls[1..]).enc.out;
        (e.out + OneLabel(ls[0])) + Wire(ls[1..]);
        e.out + (OneLabel(ls[0]) + (LabelBytes(ls[1..]) + [0]));
        { assert OneLabel(ls[0]) + (LabelBytes(ls[1..]) + [0]) == (OneLabel(ls[0]) + LabelBytes(ls[1..])) + [0]; }
        e.out + Wire(ls);
      }
    }
  }

  lemma FreshEntry(out: Bytes, ls: seq<Label>)
    requires ls != [] && ShortLabels(ls) && NoDots(ls) && |out| <= MAX_OFFSET
    ensures EntryOk(out + Wire(ls), Dotted(ls), |out|)
  {
    KeyLabelsOf(ls);
    StandsAtEnd(out, Wire(ls), out + Wire(ls));
  }

  /** A full name adds entries for its own suffixes only, all of them correct
      once the name is complete. */
  lemma {:induction false} PutFullEntries(e: Enc, ls: seq<Label>, key: Name)
    requires ShortLabels(ls) && NoDots(ls) && key in PutFull(e, ls).enc.names
    ensures var w := PutFull(e, ls);
      || (key in e.names && w.enc.names[key] == e.names[key])
      || EntryOk(w.enc.out, key, w.enc.names[key])
    decreases |ls|
  {
    if ls == [] {
    } else {
      assert ls[0] in ls && ShortLabel(ls[0]);
      assert forall l :: l in ls[1..] ==> l in ls;
      PutFullEntries(PutOne(e, ls), ls[1..], key);
      if key == Dotted(ls) && |e.out| <= MAX_OFFSET {
        PutFullOut(e, ls);
        FreshEntry(e.out, ls);
      }
    }
  }

  lemma PutFullKeepsTable(e: Enc, ls: seq<Label>)
    requires TableOk(e) && ShortLabels(ls) && NoDots(ls)
    ensures TableOk(PutFull(e, ls).enc)
  {
    var w := PutFull(e, ls);
    PutFullOut(e, ls);
    forall key | key in w.enc.names
      ensures EntryOk(w.enc.out, key, w.enc.names[key])
    {
      PutFullEntries(e, ls, key);
      if key in e.names && w.enc.names[key] == e.names[key] {
        EntryGrows(e.out, w.enc.out, key, e.names[key]);
      }
    }
  }

  /** A full write records every suffix that starts where a pointer can reach,
      and drops no entry. */
  lemma {:induction false} PutFullRecords(e: Enc, ls: seq<Label>)
    requires forall l :: l in ls ==> |l| <= 63
    ensures var w := PutFull(e, ls);
      && e.names.Keys <= w.enc.names.Keys
      && forall j :: 0 <= j < |ls| && |e.out| + |LabelBytes(ls[..j])| <= 16383 ==> Dotted(ls[j..]) in w.enc.names
    decreases |ls|
  {
    hide Dotted, OneLabel;
    if ls == [] {
    } else {
      assert ls[0] in ls && forall l :: l in ls[1..] ==> l in ls;
      var one := PutOne(e, ls);
      PutFullRecords(one, ls[1..]);
      assert PutFull(e, ls) == PutFull(one, ls[1..]);
      forall j | 0 <= j < |ls| && |e.out| + |LabelBytes(ls[..j])| <= 16383
        ensures Dotted(ls[j..]) in PutFull(e, ls).enc.names
      {
        if j > 0 {
          assert ls[..j][1..] == ls[1..][..j - 1] && ls[j..] == ls[1..][j - 1..];
        } else {
          assert ls[0..] == ls;
        }
      }
    }
  }

  lemma {:induction false} PutLabelsOk(out: Bytes, ls: seq<Label>)
    ensures PutLabels(out, ls).1 <==> forall l :: l in ls ==> |l| <= 63
    decreases |ls|
  {
    if ls == [] {
    } else {
      PutLabelsOk(out + OneLabel(ls[0]), ls[1..]);
      assert forall l :: l in ls <==> l == ls[0] || l in ls[1..];
    }
  }

  lemma {:induction false} PutFullOk(e: Enc, ls: seq<Label>)
    ensures PutFull(e, ls).ok <==> forall l :: l in ls ==> |l| <= 63
    decreases |ls|
  {
    hide PutOne;
    if ls == [] {
    } else {
      PutFullOk(PutOne(e, ls), ls[1..]);
      assert forall l :: l in ls <==> l == ls[0] || l in ls[1..];
    }
  }

  /** Writing a canonical name fails exactly when one of its labels is longer than
      63 bytes. */
  lemma WriteFailsExactly(e: Enc, name: Name)
    requires TableOk(e) && CanonicalName(name) == name
    ensures PutName(e, name).ok <==> forall l :: l in NameLabels(name) ==> |l| <= 63
  {
    hide NameLabels, CanonicalName, PutFull, PutLabels, Dotted, KeyLabels, FullAt;
    var ls := NameLabels(name);
    var k := FindSuffix(e.names, ls, 0);
    LabelsSpellName(name);
    if k < |ls| {
      PutLabelsOk(e.out, ls[..k]);
      assert forall l :: l in ls <==> l in ls[..k] || l in ls[k..];
      KeyLabelsOf(ls[k..]);
      assert EntryOk(e.out, Dotted(ls[k..]), e.names[Dotted(ls[k..])]);
      assert forall l :: l in ls[k..] ==> ShortLabel(l);
    } else {
      PutFullOk(e, ls);
    }
  }

  /** So a name that had to be written in full, where a pointer can reach, is
      written as a pointer of two bytes the next time. */
  lemma SecondCopyIsPointer(e: Enc, name: Name)
    requires GoodName(name) && TableOk(e) && |e.out| <= 16383 && NameLabels(name) != []
    requires FindSuffix(e.names, NameLabels(name), 0) == |NameLabels(name)|
    ensures var first := PutName(e, name);
      && first.ok && |first.enc.out| > |e.out| + 2
      && PutName(first.enc, name).ok && |PutName(first.enc, name).enc.out| == |first.enc.out| + 2
  {
    hide GoodName, Dotted, PointerBytes;
    var ls, first := NameLabels(name), PutName(e, name);
    NameBytesWritten(e, name);
    GoodNameLabels(name);
    assert forall l :: l in ls ==> ShortLabel(l);
    PutFullRecords(e, ls);
    assert ls[..0] == [] && ls[0..] == ls && ls[0] in ls;
    assert FindSuffix(first.enc.names, ls, 0) == 0;
    assert PutLabels(first.enc.out, ls[..0]) == (first.enc.out, true);
  }

  lemma {:induction false} PutLabelsMeaning(out: Bytes, ls: seq<Label>)
    requires ShortLabels(ls)
    ensures PutLabels(out, ls) == (out + LabelBytes(ls), true)
    decreases |ls|
  {
    if ls == [] {
      assert out + LabelBytes(ls) == out;
    } else {
      assert ls[0] in ls && ShortLabel(ls[0]);
      assert forall l :: l in ls[1..] ==> l in ls;
      PutLabelsMeaning(out + OneLabel(ls[0]), ls[1..]);
      assert out + OneLabel(ls[0]) + LabelBytes(ls[1..]) == out + LabelBytes(ls);
    }
  }

  lemma {:induction false} PutLabelsAppends(out: Bytes, ls: seq<Label>)
    ensures out <= PutLabels(out, ls).0
    decreases |ls|
  {
    if ls == [] {
    } else if |ls[0]| <= 63 {
      PutLabelsAppends(out + OneLabel(ls[0]), ls[1..]);
    }
  }

  lemma {:induction false} PutFullKeepsKey(e: Enc, ls: seq<Label>, key: Name)
    requires key in e.names
    ensures key in PutFull(e, ls).enc.names
    decreases |ls|
  {
    if ls == [] {
    } else if |ls[0]| <= 63 {
      PutFullKeepsKey(PutOne(e, ls), ls[1..], key);
    }
  }

  // ---- labels of a good name -----------------------------------------------

  lemma {:induction false} SplitKeepsLower(s: Bytes)
    requires LowerAll(s) == s
    ensures LowerLabels(Split(s))
  {
    if s == [] {
    } else {
      assert s[1..] == LowerAll(s)[1..] == LowerAll(s[1..]);
      SplitKeepsLower(s[1..]);
      var rest := Split(s[1..]);
      assert rest[0] in rest && LowerLabel(rest[0]);
      assert LowerAll([s[0]] + rest[0]) == [s[0]] + rest[0] by {
        assert ([s[0]] + rest[0])[1..] == rest[0];
      }
      assert forall l :: l in rest[1..] ==> l in rest;
    }
  }

  lemma LowerTwice(s: Bytes)
    ensures LowerAll(LowerAll(s)) == LowerAll(s)
  {
    var t := LowerAll(s);
    forall i | 0 <= i < |t| ensures LowerAll(t)[i] == t[i] {
      assert t[i] == Lower(s[i]) && LowerAll(t)[i] == Lower(t[i]);
    }
  }

  lemma GoodNameLabels(name: Name)
    requires GoodName(name)
    ensures var ls := NameLabels(name);
      ShortLabels(ls) && NoDots(ls) && LowerLabels(ls) && |ls| <= 254 && Dotted(ls) == name
  {
    LabelsSpellName(name);
    if name != ROOT {
      var bare := TrimDots(TrimEnd(TrimStart(name)));
      TrimDotsIsPrefix(TrimEnd(TrimStart(name)));
      var low := LowerAll(bare);
      assert name == low + [DOT];
      assert name[..|name| - 1] == low;
      assert low[|low| - 1] != DOT;
      assert TrimDots(name) == low;
      LowerTwice(bare);
      SplitKeepsLower(low);
    }
  }

  // ---- written names read back ---------------------------------------------

  lemma WalkPointer(buf: Bytes, at: nat, off: u16, fuel: nat)
    requires fuel > 0 && off <= MAX_OFFSET && StandsAt(buf, at, PointerBytes(off))
    ensures Walk(buf, at, fuel) == Prepend([], Walk(buf, off, fuel - 1))
    ensures After(buf, at) == at + 2
  {
    var w := PointerBytes(off);
    assert buf[at + 0] == w[0] == 0xC0 + off / 0x100 && buf[at + 1] == w[1] == off % 0x100;
    assert PointerAt(buf, at) == off;
    var r := Walk(buf, off, fuel - 1);
    assert r.Ok? ==> [] + r.value == r.value;
  }

  lemma WalkLabel(buf: Bytes, at: nat, l: Label, rest: seq<Label>, fuel: nat, r: Result<seq<Label>, ParseError>)
    requires ShortLabel(l) && LowerLabel(l) && fuel > 0 && StandsAt(buf, at, OneLabel(l))
    requires Walk(buf, at + |OneLabel(l)|, fuel - 1) == Prepend(rest, r)
    ensures Walk(buf, at, fuel) == Prepend([l] + rest, r)
    ensures After(buf, at) == After(buf, at + |OneLabel(l)|)
  {
    var w := OneLabel(l);
    assert buf[at + 0] == w[0] == |l|;
    StandsAtSplit(buf, at, [w[0]], l);
    StandsAtSlice(buf, at + 1, l);
    assert r.Ok? ==> [l] + (rest + r.value) == ([l] + rest) + r.value;
  }

  /** Labels followed by a pointer read as those labels, then whatever the
      pointer's target reads as. */
  lemma {:induction false} WalkCompressed(buf: Bytes, at: nat, ls: seq<Label>, off: u16, fuel: nat)
    requires ShortLabels(ls) && LowerLabels(ls) && off <= MAX_OFFSET && fuel > |ls|
    requires StandsAt(buf, at, LabelBytes(ls) + PointerBytes(off))
    ensures Walk(buf, at, fuel) == Prepend(ls, Walk(buf, off, fuel - |ls| - 1))
    ensures After(buf, at) == at + |LabelBytes(ls)| + 2
    decreases |ls|
  {
    hide *;
    var ptr := PointerBytes(off);
    if ls == [] {
      NoLabelBytes(ptr);
      WalkPointer(buf, at, off, fuel);
    } else {
      var l, rest := ls[0], ls[1..];
      LabelBytesCut(ls, ptr);
      StandsAtSplit(buf, at, OneLabel(l), LabelBytes(rest) + ptr);
      TailLabels(ls);
      WalkCompressed(buf, at + |OneLabel(l)|, rest, off, fuel - 1);
      WalkLabel(buf, at, l, rest, fuel, Walk(buf, off, fuel - |ls| - 1));
      assert [l] + rest == ls;
    }
  }

  /** Labels followed by a pointer to a full copy of the remaining labels. */
  lemma ReadCompressed(buf: Bytes, at: nat, ls: seq<Label>, k: nat, off: u16, fuel: nat)
    requires ShortLabels(ls) && LowerLabels(ls) && k <= |ls| && fuel > |ls| + 1
    requires off <= MAX_OFFSET && FullAt(buf, off, ls[k..])
    requires StandsAt(buf, at, LabelBytes(ls[..k]) + PointerBytes(off))
    ensures Walk(buf, at, fuel) == Ok(ls)
    ensures After(buf, at) == at + |LabelBytes(ls[..k])| + 2
  {
    hide Walk, After, FullAt, StandsAt, LabelBytes, PointerBytes, ShortLabel, LowerLabel;
    assert forall l :: l in ls[..k] ==> l in ls;
    assert forall l :: l in ls[k..] ==> l in ls;
    WalkCompressed(buf, at, ls[..k], off, fuel);
    ReadFull(buf, off, ls[k..], fuel - k - 1);
    assert ls[..k] + ls[k..] == ls;
  }

  lemma NoLabelBytes(w: Bytes)
    ensures LabelBytes([]) == [] && LabelBytes([]) + w == w
  {
  }

  lemma LabelBytesCut(ls: seq<Label>, w: Bytes)
    requires ls != []
    ensures |LabelBytes(ls)| == |OneLabel(ls[0])| + |LabelBytes(ls[1..])|
    ensures LabelBytes(ls) + w == OneLabel(ls[0]) + (LabelBytes(ls[1..]) + w)
  {
    hide OneLabel;
    CatAssoc(OneLabel(ls[0]), LabelBytes(ls[1..]), w);
  }

  lemma CatAssoc(a: Bytes, b: Bytes, c: Bytes)
    ensures (a + b) + c == a + (b + c)
  {
  }

  /** How `write_name` compresses: the labels before the longest recorded
      suffix, then one pointer strictly backward to a pointer-free copy of that
      suffix; or the whole name when no suffix is recorded. */
  lemma NameBytesWritten(e: Enc, name: Name)
    requires TableOk(e) && GoodName(name)
    ensures var ls, w := NameLabels(name), PutName(e, name);
      var k := FindSuffix(e.names, ls, 0);
      && w.ok
      && (forall j :: 0 <= j < k ==> Dotted(ls[j..]) !in e.names)
      && (k == |ls| ==> w == PutFull(e, ls) && w.enc.out == e.out + Wire(ls))
      && (k < |ls| ==>
           var off := e.names[Dotted(ls[k..])];
           && off <= MAX_OFFSET == 16383
           && off < |e.out|
           && FullAt(e.out, off, ls[k..])
           && w.enc == e.(out := e.out + LabelBytes(ls[..k]) + PointerBytes(off)))
  {
    var ls := NameLabels(name);
    var k := FindSuffix(e.names, ls, 0);
    GoodNameLabels(name);
    if k == |ls| {
      PutFullOut(e, ls);
      PutFullKeepsTable(e, ls);
    } else {
      assert forall l :: l in ls[..k] ==> l in ls;
      PutLabelsMeaning(e.out, ls[..k]);
      assert forall l :: l in ls[k..] ==> l in ls;
      KeyLabelsOf(ls[k..]);
      assert EntryOk(e.out, Dotted(ls[k..]), e.names[Dotted(ls[k..])]);
    }
  }

  lemma FullAtFrom(buf: Bytes, at: nat, ls: seq<Label>)
    requires StandsAt(buf, at, Wire(ls))
    ensures FullAt(buf, at, ls)
  {
  }

  /** A name written in full reads back. */
  lemma FullNameReads(out: Bytes, ls: seq<Label>, buf: Bytes)
    requires ShortLabels(ls) && LowerLabels(ls) && |ls| <= 255
    requires out + Wire(ls) <= buf
    ensures NameAt(buf, |out|) == Ok((Dotted(ls), |out| + |Wire(ls)|))
  {
    hide *;
    StandsAtEnd(out, Wire(ls), buf);
    FullAtFrom(buf, |out|, ls);
    ReadFull(buf, |out|, ls, StepLimit());
    NameAtFrom(buf, |out|, ls);
  }

  lemma CompressedNameReads(out: Bytes, ls: seq<Label>, k: nat, off: u16, buf: Bytes)
    requires ShortLabels(ls) && LowerLabels(ls) && k < |ls| <= 254
    requires off <= MAX_OFFSET && FullAt(out, off, ls[k..])
    requires out + LabelBytes(ls[..k]) + PointerBytes(off) <= buf
    ensures NameAt(buf, |out|) == Ok((Dotted(ls), |out| + |LabelBytes(ls[..k])| + 2))
  {
    hide *;
    var tail := LabelBytes(ls[..k]) + PointerBytes(off);
    assert out + LabelBytes(ls[..k]) + PointerBytes(off) == out + tail;
    StandsAtEnd(out, tail, buf);
    FullAtGrows(out, buf, off, ls[k..]);
    ReadCompressed(buf, |out|, ls, k, off, StepLimit());
    NameAtFrom(buf, |out|, ls);
  }

  /** Writing a good name succeeds, only appends, keeps the table's invariant,
      and the name reads back from any buffer that starts with the output. */
  lemma NameRoundTrip(e: Enc, name: Name, buf: Bytes)
    requires TableOk(e) && GoodName(name)
    requires PutName(e, name).enc.out <= buf
    ensures PutName(e, name).ok
    ensures e.out <= PutName(e, name).enc.out
    ensures TableOk(PutName(e, name).enc)
    ensures NameAt(buf, |e.out|) == Ok((name, |PutName(e, name).enc.out|))
  {
    hide *;
    var ls, w := NameLabels(name), PutName(e, name);
    var k := FindSuffix(e.names, ls, 0);
    GoodNameLabels(name);
    NameBytesWritten(e, name);
    if k == |ls| {
      FullNameReads(e.out, ls, buf);
      PutFullKeepsTable(e, ls);
    } else {
      var off := e.names[Dotted(ls[k..])];
      CompressedNameReads(e.out, ls, k, off, buf);
      TableGrows(e, w.enc.out);
    }
  }
}
