/** Names with an empty label, such as "a..b": the one way a successful write can
    break the compression table, since an empty label's length byte reads as the
    end of the name. */
module EmptyLabels {
  import opened Octets
  import opened Results
  import opened Names
  import opened Slices
  import opened NameDecoding
  import opened Compression

  predicate FitsLabels(ls: seq<Label>) {
    forall l :: l in ls ==> |l| <= 63
  }

  lemma {:induction false} PutFullSucceeds(e: Enc, ls: seq<Label>)
    ensures PutFull(e, ls).ok <==> FitsLabels(ls)
    decreases |ls|
  {
    if ls == [] {
    } else {
      assert ls[0] in ls;
      PutFullSucceeds(PutOne(e, ls), ls[1..]);
      assert forall l :: l in ls <==> l == ls[0] || l in ls[1..];
    }
  }

  /** Beyond the reach of a pointer nothing is recorded. */
  lemma {:induction false} FarNamesUnrecorded(e: Enc, ls: seq<Label>)
    requires |e.out| > MAX_OFFSET
    ensures PutFull(e, ls).enc.names == e.names
    decreases |ls|
  {
    if ls == [] {
    } else if |ls[0]| <= 63 {
      FarNamesUnrecorded(PutOne(e, ls), ls[1..]);
    }
  }

  lemma EmptyLabelBreaksTable(e: Enc, ls: seq<Label>)
    requires NoDots(ls) && [] in ls && |e.out| <= MAX_OFFSET && PutFull(e, ls).ok
    ensures !TableOk(PutFull(e, ls).enc)
  {
    var w, key := PutFull(e, ls).enc, Dotted(ls);
    PutFullKeepsKey(PutOne(e, ls), ls[1..], key);
    KeyLabelsOf(ls);
    assert !ShortLabel([]);
    assert !EntryOk(w.out, key, w.names[key]);
  }

  /** Which successful writes keep the table's invariant: those that compress,
      those without an empty label, and those too far out to be recorded. */
  lemma TableKeptExactly(e: Enc, name: Name)
    requires TableOk(e) && PutName(e, name).ok
    ensures var ls := NameLabels(name);
      TableOk(PutName(e, name).enc) <==>
      FindSuffix(e.names, ls, 0) < |ls| || [] !in ls || |e.out| > MAX_OFFSET
  {
    hide TableOk, EntryOk, PutFull, CanonicalName, TrimDots, Split;
    var ls, w := NameLabels(name), PutName(e, name);
    SplitHasNoDots(TrimDots(CanonicalName(name)));
    if FindSuffix(e.names, ls, 0) < |ls| {
      PutLabelsAppends(e.out, ls[..FindSuffix(e.names, ls, 0)]);
      TableGrows(e, w.enc.out);
    } else {
      PutFullSucceeds(e, ls);
      PutFullOut(e, ls);
      if [] !in ls {
        PutFullKeepsTable(e, ls);
      } else if |e.out| > MAX_OFFSET {
        FarNamesUnrecorded(e, ls);
        TableGrows(e, w.enc.out);
      } else {
        EmptyLabelBreaksTable(e, ls);
      }
    }
  }

  lemma {:induction false} LabelBytesAppend(a: seq<Label>, b: seq<Label>)
    ensures LabelBytes(a + b) == LabelBytes(a) + LabelBytes(b)
    decreases |a|
  {
    if a == [] {
      assert a + b == b;
    } else {
      assert (a + b)[1..] == a[1..] + b;
      LabelBytesAppend(a[1..], b);
    }
  }

  /** Labels written out with an empty one among them read as those before it,
      whatever comes after: the rest of the name and its root byte, or a pointer. */
  lemma CutAtEmptyLabel(out: Bytes, pre: seq<Label>, post: seq<Label>, tail: Bytes, buf: Bytes)
    requires ShortLabels(pre) && LowerLabels(pre) && |pre| <= 255
    requires out + (LabelBytes(pre + [[]] + post) + tail) <= buf
    ensures NameAt(buf, |out|) == Ok((Dotted(pre), |out| + |Wire(pre)|))
  {
    hide *;
    LabelBytesAppend(pre + [[]], post);
    LabelBytesAppend(pre, [[]]);
    EmptyLabelByte();
    WireIs(pre);
    var all, rest := LabelBytes(pre + [[]] + post) + tail, LabelBytes(post) + tail;
    assert all == Wire(pre) + rest;
    assert out + Wire(pre) <= out + all;
    FullNameReads(out, pre, buf);
  }

  lemma WireIs(ls: seq<Label>)
    ensures Wire(ls) == LabelBytes(ls) + [0]
  {
  }

  lemma EmptyLabelByte()
    ensures LabelBytes([[]]) == [0]
  {
    var one: seq<Label> := [[]];
    assert one[1..] == [];
  }

  lemma {:induction false} FirstEmpty(ls: seq<Label>) returns (n: nat)
    requires [] in ls
    ensures n < |ls| && ls[n] == [] && [] !in ls[..n]
    decreases |ls|
  {
    if ls[0] == [] {
      n := 0;
    } else {
      var m := FirstEmpty(ls[1..]);
      n := m + 1;
      assert ls[..n] == [ls[0]] + ls[1..][..m];
    }
  }

  /** What a name with an empty label reads back as, written in full or against
      a recorded suffix: the labels before the first empty one. */
  lemma EmptyLabelCutsName(e: Enc, name: Name, n: nat, buf: Bytes)
    requires TableOk(e) && CanonicalName(name) == name && PutName(e, name).ok && PutName(e, name).enc.out <= buf
    requires n < |NameLabels(name)| <= 254 && NameLabels(name)[n] == [] && [] !in NameLabels(name)[..n]
    ensures var pre := NameLabels(name)[..n];
      NameAt(buf, |e.out|) == Ok((Dotted(pre), |e.out| + |Wire(pre)|))
  {
    hide TableOk, EntryOk, PutFull, PutLabels, CanonicalName, NameLabels, Walk, NameAt, ShortLabel, LowerLabel,
      LabelBytes, PointerBytes, Dotted, NoDot;
    var ls := NameLabels(name);
    var k := FindSuffix(e.names, ls, 0);
    CanonicalLabels(name);
    if k == |ls| {
      PutFullSucceeds(e, ls);
      PutFullOut(e, ls);
      BeforeEmpty(ls, n, |ls|);
      assert ls[..|ls|] == ls;
      CutAtEmptyLabel(e.out, ls[..n], ls[n + 1..], [0], buf);
    } else {
      SuffixHasNoEmpty(e, ls, k, n);
      PutLabelsSucceeds(e.out, ls[..k]);
      BeforeEmpty(ls, n, k);
      var ptr := PointerBytes(e.names[Dotted(ls[k..])]);
      CatAssoc(e.out, LabelBytes(ls[..k]), ptr);
      CutAtEmptyLabel(e.out, ls[..n], ls[n + 1..k], ptr, buf);
    }
  }

  /** The first `k` labels, around the empty one at `n`. */
  lemma BeforeEmpty(ls: seq<Label>, n: nat, k: nat)
    requires n < k <= |ls| && ls[n] == [] && [] !in ls[..n] && FitsLabels(ls[..k]) && LowerLabels(ls)
    ensures ls[..k] == ls[..n] + [[]] + ls[n + 1..k]
    ensures ShortLabels(ls[..n]) && LowerLabels(ls[..n])
  {
    forall l | l in ls[..n] ensures ShortLabel(l) && LowerLabel(l) {
      assert l in ls[..k] && l in ls && l != [];
    }
  }

  /** A recorded suffix has no empty label, so the empty one stands before it. */
  lemma SuffixHasNoEmpty(e: Enc, ls: seq<Label>, k: nat, n: nat)
    requires TableOk(e) && NoDots(ls) && k < |ls| && Dotted(ls[k..]) in e.names && n < |ls| && ls[n] == []
    ensures n < k
  {
    hide FullAt, LabelBytes;
    assert forall l :: l in ls[k..] ==> l in ls;
    KeyLabelsOf(ls[k..]);
    assert EntryOk(e.out, Dotted(ls[k..]), e.names[Dotted(ls[k..])]);
    forall i | k <= i < |ls| ensures ShortLabel(ls[i]) {
      assert ls[i] == ls[k..][i - k];
    }
  }

  lemma {:induction false} PutLabelsSucceeds(out: Bytes, ls: seq<Label>)
    ensures PutLabels(out, ls).1 <==> FitsLabels(ls)
    ensures FitsLabels(ls) ==> PutLabels(out, ls).0 == out + LabelBytes(ls)
    decreases |ls|
  {
    if ls == [] {
      assert out + LabelBytes(ls) == out;
    } else {
      assert ls[0] in ls;
      assert forall l :: l in ls <==> l == ls[0] || l in ls[1..];
      PutLabelsSucceeds(out + OneLabel(ls[0]), ls[1..]);
      CatAssoc(out, OneLabel(ls[0]), LabelBytes(ls[1..]));
    }
  }

  lemma CanonicalLabels(name: Name)
    requires CanonicalName(name) == name
    ensures var ls := NameLabels(name); Dotted(ls) == name && NoDots(ls) && LowerLabels(ls)
  {
    LabelsSpellName(name);
    if name != ROOT {
      var bare := TrimDots(TrimEnd(TrimStart(name)));
      TrimDotsIsPrefix(TrimEnd(TrimStart(name)));
      var low := LowerAll(bare);
      assert name == low + [DOT];
      assert name[..|name| - 1] == low;
      assert low[|low| - 1] != DOT;
      assert TrimDots(name) == low;
      LowerTwice(bare);
      SplitKeepsLower(low);
    }
  }

  /** Fewer labels are a shorter text, unless it is the root either way. */
  lemma CutIsShorter(ls: seq<Label>, n: nat)
    requires n < |ls| && Dotted(ls) != ROOT
    ensures Dotted(ls[..n]) != Dotted(ls)
  {
    if n > 0 {
      JoinAppend(ls[..n], ls[n..]);
      assert ls[..n] + ls[n..] == ls;
      assert |Join(ls)| > |Join(ls[..n])|;
    }
  }

  /** Which written names read back: a canonical name of at most 254 labels that
      was written without error comes back exactly when none of its labels is
      empty. */
  lemma NameReadsExactly(e: Enc, name: Name, buf: Bytes)
    requires TableOk(e) && Ascii(name) && CanonicalName(name) == name && |NameLabels(name)| <= 254
    requires PutName(e, name).ok && PutName(e, name).enc.out <= buf
    ensures (NameAt(buf, |e.out|).Ok? && NameAt(buf, |e.out|).value.0 == name) <==> [] !in NameLabels(name)
  {
    hide TableOk, EntryOk, PutFull, PutLabels, CanonicalName, NameLabels, NameAt, LowerLabel, LabelBytes, Dotted, NoDot,
      Wire, PointerBytes;
    var ls := NameLabels(name);
    CanonicalLabels(name);
    if [] in ls {
      var n := FirstEmpty(ls);
      EmptyLabelCutsName(e, name, n, buf);
      RootHasNoLabels();
      CutIsShorter(ls, n);
    } else {
      WrittenIsShort(e, name);
      NameRoundTrip(e, name, buf);
    }
  }

  lemma RootHasNoLabels()
    ensures NameLabels(ROOT) == []
  {
    assert ROOT[..0] == [];
    assert TrimDots(ROOT) == [];
  }

  /** What was written has no label over 63 bytes. */
  lemma WrittenIsShort(e: Enc, name: Name)
    requires TableOk(e) && CanonicalName(name) == name && PutName(e, name).ok && [] !in NameLabels(name)
    ensures ShortLabels(NameLabels(name))
  {
    hide PutFull, PutLabels, CanonicalName, NameLabels, LabelBytes, Dotted, FullAt;
    var ls := NameLabels(name);
    var k := FindSuffix(e.names, ls, 0);
    CanonicalLabels(name);
    if k == |ls| {
      PutFullSucceeds(e, ls);
    } else {
      PutLabelsSucceeds(e.out, ls[..k]);
      assert forall l :: l in ls[k..] ==> l in ls;
      KeyLabelsOf(ls[k..]);
      assert EntryOk(e.out, Dotted(ls[k..]), e.names[Dotted(ls[k..])]);
      assert ls == ls[..k] + ls[k..];
    }
  }

  // ---- the name "a..b." ----------------------------------------------------

  const A_EMPTY_B: Name := [97, DOT, DOT, 98, DOT]

  lemma AEmptyBLabels()
    ensures CanonicalName(A_EMPTY_B) == A_EMPTY_B && NameLabels(A_EMPTY_B) == [[97], [], [98]]
  {
    var bare: Bytes := [97, DOT, DOT, 98];
    assert TrimStart(A_EMPTY_B) == A_EMPTY_B && TrimEnd(A_EMPTY_B) == A_EMPTY_B;
    assert A_EMPTY_B[..4] == bare;
    assert TrimDots(A_EMPTY_B) == TrimDots(bare) == bare;
    assert LowerAll(bare) == bare;
    assert CanonicalName(A_EMPTY_B) == A_EMPTY_B;
    var ls: seq<Label> := [[97], [], [98]];
    assert forall l :: l in ls ==> NoDot(l);
    assert Join(ls) == bare by {
      assert ls[1..] == [[], [98]] && ls[1..][1..] == [[98]];
    }
    SplitJoin(ls);
  }

  /** Into an empty message it is written without error, and read back as "a.". */
  lemma AEmptyBLost(out: Bytes, buf: Bytes)
    requires PutName(Enc(out, map[]), A_EMPTY_B).enc.out <= buf
    ensures PutName(Enc(out, map[]), A_EMPTY_B).ok
    ensures NameAt(buf, |out|) == Ok(([97, DOT], |out| + 3))
  {
    hide NameAt, Walk, PutFull, PutLabels, CanonicalName, TrimDots, Split;
    var e := Enc(out, map[]);
    AEmptyBLabels();
    var ls := NameLabels(A_EMPTY_B);
    assert FindSuffix(map[], ls, 0) == |ls|;
    PutFullSucceeds(e, ls);
    assert ls[..1] == [[97]];
    EmptyLabelCutsName(e, A_EMPTY_B, 1, buf);
    var a: seq<Label> := [[97]];
    assert a[1..] == [];
    assert Dotted(a) == [97, DOT];
    assert LabelBytes(a) == OneLabel([97]) + LabelBytes([]);
    assert Wire(a) == [1, 97, 0];
    assert ls[..1] == a;
  }
}
