/** Domain names: the dotted text form, its canonical form, its labels and its
    uncompressed wire form. Text is a sequence of ASCII bytes. */
module Names {
  import opened Octets

  type Label = Bytes
  type Name = Bytes

  const DOT: byte := 46
  const ROOT: Name := [DOT]

  predicate IsSpace(b: byte) {
    b == 32 || 9 <= b <= 13
  }

  function Lower(b: byte): byte {
    if 65 <= b <= 90 then b + 32 else b
  }

  function LowerAll(s: Bytes): (r: Bytes)
    ensures |r| == |s| && forall i :: 0 <= i < |s| ==> r[i] == Lower(s[i])
  {
    if s == [] then [] else [Lower(s[0])] + LowerAll(s[1..])
  }

  /** `low` is `s` with the letters A to Z replaced by a to z. */
  predicate Folded(s: Bytes, low: Bytes) {
    && |low| == |s|
    && forall i :: 0 <= i < |s| ==> low[i] == if 65 <= s[i] <= 90 then s[i] + 32 else s[i]
  }

  lemma FoldedIsLower(s: Bytes, low: Bytes)
    ensures Folded(s, low) <==> low == LowerAll(s)
  {
  }

  function TrimStart(s: Bytes): Bytes {
    if s != [] && IsSpace(s[0]) then TrimStart(s[1..]) else s
  }

  function TrimEnd(s: Bytes): Bytes {
    if s != [] && IsSpace(s[|s| - 1]) then TrimEnd(s[..|s| - 1]) else s
  }

  function TrimDots(s: Bytes): Bytes {
    if s != [] && s[|s| - 1] == DOT then TrimDots(s[..|s| - 1]) else s
  }

  /** Lower case with one trailing dot; the root is ".". */
  function CanonicalName(name: Name): Name {
    var bare := TrimDots(TrimEnd(TrimStart(name)));
    if bare == [] then ROOT else LowerAll(bare) + [DOT]
  }

  /** The pieces between dots, like `str::split('.')`: never empty. */
  function Split(s: Bytes): (ls: seq<Label>)
    ensures |ls| > 0
  {
    if s == [] then [[]]
    else
      var rest := Split(s[1..]);
      if s[0] == DOT then [[]] + rest else [[s[0]] + rest[0]] + rest[1..]
  }

  function Join(ls: seq<Label>): Bytes {
    if |ls| == 0 then [] else if |ls| == 1 then ls[0] else ls[0] + [DOT] + Join(ls[1..])
  }

  /** The text of a list of labels: each followed by a dot; the root is ".". */
  function Dotted(ls: seq<Label>): Name {
    if ls == [] then ROOT else Join(ls) + [DOT]
  }

  /** The labels `write_name` works on: none for the root. */
  function NameLabels(name: Name): seq<Label> {
    var c := CanonicalName(name);
    if c == ROOT then [] else Split(TrimDots(c))
  }

  // ---- uncompressed wire form (section 3.1 of RFC 1035) --------------------

  predicate ShortLabel(l: Label) {
    1 <= |l| <= 63
  }

  predicate ShortLabels(ls: seq<Label>) {
    forall l :: l in ls ==> ShortLabel(l)
  }

  /** The labels with their length bytes, without the final root byte. */
  function LabelBytes(ls: seq<Label>): Bytes {
    if ls == [] then [] else OneLabel(ls[0]) + LabelBytes(ls[1..])
  }

  function OneLabel(l: Label): Bytes {
    [(|l| % 0x100) as byte] + l
  }

  function Wire(ls: seq<Label>): Bytes {
    LabelBytes(ls) + [0]
  }

  // ---- names that survive the codec ----------------------------------------

  predicate Ascii(s: Bytes) {
    forall i :: 0 <= i < |s| ==> s[i] < 0x80
  }

  /** Canonical ASCII names with labels of 1 to 63 bytes. 254 labels is what the
      reader's limit of 256 steps leaves when one pointer is followed. */
  predicate GoodName(name: Name) {
    && Ascii(name)
    && CanonicalName(name) == name
    && ShortLabels(NameLabels(name))
    && |NameLabels(name)| <= 254
  }

  predicate NoDot(l: Label) {
    DOT !in l
  }

  predicate NoDots(ls: seq<Label>) {
    forall l :: l in ls ==> NoDot(l)
  }

  predicate LowerLabel(l: Label) {
    LowerAll(l) == l
  }

  lemma {:induction false} SplitHasNoDots(s: Bytes)
    ensures NoDots(Split(s))
  {
    if s == [] {
    } else {
      SplitHasNoDots(s[1..]);
      var rest := Split(s[1..]);
      assert rest[0] in rest;
      assert forall l :: l in rest[1..] ==> l in rest;
    }
  }

  lemma {:induction false} JoinSplit(s: Bytes)
    ensures Join(Split(s)) == s
  {
    if s == [] {
    } else {
      JoinSplit(s[1..]);
      var rest := Split(s[1..]);
      if s[0] == DOT {
        assert ([[]] + rest)[1..] == rest;
      } else {
        var all := [[s[0]] + rest[0]] + rest[1..];
        assert all[1..] == rest[1..];
        assert Join(all) == [s[0]] + Join(rest);
      }
    }
  }

  lemma {:induction false} SplitWithoutDot(l: Label)
    requires NoDot(l)
    ensures Split(l) == [l]
  {
    if l == [] {
    } else {
      assert forall b :: b in l[1..] ==> b in l;
      assert l[0] in l;
      SplitWithoutDot(l[1..]);
      assert [l[0]] + l[1..] == l;
    }
  }

  lemma {:induction false} SplitAtDot(l: Label, s: Bytes)
    requires NoDot(l)
    ensures Split(l + [DOT] + s) == [l] + Split(s)
  {
    var t := l + [DOT] + s;
    if l == [] {
      assert t[1..] == s;
    } else {
      assert forall b :: b in l[1..] ==> b in l;
      assert l[0] in l;
      SplitAtDot(l[1..], s);
      assert t[1..] == l[1..] + [DOT] + s;
      var rest := Split(t[1..]);
      assert rest[0] == l[1..] && rest[1..] == Split(s);
      assert [l[0]] + l[1..] == l;
    }
  }

  /** Joining labels that contain no dot loses nothing. */
  lemma {:induction false} SplitJoin(ls: seq<Label>)
    requires ls != [] && NoDots(ls)
    ensures Split(Join(ls)) == ls
  {
    assert ls[0] in ls;
    if |ls| == 1 {
      SplitWithoutDot(ls[0]);
    } else {
      assert forall l :: l in ls[1..] ==> l in ls;
      SplitJoin(ls[1..]);
      SplitAtDot(ls[0], Join(ls[1..]));
    }
  }

  lemma {:induction false} TrimDotsIsPrefix(s: Bytes)
    ensures TrimDots(s) <= s
    ensures TrimDots(s) != [] ==> TrimDots(s)[|TrimDots(s)| - 1] != DOT
  {
    if s == [] {
    } else if s[|s| - 1] == DOT {
      TrimDotsIsPrefix(s[..|s| - 1]);
    }
  }

  /** The labels of a canonical name spell the name. */
  lemma LabelsSpellName(name: Name)
    requires CanonicalName(name) == name
    ensures Dotted(NameLabels(name)) == name
    ensures NoDots(NameLabels(name))
  {
    var bare := TrimDots(TrimEnd(TrimStart(name)));
    if bare == [] {
    } else {
      TrimDotsIsPrefix(TrimEnd(TrimStart(name)));
      var low := LowerAll(bare);
      assert name == low + [DOT];
      assert name[..|name| - 1] == low;
      assert low[|low| - 1] != DOT;
      assert TrimDots(name) == low;
      assert name != ROOT;
      JoinSplit(low);
      SplitHasNoDots(low);
    }
  }

  /** Different label lists have different texts, so the compression table's
      text keys stand for label lists. */
  lemma DottedInjective(a: seq<Label>, b: seq<Label>)
    requires ShortLabels(a) && ShortLabels(b) && NoDots(a) && NoDots(b)
    requires Dotted(a) == Dotted(b)
    ensures a == b
  {
    if a == [] || b == [] {
      if a != [] { JoinNotEmpty(a); }
      if b != [] { JoinNotEmpty(b); }
    } else {
      assert Join(a) == Dotted(a)[..|Dotted(a)| - 1];
      assert Join(b) == Dotted(b)[..|Dotted(b)| - 1];
      SplitJoin(a);
      SplitJoin(b);
    }
  }

  lemma JoinNotEmpty(ls: seq<Label>)
    requires ls != [] && ShortLabels(ls)
    ensures Join(ls) != []
  {
    assert ls[0] in ls && ShortLabel(ls[0]);
  }

  lemma {:induction false} JoinAppend(a: seq<Label>, x: seq<Label>)
    requires a != [] && x != []
    ensures Join(a + x) == Join(a) + [DOT] + Join(x)
  {
    if |a| == 1 {
      assert (a + x)[1..] == x;
    } else {
      assert (a + x)[1..] == a[1..] + x;
      JoinAppend(a[1..], x);
    }
  }

  lemma DottedAppend(a: seq<Label>, x: seq<Label>)
    requires a != [] && x != []
    ensures Dotted(a + x) == Join(a) + [DOT] + Dotted(x)
  {
    JoinAppend(a, x);
  }
}
