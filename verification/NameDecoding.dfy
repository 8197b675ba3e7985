/** Reading a possibly compressed name, against the label/pointer grammar of
    section 4.1.4 of RFC 1035. */
module NameDecoding {
  import opened Octets
  import opened Results
  import opened Names
  import opened Slices

  /** Parse errors. `Panic` is an index or slice out of range: the SOA, RRSIG
      and NSEC readers index the buffer without checking. */
  datatype ParseError =
    | ShortMessage
    | Truncated
    | NameLoop
    | NamePastEnd
    | TruncatedPointer
    | BadLabelLength
    | BadLabel
    | RdataPastEnd
    | BadAddressLength
    | Panic

  /** The reader's limit on labels, pointers and root byte. */
  function StepLimit(): (n: nat)
    ensures n == 256
  {
    256
  }

  // ---- the grammar ---------------------------------------------------------

  /** `ls` is spelled at `at` by a derivation of exactly `steps` elements:
      labels, pointers and the root byte. */
  ghost predicate Spells(buf: Bytes, at: nat, ls: seq<Label>, steps: nat)
    decreases steps
  {
    && steps > 0
    && at < |buf|
    && (|| (buf[at] == 0 && ls == [] && steps == 1)
        || (1 <= buf[at] <= 63
            && at + 1 + buf[at] <= |buf|
            && ls != []
            && Folded(buf[at + 1..at + 1 + buf[at]], ls[0])
            && Spells(buf, at + 1 + buf[at], ls[1..], steps - 1))
        || (buf[at] >= 0xC0
            && at + 1 < |buf|
            && Spells(buf, (buf[at] as int - 192) * 256 + buf[at + 1], ls, steps - 1)))
  }

  ghost predicate SpelledWithin(buf: Bytes, at: nat, bound: nat) {
    exists ls: seq<Label>, steps: nat :: steps <= bound && Spells(buf, at, ls, steps)
  }

  function PointerAt(buf: Bytes, at: nat): nat
    requires at + 1 < |buf| && buf[at] >= 0xC0
  {
    ((buf[at] - 0xC0) as int) * 0x100 + buf[at + 1]
  }

  /** Where a reader stands after the name at `at`: past the first pointer or
      the root byte. */
  function After(buf: Bytes, at: nat): nat
    decreases |buf| - at
  {
    if at >= |buf| then at
    else if buf[at] >= 0xC0 then at + 2
    else if buf[at] == 0 then at + 1
    else After(buf, at + 1 + buf[at])
  }

  // ---- the reader ----------------------------------------------------------

  /** What `read_name` decodes from `at` with `fuel` steps left. */
  function Walk(buf: Bytes, at: nat, fuel: nat): Result<seq<Label>, ParseError>
    decreases fuel
  {
    if fuel == 0 then Err(NameLoop)
    else if at >= |buf| then Err(NamePastEnd)
    else
      var len := buf[at];
      if len >= 0xC0 then
        if at + 1 >= |buf| then Err(TruncatedPointer) else Walk(buf, PointerAt(buf, at), fuel - 1)
      else if len >= 0x40 then Err(BadLabelLength)
      else if len == 0 then Ok([])
      else if at + 1 + len > |buf| then Err(BadLabel)
      else
        var rest :- Walk(buf, at + 1 + len, fuel - 1);
        Ok([LowerAll(buf[at + 1..at + 1 + len])] + rest)
  }

  function NameAt(buf: Bytes, pos: nat): Result<(Name, nat), ParseError> {
    var ls :- Walk(buf, pos, StepLimit());
    Ok((Dotted(ls), After(buf, pos)))
  }

  lemma NameAtFrom(buf: Bytes, pos: nat, ls: seq<Label>)
    requires Walk(buf, pos, StepLimit()) == Ok(ls)
    ensures NameAt(buf, pos) == Ok((Dotted(ls), After(buf, pos)))
  {
  }

  function Prepend(ls: seq<Label>, r: Result<seq<Label>, ParseError>): Result<seq<Label>, ParseError> {
    if r.Ok? then Ok(ls + r.value) else r
  }

  /** One round of the reader's loop. */
  lemma WalkAt(buf: Bytes, at: nat, fuel: nat)
    ensures fuel == 0 ==> Walk(buf, at, fuel) == Err(NameLoop)
    ensures fuel > 0 && at >= |buf| ==> Walk(buf, at, fuel) == Err(NamePastEnd)
    ensures fuel > 0 && at < |buf| ==>
      var b := buf[at];
      if b >= 0xC0 then
        if at + 1 >= |buf| then Walk(buf, at, fuel) == Err(TruncatedPointer)
        else Walk(buf, at, fuel) == Walk(buf, PointerAt(buf, at), fuel - 1) && After(buf, at) == at + 2
      else if b >= 0x40 then Walk(buf, at, fuel) == Err(BadLabelLength)
      else if b == 0 then Walk(buf, at, fuel) == Ok([]) && After(buf, at) == at + 1
      else if at + 1 + b > |buf| then Walk(buf, at, fuel) == Err(BadLabel)
      else
        && Walk(buf, at, fuel) == Prepend([LowerAll(buf[at + 1..at + 1 + b])], Walk(buf, at + 1 + b, fuel - 1))
        && After(buf, at) == After(buf, at + 1 + b)
  {
  }

  lemma PrependTwice(a: seq<Label>, l: Label, r: Result<seq<Label>, ParseError>)
    ensures Prepend(a, Prepend([l], r)) == Prepend(a + [l], r)
  {
    assert r.Ok? ==> a + ([l] + r.value) == (a + [l]) + r.value;
  }

  method ReadName(buf: Bytes, pos: nat) returns (r: Result<(Name, nat), ParseError>)
    ensures r == NameAt(buf, pos)
  {
    hide Walk, After, PointerAt, LowerAll, Dotted;
    var labels: seq<Label> := [];
    var jumped := false;
    var end := pos;
    var next: nat := pos;
    var guard := 0;
    ghost var whole := Walk(buf, pos, StepLimit());
    assert whole.Ok? ==> [] + whole.value == whole.value;
    while true
      invariant 0 <= guard <= StepLimit()
      invariant Walk(buf, pos, StepLimit()) == Prepend(labels, Walk(buf, next, StepLimit() - guard))
      invariant if jumped then end == After(buf, pos) else After(buf, next) == After(buf, pos)
      decreases StepLimit() - guard
    {
      WalkAt(buf, next, StepLimit() - guard);
      guard := guard + 1;
      if guard > StepLimit() {
        return Err(NameLoop);
      }
      if next >= |buf| {
        return Err(NamePastEnd);
      }
      var len := buf[next];
      if len >= 0xC0 {
        if next + 1 >= |buf| {
          return Err(TruncatedPointer);
        }
        if !jumped {
          end := next + 2;
          jumped := true;
        }
        next := PointerAt(buf, next);
        continue;
      }
      if len >= 0x40 {
        return Err(BadLabelLength);
      }
      next := next + 1;
      if len == 0 {
        break;
      }
      if next + len > |buf| {
        return Err(BadLabel);
      }
      var piece := LowerAll(buf[next..next + len]);
      PrependTwice(labels, piece, Walk(buf, next + len, StepLimit() - guard));
      labels := labels + [piece];
      next := next + len;
    }
    assert labels + [] == labels;
    if !jumped {
      end := next;
    }
    r := Ok((Dotted(labels), end));
  }

  // ---- the reader meets the grammar ----------------------------------------

  lemma {:induction false} WalkComplete(buf: Bytes, at: nat, ls: seq<Label>, steps: nat, fuel: nat)
    requires Spells(buf, at, ls, steps) && steps <= fuel
    ensures Walk(buf, at, fuel) == Ok(ls)
    decreases steps
  {
    if buf[at] == 0 {
    } else if buf[at] >= 0xC0 {
      WalkComplete(buf, PointerAt(buf, at), ls, steps - 1, fuel - 1);
    } else {
      FoldedIsLower(buf[at + 1..at + 1 + buf[at]], ls[0]);
      WalkComplete(buf, at + 1 + buf[at], ls[1..], steps - 1, fuel - 1);
      assert [ls[0]] + ls[1..] == ls;
    }
  }

  lemma {:induction false} WalkSound(buf: Bytes, at: nat, fuel: nat) returns (steps: nat)
    requires Walk(buf, at, fuel).Ok?
    ensures steps <= fuel && Spells(buf, at, Walk(buf, at, fuel).value, steps)
    decreases fuel
  {
    if buf[at] == 0 {
      steps := 1;
    } else if buf[at] >= 0xC0 {
      var n := WalkSound(buf, PointerAt(buf, at), fuel - 1);
      steps := n + 1;
    } else {
      var n := WalkSound(buf, at + 1 + buf[at], fuel - 1);
      var ls := Walk(buf, at, fuel).value;
      assert ls[1..] == Walk(buf, at + 1 + buf[at], fuel - 1).value;
      FoldedIsLower(buf[at + 1..at + 1 + buf[at]], ls[0]);
      steps := n + 1;
    }
  }

  lemma {:induction false} AfterInside(buf: Bytes, at: nat, fuel: nat)
    requires Walk(buf, at, fuel).Ok?
    ensures at < After(buf, at) <= |buf|
    decreases fuel
  {
    if buf[at] == 0 || buf[at] >= 0x40 {
    } else {
      AfterInside(buf, at + 1 + buf[at], fuel - 1);
    }
  }

  /** The reader succeeds exactly when the grammar derives some labels in at
      most 256 steps; it returns those labels, and stops inside the buffer,
      strictly past the start. */
  lemma NameAtMeetsGrammar(buf: Bytes, pos: nat)
    ensures NameAt(buf, pos).Ok? <==> SpelledWithin(buf, pos, StepLimit())
    ensures forall ls, steps: nat :: steps <= StepLimit() && Spells(buf, pos, ls, steps) ==>
      NameAt(buf, pos) == Ok((Dotted(ls), After(buf, pos)))
    ensures NameAt(buf, pos).Ok? ==> pos < NameAt(buf, pos).value.1 <= |buf|
  {
    forall ls, steps: nat | steps <= StepLimit() && Spells(buf, pos, ls, steps)
      ensures Walk(buf, pos, StepLimit()) == Ok(ls)
    {
      WalkComplete(buf, pos, ls, steps, StepLimit());
    }
    var walked := Walk(buf, pos, StepLimit());
    if walked.Ok? {
      var steps := WalkSound(buf, pos, StepLimit());
      assert Spells(buf, pos, walked.value, steps);
      AfterInside(buf, pos, StepLimit());
    }
  }

  /** A position spells at most one name, by at most one derivation. */
  lemma {:induction false} SpellingUnique(buf: Bytes, at: nat, a: seq<Label>, b: seq<Label>, m: nat, n: nat)
    requires Spells(buf, at, a, m) && Spells(buf, at, b, n)
    ensures a == b && m == n
    decreases m
  {
    if buf[at] == 0 {
    } else if buf[at] >= 0xC0 {
      SpellingUnique(buf, PointerAt(buf, at), a, b, m - 1, n - 1);
    } else {
      SpellingUnique(buf, at + 1 + buf[at], a[1..], b[1..], m - 1, n - 1);
      FoldedIsLower(buf[at + 1..at + 1 + buf[at]], a[0]);
      FoldedIsLower(buf[at + 1..at + 1 + buf[at]], b[0]);
      assert a == [a[0]] + a[1..] && b == [b[0]] + b[1..];
    }
  }

  // ---- reading what was written in full ------------------------------------

  /** A full, pointer-free, zero-terminated copy of `ls` stands at `at`. */
  predicate FullAt(buf: Bytes, at: nat, ls: seq<Label>) {
    StandsAt(buf, at, Wire(ls))
  }

  predicate LowerLabels(ls: seq<Label>) {
    forall l :: l in ls ==> LowerLabel(l)
  }

  lemma ReadLabel(buf: Bytes, at: nat, l: Label, rest: seq<Label>, fuel: nat)
    requires ShortLabel(l) && LowerLabel(l) && fuel > 0 && StandsAt(buf, at, OneLabel(l))
    requires Walk(buf, at + |OneLabel(l)|, fuel - 1) == Ok(rest)
    ensures Walk(buf, at, fuel) == Ok([l] + rest)
    ensures After(buf, at) == After(buf, at + |OneLabel(l)|)
  {
    var w := OneLabel(l);
    assert buf[at + 0] == w[0] == |l|;
    StandsAtSplit(buf, at, [w[0]], l);
    StandsAtSlice(buf, at + 1, l);
  }

  lemma TailLabels(ls: seq<Label>)
    requires ls != [] && ShortLabels(ls) && LowerLabels(ls)
    ensures ShortLabel(ls[0]) && LowerLabel(ls[0])
    ensures ShortLabels(ls[1..]) && LowerLabels(ls[1..])
  {
    assert ls[0] in ls;
    assert forall l :: l in ls[1..] ==> l in ls;
  }

  lemma FullAtTail(buf: Bytes, at: nat, ls: seq<Label>)
    requires ls != [] && FullAt(buf, at, ls)
    ensures StandsAt(buf, at, OneLabel(ls[0]))
    ensures FullAt(buf, at + |OneLabel(ls[0])|, ls[1..])
    ensures |Wire(ls)| == |OneLabel(ls[0])| + |Wire(ls[1..])|
  {
    assert Wire(ls) == OneLabel(ls[0]) + Wire(ls[1..]);
    StandsAtSplit(buf, at, OneLabel(ls[0]), Wire(ls[1..]));
  }

  lemma ReadRoot(buf: Bytes, at: nat, fuel: nat)
    requires FullAt(buf, at, []) && fuel > 0
    ensures Walk(buf, at, fuel) == Ok([])
    ensures After(buf, at) == at + |Wire([])|
  {
    assert buf[at + 0] == Wire([])[0] == 0;
  }

  lemma {:induction false} ReadFull(buf: Bytes, at: nat, ls: seq<Label>, fuel: nat)
    requires FullAt(buf, at, ls) && ShortLabels(ls) && LowerLabels(ls) && fuel > |ls|
    ensures Walk(buf, at, fuel) == Ok(ls)
    ensures After(buf, at) == at + |Wire(ls)|
    decreases |ls|
  {
    hide *;
    if ls == [] {
      ReadRoot(buf, at, fuel);
    } else {
      var l, rest := ls[0], ls[1..];
      var next := at + |OneLabel(l)|;
      FullAtTail(buf, at, ls);
      TailLabels(ls);
      ReadFull(buf, next, rest, fuel - 1);
      ReadLabel(buf, at, l, rest, fuel);
      assert [l] + rest == ls;
    }
  }
}
