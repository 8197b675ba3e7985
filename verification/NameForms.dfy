/** What the canonical form of a name is, in terms of its bytes: the name without
    outer white space and final dots, in lower case, with one dot after it. */
module NameForms {
  import opened Octets
  import opened Names

  /** A name in four pieces: white space, the name proper, its final dots, and
      white space again. */
  datatype NameParts = NameParts(pre: Bytes, core: Bytes, dots: Bytes, post: Bytes)

  predicate White(b: byte) {
    b == 32 || b == 9 || b == 10 || b == 11 || b == 12 || b == 13
  }

  /** The pieces make up the name, and none of them could be longer. */
  predicate PartsOf(n: Name, p: NameParts) {
    && n == p.pre + p.core + p.dots + p.post
    && (forall b :: b in p.pre || b in p.post ==> White(b))
    && (forall b :: b in p.dots ==> b == 46)
    && (p.core != [] ==> !White(p.core[0]) && p.core[|p.core| - 1] != 46)
    && (p.core != [] && p.dots == [] ==> !White(p.core[|p.core| - 1]))
  }

  /** Byte by byte the same, or the same letter in two cases. */
  predicate SameUpToCase(a: Bytes, b: Bytes) {
    && |a| == |b|
    && forall i :: 0 <= i < |a| ==>
      || a[i] == b[i]
      || (65 <= a[i] <= 90 && b[i] == a[i] + 32)
      || (65 <= b[i] <= 90 && a[i] == b[i] + 32)
  }

  /** The names are equal up to case, outer white space and final dots. */
  ghost predicate SameName(a: Name, b: Name) {
    exists p, q :: PartsOf(a, p) && PartsOf(b, q) && SameUpToCase(p.core, q.core)
  }

  // ---- trimming ------------------------------------------------------------

  lemma {:induction false} TrimStartSplits(s: Bytes) returns (pre: Bytes)
    ensures s == pre + TrimStart(s)
    ensures forall b :: b in pre ==> White(b)
    ensures TrimStart(s) != [] ==> !White(TrimStart(s)[0])
  {
    pre := [];
    if s == [] {
    } else if IsSpace(s[0]) {
      var rest := TrimStartSplits(s[1..]);
      pre := [s[0]] + rest;
      assert s == [s[0]] + s[1..];
    }
  }

  lemma {:induction false} TrimEndSplits(s: Bytes) returns (post: Bytes)
    ensures s == TrimEnd(s) + post
    ensures forall b :: b in post ==> White(b)
    ensures TrimEnd(s) != [] ==> !White(TrimEnd(s)[|TrimEnd(s)| - 1])
  {
    post := [];
    if s == [] {
    } else if IsSpace(s[|s| - 1]) {
      var m := |s| - 1;
      var rest := TrimEndSplits(s[..m]);
      post := rest + [s[m]];
      assert s == s[..m] + [s[m]];
    }
  }

  lemma {:induction false} TrimDotsSplits(s: Bytes) returns (dots: Bytes)
    ensures s == TrimDots(s) + dots
    ensures forall b :: b in dots ==> b == 46
    ensures TrimDots(s) != [] ==> TrimDots(s)[|TrimDots(s)| - 1] != 46
  {
    dots := [];
    if s == [] {
    } else if s[|s| - 1] == DOT {
      var m := |s| - 1;
      var rest := TrimDotsSplits(s[..m]);
      dots := rest + [s[m]];
      assert s == s[..m] + [s[m]];
    }
  }

  /** What `CanonicalName` puts into lower case. */
  function Core(n: Name): Bytes {
    TrimDots(TrimEnd(TrimStart(n)))
  }

  lemma PartsFromTrims(n: Name, p: NameParts, s: Bytes, t: Bytes)
    requires n == p.pre + s && s == t + p.post && t == p.core + p.dots
    requires forall b :: b in p.pre || b in p.post ==> White(b)
    requires forall b :: b in p.dots ==> b == 46
    requires s != [] ==> !White(s[0])
    requires t != [] ==> !White(t[|t| - 1])
    requires p.core != [] ==> p.core[|p.core| - 1] != 46
    ensures PartsOf(n, p)
  {
    hide White;
    assert n == p.pre + p.core + p.dots + p.post;
    if p.core != [] {
      assert p.core[0] == t[0] == s[0];
      assert p.dots == [] ==> p.core[|p.core| - 1] == t[|t| - 1];
    }
  }

  lemma TrimmedParts(n: Name) returns (p: NameParts)
    ensures PartsOf(n, p) && p.core == Core(n)
  {
    hide TrimStart, TrimEnd, TrimDots, White, PartsOf;
    var pre := TrimStartSplits(n);
    var s := TrimStart(n);
    var post := TrimEndSplits(s);
    var t := TrimEnd(s);
    var dots := TrimDotsSplits(t);
    p := NameParts(pre, TrimDots(t), dots, post);
    PartsFromTrims(n, p, s, t);
  }

  lemma {:induction false} TrimStartOf(pre: Bytes, s: Bytes)
    requires forall b :: b in pre ==> White(b)
    ensures TrimStart(pre + s) == TrimStart(s)
  {
    if pre == [] {
      assert pre + s == s;
    } else {
      assert pre[0] in pre && (pre + s)[1..] == pre[1..] + s;
      TrimStartOf(pre[1..], s);
    }
  }

  lemma {:induction false} TrimEndOf(s: Bytes, post: Bytes)
    requires forall b :: b in post ==> White(b)
    ensures TrimEnd(s + post) == TrimEnd(s)
  {
    if post == [] {
      assert s + post == s;
    } else {
      var m := |post| - 1;
      assert post[m] in post && (s + post)[..|s| + m] == s + post[..m];
      TrimEndOf(s, post[..m]);
    }
  }

  lemma {:induction false} TrimDotsOf(s: Bytes, dots: Bytes)
    requires forall b :: b in dots ==> b == 46
    ensures TrimDots(s + dots) == TrimDots(s)
  {
    if dots == [] {
      assert s + dots == s;
    } else {
      var m := |dots| - 1;
      assert dots[m] in dots && (s + dots)[..|s| + m] == s + dots[..m];
      assert forall b :: b in dots[..m] ==> b in dots;
      TrimDotsOf(s, dots[..m]);
    }
  }

  lemma TrimmedFromParts(p: NameParts, t: Bytes)
    requires t == p.core + p.dots && (t != [] ==> !White(t[0]) && !White(t[|t| - 1]))
    requires forall b :: b in p.pre || b in p.post ==> White(b)
    ensures TrimEnd(TrimStart(p.pre + (t + p.post))) == t
  {
    TrimStartOf(p.pre, t + p.post);
    if t == [] {
      assert t + p.post == p.post + [];
      TrimStartOf(p.post, []);
    } else {
      assert TrimStart(t + p.post) == t + p.post;
      TrimEndOf(t, p.post);
    }
  }

  /** A name falls into pieces in one way, as far as the name proper goes. */
  lemma CoreUnique(n: Name, p: NameParts)
    requires PartsOf(n, p)
    ensures p.core == Core(n)
  {
    hide TrimStart, TrimEnd;
    var t := p.core + p.dots;
    if p.dots != [] {
      assert p.dots[0] in p.dots && p.dots[|p.dots| - 1] in p.dots;
      assert t[|t| - 1] == p.dots[|p.dots| - 1];
      assert p.core == [] ==> t[0] == p.dots[0];
    }
    assert n == p.pre + (t + p.post);
    TrimmedFromParts(p, t);
    TrimDotsOf(p.core, p.dots);
  }

  // ---- the canonical form --------------------------------------------------

  /** The canonical form of a name, for any division into pieces: each byte of
      the name proper with A to Z made a to z, and one dot; or the dot alone. */
  lemma CanonicalFromParts(n: Name, p: NameParts)
    requires PartsOf(n, p)
    ensures var c := CanonicalName(n);
      if p.core == [] then c == [46]
      else
        && |c| == |p.core| + 1 && c[|p.core|] == 46
        && forall i :: 0 <= i < |p.core| ==>
          c[i] == if 65 <= p.core[i] <= 90 then p.core[i] + 32 else p.core[i]
  {
    hide TrimStart, TrimEnd, TrimDots;
    CoreUnique(n, p);
    FoldedIsLower(p.core, LowerAll(p.core));
  }

  /** Every name has pieces, so the canonical form is defined by them; it holds
      no capital letter. */
  lemma CanonicalParts(n: Name) returns (p: NameParts)
    ensures PartsOf(n, p)
    ensures forall q :: PartsOf(n, q) ==> q.core == p.core
    ensures if p.core == [] then CanonicalName(n) == [46]
      else exists low :: Folded(p.core, low) && CanonicalName(n) == low + [46]
    ensures forall b :: b in CanonicalName(n) ==> !(65 <= b <= 90)
  {
    hide CanonicalName, Core;
    p := TrimmedParts(n);
    forall q | PartsOf(n, q) ensures q.core == p.core {
      CoreUnique(n, q);
    }
    CanonicalFromParts(n, p);
    if p.core != [] {
      var c := CanonicalName(n);
      assert Folded(p.core, c[..|p.core|]) && c == c[..|p.core|] + [46];
    }
  }

  lemma FoldsAgree(a: Bytes, b: Bytes)
    ensures LowerAll(a) == LowerAll(b) <==> SameUpToCase(a, b)
  {
    if LowerAll(a) == LowerAll(b) {
      forall i | 0 <= i < |a| ensures Lower(a[i]) == Lower(b[i]) {
        assert LowerAll(a)[i] == LowerAll(b)[i];
      }
    }
  }

  /** Two names have the same canonical form exactly when they are equal up to
      case, outer white space and final dots. */
  lemma SameNameExactly(a: Name, b: Name)
    ensures CanonicalName(a) == CanonicalName(b) <==> SameName(a, b)
  {
    hide TrimStart, TrimEnd, TrimDots, PartsOf, SameUpToCase, LowerAll;
    var x, y := Core(a), Core(b);
    FoldsAgree(x, y);
    if CanonicalName(a) == CanonicalName(b) {
      var p := TrimmedParts(a);
      var q := TrimmedParts(b);
      assert x == [] <==> y == [] by {
        LowerEmpty(a, x);
        LowerEmpty(b, y);
      }
      if x != [] {
        assert CanonicalName(a)[..|x|] == LowerAll(x) && CanonicalName(b)[..|y|] == LowerAll(y);
      }
    }
    if SameName(a, b) {
      var p, q :| PartsOf(a, p) && PartsOf(b, q) && SameUpToCase(p.core, q.core);
      CoreUnique(a, p);
      CoreUnique(b, q);
    }
  }

  lemma LowerEmpty(n: Name, core: Bytes)
    requires core == Core(n)
    ensures |CanonicalName(n)| == if core == [] then 1 else |core| + 1
  {
    hide TrimStart, TrimEnd, TrimDots;
  }
}
