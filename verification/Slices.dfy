/** One sequence standing inside another. */
module Slices {

  /** The bytes `w` stand in `buf` at `at`. */
  predicate StandsAt<T(==)>(buf: seq<T>, at: nat, w: seq<T>) {
    at + |w| <= |buf| && forall i :: 0 <= i < |w| ==> buf[at + i] == w[i]
  }

  lemma StandsAtSlice<T>(buf: seq<T>, at: nat, w: seq<T>)
    requires StandsAt(buf, at, w)
    ensures buf[at..at + |w|] == w
  {
  }

  lemma StandsAtSplit<T>(buf: seq<T>, at: nat, a: seq<T>, b: seq<T>)
    requires StandsAt(buf, at, a + b)
    ensures StandsAt(buf, at, a) && StandsAt(buf, at + |a|, b)
  {
    forall i | 0 <= i < |a| ensures buf[at + i] == a[i] {
      assert (a + b)[i] == a[i];
    }
    forall i | 0 <= i < |b| ensures buf[at + |a| + i] == b[i] {
      assert (a + b)[|a| + i] == b[i];
    }
  }

  lemma StandsAtEnd<T>(out: seq<T>, w: seq<T>, buf: seq<T>)
    requires out + w <= buf
    ensures StandsAt(buf, |out|, w)
  {
    forall i | 0 <= i < |w| ensures buf[|out| + i] == w[i] {
      assert (out + w)[|out| + i] == w[i];
    }
  }

  lemma StandsAtGrows<T>(out: seq<T>, more: seq<T>, at: nat, w: seq<T>)
    requires StandsAt(out, at, w) && out <= more
    ensures StandsAt(more, at, w)
  {
  }

  lemma StandsAtFits<T>(buf: seq<T>, at: nat, w: seq<T>)
    requires StandsAt(buf, at, w)
    ensures at + |w| <= |buf|
  {
  }
}
