/** Facts about sequences that the solver does not find by itself. */
module Sequences {
  import opened Wrappers

  /** `chunk` stands in `buf` at `pos`. */
  ghost predicate At<T>(buf: seq<T>, pos: nat, chunk: seq<T>) {
    pos + |chunk| <= |buf| && buf[pos..pos + |chunk|] == chunk
  }

  lemma AtSplit<T>(buf: seq<T>, pos: nat, a: seq<T>, b: seq<T>)
    requires At(buf, pos, a + b)
    ensures At(buf, pos, a) && At(buf, pos + |a|, b)
  {
    assert buf[pos..pos + |a|] == (a + b)[..|a|];
    assert buf[pos + |a|..pos + |a| + |b|] == (a + b)[|a|..];
  }

  lemma AtJoin<T>(buf: seq<T>, pos: nat, a: seq<T>, b: seq<T>)
    requires At(buf, pos, a) && At(buf, pos + |a|, b)
    ensures At(buf, pos, a + b)
  {
  }

  lemma AtIndex<T>(buf: seq<T>, pos: nat, chunk: seq<T>, k: nat)
    requires At(buf, pos, chunk) && k < |chunk|
    ensures pos + k < |buf| && buf[pos + k] == chunk[k]
  {
  }

  /** Part of a chunk stands at its own offset. */
  lemma AtPart<T>(buf: seq<T>, pos: nat, chunk: seq<T>, from: nat, to: nat)
    requires At(buf, pos, chunk) && from <= to <= |chunk|
    ensures At(buf, pos + from, chunk[from..to])
  {
    forall k | 0 <= k < to - from
      ensures buf[pos + from..pos + to][k] == chunk[from..to][k]
    {
      AtIndex(buf, pos, chunk, from + k);
    }
    assert buf[pos + from..pos + to] == chunk[from..to];
  }

  lemma SliceOfSlice<T>(s: seq<T>, a: nat, b: nat, from: nat, to: nat)
    requires a <= b <= |s| && from <= to <= b - a
    ensures s[a..b][from..to] == s[a + from..a + to]
  {
    assert At(s, a, s[a..b]);
    AtPart(s, a, s[a..b], from, to);
  }

  lemma Concat3<T>(a: seq<T>, b: seq<T>, c: seq<T>)
    ensures (a + b) + c == a + (b + c)
  {
  }

  lemma Concat4<T>(a: seq<T>, b: seq<T>, c: seq<T>, d: seq<T>)
    ensures ((a + b) + c) + d == a + (b + (c + d))
  {
  }

  /** `done` in front of what is still to be read. */
  function Behind<T>(done: seq<T>, r: Option<(seq<T>, nat)>): (all: Option<(seq<T>, nat)>) {
    if r.None? then None else Some((done + r.value.0, r.value.1))
  }

  lemma BehindNothing<T>(r: Option<(seq<T>, nat)>)
    ensures Behind([], r) == r
  {
    if r.Some? {
      assert [] + r.value.0 == r.value.0;
    }
  }

  lemma BehindAll<T>(done: seq<T>, pos: nat)
    ensures Behind(done, Some(([], pos))) == Some((done, pos))
  {
    assert done + [] == done;
  }

  lemma BehindNext<T>(done: seq<T>, next: T, r: Option<(seq<T>, nat)>)
    ensures Behind(done, Behind([next], r)) == Behind(done + [next], r)
  {
    if r.Some? {
      Concat3(done, [next], r.value.0);
    }
  }
}
