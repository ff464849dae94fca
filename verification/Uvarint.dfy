/**
 * Unsigned LEB128 (section 7.6 of DWARF 5), as the group-count footer writes and reads it:
 * seven bits a byte, low group first, the top bit set on every byte but the last.
 */
module Uvarint {
  import opened Wrappers
  import opened Bytes
  import opened Sequences

  // ----- The format

  /** The shortest run for `v`. */
  function Encoded(v: nat): (run: seq<byte>) {
    if v < 0x80 then [v] else [v % 0x80 + 0x80] + Encoded(v / 0x80)
  }

  /** The number whose 7-bit groups, low group first, are the low bits of `run`. */
  function Groups(run: seq<byte>): (v: nat) {
    if run == [] then 0 else run[0] % 0x80 + 0x80 * Groups(run[1..])
  }

  /** Index of the first byte at or after `pos` without a continuation bit. */
  function RunEnd(buf: seq<byte>, pos: nat): (end: Option<nat>)
    requires pos <= |buf|
    ensures end.Some? ==> pos <= end.value < |buf| && buf[end.value] < 0x80
    decreases |buf| - pos
  {
    if pos == |buf| then None
    else if buf[pos] < 0x80 then Some(pos)
    else RunEnd(buf, pos + 1)
  }

  /** Every byte before the end of a run continues it. */
  lemma {:induction false} RunContinues(buf: seq<byte>, pos: nat)
    requires pos <= |buf|
    ensures var end := RunEnd(buf, pos);
            forall i :: pos <= i < (if end.Some? then end.value else |buf|) ==> buf[i] >= 0x80
    decreases |buf| - pos
  {
    if pos < |buf| && buf[pos] >= 0x80 {
      RunContinues(buf, pos + 1);
    }
  }

  /** A terminated run that denotes a u64: at most ten bytes, the tenth at most 1. */
  predicate InRange(run: seq<byte>) {
    |run| < 10 || (|run| == 10 && run[9] <= 1)
  }

  /** What a read at `pos` yields, with the position after it. */
  function Read(buf: seq<byte>, pos: nat): (r: Option<(u64, nat)>)
    requires pos <= |buf|
    ensures r.Some? ==> pos < r.value.1 <= |buf|
  {
    var end :- RunEnd(buf, pos);
    var run := buf[pos..end + 1];
    if InRange(run) then
      GroupsBelow(run);
      Some((Groups(run), end + 1))
    else None
  }

  // ----- Arithmetic of 7-bit groups

  /** The weight of group `k`: 2 to the power 7k. */
  function Weight(k: nat): (w: nat)
    ensures w > 0
  {
    if k == 0 then 1 else 0x80 * Weight(k - 1)
  }

  lemma WeightAt9()
    ensures Weight(9) == 0x8000_0000_0000_0000
  {
  }

  lemma WeightMonotone(m: nat, n: nat)
    requires m <= n
    ensures Weight(m) <= Weight(n)
  {
  }

  /** `k` groups stay below the weight of the next one. */
  lemma {:induction false} GroupsBound(run: seq<byte>)
    ensures Groups(run) < Weight(|run|)
  {
    if run != [] {
      GroupsBound(run[1..]);
    }
  }

  /** Appending a byte adds its group at the next weight. */
  lemma {:induction false} GroupsAppend(run: seq<byte>, b: byte)
    ensures Groups(run + [b]) == Groups(run) + (b % 0x80) * Weight(|run|)
  {
    if run == [] {
      assert Groups([b]) == b % 0x80 + 0x80 * Groups([b][1..]);
    } else {
      assert (run + [b])[1..] == run[1..] + [b];
      GroupsAppend(run[1..], b);
      var g, w := b % 0x80, Weight(|run[1..]|);
      assert 0x80 * (g * w) == g * (0x80 * w);
    }
  }

  /** A run in range denotes a number below 2^64: no bit is lost. */
  lemma GroupsBelow(run: seq<byte>)
    requires InRange(run)
    ensures Groups(run) <= U64_MAX
  {
    WeightAt9();
    if |run| < 10 {
      GroupsBound(run);
      WeightMonotone(|run|, 9);
    } else {
      var init := run[..9];
      assert run == init + [run[9]];
      GroupsBound(init);
      GroupsAppend(init, run[9]);
    }
  }

  // ----- Laws of the format

  /** The writer's run is terminated exactly at its last byte and denotes `v`. */
  lemma {:induction false} EncodedGroups(v: nat)
    ensures Encoded(v) != []
    ensures Groups(Encoded(v)) == v
    ensures forall i :: 0 <= i < |Encoded(v)| - 1 ==> Encoded(v)[i] >= 0x80
    ensures Encoded(v)[|Encoded(v)| - 1] < 0x80
  {
    if v < 0x80 {
      assert Groups([v]) == v % 0x80 + 0x80 * Groups([v][1..]);
    } else {
      EncodedGroups(v / 0x80);
      assert Encoded(v)[1..] == Encoded(v / 0x80);
    }
  }

  /** The writer emits the shortest run that denotes its number. */
  lemma {:induction false} EncodedShortest(run: seq<byte>)
    requires run != []
    ensures |Encoded(Groups(run))| <= |run|
  {
    var v := Groups(run);
    if |run| > 1 {
      EncodedShortest(run[1..]);
      assert v >= 0x80 ==> v / 0x80 == Groups(run[1..]);
    } else {
      assert Groups(run[1..]) == 0;
    }
  }

  /** A longer number never takes a shorter run. */
  lemma {:induction false} EncodedMonotone(a: nat, b: nat)
    requires a <= b
    ensures |Encoded(a)| <= |Encoded(b)|
  {
    if a >= 0x80 {
      EncodedMonotone(a / 0x80, b / 0x80);
    }
  }

  /** Two terminated runs at the same place are the same run. */
  lemma RunEndAt(buf: seq<byte>, pos: nat, run: seq<byte>)
    requires At(buf, pos, run) && run != []
    requires forall i :: 0 <= i < |run| - 1 ==> run[i] >= 0x80
    requires run[|run| - 1] < 0x80
    ensures RunEnd(buf, pos) == Some(pos + |run| - 1)
  {
    forall i | 0 <= i < |run|
      ensures buf[pos + i] == run[i]
    {
      assert buf[pos..pos + |run|][i] == run[i];
    }
    RunContinues(buf, pos);
    assert buf[pos + |run| - 1] < 0x80;
    assert forall i :: pos <= i < pos + |run| - 1 ==> buf[i] == run[i - pos];
  }

  /** A read of a run that ends before `end`. */
  lemma ReadRun(buf: seq<byte>, pos: nat, end: nat)
    requires pos < end <= |buf|
    requires forall i :: pos <= i < end - 1 ==> buf[i] >= 0x80
    requires buf[end - 1] < 0x80
    ensures Read(buf, pos) == if InRange(buf[pos..end]) then Some((Groups(buf[pos..end]), end)) else None
  {
    RunEndAt(buf, pos, buf[pos..end]);
  }

  /** A read that runs off the end is refused. */
  lemma ReadDry(buf: seq<byte>, pos: nat)
    requires pos <= |buf|
    requires forall i :: pos <= i < |buf| ==> buf[i] >= 0x80
    ensures Read(buf, pos) == None
  {
  }

  /** A read of more than ten bytes is refused. */
  lemma ReadOverlong(buf: seq<byte>, pos: nat)
    requires pos + 10 < |buf|
    requires forall i :: pos <= i < pos + 10 ==> buf[i] >= 0x80
    ensures Read(buf, pos) == None
  {
  }

  /** A u64 takes at most ten bytes, and a tenth byte is at most 1. */
  lemma EncodedInRange(v: u64)
    ensures InRange(Encoded(v))
  {
    hide Encoded, Groups, Weight;
    var run := Encoded(v);
    EncodedGroups(v);
    EncodedMonotone(v, U64_MAX);
    EncodedLengthIs10();
    if |run| == 10 {
      assert run == run[..9] + [run[9]];
      GroupsAppend(run[..9], run[9]);
      WeightAt9();
    }
  }

  lemma EncodedLengthIs10()
    ensures |Encoded(U64_MAX)| == 10
  {
  }

  /** `uvarint` inverts `put_uvarint` for every u64, at any offset of any buffer. */
  lemma RoundTrip(buf: seq<byte>, pos: nat, v: u64)
    requires At(buf, pos, Encoded(v))
    ensures Read(buf, pos) == Some((v, pos + |Encoded(v)|))
  {
    hide Encoded, Groups, RunEnd;
    EncodedGroups(v);
    EncodedInRange(v);
    RunEndAt(buf, pos, Encoded(v));
  }

  /**
   * The reader accepts exactly the runs that end within ten bytes with a tenth byte of
   * at most 1, canonical or not, and returns the exact sum of their groups.
   */
  lemma AcceptsExactly(buf: seq<byte>, pos: nat, run: seq<byte>, v: u64)
    requires pos <= |buf|
    ensures
      (&& At(buf, pos, run) && run != [] && InRange(run) && v == Groups(run)
       && (forall i :: 0 <= i < |run| - 1 ==> run[i] >= 0x80) && run[|run| - 1] < 0x80)
      <==>
      (Read(buf, pos) == Some((v, pos + |run|)) && pos + |run| <= |buf| && run == buf[pos..pos + |run|])
  {
    hide Groups, RunEnd;
    RunContinues(buf, pos);
    if At(buf, pos, run) && run != [] && (forall i :: 0 <= i < |run| - 1 ==> run[i] >= 0x80)
       && run[|run| - 1] < 0x80 {
      RunEndAt(buf, pos, run);
    }
  }

  /** A read that succeeds is not disturbed by bytes appended to the buffer. */
  lemma ReadExtends(buf: seq<byte>, pos: nat, more: seq<byte>)
    requires pos <= |buf| && Read(buf, pos).Some?
    ensures Read(buf + more, pos) == Read(buf, pos)
  {
    var end := RunEnd(buf, pos).value;
    var run := buf[pos..end + 1];
    RunContinues(buf, pos);
    assert (buf + more)[pos..end + 1] == run;
    RunEndAt(buf + more, pos, run);
  }
}
