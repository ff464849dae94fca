/** The footer's writer and its four readers, step by step over an output buffer and a cursor. */
module FooterCodec {
  import opened Wrappers
  import opened Bytes
  import opened Numbers
  import opened Sequences
  import opened Utf8
  import opened FooterFormat
  import Uvarint

  // ----- Writing

  /** The output buffer the writer pushes into. */
  class Sink {
    var out: seq<byte>

    constructor ()
      ensures out == []
    {
      out := [];
    }

    method PutUvarint(v: u64)
      modifies this
      ensures out == old(out) + Uvarint.Encoded(v)
    {
      var rest: u64 := v;
      while rest >= 0x80
        invariant out + Uvarint.Encoded(rest) == old(out) + Uvarint.Encoded(v)
        decreases rest
      {
        // `(v as u8) | 0x80`: the low seven bits with the continuation bit set.
        out := out + [rest % 0x80 + 0x80];
        rest := rest / 0x80;
      }
      out := out + [rest];
    }

    method PutBytes(bytes: seq<byte>)
      requires FitsUsize(|bytes|)
      modifies this
      ensures out == old(out) + ByteRun(bytes)
    {
      PutUvarint(|bytes|);
      out := out + bytes;
    }
  }

  method CommonPrefixLen(a: seq<byte>, b: seq<byte>) returns (n: nat)
    ensures n == CommonPrefix(a, b)
  {
    n := 0;
    while n < |a| && n < |b| && a[n] == b[n]
      invariant n <= |a| && n <= |b|
      invariant CommonPrefix(a, b) == n + CommonPrefix(a[n..], b[n..])
    {
      n := n + 1;
    }
  }

  /** Every length in the summary is a `usize`; every string in it is text. */
  ghost predicate Storable(cols: seq<StoredColumn>) {
    FitsUsize(|cols|) && forall i :: 0 <= i < |cols| ==> StorableColumn(cols[i])
  }

  ghost predicate StorableColumn(col: StoredColumn) {
    ValidUtf8(col.name) && FitsUsize(|col.name|) && StorableTallies(col.tallies)
  }

  ghost predicate StorableTallies(ts: seq<Tally>) {
    FitsUsize(|ts|) && forall i :: 0 <= i < |ts| ==> ValidUtf8(ts[i].0) && FitsUsize(|ts[i].0|)
  }

  lemma {:induction false} TalliesOutSnoc(prev: seq<byte>, ts: seq<Tally>, t: Tally)
    ensures TalliesOut(prev, ts + [t])
         == TalliesOut(prev, ts) + FrontCoded(if ts == [] then prev else ts[|ts| - 1].0, t)
    decreases |ts|
  {
    if ts == [] {
      assert TalliesOut(prev, [t]) == FrontCoded(prev, t) + TalliesOut(t.0, [t][1..]);
    } else {
      assert (ts + [t])[1..] == ts[1..] + [t];
      TalliesOutSnoc(ts[0].0, ts[1..], t);
    }
  }

  lemma {:induction false} ColumnsOutSnoc(cols: seq<StoredColumn>, c: StoredColumn)
    ensures ColumnsOut(cols + [c]) == ColumnsOut(cols) + ColumnOut(c)
  {
    if cols == [] {
      assert ColumnsOut([c]) == ColumnOut(c) + ColumnsOut([c][1..]);
    } else {
      assert (cols + [c])[1..] == cols[1..] + [c];
      ColumnsOutSnoc(cols[1..], c);
    }
  }

  /** `encode_body`: the body of a summary, columns and values in ascending order. */
  method EncodeBody(summary: Summary) returns (body: seq<byte>)
    requires Storable(Columns(summary))
    ensures body == BodyOut(summary)
  {
    var sink := new Sink();
    hide Columns, ColumnsOut, Uvarint.Encoded;
    sink.PutUvarint(|summary|);
    PutColumns(sink, Columns(summary));
    body := sink.out;
  }

  method PutColumns(sink: Sink, cols: seq<StoredColumn>)
    requires Storable(cols)
    modifies sink
    ensures sink.out == old(sink.out) + ColumnsOut(cols)
  {
    hide StorableColumn, ColumnOut;
    for i := 0 to |cols|
      invariant sink.out == old(sink.out) + ColumnsOut(cols[..i])
    {
      PutColumn(sink, cols[i]);
      ColumnsOutSnoc(cols[..i], cols[i]);
      assert cols[..i] + [cols[i]] == cols[..i + 1];
      Concat3(old(sink.out), ColumnsOut(cols[..i]), ColumnOut(cols[i]));
    }
    assert cols[..|cols|] == cols;
  }

  method PutColumn(sink: Sink, col: StoredColumn)
    requires StorableColumn(col)
    modifies sink
    ensures sink.out == old(sink.out) + ColumnOut(col)
  {
    hide Uvarint.Encoded, ByteRun, FrontCoded;
    ghost var start := sink.out;
    sink.PutBytes(col.name);
    sink.PutUvarint(col.nulls);
    sink.PutUvarint(|col.tallies|);
    ghost var header := sink.out;
    var prev: seq<byte> := [];
    for j := 0 to |col.tallies|
      invariant sink.out == header + TalliesOut([], col.tallies[..j])
      invariant prev == if j == 0 then [] else col.tallies[j - 1].0
    {
      PutTally(sink, prev, col.tallies[j]);
      TalliesOutSnoc([], col.tallies[..j], col.tallies[j]);
      assert col.tallies[..j] + [col.tallies[j]] == col.tallies[..j + 1];
      Concat3(header, TalliesOut([], col.tallies[..j]), FrontCoded(prev, col.tallies[j]));
      prev := col.tallies[j].0;
    }
    assert col.tallies[..|col.tallies|] == col.tallies;
    var name, nulls, n := ByteRun(col.name), Uvarint.Encoded(col.nulls), Uvarint.Encoded(|col.tallies|);
    Concat4(start + name, nulls, n, TalliesOut([], col.tallies));
    Concat3(start, name, nulls + (n + TalliesOut([], col.tallies)));
  }

  method PutTally(sink: Sink, prev: seq<byte>, t: Tally)
    requires FitsUsize(|t.0|)
    modifies sink
    ensures sink.out == old(sink.out) + FrontCoded(prev, t)
  {
    var shared := CommonPrefixLen(prev, t.0);
    sink.PutUvarint(shared);
    sink.PutBytes(t.0[shared..]);
    sink.PutUvarint(t.1);
    Concat4(old(sink.out), Uvarint.Encoded(shared), ByteRun(t.0[shared..]), Uvarint.Encoded(t.1));
  }

  // ----- Reading

  /** A position moving forward through a body. */
  class Cursor {
    const buf: seq<byte>
    var pos: nat

    constructor (buf: seq<byte>)
      ensures this.buf == buf && pos == 0
    {
      this.buf := buf;
      pos := 0;
    }

    method TakeUvarint() returns (r: Option<u64>)
      requires pos <= |buf|
      modifies this
      ensures old(pos) <= pos <= |buf|
      ensures Uvarint.Read(buf, old(pos)) == if r.Some? then Some((r.value, pos)) else None
    {
      hide Shl64, Or, Uvarint.Groups, Uvarint.Read, Uvarint.InRange;
      ghost var start := pos;
      NoGroups(buf, start);
      var value: u64 := 0;
      var shift := 0;
      while true
        invariant start <= pos <= |buf|
        invariant shift == 7 * (pos - start) <= 70
        invariant forall i :: start <= i < pos ==> buf[i] >= 0x80
        invariant shift <= 63 ==> value == Uvarint.Groups(buf[start..pos])
        decreases |buf| - pos
      {
        if pos >= |buf| {
          Uvarint.ReadDry(buf, start);
          return None;
        }
        var b := buf[pos];
        pos := pos + 1;
        if shift >= 64 {
          Uvarint.ReadOverlong(buf, start);
          return None;
        }
        GroupTaken(buf, start, pos - 1);
        value := Or(value, Shl64(b % 0x80, shift));
        if b < 0x80 {
          RunTaken(buf, start, pos);
          if shift == 63 && b % 0x80 > 1 {
            return None;
          }
          return Some(value);
        }
        shift := shift + 7;
      }
    }

    method TakeBytes() returns (r: Option<seq<byte>>)
      requires pos <= |buf|
      modifies this
      ensures old(pos) <= pos <= |buf|
      ensures ReadBytes(buf, old(pos)) == if r.Some? then Some((r.value, pos)) else None
    {
      var len :- TakeUvarint();
      var end := pos + len;
      if end > |buf| {
        return None;
      }
      r := Some(buf[pos..end]);
      pos := end;
    }
  }

  /** `x << shift` on 64 bits. */
  function Shl64(x: nat, shift: nat): (v: u64) {
    x * Pow2(shift) % 0x1_0000_0000_0000_0000
  }

  lemma {:induction false} Pow2IsWeight(k: nat)
    ensures Pow2(7 * k) == Uvarint.Weight(k)
  {
    if k > 0 {
      Pow2IsWeight(k - 1);
      var n := 7 * k - 7;
      assert Pow2(n + 2) == 2 * Pow2(n + 1) == 4 * Pow2(n);
      assert Pow2(n + 4) == 2 * Pow2(n + 3) == 4 * Pow2(n + 2);
      assert Pow2(n + 6) == 2 * Pow2(n + 5) == 4 * Pow2(n + 4);
      assert Pow2(n + 7) == 2 * Pow2(n + 6);
    }
  }

  /** Below ten bytes a group shifts in whole. */
  lemma ShiftWhole(x: nat, k: nat)
    requires x < 0x80 && k < 9
    ensures Shl64(x, 7 * k) == x * Pow2(7 * k)
    ensures x * Pow2(7 * k) + Pow2(7 * k) <= U64_MAX
  {
    hide Pow2;
    var w := Uvarint.Weight(k);
    Pow2IsWeight(k);
    Uvarint.WeightAt9();
    Uvarint.WeightMonotone(k + 1, 9);
    ProductBound(x, w);
  }

  /** At the tenth byte only the lowest bit of a group stays. */
  lemma ShiftTop(x: nat)
    ensures Shl64(x, 63) == (x % 2) * Pow2(63)
    ensures Pow2(63) == 0x8000_0000_0000_0000
  {
    hide Pow2;
    Pow2IsWeight(9);
    Uvarint.WeightAt9();
    TopBit(x, x / 2, x % 2);
  }

  lemma TopBit(x: nat, q: nat, r: nat)
    requires x == 2 * q + r && r < 2
    ensures x * 0x8000_0000_0000_0000 % 0x1_0000_0000_0000_0000 == r * 0x8000_0000_0000_0000
  {
    if r == 0 {
      assert x * 0x8000_0000_0000_0000 == q * 0x1_0000_0000_0000_0000;
    } else {
      assert x * 0x8000_0000_0000_0000 == q * 0x1_0000_0000_0000_0000 + 0x8000_0000_0000_0000;
    }
  }

  lemma ProductBound(x: nat, w: nat)
    requires x < 0x80 && 0x80 * w <= 0x8000_0000_0000_0000
    ensures 0 <= x * w <= 0x7F * w
  {
  }

  /**
   * A group shifts in above every bit there is, so that or-ing it in adds it; it shifts in whole,
   * except that a tenth group above 1 loses bits.
   */
  lemma ShiftedGroup(run: seq<byte>, b: byte)
    requires |run| <= 9
    ensures var v := Or(Uvarint.Groups(run), Shl64(b % 0x80, 7 * |run|));
            && v == Uvarint.Groups(run) + Shl64(b % 0x80, 7 * |run|) <= U64_MAX
            && (|run| < 9 || b % 0x80 <= 1 ==> v == Uvarint.Groups(run + [b]))
  {
    hide Shl64, Or, Pow2, Uvarint.Groups, Uvarint.Weight;
    Uvarint.GroupsBound(run);
    Uvarint.GroupsAppend(run, b);
    Pow2IsWeight(|run|);
    if |run| < 9 {
      ShiftWhole(b % 0x80, |run|);
      OrAdds(Uvarint.Groups(run), b % 0x80, 7 * |run|);
    } else {
      ShiftTop(b % 0x80);
      OrAdds(Uvarint.Groups(run), b % 0x80 % 2, 63);
    }
  }

  lemma NoGroups(buf: seq<byte>, start: nat)
    requires start <= |buf|
    ensures Uvarint.Groups(buf[start..start]) == 0
  {
  }

  /** One turn of the loop: the byte at `at` joins the run from `start`. */
  lemma GroupTaken(buf: seq<byte>, start: nat, at: nat)
    requires start <= at < |buf| && at - start <= 9
    ensures var v := Or(Uvarint.Groups(buf[start..at]), Shl64(buf[at] % 0x80, 7 * (at - start)));
            && v <= U64_MAX
            && (at - start < 9 || buf[at] % 0x80 <= 1 ==> v == Uvarint.Groups(buf[start..at + 1]))
  {
    hide Shl64, Or, Uvarint.Groups;
    assert buf[start..at + 1] == buf[start..at] + [buf[at]];
    ShiftedGroup(buf[start..at], buf[at]);
  }

  /** The run that ends at `end`: refused only for a tenth byte above 1. */
  lemma RunTaken(buf: seq<byte>, start: nat, end: nat)
    requires start < end <= |buf| && end - start <= 10
    requires forall i :: start <= i < end - 1 ==> buf[i] >= 0x80
    requires buf[end - 1] < 0x80
    ensures Uvarint.Read(buf, start)
         == if end - start < 10 || buf[end - 1] <= 1 then Some((Uvarint.Groups(buf[start..end]), end)) else None
  {
    hide Uvarint.Read, Uvarint.Groups;
    Uvarint.ReadRun(buf, start, end);
  }

  /** `next_value`: one value rebuilt, which becomes the next predecessor. */
  method NextValue(cur: Cursor, prev: seq<byte>) returns (r: Option<Tally>)
    requires cur.pos <= |cur.buf|
    modifies cur
    ensures old(cur.pos) <= cur.pos <= |cur.buf|
    ensures ReadTally(cur.buf, old(cur.pos), prev) == if r.Some? then Some((r.value, cur.pos)) else None
  {
    var shared :- cur.TakeUvarint();
    if shared > |prev| {
      return None;
    }
    var suffix :- cur.TakeBytes();
    var value := prev[..shared] + suffix;
    var count :- cur.TakeUvarint();
    if !ValidUtf8(value) {
      return None;
    }
    return Some((value, count));
  }

  /** One entry, left front-coded. */
  method TakeEntry(cur: Cursor) returns (r: Option<Entry>)
    requires cur.pos <= |cur.buf|
    modifies cur
    ensures old(cur.pos) <= cur.pos <= |cur.buf|
    ensures ReadEntry(cur.buf, old(cur.pos)) == if r.Some? then Some((r.value, cur.pos)) else None
  {
    var shared :- cur.TakeUvarint();
    var suffix :- cur.TakeBytes();
    var count :- cur.TakeUvarint();
    return Some(Entry(shared, suffix, count));
  }

  lemma ReadEntriesStep(buf: seq<byte>, pos: nat, n: nat)
    requires pos <= |buf| && n > 0
    ensures ReadEntries(buf, pos, n)
         == var r := ReadEntry(buf, pos);
            if r.None? then None else Behind([r.value.0], ReadEntries(buf, r.value.1, n - 1))
  {
  }

  lemma ReadTalliesStep(buf: seq<byte>, pos: nat, n: nat, prev: seq<byte>)
    requires pos <= |buf| && n > 0
    ensures ReadTallies(buf, pos, n, prev)
         == var r := ReadTally(buf, pos, prev);
            if r.None? then None else Behind([r.value.0], ReadTallies(buf, r.value.1, n - 1, r.value.0.0))
  {
  }

  /** `skip_values`: past `n` entries without rebuilding them. */
  method SkipValues(cur: Cursor, n: u64) returns (r: Option<()>, ghost entries: seq<Entry>)
    requires cur.pos <= |cur.buf|
    modifies cur
    ensures old(cur.pos) + 3 * |entries| <= cur.pos <= |cur.buf|
    ensures ReadEntries(cur.buf, old(cur.pos), n) == if r.Some? then Some((entries, cur.pos)) else None
  {
    hide ReadEntry;
    ghost var all := ReadEntries(cur.buf, cur.pos, n);
    ghost var rest := all;
    entries := [];
    BehindNothing(all);
    for i := 0 to n
      invariant |entries| == i
      invariant old(cur.pos) + 3 * i <= cur.pos <= |cur.buf|
      invariant rest == ReadEntries(cur.buf, cur.pos, n - i)
      invariant all == Behind(entries, rest)
    {
      ReadEntriesStep(cur.buf, cur.pos, n - i);
      var e :- TakeEntry(cur);
      rest := ReadEntries(cur.buf, cur.pos, n - i - 1);
      BehindNext(entries, e, rest);
      entries := entries + [e];
    }
    BehindAll(entries, cur.pos);
    r := Some(());
  }

  /** The values of one column, rebuilt in stored order. */
  method TakeTallies(cur: Cursor, n: u64) returns (r: Option<seq<Tally>>, ghost steps: nat)
    requires cur.pos <= |cur.buf|
    modifies cur
    ensures old(cur.pos) + 3 * steps <= cur.pos <= |cur.buf|
    ensures ReadTallies(cur.buf, old(cur.pos), n, []) == if r.Some? then Some((r.value, cur.pos)) else None
  {
    hide ReadTally;
    steps := 0;
    var values: seq<Tally> := [];
    var prev: seq<byte> := [];
    BehindNothing(ReadTallies(cur.buf, cur.pos, n, []));
    for i := 0 to n
      invariant steps == i
      invariant old(cur.pos) + 3 * i <= cur.pos <= |cur.buf|
      invariant ReadTallies(cur.buf, old(cur.pos), n, [])
             == Behind(values, ReadTallies(cur.buf, cur.pos, n - i, prev))
    {
      ReadTalliesStep(cur.buf, cur.pos, n - i, prev);
      var t :- NextValue(cur, prev);
      BehindNext(values, t, ReadTallies(cur.buf, cur.pos, n - i - 1, t.0));
      values, prev, steps := values + [t], t.0, steps + 1;
    }
    BehindAll(values, cur.pos);
    r := Some(values);
  }

  /** The values of one column, inserted into a map. */
  method TakeValueMap(cur: Cursor, n: u64)
    returns (r: Option<map<seq<byte>, u64>>, ghost tallies: seq<Tally>)
    requires cur.pos <= |cur.buf|
    modifies cur
    ensures old(cur.pos) + 3 * |tallies| <= cur.pos <= |cur.buf|
    ensures ReadTallies(cur.buf, old(cur.pos), n, []) == if r.Some? then Some((tallies, cur.pos)) else None
    ensures r.Some? ==> r.value == Inserted(map[], tallies)
  {
    hide ReadTally;
    ghost var all := ReadTallies(cur.buf, cur.pos, n, []);
    ghost var rest := all;
    tallies := [];
    var values: map<seq<byte>, u64> := map[];
    var prev: seq<byte> := [];
    BehindNothing(all);
    for i := 0 to n
      invariant |tallies| == i
      invariant old(cur.pos) + 3 * i <= cur.pos <= |cur.buf|
      invariant rest == ReadTallies(cur.buf, cur.pos, n - i, prev)
      invariant all == Behind(tallies, rest)
      invariant values == Inserted(map[], tallies)
    {
      ReadTalliesStep(cur.buf, cur.pos, n - i, prev);
      var t :- NextValue(cur, prev);
      rest := ReadTallies(cur.buf, cur.pos, n - i - 1, t.0);
      BehindNext(tallies, t, rest);
      InsertedSnoc(map[], tallies, t);
      values, prev, tallies := values[t.0 := t.1], t.0, tallies + [t];
    }
    BehindAll(tallies, cur.pos);
    r := Some(values);
  }

  lemma {:induction false} InsertedSnoc<V>(m: map<seq<byte>, V>, items: seq<(seq<byte>, V)>, it: (seq<byte>, V))
    ensures Inserted(m, items + [it]) == Inserted(m, items)[it.0 := it.1]
    decreases |items|
  {
    if items != [] {
      assert (items + [it])[1..] == items[1..] + [it];
      InsertedSnoc(m[items[0].0 := items[0].1], items[1..], it);
    }
  }

  method TakeHeader(cur: Cursor) returns (r: Option<(seq<byte>, u64, u64)>)
    requires cur.pos <= |cur.buf|
    modifies cur
    ensures old(cur.pos) <= cur.pos <= |cur.buf|
    ensures ReadHeader(cur.buf, old(cur.pos))
         == if r.Some? then Some((r.value.0, r.value.1, r.value.2, cur.pos)) else None
  {
    var name :- cur.TakeBytes();
    var nulls :- cur.TakeUvarint();
    var n :- cur.TakeUvarint();
    return Some((name, nulls, n));
  }

  lemma ReadStoredStep(buf: seq<byte>, pos: nat, n: nat)
    requires pos <= |buf| && n > 0
    ensures ReadStored(buf, pos, n)
         == var r := ReadStoredColumn(buf, pos);
            if r.None? then None else Behind([r.value.0], ReadStored(buf, r.value.1, n - 1))
  {
  }

  lemma ReadRawStep(buf: seq<byte>, pos: nat, n: nat)
    requires pos <= |buf| && n > 0
    ensures ReadRaw(buf, pos, n)
         == var r := ReadRawColumn(buf, pos);
            if r.None? then None else Behind([r.value.0], ReadRaw(buf, r.value.1, n - 1))
  {
  }

  lemma NamedCountsSnoc(cols: seq<StoredColumn>, col: StoredColumn)
    ensures Inserted(map[], NamedCounts(cols + [col]))
         == Inserted(map[], NamedCounts(cols))[col.name := CountsOf(col)]
  {
    hide Inserted, CountsOf;
    InsertedSnoc(map[], NamedCounts(cols), (col.name, CountsOf(col)));
    assert NamedCounts(cols + [col]) == NamedCounts(cols) + [(col.name, CountsOf(col))];
  }

  lemma TotalsOfSnoc(cols: seq<RawColumn>, col: RawColumn)
    ensures TotalsOf(cols + [col]) == TotalsOf(cols) + [(col.name, Saturated(col.nulls + EntrySum(col.entries)))]
  {
  }

  lemma NamesOfSnoc(cols: seq<RawColumn>, col: RawColumn)
    ensures NamesOf(cols + [col]) == NamesOf(cols) + [col.name]
  {
  }

  lemma NamesAreTextSnoc(cols: seq<RawColumn>, col: RawColumn)
    requires NamesAreText(cols) && ValidUtf8(col.name)
    ensures NamesAreText(cols + [col])
  {
  }

  /** One column of the full decode; `col` is the column it stands for. */
  method TakeColumn(cur: Cursor)
    returns (r: Option<(seq<byte>, ColumnCounts)>, ghost col: StoredColumn, ghost steps: nat)
    requires cur.pos <= |cur.buf|
    modifies cur
    ensures old(cur.pos) + 3 * steps <= cur.pos <= |cur.buf|
    ensures ReadStoredColumn(cur.buf, old(cur.pos)) == if r.Some? then Some((col, cur.pos)) else None
    ensures r.Some? ==> r.value == (col.name, CountsOf(col))
  {
    hide ReadHeader, ReadTallies, Inserted, ValidUtf8;
    steps, col := 0, StoredColumn([], 0, []);
    var header :- TakeHeader(cur);
    var (name, nulls, n) := header;
    if !ValidUtf8(name) {
      return None, col, steps;
    }
    steps := 1;
    var values, tallies := TakeValueMap(cur, n);
    steps := 1 + |tallies|;
    if values.None? {
      return None, col, steps;
    }
    col := StoredColumn(name, nulls, tallies);
    r := Some((name, ColumnCounts(values.value, nulls)));
  }

  lemma NoColumns()
    ensures NamedCounts([]) == [] && Inserted<ColumnCounts>(map[], []) == map[]
    ensures NamesOf([]) == [] && TotalsOf([]) == [] && NamesAreText([])
  {
  }

  /** The columns of the full decode, inserted into a map; `cols` are the columns they stand for. */
  method TakeColumns(cur: Cursor, n: u64)
    returns (r: Option<Summary>, ghost cols: seq<StoredColumn>, ghost steps: nat)
    requires cur.pos <= |cur.buf|
    modifies cur
    ensures old(cur.pos) + 3 * steps <= cur.pos <= |cur.buf|
    ensures ReadStored(cur.buf, old(cur.pos), n) == if r.Some? then Some((cols, cur.pos)) else None
    ensures r.Some? ==> r.value == Inserted(map[], NamedCounts(cols))
  {
    hide ReadStoredColumn, CountsOf, NamedCounts, Inserted;
    ghost var all := ReadStored(cur.buf, cur.pos, n);
    ghost var rest := all;
    steps, cols := 0, [];
    var columns: Summary := map[];
    NoColumns();
    BehindNothing(all);
    for i := 0 to n
      invariant old(cur.pos) + 3 * steps <= cur.pos <= |cur.buf|
      invariant rest == ReadStored(cur.buf, cur.pos, n - i)
      invariant all == Behind(cols, rest)
      invariant columns == Inserted(map[], NamedCounts(cols))
    {
      ReadStoredStep(cur.buf, cur.pos, n - i);
      hide ReadStored;
      var named, col, more := TakeColumn(cur);
      steps := steps + more;
      if named.None? {
        return None, cols, steps;
      }
      rest := ReadStored(cur.buf, cur.pos, n - i - 1);
      BehindNext(cols, col, rest);
      NamedCountsSnoc(cols, col);
      columns, cols := columns[named.value.0 := named.value.1], cols + [col];
    }
    BehindAll(cols, cur.pos);
    r := Some(columns);
  }

  /**
   * `decode_body`: the summary a body denotes. `steps` counts the columns and values
   * handled, whatever counts the body claims and whether or not it is accepted.
   */
  method DecodeBody(body: seq<byte>) returns (r: Option<Summary>, ghost steps: nat)
    ensures r == Denoted(body)
    ensures 3 * steps <= |body|
  {
    hide ReadStored, NamedCounts, Inserted, Uvarint.Read;
    steps := 0;
    var cur := new Cursor(body);
    var n :- cur.TakeUvarint();
    var columns, cols, more := TakeColumns(cur, n);
    steps := more;
    if columns.None? || cur.pos != |body| {
      return None, steps;
    }
    r := columns;
  }

  /** `decode_column`: one column's values in stored order, and its null count. */
  method DecodeColumn(body: seq<byte>, column: seq<byte>) returns (r: Option<(seq<Tally>, u64)>, ghost steps: nat)
    ensures r == Named(body, column)
    ensures 3 * steps <= |body|
  {
    hide ReadHeader, ReadTallies, ReadEntries;
    steps := 0;
    var cur := new Cursor(body);
    var n :- cur.TakeUvarint();
    for i := 0 to n
      invariant 3 * steps <= cur.pos <= |body| && cur.buf == body
      invariant Named(body, column) == ReadNamed(body, cur.pos, n - i, column)
    {
      var header :- TakeHeader(cur);
      var (name, nulls, k) := header;
      steps := steps + 1;
      if name != column {
        var skipped, entries := SkipValues(cur, k);
        steps := steps + |entries|;
        if skipped.None? {
          return None, steps;
        }
        continue;
      }
      var tallies, more := TakeTallies(cur, k);
      steps := steps + more;
      if tallies.None? {
        return None, steps;
      }
      return Some((tallies.value, nulls)), steps;
    }
    r := None;
  }

  /** The column at `pos` has a name that is text and can be walked over: it is `col`, up to `end`. */
  ghost predicate Walkable(buf: seq<byte>, pos: nat, col: RawColumn, end: nat)
    requires pos <= |buf|
  {
    ReadRawColumn(buf, pos) == Some((col, end)) && ValidUtf8(col.name)
  }

  /** The column at `pos` cannot be walked over, or its name is not text. */
  ghost predicate Unwalkable(buf: seq<byte>, pos: nat)
    requires pos <= |buf|
  {
    var r := ReadRawColumn(buf, pos);
    r.None? || !ValidUtf8(r.value.0.name)
  }

  /** A name that is not text fails every census of the columns it is among. */
  lemma UnwalkableFails(buf: seq<byte>, pos: nat, n: nat, done: seq<RawColumn>)
    requires pos <= |buf| && n > 0 && Unwalkable(buf, pos)
    ensures var all := Behind(done, ReadRaw(buf, pos, n));
            all.Some? ==> !NamesAreText(all.value.0)
  {
    hide ReadRawColumn, ValidUtf8;
    ReadRawStep(buf, pos, n);
    var all := Behind(done, ReadRaw(buf, pos, n));
    if all.Some? {
      assert !ValidUtf8(all.value.0[|done|].name);
    }
  }

  /** One column of the name census. */
  method TakeName(cur: Cursor) returns (r: Option<seq<byte>>, ghost col: RawColumn, ghost steps: nat)
    requires cur.pos <= |cur.buf|
    modifies cur
    ensures old(cur.pos) + 3 * steps <= cur.pos <= |cur.buf|
    ensures r.Some? ==> Walkable(cur.buf, old(cur.pos), col, cur.pos) && r.value == col.name
    ensures r.None? ==> Unwalkable(cur.buf, old(cur.pos))
  {
    hide ReadHeader, ReadEntries, ValidUtf8;
    steps, col := 0, RawColumn([], 0, []);
    var header :- TakeHeader(cur);
    var (name, nulls, n) := header;
    steps := 1;
    if !ValidUtf8(name) {
      return None, col, steps;
    }
    var skipped, entries := SkipValues(cur, n);
    steps := 1 + |entries|;
    if skipped.None? {
      return None, col, steps;
    }
    col := RawColumn(name, nulls, entries);
    r := Some(name);
  }

  /** What a census of `n` columns at `pos` finds: their walk, if every name is text. */
  ghost function Census(buf: seq<byte>, pos: nat, n: nat): (cols: Option<seq<RawColumn>>)
    requires pos <= |buf|
  {
    var all := ReadRaw(buf, pos, n);
    if all.None? || !NamesAreText(all.value.0) then None else Some(all.value.0)
  }

  /** The names of `n` columns. */
  method TakeNames(cur: Cursor, n: u64) returns (r: Option<seq<seq<byte>>>, ghost steps: nat)
    requires cur.pos <= |cur.buf|
    modifies cur
    ensures old(cur.pos) + 3 * steps <= cur.pos <= |cur.buf|
    ensures var cols := Census(cur.buf, old(cur.pos), n); r == if cols.None? then None else Some(NamesOf(cols.value))
  {
    hide ReadRawColumn, ValidUtf8, NamesAreText, NamesOf;
    ghost var all := ReadRaw(cur.buf, cur.pos, n);
    ghost var rest, done := all, [];
    steps := 0;
    var names: seq<seq<byte>> := [];
    NoColumns();
    BehindNothing(all);
    for i := 0 to n
      invariant old(cur.pos) + 3 * steps <= cur.pos <= |cur.buf|
      invariant rest == ReadRaw(cur.buf, cur.pos, n - i)
      invariant all == Behind(done, rest)
      invariant NamesAreText(done) && names == NamesOf(done)
    {
      ReadRawStep(cur.buf, cur.pos, n - i);
      hide ReadRaw;
      ghost var from := cur.pos;
      var name, col, more := TakeName(cur);
      steps := steps + more;
      if name.None? {
        UnwalkableFails(cur.buf, from, n - i, done);
        return None, steps;
      }
      rest := ReadRaw(cur.buf, cur.pos, n - i - 1);
      BehindNext(done, col, rest);
      NamesOfSnoc(done, col);
      NamesAreTextSnoc(done, col);
      done, names := done + [col], names + [name.value];
    }
    BehindAll(done, cur.pos);
    r := Some(names);
  }

  /** `decode_column_names`: the column names in stored order. */
  method DecodeColumnNames(body: seq<byte>) returns (r: Option<seq<seq<byte>>>, ghost steps: nat)
    ensures r == Names(body)
    ensures 3 * steps <= |body|
  {
    hide ReadRaw, NamesAreText, NamesOf, Uvarint.Read;
    steps := 0;
    var cur := new Cursor(body);
    var n :- cur.TakeUvarint();
    var names, more := TakeNames(cur, n);
    r, steps := names, more;
  }

  function SaturatingAdd(a: u64, b: u64): (sum: u64) {
    if a + b <= U64_MAX then a + b else U64_MAX
  }

  lemma {:induction false} EntrySumSnoc(entries: seq<Entry>, e: Entry)
    ensures EntrySum(entries + [e]) == EntrySum(entries) + e.count
  {
    if entries == [] {
      assert EntrySum([e]) == e.count + EntrySum([e][1..]);
    } else {
      assert (entries + [e])[1..] == entries[1..] + [e];
      EntrySumSnoc(entries[1..], e);
    }
  }

  /** Rows of one column: its nulls and every stored count, saturating at each step. */
  method TakeTotal(cur: Cursor, nulls: u64, n: u64) returns (r: Option<u64>, ghost entries: seq<Entry>)
    requires cur.pos <= |cur.buf|
    modifies cur
    ensures old(cur.pos) + 3 * |entries| <= cur.pos <= |cur.buf|
    ensures ReadEntries(cur.buf, old(cur.pos), n) == if r.Some? then Some((entries, cur.pos)) else None
    ensures r.Some? ==> r.value == Saturated(nulls + EntrySum(entries))
  {
    hide ReadEntry;
    ghost var all := ReadEntries(cur.buf, cur.pos, n);
    ghost var rest := all;
    entries := [];
    var total := nulls;
    BehindNothing(all);
    for i := 0 to n
      invariant |entries| == i
      invariant old(cur.pos) + 3 * i <= cur.pos <= |cur.buf|
      invariant rest == ReadEntries(cur.buf, cur.pos, n - i)
      invariant all == Behind(entries, rest)
      invariant total == Saturated(nulls + EntrySum(entries))
    {
      ReadEntriesStep(cur.buf, cur.pos, n - i);
      var e :- TakeEntry(cur);
      rest := ReadEntries(cur.buf, cur.pos, n - i - 1);
      BehindNext(entries, e, rest);
      EntrySumSnoc(entries, e);
      total, entries := SaturatingAdd(total, e.count), entries + [e];
    }
    BehindAll(entries, cur.pos);
    r := Some(total);
  }

  /** One column of the row-total census. */
  method TakeNamedTotal(cur: Cursor) returns (r: Option<Tally>, ghost col: RawColumn, ghost steps: nat)
    requires cur.pos <= |cur.buf|
    modifies cur
    ensures old(cur.pos) + 3 * steps <= cur.pos <= |cur.buf|
    ensures r.Some? ==> Walkable(cur.buf, old(cur.pos), col, cur.pos)
    ensures r.Some? ==> r.value == (col.name, Saturated(col.nulls + EntrySum(col.entries)))
    ensures r.None? ==> Unwalkable(cur.buf, old(cur.pos))
  {
    hide ReadHeader, ReadEntries, ValidUtf8, EntrySum;
    steps, col := 0, RawColumn([], 0, []);
    var header :- TakeHeader(cur);
    var (name, nulls, n) := header;
    steps := 1;
    if !ValidUtf8(name) {
      return None, col, steps;
    }
    var total, entries := TakeTotal(cur, nulls, n);
    steps := 1 + |entries|;
    if total.None? {
      return None, col, steps;
    }
    col := RawColumn(name, nulls, entries);
    r := Some((name, total.value));
  }

  /** The names and row totals of `n` columns. */
  method TakeTotals(cur: Cursor, n: u64) returns (r: Option<seq<Tally>>, ghost steps: nat)
    requires cur.pos <= |cur.buf|
    modifies cur
    ensures old(cur.pos) + 3 * steps <= cur.pos <= |cur.buf|
    ensures var cols := Census(cur.buf, old(cur.pos), n); r == if cols.None? then None else Some(TotalsOf(cols.value))
  {
    hide ReadRawColumn, ValidUtf8, EntrySum, NamesAreText, TotalsOf;
    ghost var all := ReadRaw(cur.buf, cur.pos, n);
    ghost var rest, done := all, [];
    steps := 0;
    var totals: seq<Tally> := [];
    NoColumns();
    BehindNothing(all);
    for i := 0 to n
      invariant old(cur.pos) + 3 * steps <= cur.pos <= |cur.buf|
      invariant rest == ReadRaw(cur.buf, cur.pos, n - i)
      invariant all == Behind(done, rest)
      invariant NamesAreText(done) && totals == TotalsOf(done)
    {
      ReadRawStep(cur.buf, cur.pos, n - i);
      hide ReadRaw;
      ghost var from := cur.pos;
      var total, col, more := TakeNamedTotal(cur);
      steps := steps + more;
      if total.None? {
        UnwalkableFails(cur.buf, from, n - i, done);
        return None, steps;
      }
      rest := ReadRaw(cur.buf, cur.pos, n - i - 1);
      BehindNext(done, col, rest);
      TotalsOfSnoc(done, col);
      NamesAreTextSnoc(done, col);
      done, totals := done + [col], totals + [total.value];
    }
    BehindAll(done, cur.pos);
    r := Some(totals);
  }

  /** `decode_column_totals`: every column's name and row total, in stored order. */
  method DecodeColumnTotals(body: seq<byte>) returns (r: Option<seq<Tally>>, ghost steps: nat)
    ensures r == Totals(body)
    ensures 3 * steps <= |body|
  {
    hide ReadRaw, NamesAreText, TotalsOf, Uvarint.Read;
    steps := 0;
    var cur := new Cursor(body);
    var n :- cur.TakeUvarint();
    var totals, more := TakeTotals(cur, n);
    r, steps := totals, more;
  }
}
