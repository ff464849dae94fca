/**
 * The body of a group-count footer: what the writer emits for a summary, and what each
 * read of a body yields. Byte positions are explicit, so that every reader of the same
 * bytes can be compared with the others.
 */
module FooterFormat {
  import opened Wrappers
  import opened Bytes
  import opened Utf8
  import Uvarint

  /** One column's counts: rows per distinct value, plus rows where the column is NULL. */
  datatype ColumnCounts = ColumnCounts(values: map<seq<byte>, u64>, nulls: u64)

  type Summary = map<seq<byte>, ColumnCounts>

  /** A value and its row count, in stored order. */
  type Tally = (seq<byte>, u64)

  /** A front-coded value as it stands in the body. */
  datatype Entry = Entry(shared: u64, suffix: seq<byte>, count: u64)

  /** A column as it stands in the body, its values still front-coded. */
  datatype RawColumn = RawColumn(name: seq<byte>, nulls: u64, entries: seq<Entry>)

  /** A column as it stands in the body, its values rebuilt. */
  datatype StoredColumn = StoredColumn(name: seq<byte>, nulls: u64, tallies: seq<Tally>)

  // ----- Writing

  /** Length of the longest common prefix of `a` and `b`. */
  function CommonPrefix(a: seq<byte>, b: seq<byte>): (n: nat)
    ensures n <= |a| && n <= |b| && a[..n] == b[..n]
    ensures n < |a| && n < |b| ==> a[n] != b[n]
  {
    if a == [] || b == [] || a[0] != b[0] then 0
    else
      var n := CommonPrefix(a[1..], b[1..]);
      assert a[..n + 1] == [a[0]] + a[1..][..n] && b[..n + 1] == [b[0]] + b[1..][..n];
      1 + n
  }

  function ByteRun(bytes: seq<byte>): (out: seq<byte>) {
    Uvarint.Encoded(|bytes|) + bytes
  }

  /** One value, front-coded against its predecessor. */
  function FrontCoded(prev: seq<byte>, t: Tally): (out: seq<byte>) {
    var shared := CommonPrefix(prev, t.0);
    Uvarint.Encoded(shared) + (ByteRun(t.0[shared..]) + Uvarint.Encoded(t.1))
  }

  function TalliesOut(prev: seq<byte>, tallies: seq<Tally>): (out: seq<byte>)
    decreases |tallies|
  {
    if tallies == [] then []
    else FrontCoded(prev, tallies[0]) + TalliesOut(tallies[0].0, tallies[1..])
  }

  function ColumnOut(col: StoredColumn): (out: seq<byte>) {
    ByteRun(col.name)
    + (Uvarint.Encoded(col.nulls) + (Uvarint.Encoded(|col.tallies|) + TalliesOut([], col.tallies)))
  }

  function ColumnsOut(cols: seq<StoredColumn>): (out: seq<byte>) {
    if cols == [] then [] else ColumnOut(cols[0]) + ColumnsOut(cols[1..])
  }

  /** The tallies of a value map, in `BTreeMap` order. */
  function Tallies(values: map<seq<byte>, u64>): (ts: seq<Tally>)
    ensures |ts| == |values|
  {
    AscendingLists(values.Keys);
    assert |values.Keys| == |values|;
    var ks := Ascending(values.Keys);
    seq(|ks|, i requires 0 <= i < |ks| => assert ks[i] in ks; (ks[i], values[ks[i]]))
  }

  /** The columns of a summary, in `BTreeMap` order. */
  function Columns(summary: Summary): (cols: seq<StoredColumn>)
    ensures |cols| == |summary|
  {
    AscendingLists(summary.Keys);
    assert |summary.Keys| == |summary|;
    var ks := Ascending(summary.Keys);
    seq(|ks|, i requires 0 <= i < |ks| =>
      assert ks[i] in ks;
      StoredColumn(ks[i], summary[ks[i]].nulls, Tallies(summary[ks[i]].values)))
  }

  /** The body the writer emits for a summary. */
  function BodyOut(summary: Summary): (body: seq<byte>) {
    Uvarint.Encoded(|summary|) + ColumnsOut(Columns(summary))
  }

  // ----- Reading

  /** A length-prefixed byte run. */
  function ReadBytes(buf: seq<byte>, pos: nat): (r: Option<(seq<byte>, nat)>)
    requires pos <= |buf|
    ensures r.Some? ==> pos + |r.value.0| < r.value.1 <= |buf|
  {
    var (len, at) :- Uvarint.Read(buf, pos);
    if at + len <= |buf| then Some((buf[at..at + len], at + len)) else None
  }

  function ReadEntry(buf: seq<byte>, pos: nat): (r: Option<(Entry, nat)>)
    requires pos <= |buf|
    ensures r.Some? ==> pos + 3 + |r.value.0.suffix| <= r.value.1 <= |buf|
  {
    var (shared, a) :- Uvarint.Read(buf, pos);
    var (suffix, b) :- ReadBytes(buf, a);
    var (count, c) :- Uvarint.Read(buf, b);
    Some((Entry(shared, suffix, count), c))
  }

  /** `n` front-coded values, left front-coded. */
  function ReadEntries(buf: seq<byte>, pos: nat, n: nat): (r: Option<(seq<Entry>, nat)>)
    requires pos <= |buf|
    ensures r.Some? ==> |r.value.0| == n && pos + 3 * n <= r.value.1 <= |buf|
    decreases n
  {
    if n == 0 then Some(([], pos))
    else
      var (e, at) :- ReadEntry(buf, pos);
      var (es, end) :- ReadEntries(buf, at, n - 1);
      Some(([e] + es, end))
  }

  /** A column's name, null count and number of values. */
  function ReadHeader(buf: seq<byte>, pos: nat): (r: Option<(seq<byte>, u64, u64, nat)>)
    requires pos <= |buf|
    ensures r.Some? ==> pos + 3 + |r.value.0| <= r.value.3 <= |buf|
  {
    var (name, a) :- ReadBytes(buf, pos);
    var (nulls, b) :- Uvarint.Read(buf, a);
    var (n, c) :- Uvarint.Read(buf, b);
    Some((name, nulls, n, c))
  }

  function ReadRawColumn(buf: seq<byte>, pos: nat): (r: Option<(RawColumn, nat)>)
    requires pos <= |buf|
    ensures r.Some? ==> pos + 3 + 3 * |r.value.0.entries| <= r.value.1 <= |buf|
  {
    var (name, nulls, k, a) :- ReadHeader(buf, pos);
    var (entries, b) :- ReadEntries(buf, a, k);
    Some((RawColumn(name, nulls, entries), b))
  }

  /** `n` columns, their values left front-coded: the walk that skips. */
  function ReadRaw(buf: seq<byte>, pos: nat, n: nat): (r: Option<(seq<RawColumn>, nat)>)
    requires pos <= |buf|
    ensures r.Some? ==> |r.value.0| == n && pos + 3 * n <= r.value.1 <= |buf|
    decreases n
  {
    if n == 0 then Some(([], pos))
    else
      var (col, at) :- ReadRawColumn(buf, pos);
      var (cols, end) :- ReadRaw(buf, at, n - 1);
      Some(([col] + cols, end))
  }

  /** The value an entry stands for after `prev`, if it stands for one. */
  function Rebuild(prev: seq<byte>, e: Entry): (value: Option<seq<byte>>) {
    if e.shared > |prev| then None
    else if ValidUtf8(prev[..e.shared] + e.suffix) then Some(prev[..e.shared] + e.suffix)
    else None
  }

  /** One value, rebuilt from its front coding against `prev`. */
  function ReadTally(buf: seq<byte>, pos: nat, prev: seq<byte>): (r: Option<(Tally, nat)>)
    requires pos <= |buf|
    ensures r.Some? ==> pos + 3 <= r.value.1 <= |buf|
  {
    var (e, at) :- ReadEntry(buf, pos);
    var value :- Rebuild(prev, e);
    Some(((value, e.count), at))
  }

  /** `n` values, rebuilt from their front coding starting from `prev`. */
  function ReadTallies(buf: seq<byte>, pos: nat, n: nat, prev: seq<byte>): (r: Option<(seq<Tally>, nat)>)
    requires pos <= |buf|
    ensures r.Some? ==> |r.value.0| == n && pos + 3 * n <= r.value.1 <= |buf|
    decreases n
  {
    if n == 0 then Some(([], pos))
    else
      var (t, at) :- ReadTally(buf, pos, prev);
      var (ts, end) :- ReadTallies(buf, at, n - 1, t.0);
      Some(([t] + ts, end))
  }

  /** A column with its values rebuilt; its name must be text. */
  function ReadStoredColumn(buf: seq<byte>, pos: nat): (r: Option<(StoredColumn, nat)>)
    requires pos <= |buf|
    ensures r.Some? ==> pos + 3 + 3 * |r.value.0.tallies| <= r.value.1 <= |buf|
  {
    var (name, nulls, k, a) :- ReadHeader(buf, pos);
    if ValidUtf8(name) then
      var (tallies, b) :- ReadTallies(buf, a, k, []);
      Some((StoredColumn(name, nulls, tallies), b))
    else None
  }

  /** `n` columns with their values rebuilt. */
  function ReadStored(buf: seq<byte>, pos: nat, n: nat): (r: Option<(seq<StoredColumn>, nat)>)
    requires pos <= |buf|
    ensures r.Some? ==> |r.value.0| == n && pos + 3 * n <= r.value.1 <= |buf|
    decreases n
  {
    if n == 0 then Some(([], pos))
    else
      var (col, at) :- ReadStoredColumn(buf, pos);
      var (cols, end) :- ReadStored(buf, at, n - 1);
      Some(([col] + cols, end))
  }

  /** `m` after inserting every item in order: a repeated key keeps its last value. */
  function Inserted<V>(m: map<seq<byte>, V>, items: seq<(seq<byte>, V)>): (r: map<seq<byte>, V>)
    decreases |items|
  {
    if items == [] then m else Inserted(m[items[0].0 := items[0].1], items[1..])
  }

  function CountsOf(col: StoredColumn): (counts: ColumnCounts) {
    ColumnCounts(Inserted(map[], col.tallies), col.nulls)
  }

  function NamedCounts(cols: seq<StoredColumn>): (items: seq<(seq<byte>, ColumnCounts)>) {
    seq(|cols|, i requires 0 <= i < |cols| => (cols[i].name, CountsOf(cols[i])))
  }

  /** The columns of a body in stored order, or None when the whole of it is not a body. */
  function Stored(body: seq<byte>): (cols: Option<seq<StoredColumn>>) {
    var (n, at) :- Uvarint.Read(body, 0);
    var (cols, end) :- ReadStored(body, at, n);
    if end == |body| then Some(cols) else None
  }

  /** The summary a body denotes, if it denotes one. */
  function Denoted(body: seq<byte>): (summary: Option<Summary>) {
    var cols :- Stored(body);
    Some(Inserted(map[], NamedCounts(cols)))
  }

  /** The columns a body starts with, left front-coded; bytes after them do not matter. */
  function Walked(body: seq<byte>): (cols: Option<seq<RawColumn>>) {
    var (n, at) :- Uvarint.Read(body, 0);
    var (cols, _) :- ReadRaw(body, at, n);
    Some(cols)
  }

  predicate NamesAreText(cols: seq<RawColumn>) {
    forall i :: 0 <= i < |cols| ==> ValidUtf8(cols[i].name)
  }

  function NamesOf(cols: seq<RawColumn>): (names: seq<seq<byte>>) {
    seq(|cols|, i requires 0 <= i < |cols| => cols[i].name)
  }

  function EntrySum(entries: seq<Entry>): (sum: nat) {
    if entries == [] then 0 else entries[0].count + EntrySum(entries[1..])
  }

  function Saturated(n: nat): (v: u64) {
    if n <= U64_MAX then n else U64_MAX
  }

  /** Name and row total of each column. */
  function TotalsOf(cols: seq<RawColumn>): (totals: seq<Tally>) {
    seq(|cols|, i requires 0 <= i < |cols| =>
      (cols[i].name, Saturated(cols[i].nulls + EntrySum(cols[i].entries))))
  }

  /** The first of `n` columns at `pos` named `name`: earlier columns are only skipped. */
  function ReadNamed(buf: seq<byte>, pos: nat, n: nat, name: seq<byte>): (r: Option<(seq<Tally>, u64)>)
    requires pos <= |buf|
    decreases n
  {
    if n == 0 then None
    else
      var (found, nulls, k, a) :- ReadHeader(buf, pos);
      if found == name then
        var (tallies, _) :- ReadTallies(buf, a, k, []);
        Some((tallies, nulls))
      else
        var (_, b) :- ReadEntries(buf, a, k);
        ReadNamed(buf, b, n - 1, name)
  }

  /** The name census of a body. */
  function Names(body: seq<byte>): (names: Option<seq<seq<byte>>>) {
    var cols :- Walked(body);
    if NamesAreText(cols) then Some(NamesOf(cols)) else None
  }

  /** The row-total census of a body. */
  function Totals(body: seq<byte>): (totals: Option<seq<Tally>>) {
    var cols :- Walked(body);
    if NamesAreText(cols) then Some(TotalsOf(cols)) else None
  }

  /** What a read of one column of a body yields. */
  function Named(body: seq<byte>, name: seq<byte>): (r: Option<(seq<Tally>, u64)>) {
    var (n, at) :- Uvarint.Read(body, 0);
    ReadNamed(body, at, n, name)
  }
}
