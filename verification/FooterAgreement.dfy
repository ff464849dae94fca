/** The cheap walks against the full decode, and what bounds every walk. */
module FooterAgreement {
  import opened Wrappers
  import opened Bytes
  import opened Utf8
  import opened FooterFormat
  import opened FooterCodec
  import opened FooterLaws
  import Uvarint

  // ----- The same boundaries

  function TallySum(ts: seq<Tally>): (sum: nat) {
    if ts == [] then 0 else ts[0].1 + TallySum(ts[1..])
  }

  /** Skipping values and rebuilding them end at the same byte with the same counts. */
  lemma {:induction false} SkipsLikeRebuild(buf: seq<byte>, pos: nat, n: nat, prev: seq<byte>)
    requires pos <= |buf| && ReadTallies(buf, pos, n, prev).Some?
    ensures ReadEntries(buf, pos, n).Some?
    ensures ReadEntries(buf, pos, n).value.1 == ReadTallies(buf, pos, n, prev).value.1
    ensures EntrySum(ReadEntries(buf, pos, n).value.0) == TallySum(ReadTallies(buf, pos, n, prev).value.0)
    decreases n
  {
    hide ReadEntry, Rebuild;
    if n > 0 {
      var (t, at) := ReadTally(buf, pos, prev).value;
      SkipsLikeRebuild(buf, at, n - 1, t.0);
      var es, ts := ReadEntries(buf, pos, n).value.0, ReadTallies(buf, pos, n, prev).value.0;
      assert es[1..] == ReadEntries(buf, at, n - 1).value.0;
      assert ts[1..] == ReadTallies(buf, at, n - 1, t.0).value.0;
    }
  }

  /** The same column, walked over and rebuilt. */
  ghost predicate SameColumn(raw: RawColumn, col: StoredColumn) {
    && raw.name == col.name && ValidUtf8(col.name)
    && raw.nulls == col.nulls && EntrySum(raw.entries) == TallySum(col.tallies)
  }

  ghost predicate SameColumns(raws: seq<RawColumn>, cols: seq<StoredColumn>) {
    |raws| == |cols| && forall i :: 0 <= i < |cols| ==> SameColumn(raws[i], cols[i])
  }

  lemma ColumnWalksAlike(buf: seq<byte>, pos: nat)
    requires pos <= |buf| && ReadStoredColumn(buf, pos).Some?
    ensures ReadRawColumn(buf, pos).Some?
    ensures ReadRawColumn(buf, pos).value.1 == ReadStoredColumn(buf, pos).value.1
    ensures SameColumn(ReadRawColumn(buf, pos).value.0, ReadStoredColumn(buf, pos).value.0)
  {
    hide ReadHeader, ReadTallies, ReadEntries, ValidUtf8, EntrySum, TallySum;
    var (_, _, k, a) := ReadHeader(buf, pos).value;
    SkipsLikeRebuild(buf, a, k, []);
  }

  lemma {:induction false} WalksAlike(buf: seq<byte>, pos: nat, n: nat)
    requires pos <= |buf| && ReadStored(buf, pos, n).Some?
    ensures ReadRaw(buf, pos, n).Some?
    ensures ReadRaw(buf, pos, n).value.1 == ReadStored(buf, pos, n).value.1
    ensures SameColumns(ReadRaw(buf, pos, n).value.0, ReadStored(buf, pos, n).value.0)
    decreases n
  {
    hide ReadStoredColumn, ReadRawColumn, SameColumn;
    if n > 0 {
      ColumnWalksAlike(buf, pos);
      WalksAlike(buf, ReadStoredColumn(buf, pos).value.1, n - 1);
    }
  }

  /**
   * On every body the full decode accepts, whoever wrote it, the censuses list its columns in
   * stored order, each with the saturated sum of its nulls and stored counts.
   */
  lemma CensusesAgree(body: seq<byte>)
    requires Stored(body).Some?
    ensures var cols := Stored(body).value;
            && Names(body).Some? && |Names(body).value| == |cols|
            && Totals(body).Some? && |Totals(body).value| == |cols|
            && forall i :: 0 <= i < |cols| ==>
                 && Names(body).value[i] == cols[i].name
                 && Totals(body).value[i]
                    == (cols[i].name, Saturated(cols[i].nulls + TallySum(cols[i].tallies)))
  {
    hide ReadStored, ReadRaw, Uvarint.Read, ValidUtf8, EntrySum, TallySum;
    var (n, at) := Uvarint.Read(body, 0).value;
    WalksAlike(body, at, n);
  }

  /** The first column of that name. */
  function FirstNamed(cols: seq<StoredColumn>, name: seq<byte>): (r: Option<(seq<Tally>, u64)>)
    ensures r.Some? <==> exists i :: 0 <= i < |cols| && cols[i].name == name
  {
    if cols == [] then None
    else if cols[0].name == name then Some((cols[0].tallies, cols[0].nulls))
    else
      assert forall i :: 1 <= i < |cols| ==> cols[i] == cols[1..][i - 1];
      FirstNamed(cols[1..], name)
  }

  lemma {:induction false} ReadNamedIsFirst(buf: seq<byte>, pos: nat, n: nat, name: seq<byte>)
    requires pos <= |buf| && ReadStored(buf, pos, n).Some?
    ensures ReadNamed(buf, pos, n, name) == FirstNamed(ReadStored(buf, pos, n).value.0, name)
    decreases n
  {
    hide ReadHeader, ReadTallies, ReadEntries, ValidUtf8;
    if n > 0 {
      var (found, nulls, k, a) := ReadHeader(buf, pos).value;
      var (col, at) := ReadStoredColumn(buf, pos).value;
      SkipsLikeRebuild(buf, a, k, []);
      ReadNamedIsFirst(buf, at, n - 1, name);
      var cols := ReadStored(buf, pos, n).value.0;
      assert cols[1..] == ReadStored(buf, at, n - 1).value.0;
    }
  }

  /** On an accepted body a read of one column yields the first stored column of that name. */
  lemma NamedIsFirst(body: seq<byte>, name: seq<byte>)
    requires Stored(body).Some?
    ensures Named(body, name) == FirstNamed(Stored(body).value, name)
  {
    hide ReadStored, ReadNamed, Uvarint.Read, FirstNamed;
    var (n, at) := Uvarint.Read(body, 0).value;
    ReadNamedIsFirst(body, at, n, name);
  }

  ghost predicate DistinctNames(cols: seq<StoredColumn>) {
    forall i, j :: 0 <= i < j < |cols| ==> cols[i].name != cols[j].name
  }

  lemma {:induction false} FirstNamedAt(cols: seq<StoredColumn>, i: nat)
    requires i < |cols| && forall k :: 0 <= k < i ==> cols[k].name != cols[i].name
    ensures FirstNamed(cols, cols[i].name) == Some((cols[i].tallies, cols[i].nulls))
  {
    if i > 0 {
      assert cols[0].name != cols[i].name;
      FirstNamedAt(cols[1..], i - 1);
    }
  }

  /** The counts a read of one column gives, as the full decode has them. */
  function Counted(read: (seq<Tally>, u64)): (counts: ColumnCounts) {
    ColumnCounts(Inserted(map[], read.0), read.1)
  }

  /**
   * On an accepted body a read of one column succeeds exactly for the names the full decode
   * lists, and when no name repeats it yields the map and null count of the full decode.
   */
  lemma NamedAgreesWithDecode(body: seq<byte>, name: seq<byte>)
    requires Stored(body).Some?
    ensures Named(body, name).Some? <==> name in Denoted(body).value
    ensures Named(body, name).Some? && DistinctNames(Stored(body).value) ==>
              Denoted(body).value[name] == Counted(Named(body, name).value)
  {
    NamedIsFirst(body, name);
    hide Stored, Named, Inserted, FirstNamed;
    var cols := Stored(body).value;
    var items := NamedCounts(cols);
    if i :| 0 <= i < |cols| && cols[i].name == name {
      ListedIn(items, i);
      if DistinctNames(cols) {
        FirstNamedAt(cols, i);
        InsertedLast(map[], items, i);
      }
    } else {
      InsertedOther(map[], items, name);
    }
  }

  /** The full decode keeps the last stored column of each name. */
  lemma DecodeKeepsLast(body: seq<byte>, i: nat)
    requires Stored(body).Some? && i < |Stored(body).value|
    requires forall j :: i < j < |Stored(body).value| ==> Stored(body).value[j].name != Stored(body).value[i].name
    ensures Denoted(body).Some? && Stored(body).value[i].name in Denoted(body).value
    ensures Denoted(body).value[Stored(body).value[i].name] == CountsOf(Stored(body).value[i])
  {
    hide Stored, Inserted, CountsOf;
    InsertedLast(map[], NamedCounts(Stored(body).value), i);
  }

  /**
   * For any name an accepted body stores, first at `i` and last at `j`, the two reads agree if and
   * only if those two columns hold the same counts.
   */
  lemma NamedAgreesIff(body: seq<byte>, i: nat, j: nat)
    requires Stored(body).Some? && i <= j < |Stored(body).value|
    requires Stored(body).value[j].name == Stored(body).value[i].name
    requires forall k :: 0 <= k < i ==> Stored(body).value[k].name != Stored(body).value[i].name
    requires forall k :: j < k < |Stored(body).value| ==> Stored(body).value[k].name != Stored(body).value[i].name
    ensures var cols, name := Stored(body).value, Stored(body).value[i].name;
            && Named(body, name).Some? && Denoted(body).Some? && name in Denoted(body).value
            && (Denoted(body).value[name] == Counted(Named(body, name).value)
                <==> CountsOf(cols[i]) == CountsOf(cols[j]))
  {
    hide Stored, Named, Denoted, Inserted;
    NamedIsFirst(body, Stored(body).value[i].name);
    FirstNamedAt(Stored(body).value, i);
    DecodeKeepsLast(body, j);
  }

  /** Every key inserted is in the result. */
  lemma {:induction false} ListedIn<V>(items: seq<(seq<byte>, V)>, i: nat)
    requires i < |items|
    ensures items[i].0 in Inserted(map[], items)
    decreases |items| - i
  {
    if j :| i < j < |items| && items[j].0 == items[i].0 {
      ListedIn(items, j);
    } else {
      InsertedLast(map[], items, i);
    }
  }

  /** A name stored twice separates the two reads: the walk keeps the first, the map the last. */
  lemma RepeatedNameDisagrees(body: seq<byte>, x: byte, y: byte)
    requires x < 0x80 && y < 0x80
    requires body == [2] + [1, 0x61, x, 0] + [1, 0x61, y, 0]
    ensures Named(body, [0x61]) == Some(([], x))
    ensures Denoted(body).Some? && [0x61] in Denoted(body).value && Denoted(body).value[[0x61]].nulls == y
  {
    TwoColumns(body, x, y);
    NamedIsFirst(body, [0x61]);
    hide Stored, Named, Denoted, Inserted;
    DecodeKeepsLast(body, 1);
  }

  lemma TwoColumns(body: seq<byte>, x: byte, y: byte)
    requires x < 0x80 && y < 0x80
    requires body == [2] + [1, 0x61, x, 0] + [1, 0x61, y, 0]
    ensures Stored(body) == Some([StoredColumn([0x61], x, []), StoredColumn([0x61], y, [])])
  {
    hide ReadStoredColumn, Uvarint.Read;
    var first, second := StoredColumn([0x61], x, []), StoredColumn([0x61], y, []);
    SmallRead(body, 0);
    ReadEmptyColumn(body, 1);
    ReadEmptyColumn(body, 5);
    ReadStoredStep(body, 5, 1);
    assert [second] + [] == [second];
    ReadStoredStep(body, 1, 2);
    assert [first] + [second] == [first, second];
  }

  lemma SmallRead(buf: seq<byte>, pos: nat)
    requires pos < |buf| && buf[pos] < 0x80
    ensures Uvarint.Read(buf, pos) == Some((buf[pos], pos + 1))
  {
    Uvarint.ReadRun(buf, pos, pos + 1);
    assert buf[pos..pos + 1] == [buf[pos]];
    assert Uvarint.Groups([buf[pos]]) == buf[pos] % 0x80 + 0x80 * Uvarint.Groups([buf[pos]][1..]);
  }

  lemma ReadEmptyColumn(buf: seq<byte>, pos: nat)
    requires pos + 4 <= |buf| && buf[pos] == 1 && buf[pos + 1] == 0x61 && buf[pos + 2] < 0x80 && buf[pos + 3] == 0
    ensures ReadStoredColumn(buf, pos) == Some((StoredColumn([0x61], buf[pos + 2], []), pos + 4))
  {
    hide Uvarint.Read;
    SmallRead(buf, pos);
    SmallRead(buf, pos + 2);
    SmallRead(buf, pos + 3);
    assert buf[pos + 1..pos + 2] == [0x61];
    assert ValidUtf8([0x61]) by {
      assert [0x61][1..] == [];
    }
  }

  // ----- Bounds

  /** A rebuilt value is no longer than its predecessor and the bytes read so far together. */
  lemma {:induction false} ValueLengths(buf: seq<byte>, pos: nat, n: nat, prev: seq<byte>)
    requires pos <= |buf| && ReadTallies(buf, pos, n, prev).Some?
    ensures var (ts, end) := ReadTallies(buf, pos, n, prev).value;
            forall i :: 0 <= i < |ts| ==> |ts[i].0| <= |prev| + end - pos
    decreases n
  {
    hide ReadEntry, ValidUtf8;
    if n > 0 {
      var (t, at) := ReadTally(buf, pos, prev).value;
      ValueLengths(buf, at, n - 1, t.0);
    }
  }

  /** Total number of values over the columns. */
  function ValueCount(cols: seq<StoredColumn>): (n: nat) {
    if cols == [] then 0 else |cols[0].tallies| + ValueCount(cols[1..])
  }

  ghost predicate ValuesWithin(col: StoredColumn, bound: nat) {
    |col.name| <= bound && forall i :: 0 <= i < |col.tallies| ==> |col.tallies[i].0| <= bound
  }

  lemma ColumnBound(buf: seq<byte>, pos: nat)
    requires pos <= |buf| && ReadStoredColumn(buf, pos).Some?
    ensures ValuesWithin(ReadStoredColumn(buf, pos).value.0, |buf|)
  {
    hide ReadHeader, ReadTallies, ValidUtf8;
    var (_, _, k, a) := ReadHeader(buf, pos).value;
    ValueLengths(buf, a, k, []);
  }

  lemma {:induction false} ColumnsBound(buf: seq<byte>, pos: nat, n: nat)
    requires pos <= |buf| && ReadStored(buf, pos, n).Some?
    ensures var (cols, end) := ReadStored(buf, pos, n).value;
            && pos + 3 * (|cols| + ValueCount(cols)) <= end
            && forall i :: 0 <= i < |cols| ==> ValuesWithin(cols[i], |buf|)
    decreases n
  {
    hide ReadStoredColumn, ValuesWithin;
    if n > 0 {
      var at := ReadStoredColumn(buf, pos).value.1;
      ColumnBound(buf, pos);
      ColumnsBound(buf, at, n - 1);
      var cols := ReadStored(buf, pos, n).value.0;
      assert cols[1..] == ReadStored(buf, at, n - 1).value.0;
    }
  }

  /**
   * Whatever counts an accepted body claims, its columns and values together take at least three
   * bytes each, and no value is longer than the body, however much prefix it shares.
   */
  lemma BodyBounds(body: seq<byte>)
    requires Stored(body).Some?
    ensures var cols := Stored(body).value;
            && 3 * (|cols| + ValueCount(cols)) < |body|
            && forall i :: 0 <= i < |cols| ==> ValuesWithin(cols[i], |body|)
  {
    hide ReadStored, Uvarint.Read, ValuesWithin, ValueCount;
    var (n, at) := Uvarint.Read(body, 0).value;
    ColumnsBound(body, at, n);
  }

  // ----- The cost of front coding

  /** The same value without front coding: its length, its bytes, its count. */
  function PlainTally(t: Tally): (out: seq<byte>) {
    ByteRun(t.0) + Uvarint.Encoded(t.1)
  }

  function PlainTallies(ts: seq<Tally>): (out: seq<byte>) {
    if ts == [] then [] else PlainTally(ts[0]) + PlainTallies(ts[1..])
  }

  /** Values that share no prefix with the value before them. */
  function Unshared(prev: seq<byte>, ts: seq<Tally>): (n: nat)
    decreases |ts|
  {
    if ts == [] then 0
    else (if CommonPrefix(prev, ts[0].0) == 0 then 1 else 0) + Unshared(ts[0].0, ts[1..])
  }

  lemma {:induction false} EncodedNoLonger(n: nat)
    requires n > 0
    ensures |Uvarint.Encoded(n)| <= n
  {
    if n >= 0x80 {
      EncodedNoLonger(n / 0x80);
    }
  }

  lemma TallyCost(prev: seq<byte>, t: Tally)
    ensures |FrontCoded(prev, t)| <= |PlainTally(t)| + (if CommonPrefix(prev, t.0) == 0 then 1 else 0)
  {
    var shared := CommonPrefix(prev, t.0);
    Uvarint.EncodedMonotone(|t.0| - shared, |t.0|);
    if shared > 0 {
      EncodedNoLonger(shared);
    }
  }

  /** Front coding costs at most one byte for each value that shares nothing, and nothing otherwise. */
  lemma {:induction false} FrontCodingCost(prev: seq<byte>, ts: seq<Tally>)
    ensures |TalliesOut(prev, ts)| <= |PlainTallies(ts)| + Unshared(prev, ts)
    decreases |ts|
  {
    hide FrontCoded, PlainTally, CommonPrefix;
    if ts != [] {
      TallyCost(prev, ts[0]);
      FrontCodingCost(ts[0].0, ts[1..]);
    }
  }

  function PlainColumn(col: StoredColumn): (out: seq<byte>) {
    ByteRun(col.name) + (Uvarint.Encoded(col.nulls) + (Uvarint.Encoded(|col.tallies|) + PlainTallies(col.tallies)))
  }

  function PlainColumns(cols: seq<StoredColumn>): (out: seq<byte>) {
    if cols == [] then [] else PlainColumn(cols[0]) + PlainColumns(cols[1..])
  }

  function UnsharedIn(cols: seq<StoredColumn>): (n: nat) {
    if cols == [] then 0 else Unshared([], cols[0].tallies) + UnsharedIn(cols[1..])
  }

  lemma {:induction false} ColumnsCost(cols: seq<StoredColumn>)
    ensures |ColumnsOut(cols)| <= |PlainColumns(cols)| + UnsharedIn(cols)
  {
    hide Uvarint.Encoded, ByteRun, TalliesOut, PlainTallies, Unshared;
    if cols != [] {
      FrontCodingCost([], cols[0].tallies);
      ColumnsCost(cols[1..]);
    }
  }

  /** A written body is at most the plain encoding of its columns and a byte for each unshared value. */
  lemma BodyCost(summary: Summary)
    ensures |BodyOut(summary)|
         <= |Uvarint.Encoded(|summary|) + PlainColumns(Columns(summary))| + UnsharedIn(Columns(summary))
  {
    hide Columns, ColumnsOut, PlainColumns, UnsharedIn;
    ColumnsCost(Columns(summary));
  }
}
