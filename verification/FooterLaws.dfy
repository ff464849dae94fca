/** What the footer's writer and readers guarantee together. */
module FooterLaws {
  import opened Wrappers
  import opened Bytes
  import opened Sequences
  import opened Utf8
  import opened FooterFormat
  import opened FooterCodec
  import Uvarint

  // ----- Round trip

  lemma ByteRunRoundTrip(buf: seq<byte>, pos: nat, bytes: seq<byte>)
    requires At(buf, pos, ByteRun(bytes)) && FitsUsize(|bytes|)
    ensures ReadBytes(buf, pos) == Some((bytes, pos + |ByteRun(bytes)|))
  {
    hide Uvarint.Read, Uvarint.Encoded;
    AtSplit(buf, pos, Uvarint.Encoded(|bytes|), bytes);
    Uvarint.RoundTrip(buf, pos, |bytes|);
  }

  /** Front coding over any predecessor rebuilds the value byte for byte. */
  lemma TallyRoundTrip(buf: seq<byte>, pos: nat, prev: seq<byte>, t: Tally)
    requires At(buf, pos, FrontCoded(prev, t))
    requires ValidUtf8(t.0) && FitsUsize(|t.0|)
    ensures ReadTally(buf, pos, prev) == Some((t, pos + |FrontCoded(prev, t)|))
  {
    hide Uvarint.Read, Uvarint.Encoded, ValidUtf8, ReadBytes, CommonPrefix, ByteRun;
    var shared := CommonPrefix(prev, t.0);
    var a, b, c := Uvarint.Encoded(shared), ByteRun(t.0[shared..]), Uvarint.Encoded(t.1);
    AtSplit(buf, pos, a, b + c);
    AtSplit(buf, pos + |a|, b, c);
    Uvarint.RoundTrip(buf, pos, shared);
    ByteRunRoundTrip(buf, pos + |a|, t.0[shared..]);
    Uvarint.RoundTrip(buf, pos + |a| + |b|, t.1);
    assert prev[..shared] + t.0[shared..] == t.0;
  }

  lemma {:induction false} TalliesRoundTrip(buf: seq<byte>, pos: nat, prev: seq<byte>, ts: seq<Tally>)
    requires At(buf, pos, TalliesOut(prev, ts))
    requires StorableTallies(ts)
    ensures ReadTallies(buf, pos, |ts|, prev) == Some((ts, pos + |TalliesOut(prev, ts)|))
    decreases |ts|
  {
    hide ReadTally, FrontCoded, ValidUtf8;
    if ts != [] {
      var head := FrontCoded(prev, ts[0]);
      AtSplit(buf, pos, head, TalliesOut(ts[0].0, ts[1..]));
      TallyRoundTrip(buf, pos, prev, ts[0]);
      TalliesRoundTrip(buf, pos + |head|, ts[0].0, ts[1..]);
      ReadTalliesStep(buf, pos, |ts|, prev);
      assert [ts[0]] + ts[1..] == ts;
    }
  }

  lemma ColumnRoundTrip(buf: seq<byte>, pos: nat, col: StoredColumn)
    requires At(buf, pos, ColumnOut(col))
    requires StorableColumn(col)
    ensures ReadStoredColumn(buf, pos) == Some((col, pos + |ColumnOut(col)|))
  {
    hide Uvarint.Read, Uvarint.Encoded, ValidUtf8, ReadBytes, ByteRun, ReadTallies, TalliesOut;
    var a, b := ByteRun(col.name), Uvarint.Encoded(col.nulls);
    var c, d := Uvarint.Encoded(|col.tallies|), TalliesOut([], col.tallies);
    AtSplit(buf, pos, a, b + (c + d));
    AtSplit(buf, pos + |a|, b, c + d);
    AtSplit(buf, pos + |a| + |b|, c, d);
    ByteRunRoundTrip(buf, pos, col.name);
    Uvarint.RoundTrip(buf, pos + |a|, col.nulls);
    Uvarint.RoundTrip(buf, pos + |a| + |b|, |col.tallies|);
    TalliesRoundTrip(buf, pos + |a| + |b| + |c|, [], col.tallies);
  }

  lemma {:induction false} ColumnsRoundTrip(buf: seq<byte>, pos: nat, cols: seq<StoredColumn>)
    requires At(buf, pos, ColumnsOut(cols))
    requires Storable(cols)
    ensures ReadStored(buf, pos, |cols|) == Some((cols, pos + |ColumnsOut(cols)|))
    decreases |cols|
  {
    hide ReadStoredColumn, ColumnOut, StorableColumn;
    if cols != [] {
      AtSplit(buf, pos, ColumnOut(cols[0]), ColumnsOut(cols[1..]));
      ColumnRoundTrip(buf, pos, cols[0]);
      ColumnsRoundTrip(buf, pos + |ColumnOut(cols[0])|, cols[1..]);
      ReadStoredStep(buf, pos, |cols|);
      assert [cols[0]] + cols[1..] == cols;
    }
  }

  /** The cursor stops on the last byte of a written body, having seen the columns in order. */
  lemma BodyRoundTrip(summary: Summary)
    requires Storable(Columns(summary))
    ensures Stored(BodyOut(summary)) == Some(Columns(summary))
  {
    hide Columns, ColumnsOut, ReadStored, Uvarint.Read, Uvarint.Encoded;
    var body, cols := BodyOut(summary), Columns(summary);
    var count := Uvarint.Encoded(|summary|);
    assert At(body, 0, count + ColumnsOut(cols)) by {
      assert body[0..|body|] == body;
    }
    AtSplit(body, 0, count, ColumnsOut(cols));
    Uvarint.RoundTrip(body, 0, |summary|);
    ColumnsRoundTrip(body, |count|, cols);
  }

  /** A key holds the value of its last occurrence. */
  lemma {:induction false} InsertedLast<V>(m: map<seq<byte>, V>, items: seq<(seq<byte>, V)>, i: nat)
    requires i < |items|
    requires forall j :: i < j < |items| ==> items[j].0 != items[i].0
    ensures items[i].0 in Inserted(m, items)
    ensures Inserted(m, items)[items[i].0] == items[i].1
    decreases |items|
  {
    var m' := m[items[0].0 := items[0].1];
    if i == 0 {
      InsertedOther(m', items[1..], items[0].0);
    } else {
      InsertedLast(m', items[1..], i - 1);
    }
  }

  /** A key that does not occur is left as it was. */
  lemma {:induction false} InsertedOther<V>(m: map<seq<byte>, V>, items: seq<(seq<byte>, V)>, k: seq<byte>)
    requires forall i :: 0 <= i < |items| ==> items[i].0 != k
    ensures k in Inserted(m, items) <==> k in m
    ensures k in m ==> Inserted(m, items)[k] == m[k]
    decreases |items|
  {
    if items != [] {
      InsertedOther(m[items[0].0 := items[0].1], items[1..], k);
    }
  }

  ghost predicate DistinctKeys<V>(items: seq<(seq<byte>, V)>) {
    forall i, j :: 0 <= i < j < |items| ==> items[i].0 != items[j].0
  }

  /** Inserting the items of a map, each key once, gives the map. */
  lemma InsertedIs<V>(items: seq<(seq<byte>, V)>, m: map<seq<byte>, V>)
    requires DistinctKeys(items)
    requires forall i :: 0 <= i < |items| ==> items[i].0 in m && m[items[i].0] == items[i].1
    requires forall k <- m :: exists i :: 0 <= i < |items| && items[i].0 == k
    ensures Inserted(map[], items) == m
  {
    hide Inserted;
    var r := Inserted(map[], items);
    forall k
      ensures k in r <==> k in m
      ensures k in m ==> r[k] == m[k]
    {
      if i :| 0 <= i < |items| && items[i].0 == k {
        InsertedLast(map[], items, i);
      } else {
        InsertedOther(map[], items, k);
      }
    }
  }

  lemma CountsOfTallies(name: seq<byte>, counts: ColumnCounts)
    ensures CountsOf(StoredColumn(name, counts.nulls, Tallies(counts.values))) == counts
  {
    hide Inserted, Ascending;
    var ks, ts := Ascending(counts.values.Keys), Tallies(counts.values);
    AscendingLists(counts.values.Keys);
    assert DistinctKeys(ts) by {
      AscendingDistinct(counts.values.Keys);
    }
    forall k <- counts.values
      ensures exists i :: 0 <= i < |ts| && ts[i].0 == k
    {
      var i :| 0 <= i < |ks| && ks[i] == k;
      assert ts[i].0 == k;
    }
    InsertedIs(ts, counts.values);
  }

  lemma AscendingDistinct(keys: set<seq<byte>>)
    ensures forall i, j :: 0 <= i < j < |Ascending(keys)| ==> Ascending(keys)[i] != Ascending(keys)[j]
  {
    AscendingLists(keys);
    forall i, j | 0 <= i < j < |Ascending(keys)|
      ensures Ascending(keys)[i] != Ascending(keys)[j]
    {
      BeforeTrichotomy(Ascending(keys)[i], Ascending(keys)[j]);
    }
  }

  lemma NamedCountsOfColumns(summary: Summary)
    ensures Inserted(map[], NamedCounts(Columns(summary))) == summary
  {
    hide Inserted, Ascending, CountsOf, Tallies;
    var ks, cols := Ascending(summary.Keys), Columns(summary);
    var items := NamedCounts(cols);
    AscendingLists(summary.Keys);
    AscendingDistinct(summary.Keys);
    forall i | 0 <= i < |items|
      ensures items[i] == (ks[i], summary[ks[i]])
    {
      CountsOfTallies(ks[i], summary[ks[i]]);
    }
    forall k <- summary
      ensures exists i :: 0 <= i < |items| && items[i].0 == k
    {
      var i :| 0 <= i < |ks| && ks[i] == k;
      assert items[i].0 == k;
    }
    InsertedIs(items, summary);
  }

  /**
   * `decode_body` inverts `encode_body`: every summary, with arbitrary u64 counts, comes
   * back exactly.
   */
  lemma DecodeInvertsEncode(summary: Summary)
    requires Storable(Columns(summary))
    ensures Denoted(BodyOut(summary)) == Some(summary)
  {
    BodyRoundTrip(summary);
    NamedCountsOfColumns(summary);
  }

  // ----- Prefix freedom

  lemma ReadBytesExtends(buf: seq<byte>, pos: nat, more: seq<byte>)
    requires pos <= |buf| && ReadBytes(buf, pos).Some?
    ensures ReadBytes(buf + more, pos) == ReadBytes(buf, pos)
  {
    hide Uvarint.Read;
    Uvarint.ReadExtends(buf, pos, more);
    var (len, at) := Uvarint.Read(buf, pos).value;
    assert (buf + more)[at..at + len] == buf[at..at + len];
  }

  lemma ReadEntryExtends(buf: seq<byte>, pos: nat, more: seq<byte>)
    requires pos <= |buf| && ReadEntry(buf, pos).Some?
    ensures ReadEntry(buf + more, pos) == ReadEntry(buf, pos)
  {
    hide Uvarint.Read, ReadBytes;
    var a := Uvarint.Read(buf, pos).value.1;
    Uvarint.ReadExtends(buf, pos, more);
    ReadBytesExtends(buf, a, more);
    Uvarint.ReadExtends(buf, ReadBytes(buf, a).value.1, more);
  }

  lemma {:induction false} ReadTalliesExtends(buf: seq<byte>, pos: nat, n: nat, prev: seq<byte>, more: seq<byte>)
    requires pos <= |buf| && ReadTallies(buf, pos, n, prev).Some?
    ensures ReadTallies(buf + more, pos, n, prev) == ReadTallies(buf, pos, n, prev)
    decreases n
  {
    hide ReadEntry, Rebuild;
    if n > 0 {
      ReadEntryExtends(buf, pos, more);
      var (t, at) := ReadTally(buf, pos, prev).value;
      ReadTalliesExtends(buf, at, n - 1, t.0, more);
    }
  }

  lemma {:induction false} ReadEntriesExtends(buf: seq<byte>, pos: nat, n: nat, more: seq<byte>)
    requires pos <= |buf| && ReadEntries(buf, pos, n).Some?
    ensures ReadEntries(buf + more, pos, n) == ReadEntries(buf, pos, n)
    decreases n
  {
    hide ReadEntry;
    if n > 0 {
      ReadEntryExtends(buf, pos, more);
      ReadEntriesExtends(buf, ReadEntry(buf, pos).value.1, n - 1, more);
    }
  }

  lemma ReadHeaderExtends(buf: seq<byte>, pos: nat, more: seq<byte>)
    requires pos <= |buf| && ReadHeader(buf, pos).Some?
    ensures ReadHeader(buf + more, pos) == ReadHeader(buf, pos)
  {
    hide Uvarint.Read, ReadBytes;
    ReadBytesExtends(buf, pos, more);
    var a := ReadBytes(buf, pos).value.1;
    Uvarint.ReadExtends(buf, a, more);
    Uvarint.ReadExtends(buf, Uvarint.Read(buf, a).value.1, more);
  }

  lemma {:induction false} ReadStoredExtends(buf: seq<byte>, pos: nat, n: nat, more: seq<byte>)
    requires pos <= |buf| && ReadStored(buf, pos, n).Some?
    ensures ReadStored(buf + more, pos, n) == ReadStored(buf, pos, n)
    decreases n
  {
    hide ReadHeader, ReadTallies, ValidUtf8;
    if n > 0 {
      ReadHeaderExtends(buf, pos, more);
      var (_, _, k, a) := ReadHeader(buf, pos).value;
      ReadTalliesExtends(buf, a, k, [], more);
      ReadStoredExtends(buf, ReadStoredColumn(buf, pos).value.1, n - 1, more);
    }
  }

  lemma {:induction false} ReadRawExtends(buf: seq<byte>, pos: nat, n: nat, more: seq<byte>)
    requires pos <= |buf| && ReadRaw(buf, pos, n).Some?
    ensures ReadRaw(buf + more, pos, n) == ReadRaw(buf, pos, n)
    decreases n
  {
    hide ReadHeader, ReadEntries;
    if n > 0 {
      ReadHeaderExtends(buf, pos, more);
      var (_, _, k, a) := ReadHeader(buf, pos).value;
      ReadEntriesExtends(buf, a, k, more);
      ReadRawExtends(buf, ReadRawColumn(buf, pos).value.1, n - 1, more);
    }
  }

  /** An accepted body with bytes appended is refused: trailing bytes are never served. */
  lemma ExtensionRejected(body: seq<byte>, more: seq<byte>)
    requires Denoted(body).Some? && more != []
    ensures Denoted(body + more) == None
  {
    hide Uvarint.Read, ReadStored, Inserted;
    Uvarint.ReadExtends(body, 0, more);
    var (n, at) := Uvarint.Read(body, 0).value;
    ReadStoredExtends(body, at, n, more);
  }

  /** An accepted body cut short anywhere is refused. */
  lemma TruncationRejected(body: seq<byte>, cut: nat)
    requires Denoted(body).Some? && cut < |body|
    ensures Denoted(body[..cut]) == None
  {
    hide Denoted;
    assert body[..cut] + body[cut..] == body;
    if Denoted(body[..cut]).Some? {
      ExtensionRejected(body[..cut], body[cut..]);
    }
  }

  /** The walks do not look past the last column: appended bytes change neither census. */
  lemma WalkIgnoresTail(body: seq<byte>, more: seq<byte>)
    requires Walked(body).Some?
    ensures Walked(body + more) == Walked(body)
  {
    hide Uvarint.Read, ReadRaw;
    Uvarint.ReadExtends(body, 0, more);
    var (n, at) := Uvarint.Read(body, 0).value;
    ReadRawExtends(body, at, n, more);
  }
}
