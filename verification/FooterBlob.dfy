/**
 * The footer value around a body: magic, version, a raw or compressed payload, and text armor.
 * The compressor and the armor (zstd and base64 in the source) are taken as arbitrary functions.
 */
module FooterBlob {
  import opened Wrappers
  import opened Bytes
  import opened FooterFormat
  import opened FooterCodec
  import opened FooterLaws
  import opened FooterAgreement
  import opened Utf8

  const MAGIC: seq<byte> := [0x4C, 0x47, 0x43, 0x46] // "LGCF"
  const FORMAT_VERSION: byte := 1
  const CODEC_RAW: byte := 0
  const CODEC_ZSTD: byte := 1
  const MAX_DECODED_BYTES: nat := 64 * 1024 * 1024
  const HEADER_LEN: nat := 6

  datatype Foreign = Foreign(
    compress: seq<byte> -> Option<seq<byte>>,
    inflate: seq<byte> -> Option<seq<byte>>,
    armor: seq<byte> -> string,
    unarmor: string -> Option<seq<byte>>) // trims, then decodes
  {
    /** What is compressed inflates back, and what is armored reads back. */
    ghost predicate Lossless() {
      && (forall b :: compress(b).Some? ==> inflate(compress(b).value) == Some(b))
      && (forall b :: unarmor(armor(b)) == Some(b))
    }

    /** Compression failed or did not make the body shorter. */
    predicate KeepsRaw(body: seq<byte>) {
      compress(body).None? || |compress(body).value| >= |body|
    }

    function InflateBounded(payload: seq<byte>): (body: Option<seq<byte>>)
      ensures body.Some? ==> |body.value| <= MAX_DECODED_BYTES
    {
      var out :- inflate(payload);
      if |out| > MAX_DECODED_BYTES then None else Some(out)
    }

    function EncodeColumns(summary: Summary): (text: Option<string>)
      ensures text.None? <==> summary == map[]
    {
      if summary == map[] then None
      else
        var body := BodyOut(summary);
        var (codec, payload) :=
          if KeepsRaw(body) then (CODEC_RAW, body) else (CODEC_ZSTD, compress(body).value);
        Some(armor(MAGIC + [FORMAT_VERSION, codec] + payload))
    }

    function BlobBody(text: string): (body: Option<seq<byte>>) {
      var blob :- unarmor(text);
      if |blob| < HEADER_LEN || blob[..4] != MAGIC || blob[4] != FORMAT_VERSION then None
      else if blob[5] == CODEC_RAW then Some(blob[HEADER_LEN..])
      else if blob[5] == CODEC_ZSTD then InflateBounded(blob[HEADER_LEN..])
      else None
    }

    function DecodeColumns(text: string): (summary: Option<Summary>) {
      var body :- BlobBody(text);
      Denoted(body)
    }

    /**
     * A blob yields a body exactly when it has the header and either carries that body raw or
     * carries a payload that inflates to it within 64 MiB; anything else is refused.
     */
    lemma BlobAcceptsExactly(text: string, body: seq<byte>)
      ensures BlobBody(text) == Some(body)
         <==> || unarmor(text) == Some([0x4C, 0x47, 0x43, 0x46, 1, 0] + body)
              || (exists payload :: unarmor(text) == Some([0x4C, 0x47, 0x43, 0x46, 1, 1] + payload)
                                    && inflate(payload) == Some(body) && |body| <= 67_108_864)
    {
      var blob := unarmor(text);
      if blob.Some? && |blob.value| >= HEADER_LEN && blob.value[..4] == MAGIC && blob.value[4] == FORMAT_VERSION {
        var payload := blob.value[HEADER_LEN..];
        assert blob.value == [0x4C, 0x47, 0x43, 0x46, 1, blob.value[5]] + payload;
      }
    }

    /** The writer stores the compressed body exactly when that is shorter, and never more than the body. */
    lemma WriterStoresShorter(summary: Summary)
      requires summary != map[]
      ensures exists codec: byte, payload ::
                && EncodeColumns(summary) == Some(armor([0x4C, 0x47, 0x43, 0x46, 1, codec] + payload))
                && |payload| <= |BodyOut(summary)|
                && (codec == 0 ==> payload == BodyOut(summary))
                && (codec != 0 ==> codec == 1 && compress(BodyOut(summary)) == Some(payload))
                && (|payload| < |BodyOut(summary)| <==> codec == 1)
    {
      hide BodyOut;
      var body := BodyOut(summary);
      var (codec, payload) := if KeepsRaw(body) then (CODEC_RAW, body) else (CODEC_ZSTD, compress(body).value);
      assert MAGIC + [FORMAT_VERSION, codec] + payload == [0x4C, 0x47, 0x43, 0x46, 1, codec] + payload;
      assert EncodeColumns(summary) == Some(armor([0x4C, 0x47, 0x43, 0x46, 1, codec] + payload));
    }

    /** The reader recovers the body the writer put in, unless it was compressed from beyond the bound. */
    lemma BlobRoundTrip(summary: Summary)
      requires Lossless() && summary != map[]
      ensures BlobBody(EncodeColumns(summary).value)
           == if KeepsRaw(BodyOut(summary)) || |BodyOut(summary)| <= 67_108_864
              then Some(BodyOut(summary)) else None
    {
      hide BodyOut;
      var body := BodyOut(summary);
      var (codec, payload) := if KeepsRaw(body) then (CODEC_RAW, body) else (CODEC_ZSTD, compress(body).value);
      var blob := MAGIC + [FORMAT_VERSION, codec] + payload;
      assert blob[..4] == MAGIC && blob[HEADER_LEN..] == payload;
    }

    /**
     * A written footer reads back exactly when it was stored raw or its body is at most 64 MiB;
     * otherwise it reads as absent. It never reads as a different summary.
     */
    lemma FooterRoundTrip(summary: Summary)
      requires Lossless() && summary != map[] && Storable(Columns(summary))
      ensures DecodeColumns(EncodeColumns(summary).value)
           == if KeepsRaw(BodyOut(summary)) || |BodyOut(summary)| <= 67_108_864
              then Some(summary) else None
    {
      BlobRoundTrip(summary);
      DecodeInvertsEncode(summary);
      hide BodyOut, Denoted, EncodeColumns, BlobBody, Storable, Columns, KeepsRaw;
    }
  }

  lemma ColumnAt(summary: Summary, i: nat)
    requires i < |summary|
    ensures |Ascending(summary.Keys)| == |Columns(summary)| == |summary|
    ensures var k := Ascending(summary.Keys)[i];
            && k in summary
            && Columns(summary)[i] == StoredColumn(k, summary[k].nulls, Tallies(summary[k].values))
  {
    hide Ascending, Tallies;
    AscendingLists(summary.Keys);
    assert |summary.Keys| == |summary|;
    assert Ascending(summary.Keys)[i] in Ascending(summary.Keys);
  }

  /** On a body the writer produced, the censuses list the keys in ascending order with their row totals. */
  lemma WriterCensuses(summary: Summary, i: nat)
    requires Storable(Columns(summary)) && i < |summary|
    ensures |Ascending(summary.Keys)| == |summary| && Ascending(summary.Keys)[i] in summary
    ensures var k := Ascending(summary.Keys)[i];
            && Names(BodyOut(summary)).Some? && |Names(BodyOut(summary)).value| == |summary|
            && Names(BodyOut(summary)).value[i] == k
            && Totals(BodyOut(summary)).Some? && |Totals(BodyOut(summary)).value| == |summary|
            && Totals(BodyOut(summary)).value[i]
               == (k, Saturated(summary[k].nulls + TallySum(Tallies(summary[k].values))))
  {
    hide BodyOut, Stored, Names, Totals, Ascending, Tallies, TallySum, Storable, Columns, Saturated;
    BodyRoundTrip(summary);
    CensusesAgree(BodyOut(summary));
    ColumnAt(summary, i);
  }

  /** On a body the writer produced, a read of one column yields its values in ascending order. */
  lemma WriterColumn(summary: Summary, name: seq<byte>)
    requires Storable(Columns(summary))
    ensures Named(BodyOut(summary), name)
         == if name in summary then Some((Tallies(summary[name].values), summary[name].nulls)) else None
  {
    hide BodyOut, Stored, Named, Ascending, Tallies, Storable, Columns, FirstNamed;
    BodyRoundTrip(summary);
    NamedIsFirst(BodyOut(summary), name);
    var cols, ks := Columns(summary), Ascending(summary.Keys);
    AscendingLists(summary.Keys);
    AscendingDistinct(summary.Keys);
    forall i | 0 <= i < |cols|
      ensures cols[i].name == ks[i]
    {
      ColumnAt(summary, i);
    }
    if name in summary {
      var i :| 0 <= i < |ks| && ks[i] == name;
      ColumnAt(summary, i);
      FirstNamedAt(cols, i);
    }
  }

  /** On a written body an earlier name is the smaller at the first byte that differs, or a prefix. */
  lemma WrittenNamesAscend(summary: Summary, i: nat, j: nat)
    requires Storable(Columns(summary)) && i < j < |summary|
    ensures Names(BodyOut(summary)).Some? && |Names(BodyOut(summary)).value| == |summary|
    ensures exists k: nat :: LessAt(Names(BodyOut(summary)).value[i], Names(BodyOut(summary)).value[j], k)
  {
    hide BodyOut, Names, Totals, Ascending, Storable, Columns, Before;
    WriterCensuses(summary, i);
    WriterCensuses(summary, j);
    AscendingLists(summary.Keys);
    BeforeIff(Ascending(summary.Keys)[i], Ascending(summary.Keys)[j]);
  }

  lemma TallyAt(values: map<seq<byte>, u64>, i: nat)
    requires i < |values|
    ensures |Ascending(values.Keys)| == |Tallies(values)| == |values|
    ensures Ascending(values.Keys)[i] in values
    ensures Tallies(values)[i] == (Ascending(values.Keys)[i], values[Ascending(values.Keys)[i]])
  {
    hide Ascending;
    AscendingLists(values.Keys);
    assert |values.Keys| == |values|;
    assert Ascending(values.Keys)[i] in Ascending(values.Keys);
  }

  /** And so are the values of each column, with the counts of the summary. */
  lemma WrittenValuesAscend(summary: Summary, name: seq<byte>, i: nat, j: nat)
    requires Storable(Columns(summary)) && name in summary && i < j < |summary[name].values|
    ensures Named(BodyOut(summary), name).Some? && |Named(BodyOut(summary), name).value.0| == |summary[name].values|
    ensures var ts := Named(BodyOut(summary), name).value.0;
            && (exists k: nat :: LessAt(ts[i].0, ts[j].0, k))
            && ts[i].0 in summary[name].values && summary[name].values[ts[i].0] == ts[i].1
  {
    hide BodyOut, Named, Ascending, Storable, Columns, Before;
    WriterColumn(summary, name);
    TallyAt(summary[name].values, i);
    TallyAt(summary[name].values, j);
    hide Tallies;
    var ks := Ascending(summary[name].values.Keys);
    AscendingLists(summary[name].values.Keys);
    BeforeIff(ks[i], ks[j]);
  }

  /** A name and its counts that the writer can store: text throughout, every length within 64 bits. */
  ghost predicate StorableEntry(name: seq<byte>, counts: ColumnCounts) {
    && ValidUtf8(name) && |name| < 0x1_0000_0000_0000_0000 && |counts.values| < 0x1_0000_0000_0000_0000
    && forall value <- counts.values :: ValidUtf8(value) && |value| < 0x1_0000_0000_0000_0000
  }

  /** A summary can be stored exactly when each of its columns can and their number is within 64 bits. */
  lemma StorableIff(summary: Summary)
    ensures Storable(Columns(summary)) <==>
              |summary| < 0x1_0000_0000_0000_0000 && forall name <- summary :: StorableEntry(name, summary[name])
  {
    hide Columns, Ascending, ValidUtf8, Tallies, StorableEntry, StorableColumn;
    AscendingLists(summary.Keys);
    var ks := Ascending(summary.Keys);
    assert |ks| == |summary| by { assert |summary.Keys| == |summary|; }
    forall i | 0 <= i < |ks|
      ensures ks[i] in summary && (StorableColumn(Columns(summary)[i]) <==> StorableEntry(ks[i], summary[ks[i]]))
    {
      ColumnAt(summary, i);
      EntryStorable(ks[i], summary[ks[i]]);
    }
    forall name | name in summary
      ensures exists i :: 0 <= i < |ks| && ks[i] == name
    {
      assert name in ks;
    }
  }

  lemma EntryStorable(name: seq<byte>, counts: ColumnCounts)
    ensures StorableColumn(StoredColumn(name, counts.nulls, Tallies(counts.values))) <==> StorableEntry(name, counts)
  {
    hide Tallies, ValidUtf8;
    TalliesStorable(counts.values);
  }

  lemma TalliesStorable(values: map<seq<byte>, u64>)
    ensures StorableTallies(Tallies(values)) <==>
              && |values| < 0x1_0000_0000_0000_0000
              && forall value <- values :: ValidUtf8(value) && |value| < 0x1_0000_0000_0000_0000
  {
    hide Ascending, ValidUtf8;
    AscendingLists(values.Keys);
    var ks := Ascending(values.Keys);
    assert forall i :: 0 <= i < |ks| ==> ks[i] in ks && Tallies(values)[i].0 == ks[i];
    forall value | value in values
      ensures exists i :: 0 <= i < |ks| && Tallies(values)[i].0 == value
    {
      var i :| 0 <= i < |ks| && ks[i] == value;
    }
  }
}
