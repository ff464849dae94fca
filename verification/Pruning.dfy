/** From the rows of each row group to the probes of a query: nothing that matches is skipped. */
module Pruning {
  import opened Bytes
  import opened TrigramIndex
  import opened TokenBloom
  import opened BloomCodec

  /** `bloom` is a filter of the trigrams of `rows`, in some order. */
  ghost predicate Indexes(h: Hash, bloom: Bloom, rows: seq<string>) {
    && bloom.WellFormed()
    && exists tokens :: Elements(tokens) == GramsOf(rows) && Holds(h, bloom.bits, bloom.k, tokens)
  }

  /** The index of one row group, at any size the sizing formula can give. */
  method IndexRowGroup(h: Hash, rows: seq<string>, bytes: nat, k: nat) returns (bloom: Bloom)
    requires bytes >= 8 && 1 <= k <= 16
    ensures |bloom.bits| == bytes && bloom.k == k && Indexes(h, bloom, rows)
  {
    hide Holds, GramsOf;
    var grams := Collect(rows);
    var tokens := Listed(grams);
    var bits := Build(h, bytes, k, tokens);
    bloom := Bloom(k, bits);
    assert Elements(tokens) == GramsOf(rows) && Holds(h, bits, k, tokens);
  }

  /** The grams in an arbitrary order, as the set iterates them. */
  method Listed(grams: set<string>) returns (tokens: seq<string>)
    ensures Elements(tokens) == grams
  {
    tokens := [];
    var rest := grams;
    while rest != {}
      invariant rest <= grams && Elements(tokens) == grams - rest
      decreases |rest|
    {
      var g :| g in rest;
      assert Elements(tokens + [g]) == Elements(tokens) + {g};
      tokens, rest := tokens + [g], rest - {g};
    }
  }

  lemma RowsFound(h: Hash, bloom: Bloom, rows: seq<string>, r: nat, query: string, at: nat, g: string)
    requires Indexes(h, bloom, rows)
    requires r < |rows| && OccursAt(query, rows[r], at) && g in Firsts(Trigrams(query))
    ensures MaybeContains(h, bloom.bits, bloom.k, g)
  {
    hide Trigrams, OccursAt, MaybeContains, Holds, GramsOf, Firsts;
    FirstsDistinct(Trigrams(query));
    assert g in Elements(Firsts(Trigrams(query)));
    OccurrenceHasTrigrams(query, rows[r], at, g);
    RowGrams(rows, r, g);
    var tokens :| Elements(tokens) == GramsOf(rows) && Holds(h, bloom.bits, bloom.k, tokens);
    assert g in Elements(tokens);
    NoFalseNegatives(h, bloom.bits, bloom.k, tokens, g);
  }

  /**
   * Pruning never loses a row. For blooms that index the rows of their groups and whose list
   * fits its 32-bit lengths, the reader of the stored text gets them back in order, and every
   * trigram of a query that occurs in a row of group `i`, ASCII case aside, is present in bloom `i`.
   */
  lemma PruningLosesNoRow(h: Hash, groups: seq<seq<string>>, blooms: seq<Bloom>, text: seq<byte>,
                          i: nat, r: nat, query: string, at: nat, g: string)
    requires |groups| == |blooms| && (forall j :: 0 <= j < |blooms| ==> Indexes(h, blooms[j], groups[j]))
    requires Fits(blooms) && text == Hex(ListBytes(blooms))
    requires i < |groups| && r < |groups[i]| && OccursAt(query, groups[i][r], at) && g in Firsts(Trigrams(query))
    ensures Unhex(text).Some? && ReadList(Unhex(text).value).Some?
    ensures var restored := ReadList(Unhex(text).value).value;
            && |restored| == |groups| && restored[i].bits != []
            && MaybeContains(h, restored[i].bits, restored[i].k, g)
  {
    hide Trigrams, OccursAt, MaybeContains, Fits, ListBytes, Firsts, Hex, Unhex, ReadList;
    HexRoundTrip(ListBytes(blooms));
    assert AllWellFormed(blooms) by {
      assert forall j :: 0 <= j < |blooms| ==> Indexes(h, blooms[j], groups[j]);
    }
    ListRoundTrip(blooms);
    RowsFound(h, blooms[i], groups[i], r, query, at, g);
  }

  /** Every trigram of every row, repeats and all: the reference the set replaces. */
  function AllTrigrams(rows: seq<string>): (ts: seq<string>) {
    if rows == [] then [] else Trigrams(rows[0]) + AllTrigrams(rows[1..])
  }

  lemma {:induction false} AllTrigramsElements(rows: seq<string>)
    ensures Elements(AllTrigrams(rows)) == GramsOf(rows)
  {
    hide Trigrams;
    if rows != [] {
      AllTrigramsElements(rows[1..]);
      assert forall t :: t in AllTrigrams(rows) <==> t in Trigrams(rows[0]) || t in AllTrigrams(rows[1..]);
    }
  }

  /** The deduplicating set, in whatever order it iterates, gives the bytes of the reference. */
  lemma SetGivesReferenceBytes(h: Hash, x: seq<byte>, y: seq<byte>, k: nat, rows: seq<string>, tokens: seq<string>)
    requires |x| == |y| > 0
    requires Elements(tokens) == GramsOf(rows) && Holds(h, x, k, tokens)
    requires Holds(h, y, k, AllTrigrams(rows))
    ensures x == y
  {
    hide Holds, AllTrigrams, GramsOf;
    AllTrigramsElements(rows);
    assert forall t :: t in tokens <==> t in Elements(tokens);
    assert forall t :: t in AllTrigrams(rows) <==> t in Elements(AllTrigrams(rows));
    BytesDependOnSet(h, x, y, k, tokens, AllTrigrams(rows));
  }
}
