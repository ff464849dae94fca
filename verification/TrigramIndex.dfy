/** Character trigrams of log text: the reference list, the deduplicating set, the query's own. */
module TrigramIndex {
  import opened Wrappers
  import opened Sequences

  const TRIGRAM_LEN: nat := 3

  /** `to_ascii_lowercase`: only A to Z change. */
  function Lower(c: char): (l: char) {
    if 'A' <= c <= 'Z' then (c as int + 32) as char else c
  }

  function Lowered(s: string): (l: string)
    ensures |l| == |s|
  {
    seq(|s|, i requires 0 <= i < |s| => Lower(s[i]))
  }

  /** `trigrams`: the windows of three characters of the lowercased text, in order. */
  function Trigrams(raw: string): (ts: seq<string>) {
    var l := Lowered(raw);
    if |l| < TRIGRAM_LEN then [] else seq(|l| - 2, i requires 0 <= i < |l| - 2 => l[i..i + TRIGRAM_LEN])
  }

  function Elements<T>(s: seq<T>): (r: set<T>) {
    set x | x in s
  }

  /** Every trigram of every row. */
  function GramsOf(rows: seq<string>): (grams: set<string>) {
    if rows == [] then {} else Elements(Trigrams(rows[0])) + GramsOf(rows[1..])
  }

  /** The same character, or the upper and lower case of one ASCII letter. */
  predicate SameLetter(c: char, d: char) {
    || c == d
    || ('A' <= c <= 'Z' && d as int - 'a' as int == c as int - 'A' as int)
    || ('a' <= c <= 'z' && d as int - 'A' as int == c as int - 'a' as int)
  }

  /** `query` occurs in `row`, ASCII case aside, starting at `at`. */
  predicate OccursAt(query: string, row: string, at: nat) {
    at + |query| <= |row| && forall i :: 0 <= i < |query| ==> SameLetter(query[i], row[at + i])
  }

  /** Lowering joins exactly the two cases of each ASCII letter, and leaves no capital. */
  lemma LowerIff(c: char, d: char)
    ensures Lower(c) == Lower(d) <==> SameLetter(c, d)
    ensures SameLetter(c, Lower(c)) && !('A' <= Lower(c) <= 'Z')
  {
  }

  /** The trigrams of a text are its windows of three characters in order, ASCII case aside, without capitals. */
  lemma TrigramsAre(raw: string, i: nat, k: nat)
    ensures |Trigrams(raw)| == if |raw| < 3 then 0 else |raw| - 2
    ensures i < |Trigrams(raw)| ==> |Trigrams(raw)[i]| == 3
    ensures i < |Trigrams(raw)| && k < 3 ==>
              SameLetter(raw[i + k], Trigrams(raw)[i][k]) && !('A' <= Trigrams(raw)[i][k] <= 'Z')
  {
    if i < |Trigrams(raw)| && k < 3 {
      assert Trigrams(raw)[i][k] == Lowered(raw)[i + k] == Lower(raw[i + k]);
      LowerIff(raw[i + k], raw[i + k]);
    }
  }

  /** `TrigramSet`: the distinct trigrams of many strings, with its reused buffers. */
  class TrigramSet {
    var grams: set<string>
    var chars: string
    var gram: string

    constructor ()
      ensures grams == {}
    {
      grams, chars, gram := {}, "", "";
    }

    method Add(value: string)
      modifies this
      ensures grams == old(grams) + Elements(Trigrams(value))
    {
      chars := Lowered(value);
      if |chars| < TRIGRAM_LEN {
        assert Elements(Trigrams(value)) == {};
        return;
      }
      ghost var ts := Trigrams(value);
      for i := 0 to |chars| - 2
        invariant chars == Lowered(value)
        invariant grams == old(grams) + Elements(ts[..i])
      {
        gram := chars[i..i + TRIGRAM_LEN];
        if gram !in grams {
          grams := grams + {gram};
        }
        assert ts[..i + 1] == ts[..i] + [gram];
      }
      assert ts[..|ts|] == ts;
    }
  }

  /** The trigrams of all rows, collected one row at a time. */
  method Collect(rows: seq<string>) returns (grams: set<string>)
    ensures grams == GramsOf(rows)
  {
    var acc := new TrigramSet();
    for i := 0 to |rows|
      invariant acc.grams + GramsOf(rows[i..]) == GramsOf(rows)
    {
      assert rows[i..][1..] == rows[i + 1..];
      acc.Add(rows[i]);
    }
    grams := acc.grams;
  }

  /** The first occurrence of each element, in order. */
  function Firsts<T(==)>(s: seq<T>): (r: seq<T>) {
    if s == [] then []
    else
      var init, last := s[..|s| - 1], s[|s| - 1];
      if last in init then Firsts(init) else Firsts(init) + [last]
  }

  /** `query_trigrams`: the distinct trigrams of a query, or None when it is too short to have any. */
  method QueryTrigrams(substr: string) returns (r: Option<seq<string>>)
    ensures r.None? <==> |substr| < TRIGRAM_LEN
    ensures r.Some? ==> r.value == Firsts(Trigrams(substr))
  {
    var tris := Trigrams(substr);
    if tris == [] {
      return None;
    }
    var seen: set<string> := {};
    var out: seq<string> := [];
    for i := 0 to |tris|
      invariant seen == Elements(tris[..i])
      invariant out == Firsts(tris[..i])
    {
      assert tris[..i + 1] == tris[..i] + [tris[i]];
      assert tris[..i + 1][..i] == tris[..i];
      if tris[i] !in seen {
        out := out + [tris[i]];
      }
      seen := seen + {tris[i]};
    }
    assert tris[..|tris|] == tris;
    r := Some(out);
  }

  /** Deduplication keeps every element once and nothing else. */
  lemma {:induction false} FirstsDistinct<T>(s: seq<T>)
    ensures Elements(Firsts(s)) == Elements(s)
    ensures forall i, j :: 0 <= i < j < |Firsts(s)| ==> Firsts(s)[i] != Firsts(s)[j]
  {
    if s != [] {
      var init, last := s[..|s| - 1], s[|s| - 1];
      FirstsDistinct(init);
      assert s == init + [last];
      assert Elements(s) == Elements(init) + {last};
      if last !in init {
        assert last !in Elements(Firsts(init));
      }
    }
  }

  lemma {:induction false} RowGrams(rows: seq<string>, r: nat, g: string)
    requires r < |rows| && g in Trigrams(rows[r])
    ensures g in GramsOf(rows)
  {
    if r > 0 {
      RowGrams(rows[1..], r - 1, g);
    }
  }

  lemma LowersAlike(query: string, row: string, at: nat)
    requires OccursAt(query, row, at)
    ensures Lowered(row)[at..at + |query|] == Lowered(query)
  {
    hide Lower;
    forall i | 0 <= i < |query|
      ensures Lowered(row)[at..at + |query|][i] == Lowered(query)[i]
    {
      LowerIff(query[i], row[at + i]);
    }
  }

  /** A query that occurs in a row has all its trigrams among the row's. */
  lemma OccurrenceHasTrigrams(query: string, row: string, at: nat, g: string)
    requires OccursAt(query, row, at) && g in Trigrams(query)
    ensures g in Trigrams(row)
  {
    hide Lowered;
    var q, l := Lowered(query), Lowered(row);
    var i :| 0 <= i < |Trigrams(query)| && Trigrams(query)[i] == g;
    assert g == q[i..i + TRIGRAM_LEN];
    assert q == l[at..at + |query|] by { LowersAlike(query, row, at); }
    SliceOfSlice(l, at, at + |query|, i, i + TRIGRAM_LEN);
    assert Trigrams(row)[at + i] == g;
  }
}
