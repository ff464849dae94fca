/** Removal of `cfg(test)` items from Rust source, found in the mask and blanked in the text. */
module NonTest {
  import opened Wrappers
  import opened Numbers
  import opened Sequences
  import opened RustMask
  import opened MaskLaws

  // ----- The attribute: `#`, `[`, `cfg`, `(`, `test`, `)`, `]` with white space between

  /** White space as `\s` of a Python text pattern has it. */
  predicate IsSpace(c: char) {
    || '\t' <= c <= '\r' || '\U{1c}' <= c <= ' ' || c == '\U{85}' || c == '\U{a0}' || c == '\U{1680}'
    || '\U{2000}' <= c <= '\U{200a}' || c == '\U{2028}' || c == '\U{2029}' || c == '\U{202f}'
    || c == '\U{205f}' || c == '\U{3000}'
  }

  function SkipSpace(m: string, i: nat): (j: nat)
    requires i <= |m|
    ensures i <= j <= |m|
    decreases |m| - i
  {
    if i < |m| && IsSpace(m[i]) then SkipSpace(m, i + 1) else i
  }

  const CFG_TEST: seq<string> := ["#", "[", "cfg", "(", "test", ")", "]"]

  /** End of the chunks standing at `i` with white space between them. */
  function ChunksEnd(m: string, i: nat, chunks: seq<string>): (end: Option<nat>)
    requires i <= |m|
    ensures end.Some? ==> i <= end.value <= |m|
    ensures end.Some? && chunks != [] && |chunks[0]| > 0 ==> i < end.value && m[i] == chunks[0][0]
    decreases |chunks|
  {
    if chunks == [] then Some(i)
    else if !StartsAt(m, i, chunks[0]) then None
    else
      assert m[i..i + |chunks[0]|] == chunks[0];
      var at := i + |chunks[0]|;
      if |chunks| == 1 then Some(at) else ChunksEnd(m, SkipSpace(m, at), chunks[1..])
  }

  function CfgEnd(m: string, i: nat): (end: Option<nat>)
    requires i <= |m|
    ensures end.Some? ==> i < end.value <= |m| && m[i] == '#'
  {
    ChunksEnd(m, i, CFG_TEST)
  }

  /** The first attribute at or after `from`: where it starts and ends. */
  function Search(m: string, from: nat): (r: Option<(nat, nat)>)
    ensures r.Some? ==> from <= r.value.0 < r.value.1 <= |m| && CfgEnd(m, r.value.0) == Some(r.value.1)
    decreases |m| - from
  {
    if from > |m| then None
    else
      var end := CfgEnd(m, from);
      if end.Some? then Some((from, end.value)) else Search(m, from + 1)
  }

  // ----- The item an attribute governs

  predicate IsWordChar(c: char) {
    'A' <= c <= 'Z' || 'a' <= c <= 'z' || c == '_'
  }

  function WordEnd(t: string, i: nat): (j: nat)
    requires i <= |t|
    ensures i <= j <= |t|
    ensures i < |t| && IsWordChar(t[i]) ==> i < j
    decreases |t| - i
  {
    if i < |t| && IsWordChar(t[i]) then WordEnd(t, i + 1) else i
  }

  /** The words of `t` from `i` on. */
  function Words(t: string, i: nat): (ws: seq<string>)
    requires i <= |t|
    decreases |t| - i
  {
    if i == |t| then []
    else if IsWordChar(t[i]) then [t[i..WordEnd(t, i)]] + Words(t, WordEnd(t, i))
    else Words(t, i + 1)
  }

  /** An item these words open ends at a semicolon even after a brace. */
  predicate SemicolonItem(ws: seq<string>) {
    || "use" in ws || "static" in ws || "type" in ws
    || ("const" in ws && "fn" !in ws)
  }

  /** Open parentheses, brackets and braces; unbalanced text can make any of them negative. */
  datatype Depth = Depth(parens: int, brackets: int, braces: int) {
    predicate Flat() {
      parens == brackets == braces == 0
    }

    function After(c: char): (d: Depth) {
      match c
      case '(' => this.(parens := parens + 1)
      case ')' => this.(parens := parens - 1)
      case '[' => this.(brackets := brackets + 1)
      case ']' => this.(brackets := brackets - 1)
      case '{' => this.(braces := braces + 1)
      case '}' => this.(braces := braces - 1)
      case _ => this
    }
  }

  /** The character that closes an item once the depth after it is flat. */
  predicate Closes(c: char, semicolonItem: bool) {
    c == ';' || (c == '}' && !semicolonItem)
  }

  /** End of the item, from `pos` at depth `d`. */
  function CloseFrom(m: string, pos: nat, semicolonItem: bool, d: Depth): (end: nat)
    requires pos <= |m|
    ensures pos <= end <= |m|
    ensures end < |m| ==> pos < end && (m[end - 1] == ';' || m[end - 1] == '}')
    decreases |m| - pos
  {
    if pos == |m| then pos
    else
      var d' := d.After(m[pos]);
      if Closes(m[pos], semicolonItem) && d'.Flat() then pos + 1
      else CloseFrom(m, pos + 1, semicolonItem, d')
  }

  /** End of the item whose text starts at `start`. */
  function ItemEnd(m: string, start: nat): (end: nat)
    requires start <= |m|
    ensures start <= end <= |m|
    ensures end < |m| ==> start < end && (m[end - 1] == ';' || m[end - 1] == '}')
  {
    var brace, semi := Find(m, '{', start), Find(m, ';', start);
    if brace.None? && semi.None? then |m|
    else
      var first :=
        if brace.None? then semi.value
        else if semi.None? then brace.value
        else Min(brace.value, semi.value);
      CloseFrom(m, start, SemicolonItem(Words(m[start..first], 0)), Depth(0, 0, 0))
  }

  // ----- The spans removed

  /** Each attribute with its item, left to right; attributes inside an item go with it. */
  function Spans(m: string, from: nat): (spans: seq<(nat, nat)>)
    decreases |m| - from
  {
    var found := Search(m, from);
    if found.None? then []
    else
      var (start, end) := found.value;
      [(start, ItemEnd(m, end))] + Spans(m, ItemEnd(m, end))
  }

  function BlankSpan(s: string, a: nat, b: nat): (t: string)
    ensures |t| == |s|
  {
    seq(|s|, k requires 0 <= k < |s| => if a <= k < b then BlankChar(s[k]) else s[k])
  }

  function BlankSpans(s: string, spans: seq<(nat, nat)>): (t: string)
    ensures |t| == |s|
    decreases |spans|
  {
    if spans == [] then s else BlankSpans(BlankSpan(s, spans[0].0, spans[0].1), spans[1..])
  }

  function Stripped(s: string): (t: string)
    ensures |t| == |s|
  {
    BlankSpans(s, Spans(Mask(s), 0))
  }

  // ----- The removal, step by step

  method NonTestRustSource(source: string) returns (kept: string)
    ensures kept == Stripped(source)
  {
    hide ItemEnd, Mask, BlankSpan, Search, BlankSpans, Spans;
    var mask := RustCodeMask(source);
    var out := new char[|source|](k requires 0 <= k < |source| => source[k]);
    var searchFrom := 0;
    assert out[..] == source;
    var found := SearchCfg(mask, searchFrom);
    while found.Some?
      invariant out.Length == |source| && found == Search(mask, searchFrom)
      invariant BlankSpans(out[..], Spans(mask, searchFrom)) == Stripped(source)
      decreases |mask| - searchFrom
    {
      var (start, end) := found.value;
      var itemEnd := FindItemEnd(mask, end);
      ghost var before := out[..];
      SpansStep(mask, searchFrom);
      BlankSpansStep(before, (start, itemEnd), Spans(mask, itemEnd));
      BlankItem(out, start, itemEnd);
      searchFrom := itemEnd;
      found := SearchCfg(mask, searchFrom);
    }
    NoSpans(out[..], mask, searchFrom);
    kept := out[..];
  }

  lemma NoSpans(s: string, m: string, from: nat)
    requires Search(m, from).None?
    ensures BlankSpans(s, Spans(m, from)) == s
  {
  }

  lemma SpansStep(m: string, from: nat)
    requires Search(m, from).Some?
    ensures var (start, end) := Search(m, from).value;
            Spans(m, from) == [(start, ItemEnd(m, end))] + Spans(m, ItemEnd(m, end))
  {
  }

  lemma BlankSpansStep(s: string, span: (nat, nat), rest: seq<(nat, nat)>)
    ensures BlankSpans(s, [span] + rest) == BlankSpans(BlankSpan(s, span.0, span.1), rest)
  {
  }

  method BlankItem(out: array<char>, a: nat, b: nat)
    requires a <= b <= out.Length
    modifies out
    ensures out[..] == BlankSpan(old(out[..]), a, b)
  {
    BlankRange(out, a, b);
  }

  method SearchCfg(m: string, from: nat) returns (r: Option<(nat, nat)>)
    ensures r == Search(m, from)
  {
    hide CfgEnd;
    var i := from;
    while i <= |m|
      invariant Search(m, from) == Search(m, i)
    {
      var end := CfgEnd(m, i);
      if end.Some? {
        return Some((i, end.value));
      }
      i := i + 1;
    }
    r := None;
  }

  method FindItemEnd(m: string, start: nat) returns (itemEnd: nat)
    requires start <= |m|
    ensures itemEnd == ItemEnd(m, start)
  {
    hide Find, Words;
    var brace := ScanFind(m, '{', start);
    var semi := ScanFind(m, ';', start);
    if brace == |m| && semi == |m| {
      return |m|;
    }
    var first := Min(brace, semi);
    var semicolonItem := SemicolonItem(Words(m[start..first], 0));
    itemEnd := |m|;
    var d := Depth(0, 0, 0);
    for pos := start to |m|
      invariant itemEnd == |m|
      invariant ItemEnd(m, start) == CloseFrom(m, pos, semicolonItem, d)
    {
      d := d.After(m[pos]);
      if Closes(m[pos], semicolonItem) && d.Flat() {
        return pos + 1;
      }
    }
  }

  // ----- Where an item ends

  /** Openers minus closers in `[from, end)`. */
  function Net(m: string, from: nat, end: nat, open: char, close: char): (n: int)
    requires from <= end <= |m|
    decreases end
  {
    if from == end then 0
    else
      var last := m[end - 1];
      Net(m, from, end - 1, open, close) + (if last == open then 1 else if last == close then -1 else 0)
  }

  /** Brackets of each kind opened in `[from, end)` are all closed in it. */
  predicate Balanced(m: string, from: nat, end: nat)
    requires from <= end <= |m|
  {
    Net(m, from, end, '(', ')') == Net(m, from, end, '[', ']') == Net(m, from, end, '{', '}') == 0
  }

  /** `[i, j)` is a maximal run of letters and underscores within `[a, b)`. */
  ghost predicate WordAt(m: string, a: nat, b: nat, i: nat, j: nat) {
    && a <= i < j <= b <= |m|
    && (forall k :: i <= k < j ==> 'A' <= m[k] <= 'Z' || 'a' <= m[k] <= 'z' || m[k] == '_')
    && (i == a || !('A' <= m[i - 1] <= 'Z' || 'a' <= m[i - 1] <= 'z' || m[i - 1] == '_'))
    && (j == b || !('A' <= m[j] <= 'Z' || 'a' <= m[j] <= 'z' || m[j] == '_'))
  }

  ghost predicate Spelled(m: string, a: nat, b: nat, word: string) {
    exists i: nat, j: nat :: WordAt(m, a, b, i, j) && m[i..j] == word
  }

  /** The words of `[a, b)` open an item that ends at a semicolon. */
  ghost predicate EndsAtSemicolon(m: string, a: nat, b: nat) {
    || Spelled(m, a, b, "use") || Spelled(m, a, b, "static") || Spelled(m, a, b, "type")
    || (Spelled(m, a, b, "const") && !Spelled(m, a, b, "fn"))
  }

  /** The item may end just before `end`: on a closing character, with every bracket balanced. */
  ghost predicate ItemMayEnd(m: string, start: nat, first: nat, end: nat)
    requires start < end <= |m|
  {
    && (m[end - 1] == ';' || (m[end - 1] == '}' && !EndsAtSemicolon(m, start, first)))
    && Balanced(m, start, end)
  }

  lemma {:induction false} WordRun(t: string, i: nat)
    requires i <= |t|
    ensures forall k :: i <= k < WordEnd(t, i) ==> IsWordChar(t[k])
    ensures WordEnd(t, i) < |t| ==> !IsWordChar(t[WordEnd(t, i)])
    decreases |t| - i
  {
    if i < |t| && IsWordChar(t[i]) {
      WordRun(t, i + 1);
    }
  }

  /** From a place that is not inside a word, the words are the maximal runs. */
  lemma {:induction false} WordsIff(t: string, i: nat, word: string)
    requires i <= |t|
    requires i == 0 || i == |t| || !IsWordChar(t[i - 1]) || !IsWordChar(t[i])
    ensures word in Words(t, i) <==> exists a: nat, b: nat :: i <= a && WordAt(t, 0, |t|, a, b) && t[a..b] == word
    decreases |t| - i
  {
    if i < |t| && IsWordChar(t[i]) {
      var end := WordEnd(t, i);
      WordRun(t, i);
      assert WordAt(t, 0, |t|, i, end);
      WordsIff(t, end, word);
      forall a: nat, b: nat | i <= a && WordAt(t, 0, |t|, a, b)
        ensures (a == i && b == end) || end <= a
      {
      }
    } else if i < |t| {
      WordsIff(t, i + 1, word);
      assert forall a: nat, b: nat :: WordAt(t, 0, |t|, a, b) ==> IsWordChar(t[a]);
    }
  }

  lemma SpelledIff(m: string, a: nat, b: nat, word: string)
    requires a <= b <= |m|
    ensures word in Words(m[a..b], 0) <==> Spelled(m, a, b, word)
  {
    hide Words;
    var t := m[a..b];
    WordsIff(t, 0, word);
    if i: nat, j: nat :| WordAt(t, 0, |t|, i, j) && t[i..j] == word {
      WordShift(m, a, b, i, j);
    }
    if i: nat, j: nat :| WordAt(m, a, b, i, j) && m[i..j] == word {
      WordShift(m, a, b, i - a, j - a);
    }
  }

  lemma WordShift(m: string, a: nat, b: nat, i: nat, j: nat)
    requires a <= b <= |m| && i <= j <= b - a
    ensures WordAt(m[a..b], 0, b - a, i, j) <==> WordAt(m, a, b, a + i, a + j)
    ensures m[a..b][i..j] == m[a + i..a + j]
  {
    var t := m[a..b];
    assert forall k :: 0 <= k < |t| ==> t[k] == m[a + k];
    if WordAt(t, 0, b - a, i, j) {
      assert forall k :: a + i <= k < a + j ==> m[k] == t[k - a];
    }
    SliceOfSlice(m, a, b, i, j);
  }

  lemma SemicolonItemIff(m: string, a: nat, b: nat)
    requires a <= b <= |m|
    ensures SemicolonItem(Words(m[a..b], 0)) <==> EndsAtSemicolon(m, a, b)
  {
    hide Words, Spelled;
    SpelledIff(m, a, b, "use");
    SpelledIff(m, a, b, "static");
    SpelledIff(m, a, b, "type");
    SpelledIff(m, a, b, "const");
    SpelledIff(m, a, b, "fn");
  }

  lemma {:induction false} CloseIsFirst(m: string, start: nat, pos: nat, semicolonItem: bool, d: Depth)
    requires start <= pos <= |m|
    requires d == Depth(Net(m, start, pos, '(', ')'), Net(m, start, pos, '[', ']'), Net(m, start, pos, '{', '}'))
    ensures var end := CloseFrom(m, pos, semicolonItem, d);
            && (forall e :: pos < e < end ==> !(Closes(m[e - 1], semicolonItem) && Balanced(m, start, e)))
            && (end < |m| ==> Closes(m[end - 1], semicolonItem) && Balanced(m, start, end))
    decreases |m| - pos
  {
    if pos < |m| {
      var d' := d.After(m[pos]);
      if !(Closes(m[pos], semicolonItem) && d'.Flat()) {
        CloseIsFirst(m, start, pos + 1, semicolonItem, d');
        assert !(Closes(m[pos], semicolonItem) && Balanced(m, start, pos + 1));
      }
    }
  }

  /**
   * The item after an attribute, up to the first brace or semicolon at `first`: it ends just past
   * the first balanced semicolon, or the first balanced closing brace unless a word before `first`
   * is `use`, `static` or `type`, or one is `const` and none is `fn`; or it ends with the source.
   */
  lemma ItemEndIsFirst(m: string, start: nat, first: nat)
    requires start <= first <= |m|
    requires forall k :: start <= k < first ==> m[k] != '{' && m[k] != ';'
    requires first < |m| ==> m[first] == '{' || m[first] == ';'
    ensures first == |m| ==> ItemEnd(m, start) == |m|
    ensures first < |m| ==>
              && (forall e :: start < e < ItemEnd(m, start) ==> !ItemMayEnd(m, start, first, e))
              && (ItemEnd(m, start) < |m| ==> ItemMayEnd(m, start, first, ItemEnd(m, start)))
  {
    hide Words, SemicolonItem, CloseFrom, Balanced, Find, EndsAtSemicolon;
    FindIsFirst(m, '{', start);
    FindIsFirst(m, ';', start);
    SemicolonItemIff(m, start, first);
    CloseIsFirst(m, start, start, SemicolonItem(Words(m[start..first], 0)), Depth(0, 0, 0));
  }

  // ----- What is removed

  lemma {:induction false} SearchMisses(m: string, from: nat, k: nat)
    requires from <= k <= |m| && CfgEnd(m, k).Some?
    ensures Search(m, from).Some? && Search(m, from).value.0 <= k
    decreases |m| - from
  {
    hide CfgEnd;
    if CfgEnd(m, from).None? {
      SearchMisses(m, from + 1, k);
    }
  }

  /** A span runs from an attribute to the end of its item. */
  ghost predicate IsItem(m: string, span: (nat, nat)) {
    && span.0 < span.1 <= |m|
    && CfgEnd(m, span.0).Some?
    && span.1 == ItemEnd(m, CfgEnd(m, span.0).value)
  }

  /** The spans are items, in order and apart. */
  lemma {:induction false} SpansAreItems(m: string, from: nat)
    requires from <= |m|
    ensures var spans := Spans(m, from);
            && (forall i :: 0 <= i < |spans| ==> from <= spans[i].0 && IsItem(m, spans[i]))
            && (forall i, j :: 0 <= i < j < |spans| ==> spans[i].1 <= spans[j].0)
    decreases |m| - from
  {
    hide CfgEnd, ItemEnd, Search;
    if Search(m, from).Some? {
      var (start, end) := Search(m, from).value;
      var spans, rest := Spans(m, from), Spans(m, ItemEnd(m, end));
      SpansAreItems(m, ItemEnd(m, end));
      SpansStep(m, from);
      assert IsItem(m, spans[0]);
      assert forall i :: 0 <= i < |rest| ==> ItemEnd(m, end) <= rest[i].0 && IsItem(m, rest[i]);
      forall i | 0 <= i < |spans|
        ensures from <= spans[i].0 && IsItem(m, spans[i])
      {
        assert i > 0 ==> spans[i] == rest[i - 1];
      }
      forall i, j | 0 <= i < j < |spans|
        ensures spans[i].1 <= spans[j].0
      {
        assert spans[j] == rest[j - 1];
        assert i > 0 ==> spans[i] == rest[i - 1];
      }
    }
  }

  /** Every attribute is inside a span. */
  lemma {:induction false} SpansCover(m: string, from: nat, k: nat)
    requires from <= k <= |m| && CfgEnd(m, k).Some?
    ensures exists i :: 0 <= i < |Spans(m, from)| && Spans(m, from)[i].0 <= k < Spans(m, from)[i].1
    decreases |m| - from
  {
    hide CfgEnd, ItemEnd, Search;
    SearchMisses(m, from, k);
    var (start, end) := Search(m, from).value;
    var spans, rest := Spans(m, from), Spans(m, ItemEnd(m, end));
    if k < ItemEnd(m, end) {
      assert spans[0].0 <= k < spans[0].1;
    } else {
      SpansCover(m, ItemEnd(m, end), k);
      var i :| 0 <= i < |rest| && rest[i].0 <= k < rest[i].1;
      assert spans[i + 1] == rest[i];
    }
  }

  ghost predicate Covered(spans: seq<(nat, nat)>, k: nat) {
    exists i :: 0 <= i < |spans| && spans[i].0 <= k < spans[i].1
  }

  /** Blanking spans blanks exactly the covered positions. */
  lemma {:induction false} BlankSpansAt(s: string, spans: seq<(nat, nat)>, k: nat)
    requires k < |s|
    ensures BlankSpans(s, spans)[k] == if Covered(spans, k) then BlankChar(s[k]) else s[k]
    decreases |spans|
  {
    if spans != [] {
      var t := BlankSpan(s, spans[0].0, spans[0].1);
      BlankSpansAt(t, spans[1..], k);
      if i :| 0 <= i < |spans| && spans[i].0 <= k < spans[i].1 {
        assert i > 0 ==> spans[1..][i - 1] == spans[i];
      }
      if Covered(spans[1..], k) {
        var i :| 0 <= i < |spans[1..]| && spans[1..][i].0 <= k < spans[1..][i].1;
        assert spans[i + 1] == spans[1..][i];
      }
    }
  }

  /** The removal only blanks, and exactly the items of attributes found in the mask. */
  lemma StripsExactlyItems(s: string, k: nat)
    requires k < |s|
    ensures Stripped(s)[k] == if Covered(Spans(Mask(s), 0), k) then BlankChar(s[k]) else s[k]
    ensures CfgEnd(Mask(s), k).Some? ==> Covered(Spans(Mask(s), 0), k)
  {
    hide Mask, Spans, BlankSpans, CfgEnd;
    BlankSpansAt(s, Spans(Mask(s), 0), k);
    if CfgEnd(Mask(s), k).Some? {
      SpansCover(Mask(s), 0, k);
    }
  }

  // ----- The rest is read as before

  /** A range from a kept character to just past another, or to the end, holds whole tokens. */
  lemma {:induction false} RangeAligned(s: string, a: nat, b: nat, i: nat)
    requires i <= |s| && a < b <= |s|
    requires Mask(s)[i..] == MaskFrom(s, i)
    requires !IsBlank(Mask(s)[a]) && (b < |s| ==> !IsBlank(Mask(s)[b - 1]))
    ensures Aligned(s, BlankSpan(s, a, b), i)
    decreases |s| - i
  {
    hide StepAt, Mask;
    var t, m := BlankSpan(s, a, b), Mask(s);
    if i < |s| {
      match StepAt(s, i)
      case Keep =>
        assert m[i + 1..] == m[i..][1..];
        RangeAligned(s, a, b, i + 1);
      case Blank(end) =>
        assert m[end..] == m[i..][end - i..];
        RangeAligned(s, a, b, end);
        forall k | i <= k < end
          ensures IsBlank(m[k])
        {
          assert m[k] == m[i..][k - i] == Blanks(s[i..end])[k - i];
        }
        assert !(i <= a < end) && (b < |s| ==> !(i <= b - 1 < end));
    }
  }

  /** Blanking such a range blanks the same range of the mask. */
  lemma RangeCommutes(s: string, a: nat, b: nat)
    requires a < b <= |s|
    requires !IsBlank(Mask(s)[a]) && (b < |s| ==> !IsBlank(Mask(s)[b - 1]))
    ensures Mask(BlankSpan(s, a, b)) == BlankSpan(Mask(s), a, b)
  {
    hide MaskFrom, Aligned;
    var t, m := BlankSpan(s, a, b), Mask(s);
    assert m[0..] == MaskFrom(s, 0);
    RangeAligned(s, a, b, 0);
    MaskOnlyBlanks(s);
    BlankingCommutes(s, t, 0);
    forall k | 0 <= k < |s|
      ensures Mask(t)[k] == BlankSpan(m, a, b)[k]
    {
      assert ShowsAt(s, t, 0, k);
    }
  }

  lemma {:induction false} SpansCommute(s: string, m: string, from: nat)
    requires |m| == |s| && from <= |m|
    requires Mask(s)[from..] == m[from..]
    ensures Mask(BlankSpans(s, Spans(m, from))) == BlankSpans(Mask(s), Spans(m, from))
    decreases |m| - from
  {
    hide Mask, Search, ItemEnd, CfgEnd;
    if Search(m, from).Some? {
      var (a, end) := Search(m, from).value;
      var b := ItemEnd(m, end);
      var t := BlankSpan(s, a, b);
      assert forall k :: from <= k < |s| ==> Mask(s)[k] == Mask(s)[from..][k - from] == m[k];
      RangeCommutes(s, a, b);
      assert Mask(t)[b..] == m[b..];
      SpansCommute(t, m, b);
      BlankSpansStep(s, (a, b), Spans(m, b));
      BlankSpansStep(Mask(s), (a, b), Spans(m, b));
    }
  }

  /** What remains is lexed as it was: the mask of the result is the mask with the same spans blanked. */
  lemma RestReadsTheSame(s: string)
    ensures Mask(Stripped(s)) == BlankSpans(Mask(s), Spans(Mask(s), 0))
  {
    SpansCommute(s, Mask(s), 0);
  }

  // ----- Removing twice

  lemma SecondPassIdleIff(s: string)
    ensures Stripped(Stripped(s)) == Stripped(s) <==> Search(BlankSpans(Mask(s), Spans(Mask(s), 0)), 0).None?
  {
    hide Mask, BlankSpans, Search;
    var r := Stripped(s);
    RestReadsTheSame(s);
    if Search(Mask(r), 0).None? {
      NoSpans(r, Mask(r), 0);
    } else {
      var (a, _) := Search(Mask(r), 0).value;
      MaskOnlyBlanks(r);
      assert r[a] == '#';
      StripsExactlyItems(r, a);
    }
  }

  /** White space or removed, from `i` to `j`. */
  ghost predicate Gap(m: string, spans: seq<(nat, nat)>, i: nat, j: nat) {
    i <= j <= |m| && forall k :: i <= k < j ==> IsSpace(m[k]) || Covered(spans, k)
  }

  /** The chunk stands at `i`, outside every span. */
  ghost predicate Stands(m: string, spans: seq<(nat, nat)>, i: nat, chunk: string) {
    StartsAt(m, i, chunk) && forall k :: i <= k < i + |chunk| ==> !Covered(spans, k)
  }

  /** The chunks stand outside every span from `i` on, with only white space and spans between them. */
  ghost predicate Scattered(m: string, spans: seq<(nat, nat)>, i: nat, chunks: seq<string>)
    decreases |chunks|
  {
    chunks == [] ||
    (&& Stands(m, spans, i, chunks[0])
     && (|chunks| == 1 ||
         exists j: nat :: Gap(m, spans, i + |chunks[0]|, j) && Scattered(m, spans, j, chunks[1..])))
  }

  /** `t` is `m` with the spans blanked. */
  ghost predicate Blanked(m: string, spans: seq<(nat, nat)>, t: string) {
    |t| == |m| && forall k :: 0 <= k < |m| ==> t[k] == if Covered(spans, k) then BlankChar(m[k]) else m[k]
  }

  /** Some characters, none of them white space. */
  predicate Solid(chunk: string) {
    chunk != [] && forall k :: 0 <= k < |chunk| ==> !IsSpace(chunk[k])
  }

  lemma StandsIff(m: string, spans: seq<(nat, nat)>, t: string, i: nat, chunk: string)
    requires Blanked(m, spans, t) && Solid(chunk)
    ensures StartsAt(t, i, chunk) <==> Stands(m, spans, i, chunk)
  {
    hide Covered;
    if StartsAt(t, i, chunk) {
      forall k | i <= k < i + |chunk|
        ensures !Covered(spans, k) && m[k] == chunk[k - i]
      {
        assert t[k] == t[i..i + |chunk|][k - i] == chunk[k - i];
      }
      assert m[i..i + |chunk|] == chunk;
    }
    if Stands(m, spans, i, chunk) {
      assert t[i..i + |chunk|] == m[i..i + |chunk|];
    }
  }

  lemma {:induction false} SpaceSkipped(m: string, i: nat)
    requires i <= |m|
    ensures forall k :: i <= k < SkipSpace(m, i) ==> IsSpace(m[k])
    ensures SkipSpace(m, i) < |m| ==> !IsSpace(m[SkipSpace(m, i)])
    decreases |m| - i
  {
    hide IsSpace;
    if i < |m| && IsSpace(m[i]) {
      SpaceSkipped(m, i + 1);
    }
  }

  lemma {:induction false} SkipSpaceIs(m: string, i: nat, j: nat)
    requires i <= j < |m| && !IsSpace(m[j])
    requires forall k :: i <= k < j ==> IsSpace(m[k])
    ensures SkipSpace(m, i) == j
    decreases j - i
  {
    hide IsSpace;
    if i < j {
      SkipSpaceIs(m, i + 1, j);
    }
  }

  lemma GapIff(m: string, spans: seq<(nat, nat)>, t: string, i: nat, j: nat)
    requires Blanked(m, spans, t) && i <= j <= |m|
    ensures Gap(m, spans, i, j) <==> forall k :: i <= k < j ==> IsSpace(t[k])
  {
    hide Covered;
  }

  /** Chunks are found in the blanked text exactly where they stand scattered in the other. */
  lemma {:induction false} ScatteredIff(m: string, spans: seq<(nat, nat)>, t: string, i: nat, chunks: seq<string>)
    requires Blanked(m, spans, t) && i <= |m| && forall k :: 0 <= k < |chunks| ==> Solid(chunks[k])
    ensures ChunksEnd(t, i, chunks).Some? <==> Scattered(m, spans, i, chunks)
    decreases |chunks|, 0
  {
    hide IsSpace, Blanked, Solid, SkipSpace, Stands, Gap;
    BlankedLength(m, spans, t);
    if chunks != [] {
      assert Solid(chunks[0]);
      StandsIff(m, spans, t, i, chunks[0]);
      if StartsAt(t, i, chunks[0]) && |chunks| > 1 {
        ScatteredRest(m, spans, t, i + |chunks[0]|, chunks[1..]);
      }
    }
  }

  lemma ScatteredRest(m: string, spans: seq<(nat, nat)>, t: string, at: nat, rest: seq<string>)
    requires Blanked(m, spans, t) && at <= |m| && rest != [] && forall k :: 0 <= k < |rest| ==> Solid(rest[k])
    ensures SkipSpace(t, at) <= |t| == |m|
    ensures ChunksEnd(t, SkipSpace(t, at), rest).Some?
       <==> exists j: nat :: Gap(m, spans, at, j) && Scattered(m, spans, j, rest)
    decreases |rest|, 1
  {
    hide IsSpace, Blanked, SkipSpace, Stands, Gap, Scattered;
    BlankedLength(m, spans, t);
    var next := SkipSpace(t, at);
    SpaceSkipped(t, at);
    GapIff(m, spans, t, at, next);
    ScatteredIff(m, spans, t, next, rest);
    if j: nat :| Gap(m, spans, at, j) && Scattered(m, spans, j, rest) {
      GapWithin(m, spans, at, j);
      ScatteredIff(m, spans, t, j, rest);
      assert t[j] == rest[0][0];
      GapIff(m, spans, t, at, j);
      SkipSpaceIs(t, at, j);
    }
  }

  lemma BlankedLength(m: string, spans: seq<(nat, nat)>, t: string)
    requires Blanked(m, spans, t)
    ensures |t| == |m|
  {
  }

  lemma GapWithin(m: string, spans: seq<(nat, nat)>, i: nat, j: nat)
    requires Gap(m, spans, i, j)
    ensures i <= j <= |m|
  {
  }

  lemma BlankSpansBlanks(m: string, spans: seq<(nat, nat)>)
    ensures Blanked(m, spans, BlankSpans(m, spans))
  {
    hide Covered, BlankSpans;
    forall k | 0 <= k < |m|
      ensures BlankSpans(m, spans)[k] == if Covered(spans, k) then BlankChar(m[k]) else m[k]
    {
      BlankSpansAt(m, spans, k);
    }
  }

  /**
   * An attribute stands at `i` if and only if its seven parts stand from `i` on with only white
   * space between them.
   */
  lemma AttributeIff(m: string, i: nat)
    requires i <= |m|
    ensures CfgEnd(m, i).Some? <==> Scattered(m, [], i, ["#", "[", "cfg", "(", "test", ")", "]"])
  {
    hide Scattered, ChunksEnd;
    AttributeIsSolid();
    assert forall k: nat :: !Covered([], k);
    ScatteredIff(m, [], m, i, CFG_TEST);
  }

  /** The white space of a Python text pattern: ASCII, the separators and the Unicode spaces. */
  lemma SpaceIs(c: char)
    ensures IsSpace(c) <==>
              (c in {'\t', '\n', '\U{b}', '\U{c}', '\r', '\U{1c}', '\U{1d}', '\U{1e}', '\U{1f}', ' ', '\U{85}',
               '\U{a0}', '\U{1680}', '\U{2000}', '\U{2001}', '\U{2002}', '\U{2003}', '\U{2004}', '\U{2005}', '\U{2006}',
               '\U{2007}', '\U{2008}', '\U{2009}', '\U{200a}', '\U{2028}', '\U{2029}', '\U{202f}', '\U{205f}',
               '\U{3000}'})
  {
  }

  lemma AttributeIsSolid()
    ensures forall k :: 0 <= k < |CFG_TEST| ==> Solid(CFG_TEST[k])
  {
  }

  /**
   * Removing twice is removing once if and only if the mask has no second attribute scattered
   * around the spans: its seven parts outside them, with white space and whole spans between.
   */
  lemma StripIdempotentIff(s: string)
    ensures Stripped(Stripped(s)) == Stripped(s)
       <==> forall i: nat :: i <= |s| ==> !Scattered(Mask(s), Spans(Mask(s), 0), i, CFG_TEST)
  {
    hide Mask, BlankSpans, Spans, Scattered, Blanked, Stripped, Search, ChunksEnd, Solid;
    var m := Mask(s);
    var spans := Spans(m, 0);
    var t := BlankSpans(m, spans);
    SecondPassIdleIff(s);
    BlankSpansBlanks(m, spans);
    AttributeIsSolid();
    forall i: nat | i <= |s|
      ensures CfgEnd(t, i).Some? <==> Scattered(m, spans, i, CFG_TEST)
    {
      ScatteredIff(m, spans, t, i, CFG_TEST);
    }
    if Search(t, 0).Some? {
      var (a, _) := Search(t, 0).value;
      assert Scattered(m, spans, a, CFG_TEST);
    } else if i: nat :| i <= |s| && Scattered(m, spans, i, CFG_TEST) {
      SearchMisses(t, 0, i);
    }
  }

  // ----- A second attribute can come together at any of its six gaps

  /** The chunks with nothing between them. */
  function Together(chunks: seq<string>): (t: string) {
    if chunks == [] then [] else chunks[0] + Together(chunks[1..])
  }

  lemma {:induction false} TogetherSplit(a: seq<string>, b: seq<string>)
    ensures Together(a + b) == Together(a) + Together(b)
  {
    if a == [] {
      assert a + b == b;
    } else {
      assert (a + b)[1..] == a[1..] + b;
      TogetherSplit(a[1..], b);
    }
  }

  /** The chunks of `a` together, then white space up to `j`, where `b` goes on. */
  lemma {:induction false} ChunksTogether(m: string, i: nat, a: seq<string>, b: seq<string>, j: nat)
    requires At(m, i, Together(a)) && a != [] && forall k :: 0 <= k < |a| ==> Solid(a[k])
    requires b != [] ==> j <= |m| && SkipSpace(m, i + |Together(a)|) == j
    ensures ChunksEnd(m, i, a + b) == if b == [] then Some(i + |Together(a)|) else ChunksEnd(m, j, b)
    decreases |a|
  {
    hide IsSpace, SkipSpace, ChunksEnd, Together;
    var at, rest := i + |a[0]|, a[1..];
    TogetherFirst(a);
    AtSplit(m, i, a[0], Together(rest));
    assert (a + b)[0] == a[0] && (a + b)[1..] == rest + b;
    ChunkStep(m, i, a + b);
    if rest == [] {
      assert rest + b == b && Together(rest) == [] by { NothingTogether(); }
    } else {
      assert Solid(rest[0]);
      TogetherFirst(rest);
      AtIndex(m, at, Together(rest), 0);
      SkipSpaceIs(m, at, at);
      ChunksTogether(m, at, rest, b, j);
    }
  }

  lemma ChunkStep(m: string, i: nat, chunks: seq<string>)
    requires chunks != [] && At(m, i, chunks[0])
    ensures ChunksEnd(m, i, chunks)
         == var at := i + |chunks[0]|;
            if |chunks| == 1 then Some(at) else ChunksEnd(m, SkipSpace(m, at), chunks[1..])
  {
  }

  lemma NothingTogether()
    ensures Together([]) == []
  {
  }

  lemma TogetherFirst(b: seq<string>)
    requires b != []
    ensures Together(b) == b[0] + Together(b[1..])
  {
  }

  const ATTRIBUTE: string := "#[cfg(test)]"

  lemma {:induction false} PlainIsUnmasked(s: string, i: nat)
    requires i <= |s|
    requires forall k :: 0 <= k < |s| ==> s[k] !in {'/', 'r', 'b', '"', '\''}
    ensures MaskFrom(s, i) == s[i..]
    decreases |s| - i
  {
    if i < |s| {
      assert s[i] !in {'/', 'r', 'b', '"', '\''};
      PlainIsUnmasked(s, i + 1);
      assert s[i..] == [s[i]] + s[i + 1..];
    }
  }

  lemma EmptyItem(m: string, i: nat)
    requires i < |m| && m[i] == ';'
    ensures ItemEnd(m, i) == i + 1
  {
  }

  lemma NoHashNoAttribute(m: string, from: nat)
    requires forall k :: from <= k < |m| ==> m[k] != '#'
    ensures Search(m, from).None?
    decreases |m| - from
  {
  }

  lemma AttributeTogether()
    ensures Together(CFG_TEST) == ATTRIBUTE
  {
    assert Together(CFG_TEST[6..]) == "]";
    assert Together(CFG_TEST[5..]) == ")]";
    assert Together(CFG_TEST[4..]) == "test)]";
    assert Together(CFG_TEST[3..]) == "(test)]";
    assert Together(CFG_TEST[2..]) == "cfg(test)]";
    assert Together(CFG_TEST[1..]) == "[cfg(test)]";
  }

  /** The first `n` parts of an attribute, a whole attribute with the empty item `;`, then the other parts. */
  ghost predicate Split(s: string, n: nat, at: nat) {
    && 0 < n < 7 && at == |Together(CFG_TEST[..n])| && 0 < at < 12 && |s| == 25
    && At(s, 0, Together(CFG_TEST[..n])) && At(s, at, ATTRIBUTE) && s[at + 12] == ';'
    && At(s, at + 13, Together(CFG_TEST[n..]))
    && forall k :: 0 <= k < 25 ==> s[k] !in {'/', 'r', 'b', '"', '\''} && (s[k] == '#' ==> k == 0 || k == at)
  }

  lemma SplitAttribute(n: nat)
    requires 0 < n < 7
    ensures var at := |Together(CFG_TEST[..n])|;
            && 0 < at < 12
            && Together(CFG_TEST[..n]) == ATTRIBUTE[..at] && Together(CFG_TEST[n..]) == ATTRIBUTE[at..]
  {
    var a, b := CFG_TEST[..n], CFG_TEST[n..];
    assert a + b == CFG_TEST;
    TogetherSplit(a, b);
    AttributeTogether();
    hide ATTRIBUTE;
    assert ATTRIBUTE == Together(a) + Together(b);
    assert |a[0]| > 0 && |b[0]| > 0;
    assert |ATTRIBUTE| == 12;
  }

  lemma SplitIs(s: string, n: nat, at: nat)
    requires 0 < n < 7 && at == |Together(CFG_TEST[..n])|
    requires s == Together(CFG_TEST[..n]) + (ATTRIBUTE + (";" + Together(CFG_TEST[n..])))
    ensures Split(s, n, at)
  {
    hide Together, ATTRIBUTE;
    SplitAttribute(n);
    AttributePlain();
    var tail := ";" + ATTRIBUTE[at..];
    assert s == ATTRIBUTE[..at] + (ATTRIBUTE + tail);
    assert s[..at] == ATTRIBUTE[..at] && s[at..at + 12] == ATTRIBUTE && s[at + 12..] == tail;
    assert s[at + 13..] == tail[1..] == ATTRIBUTE[at..];
    SplitPlain(s, at, tail);
  }

  lemma SplitPlain(s: string, at: nat, tail: string)
    requires 0 < at < 12 && |ATTRIBUTE| == 12 && tail == ";" + ATTRIBUTE[at..]
    requires s == ATTRIBUTE[..at] + (ATTRIBUTE + tail)
    ensures forall k :: 0 <= k < 25 ==> s[k] !in {'/', 'r', 'b', '"', '\''} && (s[k] == '#' ==> k == 0 || k == at)
  {
    hide ATTRIBUTE;
    AttributePlain();
    forall k | 0 <= k < 25
      ensures s[k] !in {'/', 'r', 'b', '"', '\''} && (s[k] == '#' ==> k == 0 || k == at)
    {
      if k < at {
        assert s[k] == ATTRIBUTE[k];
      } else if k < at + 12 {
        assert s[k] == ATTRIBUTE[k - at];
      } else {
        assert s[k] == tail[k - at - 12];
        assert k > at + 12 ==> s[k] == ATTRIBUTE[k - 13];
      }
    }
  }

  lemma AttributePlain()
    ensures |ATTRIBUTE| == 12
    ensures forall k :: 0 <= k < 12 ==>
              ATTRIBUTE[k] !in {'/', 'r', 'b', '"', '\''} && (ATTRIBUTE[k] == '#' ==> k == 0)
  {
  }

  lemma SplitSpans(s: string, n: nat, at: nat)
    requires Split(s, n, at)
    ensures Mask(s) == s && Spans(s, 0) == [(at, at + 13)]
  {
    hide Together, ChunksEnd, ItemEnd, MaskFrom, IsSpace, SkipSpace;
    PlainIsUnmasked(s, 0);
    AttributeIsSolid();
    var a, b := CFG_TEST[..n], CFG_TEST[n..];
    assert a + b == CFG_TEST && s[at] == '#' && !IsSpace('#') && b[0] != "#" by {
      AtIndex(s, at, ATTRIBUTE, 0);
      HashIsSolid();
    }
    SkipSpaceIs(s, at, at);
    ChunksTogether(s, 0, a, b, at);
    assert ChunksEnd(s, at, b).None? by { ChunkStart(s, at, b); }
    AttributeTogether();
    ChunksTogether(s, at, CFG_TEST, [], 0);
    assert CFG_TEST + [] == CFG_TEST;
    assert CfgEnd(s, 0).None? && CfgEnd(s, at) == Some(at + 12);
    SearchMisses(s, 0, at);
    EmptyItem(s, at + 12);
    NoHashNoAttribute(s, at + 13);
    SpansStep(s, 0);
  }

  lemma HashIsSolid()
    ensures !IsSpace('#')
  {
  }

  lemma ChunkStart(m: string, i: nat, chunks: seq<string>)
    requires i < |m| && chunks != [] && |chunks[0]| > 0 && m[i] != chunks[0][0]
    ensures ChunksEnd(m, i, chunks).None?
  {
  }

  /**
   * An attribute split at any of its six gaps around a whole attribute with the empty item comes
   * together when that item is removed, and goes next time.
   */
  lemma StripNotIdempotent(s: string, n: nat)
    requires 0 < n < 7
    requires s == Together(CFG_TEST[..n]) + (ATTRIBUTE + (";" + Together(CFG_TEST[n..])))
    ensures Stripped(Stripped(s)) != Stripped(s)
  {
    hide Mask, Spans, Stripped, Search, ChunksEnd, IsSpace, SkipSpace, Together;
    var at := |Together(CFG_TEST[..n])|;
    var a, b := CFG_TEST[..n], CFG_TEST[n..];
    SplitIs(s, n, at);
    SplitSpans(s, n, at);
    AttributeIsSolid();
    var t := BlankSpan(s, at, at + 13);
    BlankSpansStep(s, (at, at + 13), []);
    assert BlankSpans(s, [(at, at + 13)]) == t;
    assert t[..at] == s[..at] && t[at + 13..25] == s[at + 13..25];
    assert Solid(b[0]) && Together(b) == b[0] + Together(b[1..]) by { TogetherFirst(b); }
    AtIndex(t, at + 13, Together(b), 0);
    assert forall k :: at <= k < at + 13 ==> IsSpace(t[k]) by { BlankIsSpace(); }
    SkipSpaceIs(t, at, at + 13);
    ChunksTogether(t, 0, a, b, at + 13);
    ChunksTogether(t, at + 13, b, [], 0);
    assert b + [] == b && a + b == CFG_TEST;
    SearchMisses(t, 0, 0);
    SecondPassIdleIff(s);
  }

  lemma BlankIsSpace()
    ensures IsSpace(' ') && IsSpace('\n')
  {
  }
}
