/**
 * The position-preserving Rust source masker: comments, string literals and the compact char
 * literals are overwritten with spaces, newlines and everything else stay where they are.
 */
module RustMask {
  import opened Wrappers
  import opened Numbers
  import opened Sequences

  // ----- Scanning helpers

  /** `a` then `b` stand at `i`. */
  predicate Pair(s: string, i: nat, a: char, b: char) {
    i + 1 < |s| && s[i] == a && s[i + 1] == b
  }

  /** First index at or after `from` that holds `c`. */
  function Find(s: string, c: char, from: nat): (r: Option<nat>)
    ensures r.Some? ==> from <= r.value < |s| && s[r.value] == c
    decreases |s| - from
  {
    if from >= |s| then None
    else if s[from] == c then Some(from)
    else Find(s, c, from + 1)
  }

  predicate StartsAt(s: string, i: nat, pat: string) {
    i + |pat| <= |s| && s[i..i + |pat|] == pat
  }

  /** First index at or after `from` where `pat` stands. */
  function FindText(s: string, pat: string, from: nat): (r: Option<nat>)
    ensures r.Some? ==> from <= r.value && StartsAt(s, r.value, pat)
    decreases |s| - from
  {
    if from > |s| then None
    else if StartsAt(s, from, pat) then Some(from)
    else FindText(s, pat, from + 1)
  }

  /** First index at or after `j` that does not hold a hash. */
  function HashEnd(s: string, j: nat): (q: nat)
    requires j <= |s|
    ensures j <= q <= |s| && (q < |s| ==> s[q] != '#')
    decreases |s| - j
  {
    if j < |s| && s[j] == '#' then HashEnd(s, j + 1) else j
  }

  // ----- Where each masked form ends

  function LineEnd(s: string, i: nat): (end: nat) {
    var nl := Find(s, '\n', i + 2);
    if nl.Some? then nl.value else |s|
  }

  /** End of a block comment entered at depth `depth`, comments nesting. */
  function BlockEnd(s: string, j: nat, depth: nat): (end: nat)
    requires j <= |s|
    ensures j <= end <= |s|
    decreases |s| - j
  {
    if j == |s| || depth == 0 then j
    else if Pair(s, j, '/', '*') then BlockEnd(s, j + 2, depth + 1)
    else if Pair(s, j, '*', '/') then BlockEnd(s, j + 2, depth - 1)
    else BlockEnd(s, j + 1, depth)
  }

  /** End of the raw literal whose hashes start at `raw`, if a quote follows them. */
  function RawEnd(s: string, raw: nat): (end: Option<nat>)
    requires raw <= |s|
    ensures end.Some? ==> raw < end.value <= |s|
  {
    var quote := HashEnd(s, raw);
    if quote < |s| && s[quote] == '"' then
      var close := ['"'] + s[raw..quote];
      var at := FindText(s, close, quote + 1);
      Some(if at.Some? then at.value + |close| else |s|)
    else None
  }

  /** End of a string literal whose body continues at `j`; an escape skips a character. */
  function StringEnd(s: string, j: nat): (end: nat)
    ensures j < |s| ==> j < end
    decreases |s| - j
  {
    if j >= |s| then j
    else if s[j] == '\\' then StringEnd(s, j + 2)
    else if s[j] == '"' then j + 1
    else StringEnd(s, j + 1)
  }

  /** End of a compact char literal at `i`; a lifetime has none. */
  function CharEnd(s: string, i: nat): (end: Option<nat>)
    ensures end.Some? ==> i + 2 < end.value <= |s|
  {
    if i + 2 < |s| && s[i + 2] == '\'' then Some(i + 3)
    else if i + 2 < |s| && s[i + 1] == '\\' then
      var end := Find(s, '\'', i + 3);
      var nl := Find(s, '\n', i + 1);
      if end.Some? && (nl.None? || end.value < nl.value) then Some(end.value + 1) else None
    else None
  }

  /** What the scanner does at `i`: keep the character, or blank up to an end. */
  datatype Step = Keep | Blank(end: nat)

  function Blanking(end: Option<nat>): (step: Step) {
    if end.Some? then Blank(end.value) else Keep
  }

  function StepAt(s: string, i: nat): (step: Step)
    requires i < |s|
    ensures step.Blank? ==> i < step.end <= |s|
  {
    if Pair(s, i, '/', '/') then Blank(LineEnd(s, i))
    else if Pair(s, i, '/', '*') then Blank(BlockEnd(s, i + 2, 1))
    else if s[i] == 'r' then Blanking(RawEnd(s, i + 1))
    else if Pair(s, i, 'b', 'r') then Blanking(RawEnd(s, i + 2))
    else if s[i] == '"' then Blank(Min(StringEnd(s, i + 1), |s|))
    else if s[i] == '\'' then Blanking(CharEnd(s, i))
    else Keep
  }

  // ----- The mask

  predicate IsBlank(c: char) {
    c == ' ' || c == '\n'
  }

  function BlankChar(c: char): (b: char) {
    if c == '\n' then '\n' else ' '
  }

  function Blanks(t: string): (b: string)
    ensures |b| == |t|
  {
    seq(|t|, k requires 0 <= k < |t| => BlankChar(t[k]))
  }

  /** The mask of `s` from the scan position `i` on. */
  function MaskFrom(s: string, i: nat): (m: string)
    requires i <= |s|
    ensures |m| == |s| - i
    decreases |s| - i
  {
    if i == |s| then []
    else
      match StepAt(s, i)
      case Keep => [s[i]] + MaskFrom(s, i + 1)
      case Blank(end) => Blanks(s[i..end]) + MaskFrom(s, end)
  }

  function Mask(s: string): (m: string)
    ensures |m| == |s|
  {
    MaskFrom(s, 0)
  }

  /** `t` is `s` with some characters blanked: newlines and positions stay. */
  ghost predicate OnlyBlanks(s: string, t: string) {
    |t| == |s| && forall k :: 0 <= k < |s| ==> t[k] == s[k] || t[k] == BlankChar(s[k])
  }

  // ----- The scanner, step by step

  method RustCodeMask(source: string) returns (masked: string)
    ensures masked == Mask(source)
  {
    var out := new char[|source|](k requires 0 <= k < |source| => source[k]);
    var i := 0;
    assert out[..] == source;
    while i < |source|
      invariant i <= |source| == out.Length
      invariant out[i..] == source[i..]
      invariant Mask(source) == out[..i] + MaskFrom(source, i)
    {
      hide StepAt, Blanks;
      ghost var before := out[..];
      var end := ScanAt(source, i);
      if end == i {
        assert before[i] == before[i..][0] == source[i];
        Concat3(before[..i], [source[i]], MaskFrom(source, i + 1));
        assert before[..i + 1] == before[..i] + [source[i]];
        assert before[i + 1..] == before[i..][1..];
        i := i + 1;
      } else {
        BlankRange(out, i, end);
        BlankedPart(source, before, out[..], i, end);
        Concat3(before[..i], Blanks(source[i..end]), MaskFrom(source, end));
        i := end;
      }
    }
    masked := out[..];
    assert masked == out[..i] + [];
  }

  lemma BlankedPart(source: string, before: string, after: string, i: nat, end: nat)
    requires |before| == |after| == |source| && i <= end <= |source|
    requires before[i..] == source[i..]
    requires forall k :: 0 <= k < |source| ==> after[k] == if i <= k < end then BlankChar(before[k]) else before[k]
    ensures after[..end] == before[..i] + Blanks(source[i..end])
    ensures after[end..] == source[end..]
  {
  }

  /** `blank`: overwrite everything but newlines in `[from, to)`. */
  method BlankRange(out: array<char>, from: nat, to: nat)
    requires from <= to <= out.Length
    modifies out
    ensures forall k :: 0 <= k < out.Length ==> out[k] == if from <= k < to then BlankChar(old(out[k])) else old(out[k])
  {
    for pos := from to to
      invariant forall k :: 0 <= k < out.Length ==>
                  out[k] == if from <= k < pos then BlankChar(old(out[k])) else old(out[k])
    {
      if out[pos] != '\n' {
        out[pos] := ' ';
      }
    }
  }

  /** One turn of the scan: the end of what starts at `i`, or `i` itself when it is kept. */
  method ScanAt(s: string, i: nat) returns (end: nat)
    requires i < |s|
    ensures match StepAt(s, i) case Keep => end == i case Blank(e) => end == e
  {
    hide BlockEnd, StringEnd, RawEnd, CharEnd, Find;
    if Pair(s, i, '/', '/') {
      end := ScanFind(s, '\n', i + 2);
      return;
    }
    if Pair(s, i, '/', '*') {
      end := ScanBlock(s, i + 2);
      return;
    }
    if s[i] == 'r' {
      var raw := ScanRaw(s, i + 1);
      end := if raw.Some? then raw.value else i;
      return;
    }
    if Pair(s, i, 'b', 'r') {
      var raw := ScanRaw(s, i + 2);
      end := if raw.Some? then raw.value else i;
      return;
    }
    if s[i] == '"' {
      end := ScanString(s, i + 1);
      end := Min(end, |s|);
      return;
    }
    if s[i] == '\'' {
      var literal := ScanChar(s, i);
      end := if literal.Some? then literal.value else i;
      return;
    }
    end := i;
  }

  method ScanRaw(s: string, raw: nat) returns (end: Option<nat>)
    requires raw <= |s|
    ensures end == RawEnd(s, raw)
  {
    var quote := raw;
    while quote < |s| && s[quote] == '#'
      invariant raw <= quote <= |s| && HashEnd(s, raw) == HashEnd(s, quote)
    {
      quote := quote + 1;
    }
    if quote < |s| && s[quote] == '"' {
      var close := ['"'] + s[raw..quote];
      var at := ScanFindText(s, close, quote + 1);
      return Some(if at.Some? then at.value + |close| else |s|);
    }
    end := None;
  }

  method ScanChar(s: string, i: nat) returns (end: Option<nat>)
    requires i < |s|
    ensures end == CharEnd(s, i)
  {
    if i + 2 < |s| && s[i + 2] == '\'' {
      return Some(i + 3);
    }
    if i + 2 < |s| && s[i + 1] == '\\' {
      var quote := ScanFind(s, '\'', i + 3);
      var nl := ScanFind(s, '\n', i + 1);
      if quote < |s| && (nl == |s| || quote < nl) {
        return Some(quote + 1);
      }
    }
    end := None;
  }

  /** `str.find` of one character, with the length standing for "absent". */
  method ScanFind(s: string, c: char, from: nat) returns (at: nat)
    requires from <= |s|
    ensures at == if Find(s, c, from).Some? then Find(s, c, from).value else |s|
  {
    at := from;
    while at < |s| && s[at] != c
      invariant from <= at <= |s| && Find(s, c, from) == Find(s, c, at)
    {
      at := at + 1;
    }
  }

  method ScanFindText(s: string, pat: string, from: nat) returns (at: Option<nat>)
    ensures at == FindText(s, pat, from)
  {
    var j := from;
    while j <= |s|
      invariant FindText(s, pat, from) == FindText(s, pat, j)
    {
      if StartsAt(s, j, pat) {
        return Some(j);
      }
      j := j + 1;
    }
    at := None;
  }

  method ScanBlock(s: string, from: nat) returns (end: nat)
    requires from <= |s|
    ensures end == BlockEnd(s, from, 1)
  {
    var depth := 1;
    end := from;
    while end < |s| && depth != 0
      invariant end <= |s| && BlockEnd(s, from, 1) == BlockEnd(s, end, depth)
      decreases |s| - end
    {
      if Pair(s, end, '/', '*') {
        depth, end := depth + 1, end + 2;
      } else if Pair(s, end, '*', '/') {
        depth, end := depth - 1, end + 2;
      } else {
        end := end + 1;
      }
    }
  }

  method ScanString(s: string, from: nat) returns (end: nat)
    ensures end == StringEnd(s, from)
  {
    end := from;
    while end < |s|
      invariant StringEnd(s, from) == StringEnd(s, end)
      decreases |s| - end
    {
      if s[end] == '\\' {
        end := end + 2;
      } else if s[end] == '"' {
        end := end + 1;
        return;
      } else {
        end := end + 1;
      }
    }
  }
}
