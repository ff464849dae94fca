/** What the masker leaves, and that blanking whole tokens does not change how the rest is read. */
module MaskLaws {
  import opened Wrappers
  import opened Numbers
  import opened Sequences
  import opened RustMask

  // ----- The mask only blanks

  lemma {:induction false} MaskFromOnlyBlanks(s: string, i: nat)
    requires i <= |s|
    ensures OnlyBlanks(s[i..], MaskFrom(s, i))
    decreases |s| - i
  {
    hide StepAt;
    if i < |s| {
      match StepAt(s, i)
      case Keep => MaskFromOnlyBlanks(s, i + 1);
      case Blank(end) => MaskFromOnlyBlanks(s, end);
    }
  }

  /** The mask keeps the length and every newline, and maps each character to itself or a space. */
  lemma MaskOnlyBlanks(s: string)
    ensures OnlyBlanks(s, Mask(s))
    ensures forall k :: 0 <= k < |s| ==> (Mask(s)[k] == '\n' <==> s[k] == '\n')
  {
    MaskFromOnlyBlanks(s, 0);
    assert s[0..] == s;
  }

  /** A character that survives was itself scanned and kept. */
  lemma {:induction false} KeptIsScanned(s: string, i: nat, j: nat)
    requires i <= j < |s|
    requires !IsBlank(MaskFrom(s, i)[j - i])
    ensures StepAt(s, j) == Keep && MaskFrom(s, i)[j - i] == s[j]
    ensures MaskFrom(s, i)[j - i..] == MaskFrom(s, j)
    decreases |s| - i
  {
    hide StepAt;
    match StepAt(s, i)
    case Keep =>
      if i < j {
        KeptIsScanned(s, i + 1, j);
        assert MaskFrom(s, i)[j - i..] == MaskFrom(s, i + 1)[j - i - 1..];
      }
    case Blank(end) =>
      assert j >= end;
      KeptIsScanned(s, end, j);
      assert MaskFrom(s, i)[j - i..] == MaskFrom(s, end)[j - end..];
  }

  /** No double quote and no comment opener survives. */
  lemma MaskHasNoOpeners(s: string, k: nat)
    requires k < |s|
    ensures Mask(s)[k] != '"'
    ensures !Pair(Mask(s), k, '/', '/') && !Pair(Mask(s), k, '/', '*')
  {
    MaskOnlyBlanks(s);
    if !IsBlank(Mask(s)[k]) {
      KeptIsScanned(s, 0, k);
    }
    hide MaskFrom, LineEnd, BlockEnd, RawEnd, StringEnd, CharEnd;
  }

  // ----- Blanking whole tokens commutes with masking

  /** On `[i, end)`, `t` is unchanged or wholly blanked. */
  ghost predicate AllOrNothing(s: string, t: string, i: nat, end: nat)
    requires |t| == |s| && end <= |s|
  {
    || (forall k :: i <= k < end ==> t[k] == s[k])
    || (forall k :: i <= k < end ==> t[k] == BlankChar(s[k]))
  }

  /** From the scan position `i` on, `t` blanks whole masked forms and single kept characters of `s`. */
  ghost predicate Aligned(s: string, t: string, i: nat)
    requires |t| == |s| && i <= |s|
    decreases |s| - i
  {
    i == |s| ||
    match StepAt(s, i)
    case Keep => Aligned(s, t, i + 1)
    case Blank(end) => AllOrNothing(s, t, i, end) && Aligned(s, t, end)
  }

  lemma {:induction false} FindIsFirst(s: string, c: char, from: nat)
    ensures forall k :: from <= k < (if Find(s, c, from).Some? then Find(s, c, from).value else |s|) ==> s[k] != c
    decreases |s| - from
  {
    if from < |s| && s[from] != c {
      FindIsFirst(s, c, from + 1);
    }
  }

  lemma {:induction false} FindIs(s: string, c: char, from: nat, at: nat)
    requires from <= at < |s| && s[at] == c
    requires forall k :: from <= k < at ==> s[k] != c
    ensures Find(s, c, from) == Some(at)
    decreases at - from
  {
    if from < at {
      FindIs(s, c, from + 1, at);
    }
  }

  lemma FindAbsent(s: string, c: char, from: nat)
    requires forall k :: from <= k < |s| ==> s[k] != c
    ensures Find(s, c, from).None?
    decreases |s| - from
  {
  }

  /** Blanking leaves every newline search as it was. */
  lemma SameNewlines(s: string, t: string, from: nat)
    requires OnlyBlanks(s, t)
    ensures Find(t, '\n', from) == Find(s, '\n', from)
  {
    assert forall k :: 0 <= k < |s| ==> (t[k] == '\n' <==> s[k] == '\n');
    if Find(s, '\n', from).Some? {
      FindIsFirst(s, '\n', from);
      FindIs(t, '\n', from, Find(s, '\n', from).value);
    } else {
      FindIsFirst(s, '\n', from);
      FindAbsent(t, '\n', from);
    }
  }

  /** Blanking can only push a quote search further. */
  lemma LaterQuote(s: string, t: string, from: nat)
    requires OnlyBlanks(s, t) && Find(t, '\'', from).Some?
    ensures Find(s, '\'', from).Some? && Find(s, '\'', from).value <= Find(t, '\'', from).value
  {
    var at := Find(t, '\'', from).value;
    assert s[at] == '\'';
    if Find(s, '\'', from).None? {
      FindIsFirst(s, '\'', from);
    } else {
      FindIsFirst(s, '\'', from);
    }
  }

  /** A char literal that is not one in `s` is not one after blanking either. */
  lemma CharStays(s: string, t: string, i: nat)
    requires OnlyBlanks(s, t) && i < |s| && t[i] == s[i] && CharEnd(s, i).None?
    ensures CharEnd(t, i).None?
  {
    if i + 2 < |s| && t[i + 1] == '\\' {
      SameNewlines(s, t, i + 1);
      if Find(t, '\'', i + 3).Some? {
        LaterQuote(s, t, i + 3);
      }
    }
  }

  lemma {:induction false} HashEndShrinks(s: string, t: string, j: nat)
    requires OnlyBlanks(s, t) && j <= |s|
    ensures HashEnd(t, j) <= HashEnd(s, j)
    ensures forall k :: j <= k < HashEnd(s, j) ==> s[k] == '#'
    decreases |s| - j
  {
    if j < |s| && s[j] == '#' {
      HashEndShrinks(s, t, j + 1);
    }
  }

  lemma RawStays(s: string, t: string, raw: nat)
    requires OnlyBlanks(s, t) && raw <= |s| && RawEnd(s, raw).None?
    ensures RawEnd(t, raw).None?
  {
    HashEndShrinks(s, t, raw);
  }

  /** A kept character that stays is kept again. */
  lemma KeepStays(s: string, t: string, i: nat)
    requires OnlyBlanks(s, t) && i < |s| && t[i] == s[i]
    requires StepAt(s, i) == Keep
    ensures StepAt(t, i) == Keep
  {
    hide LineEnd, BlockEnd, RawEnd, StringEnd, CharEnd;
    assert i + 1 < |s| && !IsBlank(t[i + 1]) ==> t[i + 1] == s[i + 1];
    if s[i] == 'r' {
      RawStays(s, t, i + 1);
    } else if Pair(s, i, 'b', 'r') {
      RawStays(s, t, i + 2);
    } else if s[i] == '\'' {
      CharStays(s, t, i);
    }
  }

  lemma {:induction false} BlockStays(s: string, t: string, j: nat, depth: nat)
    requires OnlyBlanks(s, t) && j <= |s|
    requires forall k :: j <= k < BlockEnd(s, j, depth) ==> t[k] == s[k]
    ensures BlockEnd(t, j, depth) == BlockEnd(s, j, depth)
    decreases |s| - j
  {
    if j < |s| && depth != 0 {
      if Pair(s, j, '/', '*') {
        BlockStays(s, t, j + 2, depth + 1);
      } else if Pair(s, j, '*', '/') {
        BlockStays(s, t, j + 2, depth - 1);
      } else {
        BlockStays(s, t, j + 1, depth);
      }
    }
  }

  lemma {:induction false} StringStays(s: string, t: string, j: nat)
    requires |t| == |s|
    requires forall k :: j <= k < Min(StringEnd(s, j), |s|) ==> t[k] == s[k]
    ensures StringEnd(t, j) == StringEnd(s, j)
    decreases |s| - j
  {
    if j < |s| {
      assert t[j] == s[j];
      if s[j] == '\\' {
        StringStays(s, t, j + 2);
      } else if s[j] != '"' {
        StringStays(s, t, j + 1);
      }
    }
  }

  lemma {:induction false} HashEndStays(s: string, t: string, j: nat)
    requires |t| == |s| && j <= |s|
    requires HashEnd(s, j) < |s|
    requires forall k :: j <= k <= HashEnd(s, j) ==> t[k] == s[k]
    ensures HashEnd(t, j) == HashEnd(s, j)
    decreases |s| - j
  {
    if s[j] == '#' {
      HashEndStays(s, t, j + 1);
    }
  }

  /** A text search is decided by the characters up to the end of its first match. */
  lemma {:induction false} FindTextStays(s: string, t: string, pat: string, from: nat)
    requires |t| == |s|
    requires var at := FindText(s, pat, from);
             forall k :: from <= k < (if at.Some? then at.value + |pat| else |s|) ==> t[k] == s[k]
    ensures FindText(t, pat, from) == FindText(s, pat, from)
    decreases |s| - from
  {
    if from <= |s| {
      var at := FindText(s, pat, from);
      if from + |pat| <= |s| && (at.Some? ==> from + |pat| <= at.value + |pat|) {
        assert t[from..from + |pat|] == s[from..from + |pat|];
      }
      if !StartsAt(s, from, pat) {
        FindTextStays(s, t, pat, from + 1);
      }
    }
  }

  lemma RawTokenStays(s: string, t: string, raw: nat)
    requires |t| == |s| && raw <= |s| && RawEnd(s, raw).Some?
    requires forall k :: raw <= k < RawEnd(s, raw).value ==> t[k] == s[k]
    ensures RawEnd(t, raw) == RawEnd(s, raw)
  {
    hide FindText, HashEnd;
    var quote := HashEnd(s, raw);
    var close := ['"'] + s[raw..quote];
    HashEndStays(s, t, raw);
    assert t[raw..quote] == s[raw..quote];
    FindTextStays(s, t, close, quote + 1);
  }

  lemma CharTokenStays(s: string, t: string, i: nat)
    requires OnlyBlanks(s, t) && i < |s| && CharEnd(s, i).Some?
    requires forall k :: i <= k < CharEnd(s, i).value ==> t[k] == s[k]
    ensures CharEnd(t, i) == CharEnd(s, i)
  {
    hide Find;
    if s[i + 2] != '\'' {
      SameNewlines(s, t, i + 1);
      var at := Find(s, '\'', i + 3).value;
      FindIsFirst(s, '\'', i + 3);
      FindIs(t, '\'', i + 3, at);
    }
  }

  /** A masked form that stays is masked again, to the same end. */
  lemma TokenStays(s: string, t: string, i: nat)
    requires OnlyBlanks(s, t) && i < |s| && StepAt(s, i).Blank?
    requires forall k :: i <= k < StepAt(s, i).end ==> t[k] == s[k]
    ensures StepAt(t, i) == StepAt(s, i)
  {
    hide BlockEnd, RawEnd, StringEnd, CharEnd, Find;
    assert t[i] == s[i];
    if Pair(s, i, '/', '/') {
      SameNewlines(s, t, i + 2);
    } else if Pair(s, i, '/', '*') {
      BlockStays(s, t, i + 2, 1);
    } else if s[i] == 'r' {
      RawTokenStays(s, t, i + 1);
    } else if Pair(s, i, 'b', 'r') {
      RawTokenStays(s, t, i + 2);
    } else if s[i] == '"' {
      StringStays(s, t, i + 1);
    } else {
      CharTokenStays(s, t, i);
    }
  }

  lemma BlankIsKept(t: string, i: nat)
    requires i < |t| && IsBlank(t[i])
    ensures StepAt(t, i) == Keep
  {
  }

  /** A blank stretch is scanned character by character. */
  lemma {:induction false} BlankStretch(t: string, i: nat, end: nat)
    requires i <= end <= |t|
    requires forall k :: i <= k < end ==> IsBlank(t[k])
    ensures MaskFrom(t, i) == t[i..end] + MaskFrom(t, end)
    decreases end - i
  {
    hide StepAt;
    if i < end {
      BlankIsKept(t, i);
      BlankStretch(t, i + 1, end);
      assert t[i..end] == [t[i]] + t[i + 1..end];
      Concat3([t[i]], t[i + 1..end], MaskFrom(t, end));
    } else {
      assert t[i..end] + MaskFrom(t, end) == MaskFrom(t, end);
    }
  }

  /** What the mask of `t` shows at `k`: the mask of `s`, except where `t` was blanked. */
  ghost predicate ShowsAt(s: string, t: string, i: nat, k: nat)
    requires |t| == |s| && i <= k < |s|
  {
    MaskFrom(t, i)[k - i] == if t[k] == s[k] then MaskFrom(s, i)[k - i] else t[k]
  }

  ghost predicate Shows(s: string, t: string, i: nat)
    requires |t| == |s| && i <= |s|
  {
    forall k :: i <= k < |s| ==> ShowsAt(s, t, i, k)
  }

  /** Blanking whole masked forms and kept characters commutes with masking. */
  lemma {:induction false} BlankingCommutes(s: string, t: string, i: nat)
    requires OnlyBlanks(s, t) && i <= |s| && Aligned(s, t, i)
    ensures Shows(s, t, i)
    decreases |s| - i
  {
    hide StepAt, Blanks;
    if i < |s| {
      match StepAt(s, i)
      case Keep =>
        if t[i] == s[i] {
          KeepStays(s, t, i);
        } else {
          BlankIsKept(t, i);
        }
        BlankingCommutes(s, t, i + 1);
        ShowsKeep(s, t, i);
      case Blank(end) =>
        BlankingCommutes(s, t, end);
        if forall k :: i <= k < end ==> t[k] == s[k] {
          TokenStays(s, t, i);
          assert t[i..end] == s[i..end];
        } else {
          BlankStretch(t, i, end);
          assert t[i..end] == Blanks(s[i..end]) by { BlankedSlice(s, t, i, end); }
        }
        ShowsBlank(s, t, i, end);
    }
  }

  lemma ShowsKeep(s: string, t: string, i: nat)
    requires OnlyBlanks(s, t) && i < |s| && StepAt(s, i) == Keep && StepAt(t, i) == Keep
    requires Shows(s, t, i + 1)
    ensures Shows(s, t, i)
  {
    hide StepAt;
    assert MaskFrom(s, i) == [s[i]] + MaskFrom(s, i + 1) && MaskFrom(t, i) == [t[i]] + MaskFrom(t, i + 1);
    hide MaskFrom;
    forall k | i <= k < |s|
      ensures ShowsAt(s, t, i, k)
    {
      JoinedAt([t[i]], MaskFrom(t, i + 1), k - i);
      JoinedAt([s[i]], MaskFrom(s, i + 1), k - i);
      assert k > i ==> ShowsAt(s, t, i + 1, k);
    }
  }

  lemma ShowsBlank(s: string, t: string, i: nat, end: nat)
    requires OnlyBlanks(s, t) && i < end <= |s| && StepAt(s, i) == Blank(end)
    requires Shows(s, t, end)
    requires MaskFrom(t, i) == Blanks(s[i..end]) + MaskFrom(t, end)
    ensures Shows(s, t, i)
  {
    hide StepAt;
    assert MaskFrom(s, i) == Blanks(s[i..end]) + MaskFrom(s, end);
    hide MaskFrom, Blanks;
    forall k | i <= k < |s|
      ensures ShowsAt(s, t, i, k)
    {
      JoinedAt(Blanks(s[i..end]), MaskFrom(t, end), k - i);
      JoinedAt(Blanks(s[i..end]), MaskFrom(s, end), k - i);
      if k < end {
        BlanksAt(s, i, end, k);
      } else {
        assert ShowsAt(s, t, end, k);
      }
    }
  }

  lemma BlankedSlice(s: string, t: string, i: nat, end: nat)
    requires |t| == |s| && i <= end <= |s| && forall k :: i <= k < end ==> t[k] == BlankChar(s[k])
    ensures t[i..end] == Blanks(s[i..end])
  {
  }

  lemma JoinedAt(front: string, rest: string, k: nat)
    requires k < |front| + |rest|
    ensures (front + rest)[k] == if k < |front| then front[k] else rest[k - |front|]
  {
  }

  lemma BlanksAt(s: string, i: nat, end: nat, k: nat)
    requires i <= k < end <= |s|
    ensures Blanks(s[i..end])[k - i] == BlankChar(s[k])
  {
  }

  // ----- Idempotence

  lemma {:induction false} MaskAligned(s: string, t: string, i: nat)
    requires |t| == |s| && i <= |s|
    requires t[i..] == MaskFrom(s, i)
    ensures Aligned(s, t, i)
    decreases |s| - i
  {
    hide StepAt;
    if i < |s| {
      match StepAt(s, i)
      case Keep =>
        assert t[i + 1..] == t[i..][1..];
        MaskAligned(s, t, i + 1);
      case Blank(end) =>
        assert t[i..end] == t[i..][..end - i] == Blanks(s[i..end]);
        forall k | i <= k < end
          ensures t[k] == BlankChar(s[k])
        {
          assert t[i..end][k - i] == t[k];
        }
        assert t[end..] == t[i..][end - i..];
        MaskAligned(s, t, end);
    }
  }

  /** Masking a mask changes nothing. */
  lemma MaskIdempotent(s: string)
    ensures Mask(Mask(s)) == Mask(s)
  {
    hide MaskFrom;
    var t := Mask(s);
    MaskOnlyBlanks(s);
    MaskAligned(s, t, 0);
    BlankingCommutes(s, t, 0);
    forall k | 0 <= k < |s|
      ensures Mask(t)[k] == t[k]
    {
      assert ShowsAt(s, t, 0, k);
    }
  }
}
