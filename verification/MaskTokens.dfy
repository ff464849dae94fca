/** Whole sources, written as code characters, comments and literals, against their masks. */
module MaskTokens {
  import opened Wrappers
  import opened Sequences
  import opened RustMask
  import opened MaskLaws
  import opened MaskForms

  // ----- Tokens

  /** What follows the opener of a block comment that is never closed. */
  datatype Unclosed =
    | End
    | Plain(c: char, rest: Unclosed)
    | Whole(inner: Comment, rest: Unclosed)
    | Opener(rest: Unclosed)
  {
    function Text(): (t: string) {
      match this
      case End => []
      case Plain(c, rest) => [c] + rest.Text()
      case Whole(inner, rest) => "/*" + (inner.Text() + rest.Text())
      case Opener(rest) => "/*" + rest.Text()
    }

    predicate Proper() {
      match this
      case End => true
      case Plain(c, rest) =>
        !Pair([c] + rest.Text(), 0, '/', '*') && !Pair([c] + rest.Text(), 0, '*', '/') && rest.Proper()
      case Whole(inner, rest) => inner.Proper() && rest.Proper()
      case Opener(rest) => rest.Proper()
    }
  }

  /**
   * A character of code, or a form to blank; the last three are cut off by the end of the source.
   * A plain char literal is any one character between quotes, a backslash too: an escaped quote is
   * read as that one and the quote after it.
   */
  datatype Token =
    | Code(c: char)
    | LineComment(body: string)
    | BlockComment(comment: Comment)
    | Literal(pieces: seq<Piece>)
    | RawLiteral(prefix: string, hashes: string, body: string)
    | PlainChar(c: char)
    | EscapedChar(c: char, body: string)
    | OpenBlock(unclosed: Unclosed)
    | OpenLiteral(pieces: seq<Piece>, backslash: bool)
    | OpenRaw(prefix: string, hashes: string, body: string)
  {
    function Text(): (t: string)
      ensures t != []
    {
      match this
      case Code(c) => [c]
      case LineComment(body) => "//" + body
      case BlockComment(comment) => "/*" + comment.Text()
      case Literal(pieces) => "\"" + (PiecesText(pieces) + "\"")
      case RawLiteral(prefix, hashes, body) => RawOpen(prefix, hashes) + (body + RawClose(hashes))
      case PlainChar(c) => ['\'', c, '\'']
      case EscapedChar(c, body) => ['\'', '\\', c] + (body + "'")
      case OpenBlock(unclosed) => "/*" + unclosed.Text()
      case OpenLiteral(pieces, backslash) => "\"" + (PiecesText(pieces) + (if backslash then "\\" else ""))
      case OpenRaw(prefix, hashes, body) => RawOpen(prefix, hashes) + body
    }

    /** The token is well formed, with `after` following it. */
    ghost predicate Proper(after: string) {
      match this
      case Code(c) => Keeps(c, after)
      case LineComment(body) => '\n' !in body && (after == [] || after[0] == '\n')
      case BlockComment(comment) => comment.Proper()
      case Literal(pieces) => AllProper(pieces)
      case RawLiteral(prefix, hashes, body) =>
        && IsRaw(prefix, hashes)
        && forall k :: 0 <= k < |body| ==> !StartsAt(body + RawClose(hashes), k, RawClose(hashes))
      case PlainChar(_) => true
      case EscapedChar(c, body) => c != '\'' && c != '\n' && '\'' !in body && '\n' !in body
      case OpenBlock(unclosed) => unclosed.Proper() && after == []
      case OpenLiteral(pieces, _) => AllProper(pieces) && after == []
      case OpenRaw(prefix, hashes, body) =>
        && IsRaw(prefix, hashes) && after == []
        && forall k :: 0 <= k <= |body| ==> !StartsAt(body, k, RawClose(hashes))
    }

    function Masked(): (t: string) {
      if Code? then [c] else Blanks(Text())
    }
  }

  predicate AllProper(pieces: seq<Piece>) {
    forall k :: 0 <= k < |pieces| ==> pieces[k].Proper()
  }

  predicate IsRaw(prefix: string, hashes: string) {
    (prefix == "r" || prefix == "br") && forall k :: 0 <= k < |hashes| ==> hashes[k] == '#'
  }

  function RawOpen(prefix: string, hashes: string): (t: string)
    ensures t != []
  {
    prefix + (hashes + "\"")
  }

  function RawClose(hashes: string): (t: string) {
    "\"" + hashes
  }

  /** Hashes and a quote: the rest of a raw opener. */
  predicate OpensRaw(after: string) {
    var q := HashEnd(after, 0);
    q < |after| && after[q] == '"'
  }

  /** After a quote: one character and a quote, or an escape and a quote on the same line. */
  predicate OpensChar(after: string) {
    CharEnd("'" + after, 0).Some?
  }

  /** A character of code: it opens nothing, given what follows. */
  predicate Keeps(c: char, after: string) {
    && !(c == '/' && after != [] && (after[0] == '/' || after[0] == '*'))
    && c != '"'
    && !(c == 'r' && OpensRaw(after))
    && !(c == 'b' && after != [] && after[0] == 'r' && OpensRaw(after[1..]))
    && !(c == '\'' && OpensChar(after))
  }

  // ----- Code characters

  lemma {:induction false} HashEndShift(s: string, i: nat, j: nat)
    requires i + j <= |s|
    ensures HashEnd(s, i + j) == i + HashEnd(s[i..], j)
    decreases |s| - j
  {
    if i + j < |s| && s[i + j] == '#' {
      HashEndShift(s, i, j + 1);
    }
  }

  lemma {:induction false} FindShift(s: string, c: char, i: nat, j: nat)
    requires i <= |s|
    ensures Find(s, c, i + j) == var r := Find(s[i..], c, j); if r.None? then None else Some(i + r.value)
    decreases |s| - j
  {
    if i + j < |s| && s[i + j] != c {
      FindShift(s, c, i, j + 1);
    }
  }

  lemma RawShift(s: string, i: nat)
    requires i <= |s|
    ensures RawEnd(s, i).Some? <==> OpensRaw(s[i..])
  {
    hide FindText;
    HashEndShift(s, i, 0);
  }

  lemma CharShift(s: string, i: nat)
    requires i < |s| && s[i] == '\''
    ensures CharEnd(s, i).Some? <==> OpensChar(s[i + 1..])
  {
    hide Find;
    assert "'" + s[i + 1..] == s[i..];
    FindShift(s, '\'', i, 3);
    FindShift(s, '\n', i, 1);
  }

  /** The scanner keeps a character if and only if it opens nothing. */
  lemma CodeKept(s: string, i: nat)
    requires i < |s|
    ensures StepAt(s, i) == Keep <==> Keeps(s[i], s[i + 1..])
  {
    hide RawEnd, CharEnd, BlockEnd, StringEnd, Find, OpensRaw, OpensChar;
    var after := s[i + 1..];
    if s[i] == 'r' {
      RawShift(s, i + 1);
    } else if Pair(s, i, 'b', 'r') {
      assert after[1..] == s[i + 2..];
      RawShift(s, i + 2);
    } else if s[i] == '\'' {
      CharShift(s, i);
    }
  }

  // ----- Forms cut off by the end

  lemma {:induction false} UnclosedRuns(s: string, j: nat, depth: nat, u: Unclosed)
    requires j <= |s| && s[j..] == u.Text() && u.Proper()
    ensures BlockEnd(s, j, depth + 1) == |s|
    decreases u
  {
    hide BlockEnd;
    match u
    case End =>
      assert BlockEnd(s, |s|, depth + 1) == |s|;
    case Plain(c, rest) =>
      assert forall a, b :: Pair(s, j, a, b) <==> Pair(s[j..], 0, a, b);
      BlockStep(s, j, depth);
      assert s[j + 1..] == s[j..][1..] == rest.Text();
      UnclosedRuns(s, j + 1, depth, rest);
    case Whole(inner, rest) =>
      OpenerStep(s, j, depth, inner.Text() + rest.Text());
      assert At(s, j + 2, inner.Text()) by { StandsFirst(s, j + 2, inner.Text(), rest.Text()); }
      CommentCloses(s, j + 2, depth + 1, inner);
      var k := j + 2 + |inner.Text()|;
      assert s[k..] == s[j + 2..][|inner.Text()|..] == rest.Text();
      UnclosedRuns(s, k, depth, rest);
    case Opener(rest) =>
      OpenerStep(s, j, depth, rest.Text());
      UnclosedRuns(s, j + 2, depth + 1, rest);
  }

  lemma StandsFirst<T>(s: seq<T>, i: nat, a: seq<T>, b: seq<T>)
    requires i <= |s| && s[i..] == a + b
    ensures At(s, i, a) && s[i + |a|..] == b
  {
    assert s[i..i + |a|] == s[i..][..|a|] == a;
    assert s[i + |a|..] == s[i..][|a|..] == b;
  }

  lemma OpenerStep(s: string, j: nat, depth: nat, rest: string)
    requires j <= |s| && s[j..] == "/*" + rest
    ensures j + 2 <= |s| && s[j + 2..] == rest && Pair(s, j, '/', '*')
    ensures BlockEnd(s, j, depth + 1) == BlockEnd(s, j + 2, depth + 2)
  {
    hide BlockEnd;
    StandsFirst(s, j, "/*", rest);
    assert s[j] == s[j..][0] && s[j + 1] == s[j..][1];
    BlockStep(s, j, depth);
  }

  lemma {:induction false} LiteralRuns(s: string, j: nat, pieces: seq<Piece>, backslash: bool)
    requires j <= |s| && AllProper(pieces)
    requires s[j..] == PiecesText(pieces) + (if backslash then "\\" else "")
    ensures StringEnd(s, j) >= |s|
    decreases |pieces|
  {
    if pieces != [] {
      var head, tail := pieces[0].Text(), PiecesText(pieces[1..]) + (if backslash then "\\" else "");
      Concat3(head, PiecesText(pieces[1..]), if backslash then "\\" else "");
      StandsFirst(s, j, head, tail);
      assert s[j] == s[j..][0];
      LiteralRuns(s, j + |head|, pieces[1..], backslash);
    } else {
      assert s[j..] == if backslash then "\\" else "";
      assert backslash ==> s[j] == s[j..][0] == '\\';
    }
  }

  lemma {:induction false} FindTextAbsent(s: string, pat: string, from: nat)
    requires forall k :: from <= k <= |s| ==> !StartsAt(s, k, pat)
    ensures FindText(s, pat, from).None?
    decreases |s| - from
  {
    if from <= |s| {
      FindTextAbsent(s, pat, from + 1);
    }
  }

  // ----- One token

  lemma RawParts(s: string, i: nat, prefix: string, hashes: string, quote: string, rest: string)
    requires i <= |s| && s[i..] == (prefix + (hashes + quote)) + rest
    ensures var raw := i + |prefix|;
            At(s, i, prefix) && At(s, raw, hashes) && At(s, raw + |hashes|, quote)
            && s[raw + |hashes| + |quote|..] == rest
  {
    StandsFirst(s, i, prefix + (hashes + quote), rest);
    AtSplit(s, i, prefix, hashes + quote);
    AtSplit(s, i + |prefix|, hashes, quote);
  }

  lemma RawOpened(s: string, i: nat, prefix: string, hashes: string, rest: string)
    requires i <= |s| && s[i..] == RawOpen(prefix, hashes) + rest && IsRaw(prefix, hashes)
    ensures var raw := i + |prefix|;
            var quote := raw + |hashes|;
            && At(s, i, prefix) && quote < |s| && s[quote] == '"' && s[raw..quote] == hashes
            && s[quote + 1..] == rest && forall k :: raw <= k < quote ==> s[k] == '#'
  {
    hide At;
    RawParts(s, i, prefix, hashes, "\"", rest);
    var raw := i + |prefix|;
    AtIndex(s, raw + |hashes|, "\"", 0);
    HashesStand(s, raw, hashes);
    AtSlice(s, raw, hashes);
  }

  lemma PrefixStands(s: string, i: nat, prefix: string)
    requires At(s, i, prefix) && (prefix == "r" || prefix == "br")
    ensures (prefix == "r" ==> s[i] == 'r') && (prefix == "br" ==> Pair(s, i, 'b', 'r'))
  {
    AtIndex(s, i, prefix, 0);
    AtIndex(s, i, prefix, |prefix| - 1);
  }

  lemma HashesStand(s: string, raw: nat, hashes: string)
    requires At(s, raw, hashes) && forall k :: 0 <= k < |hashes| ==> hashes[k] == '#'
    ensures forall k :: raw <= k < raw + |hashes| ==> s[k] == '#'
  {
    forall k | raw <= k < raw + |hashes|
      ensures s[k] == '#'
    {
      AtIndex(s, raw, hashes, k - raw);
    }
  }

  lemma AtSlice<T>(s: seq<T>, i: nat, chunk: seq<T>)
    requires At(s, i, chunk)
    ensures i + |chunk| <= |s| && s[i..i + |chunk|] == chunk
  {
  }

  /** The closer does not stand in the source before the end of the body. */
  lemma NoEarlierClose(s: string, from: nat, body: string, close: string)
    requires At(s, from, body + close)
    requires forall k :: 0 <= k < |body| ==> !StartsAt(body + close, k, close)
    ensures forall k :: from <= k < from + |body| ==> !StartsAt(s, k, close)
  {
    forall k | from <= k < from + |body|
      ensures !StartsAt(s, k, close)
    {
      assert !StartsAt(body + close, k - from, close);
      AtPart(s, from, body + close, k - from, k - from + |close|);
    }
  }

  lemma StartsWhereAt(s: string, i: nat, chunk: string)
    requires At(s, i, chunk)
    ensures StartsAt(s, i, chunk)
  {
  }

  lemma RawClosed(s: string, raw: nat, quote: nat, hashes: string, body: string, after: string)
    requires raw <= quote < |s| && s[quote] == '"' && s[raw..quote] == hashes
    requires forall k :: raw <= k < quote ==> s[k] == '#'
    requires s[quote + 1..] == (body + RawClose(hashes)) + after
    requires forall k :: 0 <= k < |body| ==> !StartsAt(body + RawClose(hashes), k, RawClose(hashes))
    ensures raw >= 1 && s[raw - 1] == 'r' ==> StepAt(s, raw - 1) == Blank(|s| - |after|)
    ensures raw >= 2 && Pair(s, raw - 2, 'b', 'r') ==> StepAt(s, raw - 2) == Blank(|s| - |after|)
  {
    hide StepAt, At, StartsAt, Pair;
    var close := RawClose(hashes);
    StandsFirst(s, quote + 1, body + close, after);
    NoEarlierClose(s, quote + 1, body, close);
    AtSplit(s, quote + 1, body, close);
    StartsWhereAt(s, quote + 1 + |body|, close);
    assert close == ['"'] + s[raw..quote];
    RawForm(s, raw, quote, quote + 1 + |body|);
  }

  lemma RawToken(s: string, i: nat, prefix: string, hashes: string, body: string, after: string)
    requires i <= |s| && s[i..] == (RawOpen(prefix, hashes) + (body + RawClose(hashes))) + after
    requires IsRaw(prefix, hashes)
    requires forall k :: 0 <= k < |body| ==> !StartsAt(body + RawClose(hashes), k, RawClose(hashes))
    ensures StepAt(s, i) == Blank(|s| - |after|)
  {
    hide RawOpen, StepAt, HashEnd, RawClose, StartsAt, Pair;
    Concat3(RawOpen(prefix, hashes), body + RawClose(hashes), after);
    RawOpened(s, i, prefix, hashes, (body + RawClose(hashes)) + after);
    PrefixStands(s, i, prefix);
    RawClosed(s, i + |prefix|, i + |prefix| + |hashes|, hashes, body, after);
  }

  lemma NoClose(s: string, from: nat, close: string)
    requires from <= |s| && forall k :: 0 <= k <= |s[from..]| ==> !StartsAt(s[from..], k, close)
    ensures forall k :: from <= k <= |s| ==> !StartsAt(s, k, close)
  {
    forall k | from <= k <= |s|
      ensures !StartsAt(s, k, close)
    {
      assert !StartsAt(s[from..], k - from, close);
      assert k + |close| <= |s| ==> s[from..][k - from..k - from + |close|] == s[k..k + |close|];
    }
  }

  lemma OpenRawToken(s: string, i: nat, prefix: string, hashes: string, body: string)
    requires i <= |s| && s[i..] == RawOpen(prefix, hashes) + body
    requires IsRaw(prefix, hashes)
    requires forall k :: 0 <= k <= |body| ==> !StartsAt(body, k, RawClose(hashes))
    ensures StepAt(s, i) == Blank(|s|)
  {
    hide RawOpen, FindText, HashEnd;
    RawOpened(s, i, prefix, hashes, body);
    PrefixStands(s, i, prefix);
    var raw := i + |prefix|;
    var quote := raw + |hashes|;
    HashesEnd(s, raw, quote);
    assert ['"'] + s[raw..quote] == RawClose(hashes);
    NoClose(s, quote + 1, RawClose(hashes));
    FindTextAbsent(s, RawClose(hashes), quote + 1);
  }

  lemma LineToken(s: string, i: nat, body: string, after: string)
    requires i <= |s| && s[i..] == ("//" + body) + after && '\n' !in body && (after == [] || after[0] == '\n')
    ensures StepAt(s, i) == Blank(|s| - |after|)
  {
    hide StepAt;
    var end := |s| - |after|;
    StandsFirst(s, i, "//" + body, after);
    AtIndex(s, i, "//" + body, 0);
    AtIndex(s, i, "//" + body, 1);
    AtSplit(s, i, "//", body);
    forall k | i + 2 <= k < end
      ensures s[k] != '\n'
    {
      AtIndex(s, i + 2, body, k - i - 2);
    }
    assert after != [] ==> s[end] == s[end..][0];
    LineCommentForm(s, i, end);
  }

  lemma OpenBlockToken(s: string, i: nat, unclosed: Unclosed)
    requires i <= |s| && s[i..] == "/*" + unclosed.Text() && unclosed.Proper()
    ensures StepAt(s, i) == Blank(|s|)
  {
    hide BlockEnd;
    OpenerStep(s, i, 0, unclosed.Text());
    UnclosedRuns(s, i + 2, 0, unclosed);
  }

  lemma QuotedToken(s: string, i: nat, token: Token, after: string)
    requires i <= |s| && s[i..] == token.Text() + after && token.Proper(after)
    requires token.Literal? || token.OpenLiteral?
    ensures StepAt(s, i) == Blank(|s| - |after|)
  {
    hide StringEnd;
    StandsFirst(s, i, token.Text(), after);
    if token.Literal? {
      StringForm(s, i, token.pieces);
    } else {
      assert s[i..] == token.Text();
      StandsFirst(s, i, "\"", token.Text()[1..]);
      assert s[i] == s[i..][0];
      LiteralRuns(s, i + 1, token.pieces, token.backslash);
    }
  }

  lemma CharToken(s: string, i: nat, token: Token, after: string)
    requires i <= |s| && s[i..] == token.Text() + after && token.Proper(after)
    requires token.PlainChar? || token.EscapedChar?
    ensures StepAt(s, i) == Blank(|s| - |after|)
  {
    hide Find;
    var text := token.Text();
    assert forall k :: 0 <= k < |text| ==> s[i + k] == s[i..][k] == text[k];
    assert s[i] == text[0] && s[i + 1] == text[1] && s[i + 2] == text[2];
    if token.EscapedChar? {
      var close := i + |text| - 1;
      assert s[close] == text[|text| - 1] == '\'';
      forall k | i + 3 <= k < close
        ensures s[k] != '\'' && s[k] != '\n'
      {
        assert s[k] == text[k - i] == token.body[k - i - 3];
      }
      EscapedCharForm(s, i, close);
    }
  }

  /** A well-formed token is blanked exactly to its own end; a code character is kept. */
  lemma TokenStep(s: string, i: nat, token: Token, after: string)
    requires i <= |s| && s[i..] == token.Text() + after && token.Proper(after)
    ensures i < |s| && StepAt(s, i) == if token.Code? then Keep else Blank(|s| - |after|)
  {
    hide StepAt, Keeps, RawOpen, RawClose;
    match token
    case Code(c) =>
      assert s[i] == s[i..][0] && s[i + 1..] == s[i..][1..] == after;
      CodeKept(s, i);
    case LineComment(body) => LineToken(s, i, body, after);
    case BlockComment(comment) =>
      StandsFirst(s, i, token.Text(), after);
      BlockCommentForm(s, i, comment);
    case OpenBlock(unclosed) =>
      assert s[i..] == token.Text();
      OpenBlockToken(s, i, unclosed);
    case Literal(_) => QuotedToken(s, i, token, after);
    case OpenLiteral(_, _) => QuotedToken(s, i, token, after);
    case RawLiteral(prefix, hashes, body) => RawToken(s, i, prefix, hashes, body, after);
    case OpenRaw(prefix, hashes, body) =>
      assert s[i..] == token.Text();
      OpenRawToken(s, i, prefix, hashes, body);
    case PlainChar(_) => CharToken(s, i, token, after);
    case EscapedChar(_, _) => CharToken(s, i, token, after);
  }

  // ----- Whole sources

  function TextOf(tokens: seq<Token>): (t: string) {
    if tokens == [] then [] else tokens[0].Text() + TextOf(tokens[1..])
  }

  function MaskedText(tokens: seq<Token>): (t: string) {
    if tokens == [] then [] else tokens[0].Masked() + MaskedText(tokens[1..])
  }

  /** Every token is well formed, given the text of those after it. */
  ghost predicate WellFormed(tokens: seq<Token>) {
    tokens == [] || (tokens[0].Proper(TextOf(tokens[1..])) && WellFormed(tokens[1..]))
  }

  lemma {:induction false} MaskOfTokensFrom(s: string, i: nat, tokens: seq<Token>)
    requires i <= |s| && s[i..] == TextOf(tokens) && WellFormed(tokens)
    ensures MaskFrom(s, i) == MaskedText(tokens)
    decreases |tokens|
  {
    hide StepAt, Blanks;
    if tokens != [] {
      var token, after := tokens[0], TextOf(tokens[1..]);
      var text := token.Text();
      TokenStep(s, i, token, after);
      StandsFirst(s, i, text, after);
      hide Token.Text, Token.Proper;
      MaskOfTokensFrom(s, i + |text|, tokens[1..]);
      assert token.Code? ==> text == [token.c] && s[i] == token.c by { CodeText(s, i, token); }
    }
  }

  lemma CodeText(s: string, i: nat, token: Token)
    requires At(s, i, token.Text()) && i < |s|
    ensures token.Code? ==> token.Text() == [token.c] && s[i] == token.c
  {
  }

  /**
   * A source written as code characters, comments and literals, the last of them perhaps cut off,
   * is masked to the same sequence with exactly the comments and literals blanked.
   */
  lemma MaskOfTokens(tokens: seq<Token>)
    requires WellFormed(tokens)
    ensures Mask(TextOf(tokens)) == MaskedText(tokens)
  {
    var s := TextOf(tokens);
    assert s[0..] == s;
    MaskOfTokensFrom(s, 0, tokens);
  }

  // ----- Every source is such a sequence

  /** The text after a block opener: a comment and what follows it, or never closed. */
  lemma {:induction false} ParseBlock(t: string) returns (closed: bool, c: Comment, rest: string, u: Unclosed)
    ensures closed ==> t == c.Text() + rest && c.Proper()
    ensures !closed ==> t == u.Text() && u.Proper()
    decreases |t|
  {
    closed, c, rest, u := false, Close, [], End;
    if Pair(t, 0, '*', '/') {
      closed, rest := true, t[2..];
    } else if Pair(t, 0, '/', '*') {
      var closed1, c1, rest1, u1 := ParseBlock(t[2..]);
      if closed1 {
        var closed2, c2, rest2, u2 := ParseBlock(rest1);
        closed, c, rest, u := closed2, Inner(c1, c2), rest2, Whole(c1, u2);
        InnerText(t, c1, rest1, closed2, c2, rest2, u2);
      } else {
        u := Opener(u1);
      }
    } else if t != [] {
      var closed1, c1, rest1, u1 := ParseBlock(t[1..]);
      closed, c, rest, u := closed1, Comment.Plain(t[0], c1), rest1, Unclosed.Plain(t[0], u1);
      PlainText(t, closed1, c1, rest1, u1);
    }
  }

  lemma InnerText(t: string, c1: Comment, rest1: string, closed: bool, c2: Comment, rest2: string, u2: Unclosed)
    requires Pair(t, 0, '/', '*') && t[2..] == c1.Text() + rest1
    requires rest1 == if closed then c2.Text() + rest2 else u2.Text()
    ensures closed ==> t == Inner(c1, c2).Text() + rest2
    ensures !closed ==> t == Whole(c1, u2).Text()
  {
    assert t == "/*" + t[2..];
    if closed {
      Concat3(c1.Text(), c2.Text(), rest2);
      Concat3("/*", c1.Text() + c2.Text(), rest2);
    }
  }

  lemma PlainText(t: string, closed: bool, c: Comment, rest: string, u: Unclosed)
    requires t != [] && !Pair(t, 0, '*', '/') && !Pair(t, 0, '/', '*')
    requires t[1..] == if closed then c.Text() + rest else u.Text()
    requires if closed then c.Proper() else u.Proper()
    ensures closed ==> t == Comment.Plain(t[0], c).Text() + rest && Comment.Plain(t[0], c).Proper()
    ensures !closed ==> t == Unclosed.Plain(t[0], u).Text() && Unclosed.Plain(t[0], u).Proper()
  {
    assert t == [t[0]] + t[1..];
    if closed {
      assert t[1] == t[1..][0] == c.Text()[0];
      Concat3([t[0]], c.Text(), rest);
    }
  }

  /** The text after a quote: the pieces up to the closing quote and what follows, or never closed. */
  lemma {:induction false} ParseLiteral(t: string) returns (closed: bool, ps: seq<Piece>, rest: string, backslash: bool)
    ensures AllProper(ps)
    ensures t == PiecesText(ps) + (if closed then "\"" + rest else if backslash then "\\" else "")
    decreases |t|
  {
    closed, ps, rest, backslash := false, [], [], false;
    if t == "\\" {
      backslash := true;
    } else if t != [] && t[0] == '"' {
      closed, rest := true, t[1..];
      assert t == "\"" + t[1..];
    } else if t != [] {
      var head := if t[0] == '\\' then Escape(t[1]) else Ordinary(t[0]);
      var n := |head.Text()|;
      var ps1;
      closed, ps1, rest, backslash := ParseLiteral(t[n..]);
      ps := [head] + ps1;
      assert ps[1..] == ps1 && t == head.Text() + t[n..];
      Concat3(head.Text(), PiecesText(ps1), if closed then "\"" + rest else if backslash then "\\" else "");
    }
  }

  lemma {:induction false} FindTextFirst(s: string, pat: string, from: nat)
    ensures var at := FindText(s, pat, from);
            forall k :: from <= k < (if at.Some? then at.value else |s| + 1) ==> !StartsAt(s, k, pat)
    decreases |s| - from
  {
    if from <= |s| && !StartsAt(s, from, pat) {
      FindTextFirst(s, pat, from + 1);
    }
  }

  lemma {:induction false} HashesBefore(t: string, j: nat)
    requires j <= |t|
    ensures forall k :: j <= k < HashEnd(t, j) ==> t[k] == '#'
    decreases |t| - j
  {
    if j < |t| && t[j] == '#' {
      HashesBefore(t, j + 1);
    }
  }

  lemma BodyFree(t: string, from: nat, at: nat, close: string)
    requires from <= at && StartsAt(t, at, close) && forall k :: from <= k < at ==> !StartsAt(t, k, close)
    ensures at + |close| <= |t| && t[from..] == (t[from..at] + close) + t[at + |close|..]
    ensures forall k :: 0 <= k < at - from ==> !StartsAt(t[from..at] + close, k, close)
  {
    var body := t[from..at];
    assert body + close == t[from..at + |close|];
    forall k | 0 <= k < |body|
      ensures !StartsAt(body + close, k, close)
    {
      assert !StartsAt(t, from + k, close);
      SliceOfSlice(t, from, at + |close|, k, k + |close|);
    }
  }

  lemma TailFree(t: string, from: nat, close: string)
    requires from <= |t| && forall k :: from <= k <= |t| ==> !StartsAt(t, k, close)
    ensures forall k :: 0 <= k <= |t| - from ==> !StartsAt(t[from..], k, close)
  {
    forall k | 0 <= k <= |t| - from
      ensures !StartsAt(t[from..], k, close)
    {
      assert !StartsAt(t, from + k, close);
      assert from + k + |close| <= |t| ==> t[from..][k..k + |close|] == t[from + k..from + k + |close|];
    }
  }

  lemma ParseRaw(prefix: string, t: string) returns (token: Token, rest: string)
    requires (prefix == "r" || prefix == "br") && OpensRaw(t)
    ensures prefix + t == token.Text() + rest && token.Proper(rest)
  {
    hide FindText, HashEnd, RawClose, RawOpen, StartsAt;
    HashesBefore(t, 0);
    var q := HashEnd(t, 0);
    var hashes := t[..q];
    var close := RawClose(hashes);
    FindTextFirst(t, close, q + 1);
    var at := FindText(t, close, q + 1);
    assert t == (hashes + "\"") + t[q + 1..];
    if at.Some? {
      BodyFree(t, q + 1, at.value, close);
      token, rest := RawLiteral(prefix, hashes, t[q + 1..at.value]), t[at.value + |close|..];
      RawJoins(prefix, hashes, t[q + 1..at.value] + close, rest, t);
    } else {
      token, rest := OpenRaw(prefix, hashes, t[q + 1..]), [];
      TailFree(t, q + 1, close);
      assert t[q + 1..] + [] == t[q + 1..];
      RawJoins(prefix, hashes, t[q + 1..], [], t);
    }
  }

  lemma RawJoins(prefix: string, hashes: string, inner: string, rest: string, t: string)
    requires t == (hashes + "\"") + (inner + rest)
    ensures prefix + t == (RawOpen(prefix, hashes) + inner) + rest
  {
  }

  lemma ParseChar(s: string) returns (token: Token, rest: string)
    requires s != [] && s[0] == '\'' && CharEnd(s, 0).Some?
    ensures s == token.Text() + rest && token.Proper(rest)
  {
    hide Find;
    var end := CharEnd(s, 0).value;
    rest := s[end..];
    if s[2] == '\'' {
      token := PlainChar(s[1]);
    } else {
      FindIsFirst(s, '\'', 3);
      FindIsFirst(s, '\n', 1);
      var body := s[3..end - 1];
      token := EscapedChar(s[2], body);
      assert forall k :: 0 <= k < |body| ==> body[k] == s[3 + k] && body[k] != '\'' && body[k] != '\n';
      assert s == ['\'', '\\', s[2]] + (body + "'") + rest;
    }
  }

  lemma ParseLine(s: string) returns (token: Token, rest: string)
    requires Pair(s, 0, '/', '/')
    ensures s == token.Text() + rest && token.Proper(rest)
  {
    hide Find;
    FindIsFirst(s, '\n', 2);
    var nl := Find(s, '\n', 2);
    var end := if nl.Some? then nl.value else |s|;
    token, rest := LineComment(s[2..end]), s[end..];
    assert forall k :: 0 <= k < |s[2..end]| ==> s[2..end][k] == s[2 + k];
    assert s == ("//" + s[2..end]) + rest;
  }

  lemma NextToken(s: string) returns (token: Token, rest: string)
    requires s != []
    ensures s == token.Text() + rest && token.Proper(rest)
  {
    hide OpensRaw, CharEnd, PiecesText, RawOpen, RawClose, Comment.Proper, Unclosed.Proper, Comment.Text, Unclosed.Text;
    if Pair(s, 0, '/', '/') {
      token, rest := ParseLine(s);
    } else if Pair(s, 0, '/', '*') {
      var closed, c, after, u := ParseBlock(s[2..]);
      token, rest := if closed then BlockComment(c) else OpenBlock(u), if closed then after else [];
      assert s == "/*" + s[2..];
    } else if s[0] == 'r' && OpensRaw(s[1..]) {
      token, rest := ParseRaw("r", s[1..]);
      assert s == "r" + s[1..];
    } else if Pair(s, 0, 'b', 'r') && OpensRaw(s[2..]) {
      token, rest := ParseRaw("br", s[2..]);
      assert s == "br" + s[2..];
    } else if s[0] == '"' {
      var closed, ps, after, backslash := ParseLiteral(s[1..]);
      token, rest := if closed then Literal(ps) else OpenLiteral(ps, backslash), if closed then after else [];
      assert s == "\"" + s[1..];
      LiteralJoins(s, closed, ps, after);
    } else if s[0] == '\'' && OpensChar(s[1..]) {
      assert s == "'" + s[1..];
      token, rest := ParseChar(s);
    } else {
      token, rest := Code(s[0]), s[1..];
      assert s == [s[0]] + s[1..];
      assert Pair(s, 0, 'b', 'r') ==> s[1..][1..] == s[2..];
    }
  }

  lemma LiteralJoins(s: string, closed: bool, ps: seq<Piece>, after: string)
    requires s != [] && s == "\"" + s[1..] && (closed ==> s[1..] == PiecesText(ps) + ("\"" + after))
    ensures closed ==> s == ("\"" + (PiecesText(ps) + "\"")) + after
  {
  }

  /** Every source can be written so, which fixes its mask. */
  lemma {:induction false} EverySourceHasTokens(s: string) returns (tokens: seq<Token>)
    ensures WellFormed(tokens) && TextOf(tokens) == s && Mask(s) == MaskedText(tokens)
    decreases |s|
  {
    tokens := [];
    if s != [] {
      var token, rest := NextToken(s);
      var more := EverySourceHasTokens(rest);
      tokens := [token] + more;
      assert tokens[1..] == more;
    }
    MaskOfTokens(tokens);
  }
}
