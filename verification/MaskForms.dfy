/** The literal forms of Rust, each written out by a grammar, against where the masker ends them. */
module MaskForms {
  import opened Wrappers
  import opened Sequences
  import opened RustMask
  import opened MaskLaws

  // ----- Comments

  /** A line comment runs to the first newline, or to the end of the source. */
  lemma LineCommentForm(s: string, i: nat, end: nat)
    requires Pair(s, i, '/', '/') && i + 2 <= end <= |s|
    requires forall k :: i + 2 <= k < end ==> s[k] != '\n'
    requires end < |s| ==> s[end] == '\n'
    ensures StepAt(s, i) == Blank(end)
  {
    if end < |s| {
      FindIs(s, '\n', i + 2, end);
    } else {
      FindAbsent(s, '\n', i + 2);
    }
  }

  /** What follows the opener of a block comment: characters and whole comments, then the closer. */
  datatype Comment = Close | Plain(c: char, rest: Comment) | Inner(inner: Comment, rest: Comment) {
    function Text(): (t: string)
      ensures t != []
    {
      match this
      case Close => "*/"
      case Plain(c, rest) => [c] + rest.Text()
      case Inner(inner, rest) => "/*" + (inner.Text() + rest.Text())
    }

    /** A plain character does not start an opener or a closer. */
    predicate Proper() {
      match this
      case Close => true
      case Plain(c, rest) =>
        !(c == '/' && rest.Text()[0] == '*') && !(c == '*' && rest.Text()[0] == '/') && rest.Proper()
      case Inner(inner, rest) => inner.Proper() && rest.Proper()
    }
  }

  /** One turn of the block scan, above depth 0. */
  lemma BlockStep(s: string, j: nat, depth: nat)
    requires j < |s|
    ensures BlockEnd(s, j, depth + 1)
         == if Pair(s, j, '/', '*') then BlockEnd(s, j + 2, depth + 2)
            else if Pair(s, j, '*', '/') then BlockEnd(s, j + 2, depth)
            else BlockEnd(s, j + 1, depth + 1)
  {
  }

  /** An opener, then `a`, then `b`. */
  lemma OpenerSplit(s: string, j: nat, a: string, b: string)
    requires At(s, j, "/*" + (a + b))
    ensures Pair(s, j, '/', '*') && At(s, j + 2, a) && At(s, j + 2 + |a|, b)
  {
    AtIndex(s, j, "/*" + (a + b), 0);
    AtIndex(s, j, "/*" + (a + b), 1);
    AtSplit(s, j, "/*", a + b);
    AtSplit(s, j + 2, a, b);
  }

  lemma PlainSplit(s: string, j: nat, c: char, rest: string)
    requires At(s, j, [c] + rest) && rest != []
    ensures j + 1 < |s| && s[j] == c && s[j + 1] == rest[0] && At(s, j + 1, rest)
  {
    AtIndex(s, j, [c] + rest, 0);
    AtIndex(s, j, [c] + rest, 1);
    AtSplit(s, j, [c], rest);
  }

  /** Scanning over the text of a comment body leaves one level of nesting. */
  lemma {:induction false} CommentCloses(s: string, j: nat, depth: nat, c: Comment)
    requires At(s, j, c.Text()) && c.Proper()
    ensures BlockEnd(s, j, depth + 1) == BlockEnd(s, j + |c.Text()|, depth)
    decreases c
  {
    hide BlockEnd, At;
    AtIndex(s, j, c.Text(), 0);
    BlockStep(s, j, depth);
    match c
    case Close =>
      AtIndex(s, j, "*/", 1);
    case Plain(ch, rest) =>
      PlainSplit(s, j, ch, rest.Text());
      CommentCloses(s, j + 1, depth, rest);
    case Inner(inner, rest) =>
      OpenerSplit(s, j, inner.Text(), rest.Text());
      CommentCloses(s, j + 2, depth + 1, inner);
      CommentCloses(s, j + 2 + |inner.Text()|, depth, rest);
  }

  /** A block comment, however deeply comments nest in it, is masked exactly to its own closer. */
  lemma BlockCommentForm(s: string, i: nat, c: Comment)
    requires At(s, i, "/*" + c.Text()) && c.Proper()
    ensures StepAt(s, i) == Blank(i + 2 + |c.Text()|)
  {
    AtSplit(s, i, "/*", c.Text());
    AtIndex(s, i, "/*", 0);
    AtIndex(s, i, "/*", 1);
    CommentCloses(s, i + 2, 0, c);
  }

  // ----- String literals

  /** A piece of a string literal: an ordinary character, or a backslash and whatever follows it. */
  datatype Piece = Ordinary(c: char) | Escape(c: char) {
    function Text(): (t: string) {
      if Ordinary? then [c] else ['\\', c]
    }

    predicate Proper() {
      Ordinary? ==> c != '"' && c != '\\'
    }
  }

  function PiecesText(ps: seq<Piece>): (t: string) {
    if ps == [] then [] else ps[0].Text() + PiecesText(ps[1..])
  }

  lemma {:induction false} StringCloses(s: string, j: nat, ps: seq<Piece>)
    requires At(s, j, PiecesText(ps) + "\"")
    requires forall k :: 0 <= k < |ps| ==> ps[k].Proper()
    ensures StringEnd(s, j) == j + |PiecesText(ps)| + 1
    decreases |ps|
  {
    hide At;
    if ps == [] {
      AtIndex(s, j, PiecesText(ps) + "\"", 0);
    } else {
      Concat3(ps[0].Text(), PiecesText(ps[1..]), "\"");
      AtSplit(s, j, ps[0].Text(), PiecesText(ps[1..]) + "\"");
      AtIndex(s, j, ps[0].Text(), 0);
      StringCloses(s, j + |ps[0].Text()|, ps[1..]);
    }
  }

  /** A string literal is masked exactly to its closing quote, past every escape. */
  lemma StringForm(s: string, i: nat, ps: seq<Piece>)
    requires At(s, i, "\"" + (PiecesText(ps) + "\""))
    requires forall k :: 0 <= k < |ps| ==> ps[k].Proper()
    ensures StepAt(s, i) == Blank(i + |PiecesText(ps)| + 2)
  {
    AtSplit(s, i, "\"", PiecesText(ps) + "\"");
    AtIndex(s, i, "\"", 0);
    StringCloses(s, i + 1, ps);
  }

  // ----- Raw literals

  lemma {:induction false} HashesEnd(s: string, j: nat, q: nat)
    requires j <= q < |s| && s[q] != '#'
    requires forall k :: j <= k < q ==> s[k] == '#'
    ensures HashEnd(s, j) == q
    decreases q - j
  {
    if j < q {
      HashesEnd(s, j + 1, q);
    }
  }

  lemma {:induction false} FindTextIs(s: string, pat: string, from: nat, at: nat)
    requires from <= at && StartsAt(s, at, pat)
    requires forall k :: from <= k < at ==> !StartsAt(s, k, pat)
    ensures FindText(s, pat, from) == Some(at)
    decreases at - from
  {
    if from < at {
      FindTextIs(s, pat, from + 1, at);
    }
  }

  /** A raw literal ends at the first quote followed by as many hashes as opened it. */
  lemma RawForm(s: string, raw: nat, quote: nat, at: nat)
    requires raw <= quote < at < |s| && s[quote] == '"'
    requires forall k :: raw <= k < quote ==> s[k] == '#'
    requires StartsAt(s, at, ['"'] + s[raw..quote])
    requires forall k :: quote < k < at ==> !StartsAt(s, k, ['"'] + s[raw..quote])
    ensures raw >= 1 && s[raw - 1] == 'r' ==> StepAt(s, raw - 1) == Blank(at + 1 + (quote - raw))
    ensures raw >= 2 && Pair(s, raw - 2, 'b', 'r') ==> StepAt(s, raw - 2) == Blank(at + 1 + (quote - raw))
  {
    hide HashEnd, FindText;
    HashesEnd(s, raw, quote);
    FindTextIs(s, ['"'] + s[raw..quote], quote + 1, at);
  }

  // ----- Char literals

  /** A one-character literal is masked whole, and a lifetime is left alone. */
  lemma PlainCharForm(s: string, i: nat)
    requires i + 1 < |s| && s[i] == '\'' && s[i + 1] != '\\'
    ensures StepAt(s, i) == if i + 2 < |s| && s[i + 2] == '\'' then Blank(i + 3) else Keep
  {
  }

  /**
   * An escaped char literal that closes on its line is masked whole if and only if the escaped
   * character is not itself a quote; for that one the scanner stops a character early.
   */
  lemma EscapedCharForm(s: string, i: nat, close: nat)
    requires i + 3 <= close < |s| && s[i] == '\'' && s[i + 1] == '\\' && s[close] == '\''
    requires forall k :: i + 3 <= k < close ==> s[k] != '\''
    requires forall k :: i + 1 <= k < close ==> s[k] != '\n'
    ensures StepAt(s, i) == Blank(close + 1) <==> s[i + 2] != '\''
    ensures s[i + 2] == '\'' ==> StepAt(s, i) == Blank(i + 3)
  {
    hide Find;
    FindIs(s, '\'', i + 3, close);
    if Find(s, '\n', i + 1).Some? {
      FindIsFirst(s, '\n', i + 1);
    }
  }

  /**
   * What that costs: in an escaped quote, a comma, a double-quote literal and an `x`, the comma
   * and the `x` are code, yet the mask blanks everything.
   */
  lemma EscapedQuoteSwallowsCode()
    ensures Mask("'\\'','\"'x") == "         "
  {
    var s := "'\\'','\"'x";
    assert StepAt(s, 0) == Blank(3);
    assert StepAt(s, 3) == Blank(6);
    assert StepAt(s, 6) == Blank(9) by {
      assert StringEnd(s, 9) == 9;
      assert StringEnd(s, 8) == 9;
      assert StringEnd(s, 7) == 9;
    }
    assert MaskFrom(s, 9) == [];
    assert MaskFrom(s, 6) == "   ";
    assert MaskFrom(s, 3) == "      ";
  }
}
