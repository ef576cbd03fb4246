/**
 * What the lexer's stream says about the text (src/lexer.rs): blanks and
 * comments leave no trace, the stream ends in exactly one end-of-file token,
 * and every other token spells out the characters it was read from.
 */
module LexerFacts {
  import opened Wrappers
  import opened CodeLocations
  import opened Tokens
  import opened Lexer
  import Diagnostics

  // ---------------------------------------------------------------------
  // Blanks and comments
  // ---------------------------------------------------------------------

  /**
   * `text[p..q]` is made of blanks and of comments that each end at a line
   * break before `q`.
   */
  predicate Skippable(text: string, p: nat, q: nat)
    requires p <= q <= |text|
    decreases q - p
  {
    p == q
    || (IsIgnored(text[p]) && Skippable(text, p + 1, q))
    || (text[p] == '#' && CommentEnd(text, p + 1).Some? && CommentEnd(text, p + 1).value <= q
        && Skippable(text, CommentEnd(text, p + 1).value, q))
  }

  /** Blanks and finished comments produce neither tokens nor diagnostics. */
  lemma {:induction false} SkippableLeavesNoTrace(text: string, path: string, p: nat, q: nat)
    requires p <= q <= |text| && Skippable(text, p, q)
    ensures LexFrom(text, path, p) == LexFrom(text, path, q)
    decreases q - p
  {
    if p == q {
    } else if IsIgnored(text[p]) && Skippable(text, p + 1, q) {
      SkippableLeavesNoTrace(text, path, p + 1, q);
    } else {
      SkippableLeavesNoTrace(text, path, CommentEnd(text, p + 1).value, q);
    }
  }

  /** A comment that runs to the end of the file ends the stream there. */
  lemma UnfinishedCommentEndsStream(text: string, path: string, p: nat)
    requires p < |text| && text[p] == '#'
    requires forall k :: p < k < |text| ==> text[k] != '\n' && text[k] != '\r'
    ensures LexFrom(text, path, p) == Lexed([Eof(path)], [])
  {
    CommentRunsOut(text, p + 1);
  }

  lemma {:induction false} CommentRunsOut(text: string, p: nat)
    requires p <= |text|
    requires forall k :: p <= k < |text| ==> text[k] != '\n' && text[k] != '\r'
    ensures CommentEnd(text, p).None?
    decreases |text| - p
  {
    if p < |text| {
      CommentRunsOut(text, p + 1);
    }
  }

  // ---------------------------------------------------------------------
  // One read
  // ---------------------------------------------------------------------

  /** `text[p..e]` is a whole run of word characters starting with a letter or digit. */
  predicate WholeWord(text: string, p: nat, e: nat)
    requires p < e <= |text|
  {
    IsAlphanumeric(text[p])
    && (forall k :: p <= k < e ==> IsWordChar(text[k]))
    && (e == |text| || !IsWordChar(text[e]))
  }

  /** The token type a read of `text[p..e]` may give, with the characters it stands for. */
  predicate Spells(text: string, p: nat, e: nat, t: TokenType)
    requires p < e <= |text|
  {
    match t
    case Integer(n) =>
      AllDigits(text[p..e]) && n == DecimalValue(text[p..e]) && (e == |text| || !IsDigit(text[e]))
    case Identifier(w) =>
      !IsDigit(text[p]) && WholeWord(text, p, e) && w == text[p..e] && KeywordOf(w).None?
    case Keyword(_) =>
      !IsDigit(text[p]) && WholeWord(text, p, e) && KeywordOf(text[p..e]) == Some(t)
    case Atom(_) =>
      !IsDigit(text[p]) && WholeWord(text, p, e) && KeywordOf(text[p..e]) == Some(t)
    case Delimiter(_) =>
      !IsAlphanumeric(text[p]) && DelimOf(text[p..e]) == Some(t) && (e == |text| || DelimOf(text[p..e + 1]).None?)
    case _ => false
  }

  /** The diagnostic a read of `text[p..e]` may give instead of a token. */
  predicate Rejects(text: string, path: string, p: nat, e: nat, d: Diagnostics.Diagnostic)
    requires p < e <= |text|
  {
    (AllDigits(text[p..e]) && e == DigitsEnd(text, p) && DecimalValue(text[p..e]) >= USIZE_MODULUS
     && d == Diagnostics.ErrorAt(OverflowMessage, Some(WithSection(path, p, e))))
    || (!IsAlphanumeric(text[p]) && e == p + 1 && DelimOf(text[p..e]).None?
        && d == Diagnostics.ErrorAt("Invalid delimitor", Some(WithSection(path, p, e))))
  }

  lemma DigitsSlice(text: string, p: nat)
    requires p <= |text|
    ensures AllDigits(text[p..DigitsEnd(text, p)])
  {
    var e := DigitsEnd(text, p);
    forall i | 0 <= i < e - p
      ensures IsDigit(text[p..e][i])
    {
      assert text[p..e][i] == text[p + i];
    }
  }

  /**
   * Every read spells its token out of the characters it covers, located
   * over exactly those characters, or reports an overflowing numeral or a
   * character that starts no delimiter.
   */
  lemma TextAtSpells(text: string, path: string, p: nat)
    requires p < |text|
    ensures var r := TextAt(text, path, p);
      r.ReadToken? ==> r.token.codeLocation == WithSection(path, p, r.next) && Spells(text, p, r.next, r.token.tokenType)
    ensures var r := TextAt(text, path, p);
      r.ReadError? ==> Rejects(text, path, p, r.next, r.diagnostic)
  {
    if IsDigit(text[p]) {
      DigitsSlice(text, p);
    } else if IsAlphanumeric(text[p]) {
      var e := WordEnd(text, p);
      match KeywordOf(text[p..e])
      case Some(t) =>
        assert t.Keyword? || t.Atom?;
      case None =>
    } else {
      var e := DelimEnd(text, p, p);
      if e == p {
        assert text[p..p + 1] == text[p..e + 1];
      }
    }
  }

  // ---------------------------------------------------------------------
  // The whole stream
  // ---------------------------------------------------------------------

  lemma TextAtNeverEof(text: string, path: string, p: nat)
    requires p < |text|
    ensures TextAt(text, path, p).ReadToken? ==> !TextAt(text, path, p).token.tokenType.EOF?
  {
    TextAtSpells(text, path, p);
  }

  /** The stream ends with the one end-of-file token, and no token before it is one. */
  lemma {:induction false} LexEndsWithEof(text: string, path: string, p: nat)
    requires p <= |text|
    ensures |LexFrom(text, path, p).tokens| >= 1
    ensures LexFrom(text, path, p).tokens[|LexFrom(text, path, p).tokens| - 1] == Eof(path)
    ensures forall i :: 0 <= i < |LexFrom(text, path, p).tokens| - 1 ==> !LexFrom(text, path, p).tokens[i].tokenType.EOF?
    decreases |text| - p
  {
    if p == |text| {
    } else if text[p] == '#' {
      match CommentEnd(text, p + 1)
      case None =>
      case Some(q) =>
        LexEndsWithEof(text, path, q);
    } else if IsIgnored(text[p]) {
      LexEndsWithEof(text, path, p + 1);
    } else {
      var r := TextAt(text, path, p);
      LexEndsWithEof(text, path, r.next);
      TextAtNeverEof(text, path, p);
      var rest := LexFrom(text, path, r.next).tokens;
      if r.ReadToken? {
        assert LexFrom(text, path, p).tokens == [r.token] + rest;
        forall i | 0 <= i < |rest|
          ensures ([r.token] + rest)[i + 1] == rest[i]
        {
        }
      }
    }
  }

  // ---------------------------------------------------------------------
  // Delimiters
  // ---------------------------------------------------------------------

  /**
   * The greedy delimiter read stops after two characters, and reaches two
   * only through a one-character delimiter.
   */
  lemma DelimEndShort(text: string, p: nat)
    requires p < |text|
    ensures var e := DelimEnd(text, p, p);
      e <= p + 2 && (e == p + 2 ==> DelimOf(text[p..p + 1]).Some?)
  {
    if DelimOf(text[p..p + 1]).Some? && p + 1 < |text| && DelimOf(text[p..p + 2]).Some? && p + 2 < |text| {
      assert DelimOf(text[p..p + 3]).None?;
    }
  }

  /**
   * `->` is in the delimiter table but `-` is not, so the greedy read never
   * gets to it: no token of the stream is a thin arrow.
   */
  lemma {:induction false} ThinArrowNeverLexed(text: string, path: string, p: nat)
    requires p <= |text|
    ensures forall t :: t in LexFrom(text, path, p).tokens ==> t.tokenType != Delimiter(ThinArrowRight)
    decreases |text| - p
  {
    if p == |text| {
    } else if text[p] == '#' {
      match CommentEnd(text, p + 1)
      case None =>
      case Some(q) =>
        ThinArrowNeverLexed(text, path, q);
    } else if IsIgnored(text[p]) {
      ThinArrowNeverLexed(text, path, p + 1);
    } else {
      var r := TextAt(text, path, p);
      ThinArrowNeverLexed(text, path, r.next);
      if !IsDigit(text[p]) && !IsAlphanumeric(text[p]) {
        DelimEndShort(text, p);
        var e := DelimEnd(text, p, p);
        if e == p + 2 {
          assert text[p..p + 1] == [text[p]];
        }
      }
    }
  }

  /** `::` and `=>` are read as one token each. */
  lemma PairsReadWhole(path: string)
    ensures LexFrom("::", path, 0).tokens == [Token(WithSection(path, 0, 2), Delimiter(DoubleColon)), Eof(path)]
    ensures LexFrom("=>", path, 0).tokens == [Token(WithSection(path, 0, 2), Delimiter(ThickArrowRight)), Eof(path)]
  {
    assert "::"[0..1] == [':'] && "::"[0..2] == [':', ':'];
    assert "=>"[0..1] == ['='] && "=>"[0..2] == ['=', '>'];
  }

  /** `->` gives two "Invalid delimitor" diagnostics, one per character, and no token. */
  lemma ThinArrowRejected(path: string)
    ensures LexFrom("->", path, 0) == Lexed([Eof(path)], [
      Diagnostics.ErrorAt("Invalid delimitor", Some(WithSection(path, 0, 1))),
      Diagnostics.ErrorAt("Invalid delimitor", Some(WithSection(path, 1, 2)))])
  {
    assert "->"[0..1] == ['-'] && "->"[1..2] == ['>'];
  }
}
