/**
 * Properties of the parser's functions (src/compiler/parser.rs) that relate
 * a whole input shape to its outcome.
 */
module ParsingFacts {
  import opened Wrappers
  import opened CodeLocations
  import opened Tokens
  import opened BlockParser
  import Diagnostics
  import S = Syntax
  import opened Parsing

  /** A token item of the given type. */
  function TokenItem(location: CodeLocation, tokenType: TokenType): TokenBlock
  {
    TokenBlock.Token(Tokens.Token(location, tokenType))
  }

  /**
   * `super name = n` with a name already in use: one error at the name, and
   * the supers are left as they were.
   */
  lemma SuperDuplicateReported(at: CodeLocation, name: string, n: Usize, items: seq<TokenBlock>, supers: map<string, Usize>, log: Log)
    requires |items| >= 3 && items[0] == TokenItem(at, Identifier(name))
    requires KindOf(items[1]) == TokenKind(Delimiter(Equals)) && KindOf(items[2]) == TokenKind(Integer(n))
    requires name in supers
    ensures ParseSuper(items, supers, log)
         == Supered(items[3..], supers, log + [Diagnostics.ErrorAt("The name of this super is already in use", Some(at))])
  {
    assert items[1..][1..][1..] == items[3..];
  }

  /** `super name = n` with a new name: it is recorded with value `n`, without diagnostics. */
  lemma SuperRecorded(at: CodeLocation, name: string, n: Usize, items: seq<TokenBlock>, supers: map<string, Usize>, log: Log)
    requires |items| >= 3 && items[0] == TokenItem(at, Identifier(name))
    requires KindOf(items[1]) == TokenKind(Delimiter(Equals)) && KindOf(items[2]) == TokenKind(Integer(n))
    requires name !in supers
    ensures ParseSuper(items, supers, log) == Supered(items[3..], supers[name := n], log)
  {
    assert items[1..][1..][1..] == items[3..];
  }

  /**
   * `parse_super` panics exactly when it runs out of items: at once, or
   * after a name that converts.
   */
  lemma SuperPanicsWhenShort(items: seq<TokenBlock>, supers: map<string, Usize>, log: Log)
    ensures ParseSuper(items, supers, log).Panicked? <==> items == [] || (IsIdentifier(items[0]) && |items| < 3)
  {
    if items != [] && IsIdentifier(items[0]) && |items| >= 3 {
      assert items[1..] != [] && items[1..][1..] != [];
    }
  }

  /**
   * A `;` inside a code block is dropped with a warning at the item after
   * it; a `;` with nothing after it makes the whole block fail.
   */
  lemma SemicolonSkipped(semicolon: TokenBlock, items: seq<TokenBlock>, end: Option<CodeLocation>, acc: seq<S.CodeSyntax>, log: Log)
    requires KindOf(semicolon) == TokenKind(Delimiter(Semicolon))
    ensures items == [] ==> CodeBlockFrom([semicolon] + items, end, acc, log).value.None?
    ensures items != [] ==>
              CodeBlockFrom([semicolon] + items, end, acc, log)
              == CodeBlockFrom(items, end, acc, log + [Diagnostics.Diagnostic(Diagnostics.Warning, "Unneeded semicolon", Some(LocationOf(items[0])))])
  {
    assert ([semicolon] + items)[1..] == items;
  }

  /**
   * A statement followed by `;` and more: the statement is kept, and the
   * block goes on after the `;` with one warning.
   */
  lemma StatementThenSemicolon(items: seq<TokenBlock>, end: Option<CodeLocation>, acc: seq<S.CodeSyntax>, log: Log)
    requires items != [] && KindOf(items[0]) != TokenKind(Delimiter(Semicolon))
    requires var st := ParseStatement(items, end, log);
      st.value.Some? && |st.rest| >= 2 && KindOf(st.rest[0]) == TokenKind(Delimiter(Semicolon))
    ensures var st := ParseStatement(items, end, log);
      CodeBlockFrom(items, end, acc, log)
      == CodeBlockFrom(st.rest[1..], end, acc + [st.value.value],
                       st.log + [Diagnostics.Diagnostic(Diagnostics.Warning, "Unneeded semicolon", Some(LocationOf(st.rest[1])))])
  {
    var st := ParseStatement(items, end, log);
    assert [st.rest[0]] + st.rest[1..] == st.rest;
    SemicolonSkipped(st.rest[0], st.rest[1..], end, acc + [st.value.value], st.log);
  }

  /**
   * `if (x) { } else { }` with a variable as the condition parses to an
   * `IfElse` on that variable with two empty branches, and nothing else is
   * consumed or reported.
   */
  lemma IfElseOfVariable(keyword: TokenBlock, at: CodeLocation, x: string, cond: Block, t: Block, elseItem: TokenBlock, f: Block,
                         rest: seq<TokenBlock>, end: Option<CodeLocation>, log: Log)
    requires cond.braceType == Round && cond.body == [TokenItem(at, Identifier(x))]
    requires t.braceType == Curly && t.body == [] && f.braceType == Curly && f.body == []
    requires KindOf(elseItem) == TokenKind(Keyword(Else))
    ensures var items := [keyword, TokenBlock.Block(cond), TokenBlock.Block(t), elseItem, TokenBlock.Block(f)] + rest;
      IfStatement(items, end, log) == Step(Some(S.IfElse(S.Variable(FromValue(x)), [], [])), rest, log)
  {
    var items := [keyword, TokenBlock.Block(cond), TokenBlock.Block(t), elseItem, TokenBlock.Block(f)] + rest;
    assert items[1..][1..] == [TokenBlock.Block(t), elseItem, TokenBlock.Block(f)] + rest;
    assert items[1..][1..][1..][1..] == [TokenBlock.Block(f)] + rest;
    assert ([TokenBlock.Block(f)] + rest)[1..] == rest;
    assert IdentifierExpression(cond.body, CloseLocation(cond), log) == Step(Some(S.Variable(FromValue(x))), [], log);
    assert ParseExpression(cond.body, CloseLocation(cond), log) == Step(Some(S.Variable(FromValue(x))), [], log);
    var afterElse := [TokenBlock.Block(f)] + rest;
    assert ElseBranch(S.Variable(FromValue(x)), [], afterElse, end, log) == Step(Some(S.IfElse(S.Variable(FromValue(x)), [], [])), rest, log);
    var trueBlock := ExpectBlock(items[1..][1..], end, "code block", Curly, log);
    assert IntoBlockTypeOrError(TokenBlock.Block(t), Curly).errors == [];
    assert trueBlock == Step(Some(t), [elseItem] + afterElse, log);
    assert CodeBlockFrom(t.body, CloseLocation(t), [], log) == Step(Some([]), [], log);
    assert ([elseItem] + afterElse)[1..] == afterElse;
    assert IfBranches(S.Variable(FromValue(x)), items[1..][1..], end, log) == Step(Some(S.IfElse(S.Variable(FromValue(x)), [], [])), rest, log);
  }
}
