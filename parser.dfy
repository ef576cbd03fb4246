/**
 * The parser object (src/compiler/parser.rs): it reads a stream of items,
 * reports problems to the shared compilation and collects the composite
 * types, problems, collections, solutions and supers it finds.
 *
 * Every method is proved against the function of the same name in
 * `Parsing`: the value it returns, what it leaves of the stream and what it
 * appends to the diagnostics are the function's.  Streams the source builds
 * over the body of a block are fresh `TypeStream`s here too.  A method that
 * continues a parse after the item that selected it takes that item as its
 * first parameter and is proved against the function applied to the item
 * followed by the rest of the stream.
 */
module Parser {
  import opened Wrappers
  import opened CodeLocations
  import opened Tokens
  import opened BlockParser
  import opened TypeStreams
  import Diagnostics
  import S = Syntax
  import P = Parsing

  class Parser {
    const compilation: Diagnostics.Compilation
    var compositeTypes: seq<S.CompositeTypeSyntax>
    var problems: seq<S.SubstructureSyntax>
    var collections: seq<S.CollectionSyntax>
    var solutions: map<string, S.SubCallSyntax>
    var supers: map<string, Usize>

    /** What the parser has collected so far. */
    function State(): (d: P.Declarations)
      reads this
      ensures d.compositeTypes == compositeTypes && d.problems == problems && d.collections == collections
      ensures d.solutions == solutions && d.supers == supers
    {
      P.Declarations(compositeTypes, problems, collections, solutions, supers)
    }

    /** The method returned `r`, left `ts` and the diagnostics as the parse `s` says. */
    ghost predicate Parsed<T>(ts: TypeStream<TokenBlock>, r: Option<T>, s: P.Step<T>)
      reads ts, compilation
    {
      ts.Valid() && r == s.value && ts.ToVec() == s.rest && compilation.diagnostics == s.log
    }

    /** `Parser::new`: nothing collected yet. */
    constructor (compilation: Diagnostics.Compilation)
      ensures this.compilation == compilation && State() == P.NoDeclarations
    {
      this.compilation := compilation;
      compositeTypes := [];
      problems := [];
      collections := [];
      solutions := map[];
      supers := map[];
    }

    /** `TypeStream::from_iter` over the body of a block, ending at its closing brace. */
    static method BodyStream(block: Block) returns (ts: TypeStream<TokenBlock>)
      ensures fresh(ts) && ts.Valid() && ts.ToVec() == block.body && ts.end == P.CloseLocation(block)
    {
      ts := new TypeStream<TokenBlock>.FromIter(block.body, P.CloseLocation(block));
    }

    // -------------------------------------------------------------------
    // `error_if_empty(..)?` followed by a conversion
    // -------------------------------------------------------------------

    method ExpectIdentifier(ts: TypeStream<TokenBlock>) returns (r: Option<LocationValue<string>>)
      requires ts.Valid()
      modifies ts, compilation
      ensures Parsed(ts, r, P.ExpectIdentifier(old(ts.ToVec()), ts.end, old(compilation.diagnostics)))
    {
      var ok := ts.ErrorIfEmpty(compilation, "identifier");
      if ok.None? {
        return None;
      }
      var item := ts.Next();
      var name := IntoIdentifierOrError(item);
      compilation.AddAll(name.errors);
      r := name.value;
    }

    method ExpectBlock(ts: TypeStream<TokenBlock>, expected: string, brace: Brace) returns (r: Option<Block>)
      requires ts.Valid()
      modifies ts, compilation
      ensures Parsed(ts, r, P.ExpectBlock(old(ts.ToVec()), ts.end, expected, brace, old(compilation.diagnostics)))
    {
      var ok := ts.ErrorIfEmpty(compilation, expected);
      if ok.None? {
        return None;
      }
      var item := ts.Next();
      var block := IntoBlockTypeOrError(item, brace);
      compilation.AddAll(block.errors);
      r := block.value;
    }

    // -------------------------------------------------------------------
    // Types and typed identifiers
    // -------------------------------------------------------------------

    method ParseType(ts: TypeStream<TokenBlock>) returns (r: Option<S.TypeSyntax>)
      requires ts.Valid()
      modifies ts, compilation
      ensures Parsed(ts, r, P.ParseType(old(ts.ToVec()), ts.end, old(compilation.diagnostics)))
    {
      var ok := ts.ErrorIfEmpty(compilation, "type");
      if ok.None? {
        return None;
      }
      var token: TokenBlock := ts.Next();
      var kind := KindOf(token);
      if kind.TokenKind? && kind.tokenType.Atom? && kind.tokenType.atom.Type? {
        r := Some(S.Atom(kind.tokenType.atom.atomType));
      } else if kind.TokenKind? && kind.tokenType.Identifier? {
        // `into_identifier_or_error` cannot fail on an identifier
        r := Some(S.Composite(Located(token, kind.tokenType.name)));
      } else {
        compilation.AddError("Expected type", Some(LocationOf(token)));
        r := None;
      }
    }

    /** One `type : name` entry of `parse_typed_identifiers`. */
    method TypedIdentifierEntry(ts: TypeStream<TokenBlock>) returns (r: Option<S.TypedIdentifierSyntax>)
      requires ts.Valid()
      modifies ts, compilation
      ensures Parsed(ts, r, P.TypedIdentifierEntry(old(ts.ToVec()), ts.end, old(compilation.diagnostics)))
    {
      var typeSyntax := ParseType(ts);
      if typeSyntax.None? {
        return None;
      }
      var ok := ts.ErrorIfEmpty(compilation, "colon");
      if ok.None? {
        return None;
      }
      var colonItem := ts.Next();
      var colon := AssertIsDelimiterOrError(colonItem, Colon);
      compilation.AddAll(colon.errors);
      if colon.value.None? {
        return None;
      }
      var name := ExpectIdentifier(ts);
      if name.None? {
        return None;
      }
      r := Some(S.TypedIdentifierSyntax(name.value, typeSyntax.value));
    }

    method ParseTypedIdentifiers(block: Block) returns (r: Option<seq<S.TypedIdentifierSyntax>>)
      modifies compilation
      ensures var s := P.TypedIdentifiers(block, old(compilation.diagnostics));
        r == s.value && compilation.diagnostics == s.log
    {
      var ts := BodyStream(block);
      var enumeration := [];
      ghost var log0 := compilation.diagnostics;
      while !ts.IsEmpty()
        invariant ts.Valid() && ts.end == P.CloseLocation(block)
        invariant P.TypedIdentifiersFrom(ts.ToVec(), ts.end, enumeration, compilation.diagnostics)
               == P.TypedIdentifiersFrom(block.body, ts.end, [], log0)
        decreases |ts.ToVec()|
      {
        var entry := TypedIdentifierEntry(ts);
        if entry.None? {
          return None;
        }
        enumeration := enumeration + [entry.value];
        if ts.IsEmpty() {
          return Some(enumeration);
        }
        var commaItem := ts.Next();
        var comma := AssertIsDelimiterOrError(commaItem, Comma);
        compilation.AddAll(comma.errors);
      }
      return Some(enumeration);
    }

    // -------------------------------------------------------------------
    // Expressions
    // -------------------------------------------------------------------

    method ParseExpression(ts: TypeStream<TokenBlock>) returns (r: Option<S.ExpressionSyntax>)
      requires ts.Valid()
      modifies ts, compilation
      ensures Parsed(ts, r, P.ParseExpression(old(ts.ToVec()), ts.end, old(compilation.diagnostics)))
      decreases P.SizeSeq(ts.ToVec()), 3
    {
      var ok := ts.ErrorIfEmpty(compilation, "expression");
      if ok.None? {
        return None;
      }
      ghost var items := ts.ToVec();
      var token: TokenBlock := ts.Next();
      assert [token] + ts.ToVec() == items;
      var kind := KindOf(token);
      if kind.TokenKind? && kind.tokenType.StringLit? {
        // `into_string_or_error` cannot fail on a string
        r := Some(S.String(Located(token, kind.tokenType.text)));
      } else if kind.TokenKind? && kind.tokenType.Atom? && kind.tokenType.atom.Type? {
        r := Some(S.Literal(FromValue(kind.tokenType.atom.atomType)));
      } else if kind.TokenKind? && kind.tokenType.Atom? {
        r := SubExpression(token, ts);
      } else if kind.TokenKind? && kind.tokenType.Identifier? {
        r := IdentifierExpression(token, ts);
      } else if kind == BlockKind(Round) {
        r := TupleExpression(token, ts);
      } else {
        compilation.AddError("Expected expression", Some(LocationOf(token)));
        r := None;
      }
    }

    /** The arms of `parse_expression` after an identifier, chosen by a look at the next item. */
    method IdentifierExpression(token: TokenBlock, ts: TypeStream<TokenBlock>) returns (r: Option<S.ExpressionSyntax>)
      requires P.IsIdentifier(token) && ts.Valid()
      modifies ts, compilation
      ensures Parsed(ts, r, P.IdentifierExpression([token] + old(ts.ToVec()), ts.end, old(compilation.diagnostics)))
      decreases P.SizeSeq([token] + ts.ToVec()), 2
    {
      ghost var items := [token] + ts.ToVec();
      assert items[1..] == ts.ToVec();
      var name := token.token.tokenType.name;
      var next := ts.Peek();
      if next.Some? && IsDoubleColon(KindOf(next.value)) {
        var call := StructureCall(token, ts);
        r := if call.Some? then Some(S.SubCall(call.value)) else None;
      } else if next.Some? && IsCurlyBlock(KindOf(next.value)) {
        r := ConstructorExpression(token, ts);
      } else if next.Some? && IsPeriod(KindOf(next.value)) {
        r := ChainExpression(S.Variable(FromValue(name)), ts);
      } else {
        r := Some(S.Variable(FromValue(name)));
      }
    }

    /** `structure :: sub application`, after the structure's name. */
    method StructureCall(token: TokenBlock, ts: TypeStream<TokenBlock>) returns (r: Option<S.SubCallSyntax>)
      requires ts.Valid() && P.StartsStructureCall([token] + ts.ToVec())
      modifies ts, compilation
      ensures Parsed(ts, r, P.StructureCall([token] + old(ts.ToVec()), ts.end, old(compilation.diagnostics)))
      decreases P.SizeSeq([token] + ts.ToVec()), 1
    {
      ghost var items := [token] + ts.ToVec();
      assert items[1..] == ts.ToVec();
      P.SizeSeqDrop(items, 2);
      ts.Skip();
      assert items[1..][1..] == ts.ToVec();
      var sub := ExpectIdentifier(ts);
      if sub.None? {
        return None;
      }
      var application := ParseExpression(ts);
      if application.None? {
        return None;
      }
      var location := S.Structure(FromValue(token.token.tokenType.name), sub.value);
      r := Some(S.SubCallSyntax(location, Some(application.value)));
    }

    /** `not` or `or` applied to the expression that follows. */
    method SubExpression(token: TokenBlock, ts: TypeStream<TokenBlock>) returns (r: Option<S.ExpressionSyntax>)
      requires token.Token? && token.token.tokenType.Atom? && token.token.tokenType.atom.Sub? && ts.Valid()
      modifies ts, compilation
      ensures Parsed(ts, r, P.SubExpression([token] + old(ts.ToVec()), ts.end, old(compilation.diagnostics)))
      decreases P.SizeSeq([token] + ts.ToVec()), 2
    {
      ghost var items := [token] + ts.ToVec();
      assert items[1..] == ts.ToVec();
      P.SizeSeqCons(token, ts.ToVec());
      var application := ParseExpression(ts);
      if application.None? {
        return None;
      }
      var location := S.AtomSub(FromValue(token.token.tokenType.atom.atomSub));
      r := Some(S.SubCall(S.SubCallSyntax(location, Some(application.value))));
    }

    /** `Type { field: value, .. }`, after the type's name. */
    method ConstructorExpression(token: TokenBlock, ts: TypeStream<TokenBlock>) returns (r: Option<S.ExpressionSyntax>)
      requires ts.Valid() && P.StartsConstructor([token] + ts.ToVec())
      modifies ts, compilation
      ensures Parsed(ts, r, P.ConstructorExpression([token] + old(ts.ToVec()), ts.end, old(compilation.diagnostics)))
      decreases P.SizeSeq([token] + ts.ToVec()), 1
    {
      ghost var items := [token] + ts.ToVec();
      assert items[1..] == ts.ToVec();
      P.SizeSeqCons(token, ts.ToVec());
      P.BlockBodySmaller(ts.ToVec());
      var item := ts.Next();
      // the look-ahead already saw a curly block, so neither check can fail
      var fields := ParseFieldAssign(item.block);
      if fields.None? {
        return None;
      }
      r := Some(S.CompositeConstructor(FromValue(token.token.tokenType.name), fields.value));
    }

    /** The `.` arm: each `.` and the integer or identifier after it wrap the chain so far. */
    method ChainExpression(base: S.ExpressionSyntax, ts: TypeStream<TokenBlock>) returns (r: Option<S.ExpressionSyntax>)
      requires ts.Valid()
      modifies ts, compilation
      ensures Parsed(ts, r, P.ChainFrom(old(ts.ToVec()), ts.end, base, old(compilation.diagnostics)))
    {
      var chain := base;
      while true
        invariant ts.Valid()
        invariant P.ChainFrom(ts.ToVec(), ts.end, chain, compilation.diagnostics)
               == P.ChainFrom(old(ts.ToVec()), ts.end, base, old(compilation.diagnostics))
        decreases |ts.ToVec()|
      {
        var next := ts.Peek();
        if !(next.Some? && KindOf(next.value) == TokenKind(Delimiter(Period))) {
          return Some(chain);
        }
        ts.Skip();
        var ok := ts.ErrorIfEmpty(compilation, "identifier");
        if ok.None? {
          return None;
        }
        var access := ts.Next();
        var kind := KindOf(access);
        if kind.TokenKind? && kind.tokenType.Integer? {
          chain := S.AccessIdx(chain, FromValue(kind.tokenType.integer));
        } else if kind.TokenKind? && kind.tokenType.Identifier? {
          chain := S.Access(chain, Located(access, kind.tokenType.name));
        } else {
          compilation.AddError("Expected integer or identifier", Some(LocationOf(access)));
          return None;
        }
      }
    }

    /** A round block: its comma-separated expressions as a tuple. */
    method TupleExpression(token: TokenBlock, ts: TypeStream<TokenBlock>) returns (r: Option<S.ExpressionSyntax>)
      requires P.IsRoundBlock(token) && ts.Valid()
      modifies ts, compilation
      ensures Parsed(ts, r, P.TupleExpression([token] + old(ts.ToVec()), ts.end, old(compilation.diagnostics)))
      decreases P.SizeSeq([token] + ts.ToVec()), 2
    {
      ghost var items := [token] + ts.ToVec();
      assert items[1..] == ts.ToVec();
      P.BlockBodySmaller(items);
      var elements := ParseTuple(token.block);
      r := Some(S.Tuple(elements));
    }

    /** The loop of the tuple arm over the block's own stream. */
    method ParseTuple(block: Block) returns (elements: seq<S.ExpressionSyntax>)
      modifies compilation
      ensures var s := P.TupleFrom(block.body, P.CloseLocation(block), [], old(compilation.diagnostics));
        Some(elements) == s.value && compilation.diagnostics == s.log
      decreases P.SizeSeq(block.body), 4
    {
      var ts := BodyStream(block);
      elements := [];
      ghost var log0 := compilation.diagnostics;
      while !ts.IsEmpty()
        invariant ts.Valid() && ts.end == P.CloseLocation(block)
        invariant P.SizeSeq(ts.ToVec()) <= P.SizeSeq(block.body)
        invariant P.TupleFrom(ts.ToVec(), ts.end, elements, compilation.diagnostics)
               == P.TupleFrom(block.body, ts.end, [], log0)
        decreases P.SizeSeq(ts.ToVec())
      {
        var element := ParseExpression(ts);
        if element.Some? {
          elements := elements + [element.value];
        }
        if ts.IsEmpty() {
          break;
        }
        P.SizeSeqDrop(ts.ToVec(), 1);
        var separator := ts.Next();
        if KindOf(separator) != TokenKind(Delimiter(Comma)) {
          compilation.AddError("Expected ) or ,", Some(LocationOf(separator)));
        }
      }
    }

    /** One `field : value` entry of `parse_field_assign`. */
    method FieldAssignEntry(ts: TypeStream<TokenBlock>) returns (r: Option<S.FieldAssignSyntax>)
      requires ts.Valid() && !ts.IsEmpty()
      modifies ts, compilation
      ensures Parsed(ts, r, P.FieldAssignEntry(old(ts.ToVec()), ts.end, old(compilation.diagnostics)))
      decreases P.SizeSeq(ts.ToVec()), 1
    {
      ghost var items := ts.ToVec();
      P.SizeSeqDrop(items, 1);
      var nameItem := ts.Next();
      var name := IntoIdentifierOrError(nameItem);
      compilation.AddAll(name.errors);
      if name.value.None? {
        return None;
      }
      var ok := ts.ErrorIfEmpty(compilation, ":");
      if ok.None? {
        return None;
      }
      P.SizeSeqDrop(ts.ToVec(), 1);
      var colonItem := ts.Next();
      var colon := AssertIsDelimiterOrError(colonItem, Colon);
      compilation.AddAll(colon.errors);
      var value := ParseExpression(ts);
      if value.None? {
        return None;
      }
      r := Some(S.FieldAssignSyntax(name.value.value, value.value));
    }

    method ParseFieldAssign(block: Block) returns (r: Option<seq<S.FieldAssignSyntax>>)
      modifies compilation
      ensures var s := P.FieldAssignFrom(block.body, P.CloseLocation(block), [], old(compilation.diagnostics));
        r == s.value && compilation.diagnostics == s.log
      decreases P.SizeSeq(block.body), 2
    {
      var ts := BodyStream(block);
      var fields := [];
      ghost var log0 := compilation.diagnostics;
      while !ts.IsEmpty()
        invariant ts.Valid() && ts.end == P.CloseLocation(block)
        invariant P.SizeSeq(ts.ToVec()) <= P.SizeSeq(block.body)
        invariant P.FieldAssignFrom(ts.ToVec(), ts.end, fields, compilation.diagnostics)
               == P.FieldAssignFrom(block.body, ts.end, [], log0)
        decreases P.SizeSeq(ts.ToVec())
      {
        var entry := FieldAssignEntry(ts);
        if entry.None? {
          return None;
        }
        fields := fields + [entry.value];
        if ts.IsEmpty() {
          return Some(fields);
        }
        P.SizeSeqDrop(ts.ToVec(), 1);
        var commaItem := ts.Next();
        var comma := AssertIsDelimiterOrError(commaItem, Comma);
        compilation.AddAll(comma.errors);
      }
      return Some(fields);
    }

    // -------------------------------------------------------------------
    // Statements and code blocks
    // -------------------------------------------------------------------

    method ParseCodeBlock(block: Block) returns (r: Option<seq<S.CodeSyntax>>)
      modifies compilation
      ensures var s := P.CodeBlock(block, old(compilation.diagnostics));
        r == s.value && compilation.diagnostics == s.log
      decreases P.SizeSeq(block.body), 4
    {
      var ts := BodyStream(block);
      var code := [];
      ghost var log0 := compilation.diagnostics;
      while true
        invariant ts.Valid() && ts.end == P.CloseLocation(block)
        invariant P.SizeSeq(ts.ToVec()) <= P.SizeSeq(block.body)
        invariant P.CodeBlockFrom(ts.ToVec(), ts.end, code, compilation.diagnostics)
               == P.CodeBlockFrom(block.body, ts.end, [], log0)
        decreases P.SizeSeq(ts.ToVec())
      {
        var next := ts.Peek();
        if next.None? {
          return Some(code);
        }
        if KindOf(next.value) == TokenKind(Delimiter(Semicolon)) {
          P.SizeSeqDrop(ts.ToVec(), 1);
          ts.Skip();
          var after := ts.Peek();
          if after.None? {
            return None;
          }
          compilation.AddWarning("Unneeded semicolon", Some(LocationOf(after.value)));
        } else {
          var statement := ParseStatement(ts);
          if statement.Some? {
            code := code + [statement.value];
          }
        }
      }
    }

    method ParseStatement(ts: TypeStream<TokenBlock>) returns (r: Option<S.CodeSyntax>)
      requires ts.Valid()
      modifies ts, compilation
      ensures Parsed(ts, r, P.ParseStatement(old(ts.ToVec()), ts.end, old(compilation.diagnostics)))
      decreases P.SizeSeq(ts.ToVec()), 2
    {
      var ok := ts.ErrorIfEmpty(compilation, "statement");
      if ok.None? {
        return None;
      }
      ghost var items := ts.ToVec();
      var statement: TokenBlock := ts.Next();
      assert [statement] + ts.ToVec() == items;
      var kind := KindOf(statement);
      var next := ts.Peek();
      if kind == TokenKind(Keyword(If)) {
        r := IfStatement(statement, ts);
      } else if kind == TokenKind(Keyword(Let)) {
        r := LetStatement(statement, ts);
      } else if kind == TokenKind(Keyword(Force)) {
        r := ForceStatement(statement, ts);
      } else if kind == TokenKind(Keyword(Output)) {
        P.SizeSeqCons(statement, ts.ToVec());
        var expression := ParseExpression(ts);
        r := if expression.Some? then Some(S.Output(expression.value)) else None;
      } else if kind.TokenKind? && kind.tokenType.Identifier? && next.Some? && IsDoubleColon(KindOf(next.value)) {
        var call := StructureCall(statement, ts);
        r := if call.Some? then Some(S.SubStatement(call.value)) else None;
      } else {
        compilation.AddError("Unexpected token", Some(LocationOf(statement)));
        r := None;
      }
    }

    /** `force value => type`, after the keyword. */
    method ForceStatement(ghost keyword: TokenBlock, ts: TypeStream<TokenBlock>) returns (r: Option<S.CodeSyntax>)
      requires ts.Valid()
      modifies ts, compilation
      ensures Parsed(ts, r, P.ForceStatement([keyword] + old(ts.ToVec()), ts.end, old(compilation.diagnostics)))
      decreases P.SizeSeq([keyword] + ts.ToVec()), 1
    {
      assert ([keyword] + ts.ToVec())[1..] == ts.ToVec();
      P.SizeSeqCons(keyword, ts.ToVec());
      var value := ParseExpression(ts);
      if value.None? {
        return None;
      }
      var ok := ts.ErrorIfEmpty(compilation, "=>");
      if ok.None? {
        return None;
      }
      var arrowItem := ts.Next();
      var arrow := AssertIsDelimiterOrError(arrowItem, ThickArrowRight);
      compilation.AddAll(arrow.errors);
      var typeSyntax := ParseType(ts);
      r := if typeSyntax.Some? then Some(S.Force(value.value, typeSyntax.value)) else None;
    }

    /** `let name = value`, after the keyword. */
    method LetStatement(ghost keyword: TokenBlock, ts: TypeStream<TokenBlock>) returns (r: Option<S.CodeSyntax>)
      requires ts.Valid()
      modifies ts, compilation
      ensures Parsed(ts, r, P.LetStatement([keyword] + old(ts.ToVec()), ts.end, old(compilation.diagnostics)))
      decreases P.SizeSeq([keyword] + ts.ToVec()), 1
    {
      assert ([keyword] + ts.ToVec())[1..] == ts.ToVec();
      P.SizeSeqCons(keyword, ts.ToVec());
      var variable := ExpectIdentifier(ts);
      if variable.None? {
        return None;
      }
      var ok := ts.ErrorIfEmpty(compilation, "=");
      if ok.None? {
        return None;
      }
      P.SizeSeqDrop(ts.ToVec(), 1);
      var equalsItem := ts.Next();
      var equals := AssertIsDelimiterOrError(equalsItem, Equals);
      compilation.AddAll(equals.errors);
      var value := ParseExpression(ts);
      r := if value.Some? then Some(S.Let(variable.value, value.value)) else None;
    }

    /** `if (condition)` and its branches, after the keyword. */
    method IfStatement(ghost keyword: TokenBlock, ts: TypeStream<TokenBlock>) returns (r: Option<S.CodeSyntax>)
      requires ts.Valid()
      modifies ts, compilation
      ensures Parsed(ts, r, P.IfStatement([keyword] + old(ts.ToVec()), ts.end, old(compilation.diagnostics)))
      decreases P.SizeSeq([keyword] + ts.ToVec()), 1
    {
      assert ([keyword] + ts.ToVec())[1..] == ts.ToVec();
      P.SizeSeqCons(keyword, ts.ToVec());
      var conditionBlock := ExpectBlock(ts, "code block", Round);
      if conditionBlock.None? {
        return None;
      }
      var conditionStream := BodyStream(conditionBlock.value);
      var condition := ParseExpression(conditionStream);
      if condition.None? {
        return None;
      }
      if !conditionStream.IsEmpty() {
        var leftover := conditionStream.Next();
        compilation.AddError("Unexpected token", Some(LocationOf(leftover)));
      }
      r := IfBranches(condition.value, ts);
    }

    /** The `{ .. }` branch and an optional `else { .. }` branch of an `if`. */
    method IfBranches(condition: S.ExpressionSyntax, ts: TypeStream<TokenBlock>) returns (r: Option<S.CodeSyntax>)
      requires ts.Valid()
      modifies ts, compilation
      ensures Parsed(ts, r, P.IfBranches(condition, old(ts.ToVec()), ts.end, old(compilation.diagnostics)))
      decreases P.SizeSeq(ts.ToVec()), 1
    {
      var trueBlock := ExpectBlock(ts, "code block", Curly);
      if trueBlock.None? {
        return None;
      }
      var conditionTrue := ParseCodeBlock(trueBlock.value);
      var trueCode := conditionTrue.UnwrapOr([]);
      var next := ts.Peek();
      if next.Some? && KindOf(next.value) == TokenKind(Keyword(Else)) {
        P.SizeSeqDrop(ts.ToVec(), 1);
        ts.Skip();
        r := ElseBranch(condition, trueCode, ts);
      } else {
        r := Some(S.If(condition, trueCode));
      }
    }

    /** The `{ .. }` after `else`. */
    method ElseBranch(condition: S.ExpressionSyntax, trueCode: seq<S.CodeSyntax>, ts: TypeStream<TokenBlock>)
      returns (r: Option<S.CodeSyntax>)
      requires ts.Valid()
      modifies ts, compilation
      ensures Parsed(ts, r, P.ElseBranch(condition, trueCode, old(ts.ToVec()), ts.end, old(compilation.diagnostics)))
      decreases P.SizeSeq(ts.ToVec()), 0
    {
      var falseBlock := ExpectBlock(ts, "code block", Curly);
      if falseBlock.None? {
        return None;
      }
      var conditionFalse := ParseCodeBlock(falseBlock.value);
      r := Some(S.IfElse(condition, trueCode, conditionFalse.UnwrapOr([])));
    }

    // -------------------------------------------------------------------
    // Subs, collections, composites, solutions, supers
    // -------------------------------------------------------------------

    /** `parse_sub`, after the `sub` keyword. */
    method ParseSub(ts: TypeStream<TokenBlock>) returns (r: Option<S.SubstructureSyntax>)
      requires ts.Valid()
      modifies ts, compilation
      ensures Parsed(ts, r, P.ParseSub(old(ts.ToVec()), ts.end, old(compilation.diagnostics)))
    {
      var name := ExpectIdentifier(ts);
      if name.None? {
        return None;
      }
      var argsBlock := ExpectBlock(ts, "args", Round);
      if argsBlock.None? {
        return None;
      }
      var args := ParseTypedIdentifiers(argsBlock.value);
      if args.None? {
        return None;
      }
      r := SubBody(name.value, args.value, ts);
    }

    /** The code block of a sub and its optional `= result`. */
    method SubBody(name: LocationValue<string>, args: seq<S.TypedIdentifierSyntax>, ts: TypeStream<TokenBlock>)
      returns (r: Option<S.SubstructureSyntax>)
      requires ts.Valid()
      modifies ts, compilation
      ensures Parsed(ts, r, P.SubBody(name, args, old(ts.ToVec()), ts.end, old(compilation.diagnostics)))
    {
      var codeBlock := ExpectBlock(ts, "code block", Curly);
      if codeBlock.None? {
        return None;
      }
      var code := ParseCodeBlock(codeBlock.value);
      if code.None? {
        return None;
      }
      var result: Option<S.ExpressionSyntax> := None;
      var next := ts.Peek();
      if next.Some? && KindOf(next.value) == TokenKind(Delimiter(Equals)) {
        ts.Skip();
        result := ParseExpression(ts);
      }
      r := Some(S.SubstructureSyntax(name, args, code.value, result));
    }

    /** `parse_sub_collection`: the subs found in the block, in order. */
    method ParseSubCollection(block: Block) returns (subs: seq<S.SubstructureSyntax>)
      modifies compilation
      ensures var s := P.SubCollection(block, old(compilation.diagnostics));
        Some(subs) == s.value && compilation.diagnostics == s.log
    {
      var ts := BodyStream(block);
      subs := [];
      ghost var log0 := compilation.diagnostics;
      while !ts.IsEmpty()
        invariant ts.Valid() && ts.end == P.CloseLocation(block)
        invariant P.SubCollectionFrom(ts.ToVec(), ts.end, subs, compilation.diagnostics)
               == P.SubCollectionFrom(block.body, ts.end, [], log0)
        decreases P.SizeSeq(ts.ToVec())
      {
        P.SizeSeqDrop(ts.ToVec(), 1);
        var current := ts.Next();
        if KindOf(current) == TokenKind(Keyword(SubStructure)) {
          var sub := ParseSub(ts);
          if sub.Some? {
            subs := subs + [sub.value];
          }
        } else {
          compilation.AddError("Unexpected token within collection", Some(LocationOf(current)));
        }
      }
    }

    /** `parse_problem`: the subs of the block are appended to the problems. */
    method ParseProblem(block: Block)
      modifies this`problems, compilation
      ensures var s := P.SubCollection(block, old(compilation.diagnostics));
        problems == old(problems) + s.value.value && compilation.diagnostics == s.log
    {
      var subs := ParseSubCollection(block);
      problems := problems + subs;
    }

    /** `parse_collection`, after the keyword. */
    method ParseCollection(ts: TypeStream<TokenBlock>) returns (r: Option<S.CollectionSyntax>)
      requires ts.Valid()
      modifies ts, compilation
      ensures Parsed(ts, r, P.ParseCollection(old(ts.ToVec()), ts.end, old(compilation.diagnostics)))
    {
      var name := ExpectIdentifier(ts);
      if name.None? {
        return None;
      }
      var block := ExpectBlock(ts, "code block", Curly);
      if block.None? {
        return None;
      }
      var subs := ParseSubCollection(block.value);
      r := Some(S.CollectionSyntax(subs, name.value));
    }

    /** `parse_composite`, after the keyword: the composite type is appended when it parses. */
    method ParseComposite(ts: TypeStream<TokenBlock>) returns (r: Option<()>)
      requires ts.Valid()
      modifies this`compositeTypes, ts, compilation
      ensures var s := P.ParseComposite(old(ts.ToVec()), ts.end, old(compilation.diagnostics));
        ts.Valid() && ts.ToVec() == s.rest && compilation.diagnostics == s.log && (r.Some? <==> s.value.Some?) &&
        compositeTypes == if s.value.Some? then old(compositeTypes) + [s.value.value] else old(compositeTypes)
    {
      var name := ExpectIdentifier(ts);
      if name.None? {
        return None;
      }
      var block := ExpectBlock(ts, "code block", Curly);
      if block.None? {
        return None;
      }
      var fields := ParseTypedIdentifiers(block.value);
      if fields.None? {
        return None;
      }
      compositeTypes := compositeTypes + [S.CompositeTypeSyntax(name.value, fields.value)];
      r := Some(());
    }

    /** One `name application` entry of `parse_solution`; `stopped` when a name is followed by nothing. */
    method SolutionEntry(ts: TypeStream<TokenBlock>) returns (stopped: bool, added: bool)
      requires ts.Valid() && !ts.IsEmpty()
      modifies this`solutions, ts, compilation
      ensures var e := P.SolutionEntry(old(ts.ToVec()), ts.end, old(solutions), old(compilation.diagnostics));
        (stopped <==> e.Stopped?) && compilation.diagnostics == e.log &&
        (e.Stopped? ==> solutions == old(solutions)) &&
        (e.Entry? ==> ts.Valid() && added == e.added && ts.ToVec() == e.rest && solutions == e.solutions)
    {
      var nameItem := ts.Next();
      var functionName := IntoIdentifierOrError(nameItem);
      compilation.AddAll(functionName.errors);
      if functionName.value.None? {
        return false, false;
      }
      var ok := ts.ErrorIfEmpty(compilation, "application");
      if ok.None? {
        assert "Expected " + "application" == "Expected application";
        return true, false;
      }
      var application := ParseExpression(ts);
      if application.None? {
        return false, false;
      }
      var name := functionName.value.value;
      solutions := solutions[name.value := P.SolutionCall(name, application.value)];
      return false, true;
    }

    /**
     * `parse_solution`: each `name application` entry is recorded under its
     * name; `None` when a name is followed by nothing.
     */
    method ParseSolution(block: Block) returns (r: Option<()>)
      modifies this`solutions, compilation
      ensures var s := P.SolutionsFrom(block.body, P.CloseLocation(block), old(solutions), old(compilation.diagnostics));
        solutions == s.solutions && compilation.diagnostics == s.log && (r.Some? <==> s.finished)
    {
      var ts := BodyStream(block);
      ghost var log0 := compilation.diagnostics;
      ghost var solutions0 := solutions;
      while !ts.IsEmpty()
        invariant ts.Valid() && ts.end == P.CloseLocation(block)
        invariant P.SolutionsFrom(ts.ToVec(), ts.end, solutions, compilation.diagnostics)
               == P.SolutionsFrom(block.body, ts.end, solutions0, log0)
        decreases P.SizeSeq(ts.ToVec())
      {
        var stopped, added := SolutionEntry(ts);
        if stopped {
          return None;
        }
        if ts.IsEmpty() {
          break;
        }
        if added {
          P.SizeSeqDrop(ts.ToVec(), 1);
          var commaItem := ts.Next();
          var comma := AssertIsDelimiterOrError(commaItem, Comma);
          compilation.AddAll(comma.errors);
        }
      }
      return Some(());
    }

    /**
     * `parse_super`, after the keyword: `name = integer`.  `panicked` is set
     * where the source takes an item from an empty stream; otherwise the
     * stream, the supers and the diagnostics are the function's.
     */
    method ParseSuper(ts: TypeStream<TokenBlock>) returns (panicked: bool)
      requires ts.Valid()
      modifies this`supers, ts, compilation
      ensures var s := P.ParseSuper(old(ts.ToVec()), old(supers), old(compilation.diagnostics));
        (panicked <==> s.Panicked?) &&
        (s.Supered? ==> ts.Valid() && ts.ToVec() == s.rest && compilation.diagnostics == s.log && supers == s.supers)
    {
      if ts.IsEmpty() {
        return true;
      }
      var identifierItem := ts.Next();
      var identifier := IntoIdentifierOrError(identifierItem);
      compilation.AddAll(identifier.errors);
      if identifier.value.None? {
        return false;
      }
      if ts.IsEmpty() {
        return true;
      }
      var equalsItem := ts.Next();
      var equals := AssertIsDelimiterOrError(equalsItem, Equals);
      compilation.AddAll(equals.errors);
      if ts.IsEmpty() {
        return true;
      }
      var numberItem := ts.Next();
      var number := IntoIntegerOrError(numberItem);
      compilation.AddAll(number.errors);
      if number.value.None? {
        return false;
      }
      var name := identifier.value.value.value;
      if name in supers {
        compilation.AddError("The name of this super is already in use", Some(LocationOf(identifierItem)));
        return false;
      }
      supers := supers[name := number.value.value.value];
      return false;
    }

    // -------------------------------------------------------------------
    // The file
    // -------------------------------------------------------------------

    /** The `solution` arm of `parse_file`. */
    method SolutionDeclaration(ts: TypeStream<TokenBlock>)
      requires ts.Valid()
      modifies this`solutions, ts, compilation
      ensures var r := P.SolutionDeclaration(old(ts.ToVec()), ts.end, old(State()), old(compilation.diagnostics));
        ts.Valid() && ts.ToVec() == r.rest && solutions == r.declarations.solutions && compilation.diagnostics == r.log
    {
      var block := ExpectBlock(ts, "code block", Curly);
      if block.Some? {
        var _ := ParseSolution(block.value);
      }
    }

    /** The `problem` arm of `parse_file`. */
    method ProblemDeclaration(ts: TypeStream<TokenBlock>)
      requires ts.Valid()
      modifies this`problems, ts, compilation
      ensures var r := P.ProblemDeclaration(old(ts.ToVec()), ts.end, old(State()), old(compilation.diagnostics));
        ts.Valid() && ts.ToVec() == r.rest && problems == r.declarations.problems && compilation.diagnostics == r.log
    {
      var block := ExpectBlock(ts, "code block", Curly);
      if block.Some? {
        ParseProblem(block.value);
      }
    }

    /**
     * One arm of `parse_file`'s loop, after the item `current` that selects
     * it: `stop` when the loop ends here, `panicked` when `parse_super` panicked.
     */
    method ParseDeclaration(current: TokenBlock, ts: TypeStream<TokenBlock>) returns (stop: bool, panicked: bool)
      requires ts.Valid()
      modifies this, ts, compilation
      ensures var r := P.Declaration(current, old(ts.ToVec()), ts.end, old(State()), old(compilation.diagnostics));
        (stop <==> !r.Declared?) && (panicked <==> r.SuperPanicked?) &&
        (r.FileEnded? ==> State() == old(State()) && compilation.diagnostics == old(compilation.diagnostics)) &&
        (r.Declared? ==> ts.Valid() && ts.ToVec() == r.rest && State() == r.declarations && compilation.diagnostics == r.log)
    {
      stop, panicked := false, false;
      if P.IsKeyword(current, Super) {
        panicked := ParseSuper(ts);
        stop := panicked;
      } else if P.IsKeyword(current, Solution) {
        SolutionDeclaration(ts);
      } else if P.IsKeyword(current, Collection) {
        var collection := ParseCollection(ts);
        if collection.Some? {
          collections := collections + [collection.value];
        }
      } else if P.IsKeyword(current, Problem) {
        ProblemDeclaration(ts);
      } else if P.IsKeyword(current, Composite) {
        var _ := ParseComposite(ts);
      } else if KindOf(current) == TokenKind(EOF) {
        stop := true;
      } else {
        compilation.AddError("Unexpected token at file level", Some(LocationOf(current)));
      }
    }

    /**
     * `parse_file`: top-level declarations until the stream ends or an EOF
     * token is read.  `panicked` is set where `parse_super` panics; otherwise
     * the collected declarations and the diagnostics are the function's.
     */
    method ParseFile(ts: TypeStream<TokenBlock>) returns (panicked: bool)
      requires ts.Valid()
      modifies this, ts, compilation
      ensures var f := P.FileFrom(old(ts.ToVec()), ts.end, old(State()), old(compilation.diagnostics));
        panicked == f.panicked && (!panicked ==> State() == f.declarations && compilation.diagnostics == f.log)
    {
      ghost var items0 := ts.ToVec();
      ghost var d0 := State();
      ghost var log0 := compilation.diagnostics;
      while !ts.IsEmpty()
        invariant ts.Valid()
        invariant P.FileFrom(ts.ToVec(), ts.end, State(), compilation.diagnostics) == P.FileFrom(items0, ts.end, d0, log0)
        decreases P.SizeSeq(ts.ToVec())
      {
        P.SizeSeqDrop(ts.ToVec(), 1);
        var current := ts.Next();
        var stop;
        stop, panicked := ParseDeclaration(current, ts);
        if stop {
          return;
        }
      }
      return false;
    }
  }
}
