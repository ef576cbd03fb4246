/**
 * What the recursive-descent parser (src/compiler/parser.rs) does to a
 * stream of items, as functions: each takes what is left of the stream, the
 * location the stream reports when it runs dry, and the diagnostics
 * collected so far, and gives back the parsed value (`None` where the source
 * returns `None`), what is left of the stream and the diagnostics after.
 * A loop of the source is a function carrying the loop's accumulator.
 *
 * Where the source passes a bare string, atom or number where the syntax
 * tree holds a located value, the value is converted with `From`, which
 * leaves the location empty (`FromValue`).
 */
module Parsing {
  import opened Wrappers
  import opened CodeLocations
  import opened Tokens
  import opened BlockParser
  import Diagnostics
  import S = Syntax

  type Log = seq<Diagnostics.Diagnostic>

  /** The outcome of one parse: a value or `None`, the rest of the stream, the diagnostics. */
  datatype Step<T> = Step(value: Option<T>, rest: seq<TokenBlock>, log: Log)

  // ---------------------------------------------------------------------
  // The size of a stream, which every parse makes smaller
  // ---------------------------------------------------------------------

  function ItemSize(item: TokenBlock): (n: nat)
    ensures n >= 1
  {
    match item
    case Token(_) => 1
    case Block(b) => 1 + SizeSeq(b.body)
  }

  function SizeSeq(items: seq<TokenBlock>): nat
  {
    if items == [] then 0 else ItemSize(items[0]) + SizeSeq(items[1..])
  }

  /** The sub-stream of a block ends at its closing brace, when it has one. */
  function CloseLocation(b: Block): (r: Option<CodeLocation>)
    ensures r.Some? <==> b.closeToken.Some?
    ensures r.Some? ==> r.value == b.closeToken.value.codeLocation
  {
    if b.closeToken.Some? then Some(b.closeToken.value.codeLocation) else None
  }

  /** `error_if_empty(..)?` on an empty stream: one error at the end location. */
  function Missing<T>(expected: string, end: Option<CodeLocation>, log: Log): (r: Step<T>)
    ensures r.value.None? && r.rest == [] && r.log == log + [Diagnostics.ErrorAt("Expected " + expected, end)]
  {
    Step(None, [], log + [Diagnostics.ErrorAt("Expected " + expected, end)])
  }

  /** A parse that stops with `None` where it is. */
  function Halt<T>(rest: seq<TokenBlock>, log: Log): Step<T>
  {
    Step(None, rest, log)
  }

  predicate IsIdentifier(item: TokenBlock)
  {
    item.Token? && item.token.tokenType.Identifier?
  }

  function IdentifierName(item: TokenBlock): string
    requires IsIdentifier(item)
  {
    item.token.tokenType.name
  }

  // ---------------------------------------------------------------------
  // The two-step reads the parser repeats: `error_if_empty` then a conversion
  // ---------------------------------------------------------------------

  /** "Expected identifier" on an empty stream, otherwise `into_identifier_or_error` on the next item. */
  function ExpectIdentifier(items: seq<TokenBlock>, end: Option<CodeLocation>, log: Log): (r: Step<LocationValue<string>>)
    ensures items == [] ==> r == Missing("identifier", end, log)
    ensures items != [] ==> r.rest == items[1..] && r.log == log + IntoIdentifierOrError(items[0]).errors
    ensures items != [] ==> r.value == IntoIdentifierOrError(items[0]).value
    ensures SizeSeq(r.rest) <= SizeSeq(items) && (items != [] ==> SizeSeq(r.rest) < SizeSeq(items))
  {
    if items == [] then Missing("identifier", end, log)
    else
      var name := IntoIdentifierOrError(items[0]);
      SizeSeqDrop(items, 1);
      Step(name.value, items[1..], log + name.errors)
  }

  /** "Expected <expected>" on an empty stream, otherwise `into_block_type_or_error` on the next item. */
  function ExpectBlock(items: seq<TokenBlock>, end: Option<CodeLocation>, expected: string, brace: Brace, log: Log): (r: Step<Block>)
    ensures items == [] ==> r == Missing(expected, end, log)
    ensures items != [] ==> r.rest == items[1..] && r.log == log + IntoBlockTypeOrError(items[0], brace).errors
    ensures items != [] ==> r.value == IntoBlockTypeOrError(items[0], brace).value
    ensures r.value.Some? ==> items != [] && items[0] == TokenBlock.Block(r.value.value) && r.value.value.braceType == brace
    ensures r.value.Some? ==> SizeSeq(r.value.value.body) < SizeSeq(items)
    ensures SizeSeq(r.rest) <= SizeSeq(items) && (items != [] ==> SizeSeq(r.rest) < SizeSeq(items))
  {
    if items == [] then Missing(expected, end, log)
    else
      var block := IntoBlockTypeOrError(items[0], brace);
      SizeSeqDrop(items, 1);
      BlockBodySmaller(items);
      Step(block.value, items[1..], log + block.errors)
  }

  // ---------------------------------------------------------------------
  // Types and typed identifiers (src/compiler/parser.rs:202-242)
  // ---------------------------------------------------------------------

  /** `parse_type`: an atom type or a composite name, otherwise "Expected type". */
  function ParseType(items: seq<TokenBlock>, end: Option<CodeLocation>, log: Log): (r: Step<S.TypeSyntax>)
    ensures items == [] ==> r == Missing("type", end, log)
    ensures items != [] ==> r.rest == items[1..]
    ensures SizeSeq(r.rest) <= SizeSeq(items)
    ensures items != [] && KindOf(items[0]).TokenKind? && KindOf(items[0]).tokenType.Atom? && KindOf(items[0]).tokenType.atom.Type? ==>
      r.value == Some(S.Atom(items[0].token.tokenType.atom.atomType)) && r.log == log
    ensures items != [] && IsIdentifier(items[0]) ==>
      r.value == Some(S.Composite(Located(items[0], IdentifierName(items[0])))) && r.log == log
    ensures items != [] && r.value.None? ==> r.log == log + [ErrorAtItem("Expected type", items[0])]
  {
    if items == [] then Missing("type", end, log)
    else
      var token := items[0];
      SizeSeqDrop(items, 1);
      match KindOf(token)
      case TokenKind(Atom(Type(t))) => Step(Some(S.Atom(t)), items[1..], log)
      case TokenKind(Identifier(name)) => Step(Some(S.Composite(Located(token, name))), items[1..], log)
      case _ => Step(None, items[1..], log + [ErrorAtItem("Expected type", token)])
  }

  /** `parse_typed_identifiers` on the body of a block. */
  function TypedIdentifiers(b: Block, log: Log): Step<seq<S.TypedIdentifierSyntax>>
  {
    TypedIdentifiersFrom(b.body, CloseLocation(b), [], log)
  }

  /** One entry of `parse_typed_identifiers`: `type : name`; each part that fails ends the parse. */
  function TypedIdentifierEntry(items: seq<TokenBlock>, end: Option<CodeLocation>, log: Log): (r: Step<S.TypedIdentifierSyntax>)
    ensures items != [] ==> |r.rest| < |items|
  {
    var ty := ParseType(items, end, log);
    if ty.value.None? then Halt(ty.rest, ty.log)
    else if ty.rest == [] then Missing("colon", end, ty.log)
    else
      var colon := AssertIsDelimiterOrError(ty.rest[0], Colon);
      if colon.value.None? then Halt(ty.rest[1..], ty.log + colon.errors)
      else
        var name := ExpectIdentifier(ty.rest[1..], end, ty.log + colon.errors);
        if name.value.None? then Halt(name.rest, name.log)
        else Step(Some(S.TypedIdentifierSyntax(name.value.value, ty.value.value)), name.rest, name.log)
  }

  /** The loop of `parse_typed_identifiers`: entries separated by commas. */
  function TypedIdentifiersFrom(items: seq<TokenBlock>, end: Option<CodeLocation>, acc: seq<S.TypedIdentifierSyntax>, log: Log)
    : (r: Step<seq<S.TypedIdentifierSyntax>>)
    ensures r.value.Some? ==> r.rest == [] && acc <= r.value.value
    decreases |items|
  {
    if items == [] then Step(Some(acc), [], log)
    else
      var entry := TypedIdentifierEntry(items, end, log);
      if entry.value.None? then Halt(entry.rest, entry.log)
      else
        var acc' := acc + [entry.value.value];
        if entry.rest == [] then Step(Some(acc'), [], entry.log)
        else
          var comma := AssertIsDelimiterOrError(entry.rest[0], Comma);
          TypedIdentifiersFrom(entry.rest[1..], end, acc', entry.log + comma.errors)
  }

  // ---------------------------------------------------------------------
  // Expressions (src/compiler/parser.rs:350-502)
  // ---------------------------------------------------------------------

  /** An identifier followed by `::`: the start of a call of a structure's sub. */
  predicate StartsStructureCall(items: seq<TokenBlock>)
  {
    |items| >= 2 && IsIdentifier(items[0]) && IsDoubleColon(KindOf(items[1]))
  }

  predicate StartsConstructor(items: seq<TokenBlock>)
  {
    |items| >= 2 && IsIdentifier(items[0]) && IsCurlyBlock(KindOf(items[1]))
  }

  predicate StartsChain(items: seq<TokenBlock>)
  {
    |items| >= 2 && IsIdentifier(items[0]) && IsPeriod(KindOf(items[1]))
  }

  predicate IsRoundBlock(item: TokenBlock)
  {
    item.Block? && item.block.braceType == Round
  }

  /** `e` is `base` inside zero or more field or index accesses. */
  predicate Wraps(e: S.ExpressionSyntax, base: S.ExpressionSyntax)
  {
    e == base || ((e.Access? || e.AccessIdx?) && Wraps(e.base, base))
  }

  lemma {:induction false} WrapsTransitive(e: S.ExpressionSyntax, mid: S.ExpressionSyntax, base: S.ExpressionSyntax)
    requires Wraps(mid, base)
    ensures Wraps(e, mid) ==> Wraps(e, base)
  {
    if e != mid && (e.Access? || e.AccessIdx?) {
      WrapsTransitive(e.base, mid, base);
    }
  }

  predicate StartsWithPeriod(items: seq<TokenBlock>)
  {
    items != [] && KindOf(items[0]) == TokenKind(Delimiter(Period))
  }

  /** `parse_expression`: dispatch on the first item. */
  function ParseExpression(items: seq<TokenBlock>, end: Option<CodeLocation>, log: Log): (r: Step<S.ExpressionSyntax>)
    ensures SizeSeq(r.rest) <= SizeSeq(items) && (items != [] ==> SizeSeq(r.rest) < SizeSeq(items))
    decreases SizeSeq(items), 3
  {
    if items == [] then Missing("expression", end, log)
    else
      var token := items[0];
      SizeSeqDrop(items, 1);
      match KindOf(token)
      case TokenKind(StringLit(text)) => Step(Some(S.String(Located(token, text))), items[1..], log)
      case TokenKind(Atom(Type(t))) => Step(Some(S.Literal(FromValue(t))), items[1..], log)
      case TokenKind(Atom(Sub(sub))) => SubExpression(items, end, log)
      case TokenKind(Identifier(name)) => IdentifierExpression(items, end, log)
      case BlockKind(Round) => TupleExpression(items, end, log)
      case _ => Step(None, items[1..], log + [ErrorAtItem("Expected expression", token)])
  }

  /**
   * The arms of `parse_expression` that start with an identifier, told apart
   * by the item after it: `::`, a curly block, a period, or anything else.
   */
  function IdentifierExpression(items: seq<TokenBlock>, end: Option<CodeLocation>, log: Log): (r: Step<S.ExpressionSyntax>)
    requires items != [] && IsIdentifier(items[0])
    ensures SizeSeq(r.rest) < SizeSeq(items)
    decreases SizeSeq(items), 2
  {
    SizeSeqDrop(items, 1);
    if StartsStructureCall(items) then
      var call := StructureCall(items, end, log);
      Step(if call.value.Some? then Some(S.SubCall(call.value.value)) else None, call.rest, call.log)
    else if StartsConstructor(items) then ConstructorExpression(items, end, log)
    else if StartsChain(items) then ChainFrom(items[1..], end, S.Variable(FromValue(IdentifierName(items[0]))), log)
    else Step(Some(S.Variable(FromValue(IdentifierName(items[0])))), items[1..], log)
  }

  /** `structure :: sub application`. */
  function StructureCall(items: seq<TokenBlock>, end: Option<CodeLocation>, log: Log): (r: Step<S.SubCallSyntax>)
    requires StartsStructureCall(items)
    ensures SizeSeq(r.rest) < SizeSeq(items)
    decreases SizeSeq(items), 1
  {
    SizeSeqDrop(items, 2);
    var sub := ExpectIdentifier(items[1..][1..], end, log);
    if sub.value.None? then Halt(sub.rest, sub.log)
    else
      var application := ParseExpression(sub.rest, end, sub.log);
      if application.value.None? then Halt(application.rest, application.log)
      else
        var location := S.Structure(FromValue(IdentifierName(items[0])), sub.value.value);
        Step(Some(S.SubCallSyntax(location, Some(application.value.value))), application.rest, application.log)
  }

  /** `not` or `or` applied to the expression that follows. */
  function SubExpression(items: seq<TokenBlock>, end: Option<CodeLocation>, log: Log): (r: Step<S.ExpressionSyntax>)
    requires items != [] && items[0].Token? && items[0].token.tokenType.Atom? && items[0].token.tokenType.atom.Sub?
    ensures SizeSeq(r.rest) < SizeSeq(items)
    decreases SizeSeq(items), 2
  {
    SizeSeqDrop(items, 1);
    var application := ParseExpression(items[1..], end, log);
    if application.value.None? then Halt(application.rest, application.log)
    else
      var location := S.AtomSub(FromValue(items[0].token.tokenType.atom.atomSub));
      Step(Some(S.SubCall(S.SubCallSyntax(location, Some(application.value.value)))), application.rest, application.log)
  }

  /** `Type { field: value, .. }`. */
  function ConstructorExpression(items: seq<TokenBlock>, end: Option<CodeLocation>, log: Log): (r: Step<S.ExpressionSyntax>)
    requires StartsConstructor(items)
    ensures SizeSeq(r.rest) < SizeSeq(items)
    decreases SizeSeq(items), 1
  {
    SizeSeqDrop(items, 2);
    SizeSeqDrop(items, 1);
    BlockBodySmaller(items[1..]);
    var block := items[1].block;
    var fields := FieldAssignFrom(block.body, CloseLocation(block), [], log);
    if fields.value.None? then Halt(items[1..][1..], fields.log)
    else Step(Some(S.CompositeConstructor(FromValue(IdentifierName(items[0])), fields.value.value)), items[1..][1..], fields.log)
  }

  /** A round block: its comma-separated expressions as a tuple. */
  function TupleExpression(items: seq<TokenBlock>, end: Option<CodeLocation>, log: Log): (r: Step<S.ExpressionSyntax>)
    requires items != [] && IsRoundBlock(items[0])
    ensures SizeSeq(r.rest) < SizeSeq(items)
    decreases SizeSeq(items), 2
  {
    SizeSeqDrop(items, 1);
    BlockBodySmaller(items);
    var block := items[0].block;
    var elements := TupleFrom(block.body, CloseLocation(block), [], log);
    Step(Some(S.Tuple(elements.value.value)), items[1..], elements.log)
  }

  /**
   * The loop of the tuple arm: an expression that fails is dropped, and a
   * separator other than a comma is reported and skipped.
   */
  function TupleFrom(items: seq<TokenBlock>, end: Option<CodeLocation>, acc: seq<S.ExpressionSyntax>, log: Log)
    : (r: Step<seq<S.ExpressionSyntax>>)
    ensures r.value.Some? && r.rest == [] && acc <= r.value.value
    decreases SizeSeq(items), 4
  {
    if items == [] then Step(Some(acc), [], log)
    else
      var element := ParseExpression(items, end, log);
      var acc' := if element.value.Some? then acc + [element.value.value] else acc;
      if element.rest == [] then Step(Some(acc'), [], element.log)
      else
        var separator := element.rest[0];
        var log' := if KindOf(separator) == TokenKind(Delimiter(Comma)) then element.log
                    else element.log + [ErrorAtItem("Expected ) or ,", separator)];
        SizeSeqDrop(element.rest, 1);
        TupleFrom(element.rest[1..], end, acc', log')
  }

  /** One entry of `parse_field_assign`: `field : value`; the colon is checked but not required. */
  function FieldAssignEntry(items: seq<TokenBlock>, end: Option<CodeLocation>, log: Log): (r: Step<S.FieldAssignSyntax>)
    requires items != []
    ensures SizeSeq(r.rest) < SizeSeq(items)
    decreases SizeSeq(items), 1
  {
    var name := IntoIdentifierOrError(items[0]);
    var r1 := items[1..];
    SizeSeqDrop(items, 1);
    if name.value.None? then Halt(r1, log + name.errors)
    else if r1 == [] then Missing(":", end, log + name.errors)
    else
      var colon := AssertIsDelimiterOrError(r1[0], Colon);
      SizeSeqDrop(r1, 1);
      var value := ParseExpression(r1[1..], end, log + name.errors + colon.errors);
      if value.value.None? then Halt(value.rest, value.log)
      else Step(Some(S.FieldAssignSyntax(name.value.value, value.value.value)), value.rest, value.log)
  }

  /** The loop of `parse_field_assign`: entries separated by commas. */
  function FieldAssignFrom(items: seq<TokenBlock>, end: Option<CodeLocation>, acc: seq<S.FieldAssignSyntax>, log: Log)
    : (r: Step<seq<S.FieldAssignSyntax>>)
    ensures r.value.Some? ==> r.rest == [] && acc <= r.value.value
    decreases SizeSeq(items), 2
  {
    if items == [] then Step(Some(acc), [], log)
    else
      var entry := FieldAssignEntry(items, end, log);
      if entry.value.None? then Halt(entry.rest, entry.log)
      else
        var acc' := acc + [entry.value.value];
        if entry.rest == [] then Step(Some(acc'), [], entry.log)
        else
          var comma := AssertIsDelimiterOrError(entry.rest[0], Comma);
          SizeSeqDrop(entry.rest, 1);
          FieldAssignFrom(entry.rest[1..], end, acc', entry.log + comma.errors)
  }

  /**
   * The loop of the `.` arm: each `.` and the integer or identifier after it
   * wrap the chain built so far.  The test that the item is a period cannot
   * fail here, since the loop only runs when the next item is one.
   */
  function ChainFrom(items: seq<TokenBlock>, end: Option<CodeLocation>, chain: S.ExpressionSyntax, log: Log)
    : (r: Step<S.ExpressionSyntax>)
    ensures SizeSeq(r.rest) <= SizeSeq(items)
    ensures r.value.Some? ==> Wraps(r.value.value, chain) && !StartsWithPeriod(r.rest)
    decreases |items|
  {
    if StartsWithPeriod(items) then
      var r1 := items[1..];
      SizeSeqDrop(items, 1);
      if r1 == [] then Missing("identifier", end, log)
      else
        var access := r1[0];
        SizeSeqDrop(r1, 1);
        match KindOf(access)
        case TokenKind(Integer(idx)) =>
          var r := ChainFrom(r1[1..], end, S.AccessIdx(chain, FromValue(idx)), log);
          WrapsTransitive(r.value.UnwrapOr(chain), S.AccessIdx(chain, FromValue(idx)), chain);
          r
        case TokenKind(Identifier(field)) =>
          var r := ChainFrom(r1[1..], end, S.Access(chain, Located(access, field)), log);
          WrapsTransitive(r.value.UnwrapOr(chain), S.Access(chain, Located(access, field)), chain);
          r
        case _ => Halt(r1[1..], log + [ErrorAtItem("Expected integer or identifier", access)])
    else Step(Some(chain), items, log)
  }

  // ---------------------------------------------------------------------
  // Statements and code blocks (src/compiler/parser.rs:244-348)
  // ---------------------------------------------------------------------

  /** `parse_code_block` on the body of a block. */
  function CodeBlock(b: Block, log: Log): Step<seq<S.CodeSyntax>>
  {
    CodeBlockFrom(b.body, CloseLocation(b), [], log)
  }

  /**
   * The loop of `parse_code_block`: a `;` is dropped with a warning at the
   * item after it, and ends the block with `None` when nothing follows it;
   * a statement that fails is dropped.
   */
  function CodeBlockFrom(items: seq<TokenBlock>, end: Option<CodeLocation>, acc: seq<S.CodeSyntax>, log: Log)
    : (r: Step<seq<S.CodeSyntax>>)
    ensures r.value.Some? ==> r.rest == [] && acc <= r.value.value
    decreases SizeSeq(items), 3
  {
    if items == [] then Step(Some(acc), [], log)
    else if KindOf(items[0]) == TokenKind(Delimiter(Semicolon)) then
      var r1 := items[1..];
      SizeSeqDrop(items, 1);
      if r1 == [] then Halt([], log)
      else CodeBlockFrom(r1, end, acc, log + [Diagnostics.Diagnostic(Diagnostics.Warning, "Unneeded semicolon", Some(LocationOf(r1[0])))])
    else
      var statement := ParseStatement(items, end, log);
      CodeBlockFrom(statement.rest, end, if statement.value.Some? then acc + [statement.value.value] else acc, statement.log)
  }

  /** `parse_statement`: dispatch on the first item. */
  function ParseStatement(items: seq<TokenBlock>, end: Option<CodeLocation>, log: Log): (r: Step<S.CodeSyntax>)
    ensures SizeSeq(r.rest) <= SizeSeq(items) && (items != [] ==> SizeSeq(r.rest) < SizeSeq(items))
    decreases SizeSeq(items), 2
  {
    if items == [] then Missing("statement", end, log)
    else
      var statement := items[0];
      SizeSeqDrop(items, 1);
      var kind := KindOf(statement);
      if kind == TokenKind(Keyword(If)) then IfStatement(items, end, log)
      else if kind == TokenKind(Keyword(Let)) then LetStatement(items, end, log)
      else if kind == TokenKind(Keyword(Force)) then ForceStatement(items, end, log)
      else if kind == TokenKind(Keyword(Output)) then
        var expression := ParseExpression(items[1..], end, log);
        Step(if expression.value.Some? then Some(S.Output(expression.value.value)) else None, expression.rest, expression.log)
      else if StartsStructureCall(items) then
        var call := StructureCall(items, end, log);
        Step(if call.value.Some? then Some(S.SubStatement(call.value.value)) else None, call.rest, call.log)
      else Halt(items[1..], log + [ErrorAtItem("Unexpected token", statement)])
  }

  /** `force value => type`. */
  function ForceStatement(items: seq<TokenBlock>, end: Option<CodeLocation>, log: Log): (r: Step<S.CodeSyntax>)
    requires items != []
    ensures SizeSeq(r.rest) < SizeSeq(items)
    decreases SizeSeq(items), 1
  {
    SizeSeqDrop(items, 1);
    var value := ParseExpression(items[1..], end, log);
    if value.value.None? then Halt(value.rest, value.log)
    else if value.rest == [] then Missing("=>", end, value.log)
    else
      var arrow := AssertIsDelimiterOrError(value.rest[0], ThickArrowRight);
      SizeSeqDrop(value.rest, 1);
      var ty := ParseType(value.rest[1..], end, value.log + arrow.errors);
      Step(if ty.value.Some? then Some(S.Force(value.value.value, ty.value.value)) else None, ty.rest, ty.log)
  }

  /** `let name = value`; the `=` is checked but not required. */
  function LetStatement(items: seq<TokenBlock>, end: Option<CodeLocation>, log: Log): (r: Step<S.CodeSyntax>)
    requires items != []
    ensures SizeSeq(r.rest) < SizeSeq(items)
    decreases SizeSeq(items), 1
  {
    SizeSeqDrop(items, 1);
    var variable := ExpectIdentifier(items[1..], end, log);
    if variable.value.None? then Halt(variable.rest, variable.log)
    else if variable.rest == [] then Missing("=", end, variable.log)
    else
      var equals := AssertIsDelimiterOrError(variable.rest[0], Equals);
      SizeSeqDrop(variable.rest, 1);
      var value := ParseExpression(variable.rest[1..], end, variable.log + equals.errors);
      Step(if value.value.Some? then Some(S.Let(variable.value.value, value.value.value)) else None, value.rest, value.log)
  }

  /**
   * `if (condition)`, then the branches; an item left over in the condition's
   * block is reported.
   */
  function IfStatement(items: seq<TokenBlock>, end: Option<CodeLocation>, log: Log): (r: Step<S.CodeSyntax>)
    requires items != []
    ensures SizeSeq(r.rest) < SizeSeq(items)
    decreases SizeSeq(items), 1
  {
    SizeSeqDrop(items, 1);
    var conditionBlock := ExpectBlock(items[1..], end, "code block", Round, log);
    if conditionBlock.value.None? then Halt(conditionBlock.rest, conditionBlock.log)
    else
      var block := conditionBlock.value.value;
      var condition := ParseExpression(block.body, CloseLocation(block), conditionBlock.log);
      if condition.value.None? then Halt(conditionBlock.rest, condition.log)
      else
        var log' := if condition.rest == [] then condition.log
                    else condition.log + [ErrorAtItem("Unexpected token", condition.rest[0])];
        IfBranches(condition.value.value, conditionBlock.rest, end, log')
  }

  /**
   * The branches of an `if`: `{ .. }`, and `else { .. }` when the next item
   * is `else`; a branch body that fails to parse counts as empty.
   */
  function IfBranches(condition: S.ExpressionSyntax, items: seq<TokenBlock>, end: Option<CodeLocation>, log: Log)
    : (r: Step<S.CodeSyntax>)
    ensures SizeSeq(r.rest) <= SizeSeq(items)
    ensures r.value.Some? ==> (r.value.value.If? || r.value.value.IfElse?) && r.value.value.condition == condition
    ensures r.value.Some? ==> (r.value.value.IfElse? <==> |items| >= 2 && KindOf(items[1]) == TokenKind(Keyword(Else)))
    decreases SizeSeq(items), 1
  {
    var trueBlock := ExpectBlock(items, end, "code block", Curly, log);
    if trueBlock.value.None? then Halt(trueBlock.rest, trueBlock.log)
    else
      var tb := trueBlock.value.value;
      var conditionTrue := CodeBlockFrom(tb.body, CloseLocation(tb), [], trueBlock.log);
      var trueCode := conditionTrue.value.UnwrapOr([]);
      var r1 := trueBlock.rest;
      if r1 != [] && KindOf(r1[0]) == TokenKind(Keyword(Else)) then
        SizeSeqDrop(r1, 1);
        ElseBranch(condition, trueCode, r1[1..], end, conditionTrue.log)
      else Step(Some(S.If(condition, trueCode)), r1, conditionTrue.log)
  }

  /** The `{ .. }` after `else`. */
  function ElseBranch(condition: S.ExpressionSyntax, trueCode: seq<S.CodeSyntax>, items: seq<TokenBlock>, end: Option<CodeLocation>, log: Log)
    : (r: Step<S.CodeSyntax>)
    ensures SizeSeq(r.rest) <= SizeSeq(items)
    decreases SizeSeq(items), 0
  {
    var falseBlock := ExpectBlock(items, end, "code block", Curly, log);
    if falseBlock.value.None? then Halt(falseBlock.rest, falseBlock.log)
    else
      var fb := falseBlock.value.value;
      var conditionFalse := CodeBlockFrom(fb.body, CloseLocation(fb), [], falseBlock.log);
      Step(Some(S.IfElse(condition, trueCode, conditionFalse.value.UnwrapOr([]))), falseBlock.rest, conditionFalse.log)
  }

  // ---------------------------------------------------------------------
  // Subs, collections, composites, solutions, supers (src/compiler/parser.rs:74-200)
  // ---------------------------------------------------------------------

  /** `parse_sub`, after the `sub` keyword: name, argument block, code block, optional `= result`. */
  function ParseSub(items: seq<TokenBlock>, end: Option<CodeLocation>, log: Log): (r: Step<S.SubstructureSyntax>)
    ensures SizeSeq(r.rest) <= SizeSeq(items)
  {
    var name := ExpectIdentifier(items, end, log);
    if name.value.None? then Halt(name.rest, name.log)
    else
      var argsBlock := ExpectBlock(name.rest, end, "args", Round, name.log);
      if argsBlock.value.None? then Halt(argsBlock.rest, argsBlock.log)
      else
        var args := TypedIdentifiers(argsBlock.value.value, argsBlock.log);
        if args.value.None? then Halt(argsBlock.rest, args.log)
        else SubBody(name.value.value, args.value.value, argsBlock.rest, end, args.log)
  }

  /** The rest of `parse_sub`: the code block and the optional `= result`. */
  function SubBody(name: LocationValue<string>, args: seq<S.TypedIdentifierSyntax>, items: seq<TokenBlock>, end: Option<CodeLocation>, log: Log)
    : (r: Step<S.SubstructureSyntax>)
    ensures SizeSeq(r.rest) <= SizeSeq(items)
  {
    var codeBlock := ExpectBlock(items, end, "code block", Curly, log);
    if codeBlock.value.None? then Halt(codeBlock.rest, codeBlock.log)
    else
      var code := CodeBlock(codeBlock.value.value, codeBlock.log);
      var r1 := codeBlock.rest;
      if code.value.None? then Halt(r1, code.log)
      else if r1 != [] && KindOf(r1[0]) == TokenKind(Delimiter(Equals)) then
        SizeSeqDrop(r1, 1);
        var result := ParseExpression(r1[1..], end, code.log);
        Step(Some(S.SubstructureSyntax(name, args, code.value.value, result.value)), result.rest, result.log)
      else Step(Some(S.SubstructureSyntax(name, args, code.value.value, None)), r1, code.log)
  }

  /** `parse_sub_collection` on the body of a block. */
  function SubCollection(b: Block, log: Log): Step<seq<S.SubstructureSyntax>>
  {
    SubCollectionFrom(b.body, CloseLocation(b), [], log)
  }

  /** Its loop: `sub` items are parsed, anything else is reported and skipped. */
  function SubCollectionFrom(items: seq<TokenBlock>, end: Option<CodeLocation>, acc: seq<S.SubstructureSyntax>, log: Log)
    : (r: Step<seq<S.SubstructureSyntax>>)
    ensures r.value.Some? && acc <= r.value.value
    decreases SizeSeq(items)
  {
    if items == [] then Step(Some(acc), [], log)
    else
      SizeSeqDrop(items, 1);
      if KindOf(items[0]) == TokenKind(Keyword(SubStructure)) then
        var sub := ParseSub(items[1..], end, log);
        SubCollectionFrom(sub.rest, end, if sub.value.Some? then acc + [sub.value.value] else acc, sub.log)
      else SubCollectionFrom(items[1..], end, acc, log + [ErrorAtItem("Unexpected token within collection", items[0])])
  }

  /** `parse_collection`, after the keyword: a name and a block of subs. */
  function ParseCollection(items: seq<TokenBlock>, end: Option<CodeLocation>, log: Log): (r: Step<S.CollectionSyntax>)
    ensures SizeSeq(r.rest) <= SizeSeq(items)
  {
    var name := ExpectIdentifier(items, end, log);
    if name.value.None? then Halt(name.rest, name.log)
    else
      var block := ExpectBlock(name.rest, end, "code block", Curly, name.log);
      if block.value.None? then Halt(block.rest, block.log)
      else
        var subs := SubCollection(block.value.value, block.log);
        Step(Some(S.CollectionSyntax(subs.value.value, name.value.value)), block.rest, subs.log)
  }

  /** `parse_composite`, after the keyword: a name and a block of typed fields. */
  function ParseComposite(items: seq<TokenBlock>, end: Option<CodeLocation>, log: Log): (r: Step<S.CompositeTypeSyntax>)
    ensures SizeSeq(r.rest) <= SizeSeq(items)
  {
    var name := ExpectIdentifier(items, end, log);
    if name.value.None? then Halt(name.rest, name.log)
    else
      var block := ExpectBlock(name.rest, end, "code block", Curly, name.log);
      if block.value.None? then Halt(block.rest, block.log)
      else
        var fields := TypedIdentifiers(block.value.value, block.log);
        if fields.value.None? then Halt(block.rest, fields.log)
        else Step(Some(S.CompositeTypeSyntax(name.value.value, fields.value.value)), block.rest, fields.log)
  }

  /** The outcome of `parse_solution`: whether it ran to the end, the solutions map, the diagnostics. */
  datatype Solutions = Solutions(finished: bool, solutions: map<string, S.SubCallSyntax>, log: Log)

  /** The solution recorded for `name`: a call of that sub with an empty collection name. */
  function SolutionCall(name: LocationValue<string>, application: S.ExpressionSyntax): S.SubCallSyntax
  {
    S.SubCallSyntax(S.Structure(FromValue(""), name), Some(application))
  }

  /** One entry of `parse_solution`: it ran on to `rest` (`added` when it recorded a solution), or it stopped the parse. */
  datatype SolutionEntryResult =
    | Entry(added: bool, solutions: map<string, S.SubCallSyntax>, rest: seq<TokenBlock>, log: Log)
    | Stopped(log: Log)

  /**
   * `name application`: a name that fails is skipped, a name followed by
   * nothing stops the parse, and an application that fails is skipped.
   */
  function SolutionEntry(items: seq<TokenBlock>, end: Option<CodeLocation>, solutions: map<string, S.SubCallSyntax>, log: Log)
    : (r: SolutionEntryResult)
    requires items != []
    ensures r.Entry? ==> SizeSeq(r.rest) < SizeSeq(items)
  {
    var name := IntoIdentifierOrError(items[0]);
    var r1 := items[1..];
    SizeSeqDrop(items, 1);
    if name.value.None? then Entry(false, solutions, r1, log + name.errors)
    else if r1 == [] then Stopped(log + name.errors + [Diagnostics.ErrorAt("Expected application", end)])
    else
      var application := ParseExpression(r1, end, log + name.errors);
      if application.value.None? then Entry(false, solutions, application.rest, application.log)
      else
        var call := SolutionCall(name.value.value, application.value.value);
        Entry(true, solutions[name.value.value.value := call], application.rest, application.log)
  }

  /**
   * `parse_solution`'s loop: entries, each recorded under its name, with a
   * comma after each recorded one; it is `finished` unless an entry stopped it.
   */
  function SolutionsFrom(items: seq<TokenBlock>, end: Option<CodeLocation>, solutions: map<string, S.SubCallSyntax>, log: Log)
    : (r: Solutions)
    ensures solutions.Keys <= r.solutions.Keys
    decreases SizeSeq(items)
  {
    if items == [] then Solutions(true, solutions, log)
    else
      match SolutionEntry(items, end, solutions, log)
      case Stopped(log') => Solutions(false, solutions, log')
      case Entry(added, solutions', rest, log') =>
        if rest == [] then Solutions(true, solutions', log')
        else if !added then SolutionsFrom(rest, end, solutions', log')
        else
          var comma := AssertIsDelimiterOrError(rest[0], Comma);
          SizeSeqDrop(rest, 1);
          SolutionsFrom(rest[1..], end, solutions', log' + comma.errors)
  }

  /** The outcome of `parse_super`: a panic, or the rest of the stream, the supers and the diagnostics. */
  datatype Supered = Panicked | Supered(rest: seq<TokenBlock>, supers: map<string, Usize>, log: Log)

  /**
   * `parse_super`, after the keyword: `name = integer`.  Each of its three
   * reads takes the next item unguarded, which panics on an empty stream; a
   * name already in use is reported at the name.
   */
  function ParseSuper(items: seq<TokenBlock>, supers: map<string, Usize>, log: Log): (r: Supered)
    ensures r.Supered? ==> SizeSeq(r.rest) < SizeSeq(items)
    ensures r.Supered? ==> KeepsSupers(supers, r.supers) && |r.supers.Keys| <= |supers.Keys| + 1
  {
    if items == [] then Panicked
    else
      var name := IntoIdentifierOrError(items[0]);
      var r1 := items[1..];
      SizeSeqDrop(items, 1);
      if name.value.None? then Supered(r1, supers, log + name.errors)
      else if r1 == [] then Panicked
      else
        var equals := AssertIsDelimiterOrError(r1[0], Equals);
        var r2 := r1[1..];
        SizeSeqDrop(r1, 1);
        if r2 == [] then Panicked
        else
          var number := IntoIntegerOrError(r2[0]);
          var log' := log + name.errors + equals.errors + number.errors;
          SizeSeqDrop(r2, 1);
          if number.value.None? then Supered(r2[1..], supers, log')
          else if name.value.value.value in supers then
            Supered(r2[1..], supers, log' + [Diagnostics.ErrorAt("The name of this super is already in use", Some(LocationOf(items[0])))])
          else Supered(r2[1..], supers[name.value.value.value := number.value.value.value], log')
  }

  // ---------------------------------------------------------------------
  // The file (src/compiler/parser.rs:5-73)
  // ---------------------------------------------------------------------

  /** The parser's collected declarations. */
  datatype Declarations = Declarations(
    compositeTypes: seq<S.CompositeTypeSyntax>,
    problems: seq<S.SubstructureSyntax>,
    collections: seq<S.CollectionSyntax>,
    solutions: map<string, S.SubCallSyntax>,
    supers: map<string, Usize>)

  /** `Parser::new`: nothing collected yet. */
  const NoDeclarations := Declarations([], [], [], map[], map[])

  /** The outcome of `parse_file`: whether a panic cut it short, the declarations, the diagnostics. */
  datatype Filed = Filed(panicked: bool, declarations: Declarations, log: Log)

  predicate IsKeyword(item: TokenBlock, k: Keyword)
  {
    KindOf(item) == TokenKind(Keyword(k))
  }

  /** The outcome of one top-level declaration: the parse goes on, `parse_super` panicked, or an EOF token ended the file. */
  datatype Declared = Declared(rest: seq<TokenBlock>, declarations: Declarations, log: Log) | SuperPanicked | FileEnded

  /** One arm of `parse_file`'s loop, after the item `current` that selects it. */
  function Declaration(current: TokenBlock, items: seq<TokenBlock>, end: Option<CodeLocation>, d: Declarations, log: Log)
    : (r: Declared)
    ensures r.Declared? ==> SizeSeq(r.rest) <= SizeSeq(items) && Grows(d, r.declarations)
  {
    if IsKeyword(current, Super) then
      match ParseSuper(items, d.supers, log)
      case Panicked => SuperPanicked
      case Supered(rest, supers, log') => Declared(rest, d.(supers := supers), log')
    else if IsKeyword(current, Solution) then SolutionDeclaration(items, end, d, log)
    else if IsKeyword(current, Collection) then
      var c := ParseCollection(items, end, log);
      Declared(c.rest, if c.value.Some? then d.(collections := d.collections + [c.value.value]) else d, c.log)
    else if IsKeyword(current, Problem) then ProblemDeclaration(items, end, d, log)
    else if IsKeyword(current, Composite) then
      var c := ParseComposite(items, end, log);
      Declared(c.rest, if c.value.Some? then d.(compositeTypes := d.compositeTypes + [c.value.value]) else d, c.log)
    else if KindOf(current) == TokenKind(EOF) then FileEnded
    else Declared(items, d, log + [ErrorAtItem("Unexpected token at file level", current)])
  }

  /** A super once recorded keeps its value: later supers only add names. */
  predicate KeepsSupers(supers: map<string, Usize>, supers': map<string, Usize>)
  {
    forall name :: name in supers ==> name in supers' && supers'[name] == supers[name]
  }

  /**
   * What parsing more of a file does to the declarations: the lists only
   * grow at the end, a solution name stays defined, a super keeps its value.
   */
  predicate Grows(d: Declarations, d': Declarations)
  {
    d.compositeTypes <= d'.compositeTypes && d.problems <= d'.problems && d.collections <= d'.collections &&
    d.solutions.Keys <= d'.solutions.Keys && KeepsSupers(d.supers, d'.supers)
  }

  /** The `solution` arm of `parse_file`: a curly block whose entries go into the solutions. */
  function SolutionDeclaration(items: seq<TokenBlock>, end: Option<CodeLocation>, d: Declarations, log: Log): (r: Declared)
    ensures r.Declared? && SizeSeq(r.rest) <= SizeSeq(items)
  {
    var block := ExpectBlock(items, end, "code block", Curly, log);
    if block.value.None? then Declared(block.rest, d, block.log)
    else
      var b := block.value.value;
      var s := SolutionsFrom(b.body, CloseLocation(b), d.solutions, block.log);
      Declared(block.rest, d.(solutions := s.solutions), s.log)
  }

  /** The `problem` arm of `parse_file`: a curly block whose subs are appended to the problems. */
  function ProblemDeclaration(items: seq<TokenBlock>, end: Option<CodeLocation>, d: Declarations, log: Log): (r: Declared)
    ensures r.Declared? && SizeSeq(r.rest) <= SizeSeq(items)
  {
    var block := ExpectBlock(items, end, "code block", Curly, log);
    if block.value.None? then Declared(block.rest, d, block.log)
    else
      var subs := SubCollection(block.value.value, block.log);
      Declared(block.rest, d.(problems := d.problems + subs.value.value), subs.log)
  }

  /** The loop of `parse_file`: one top-level declaration at a time. */
  function FileFrom(items: seq<TokenBlock>, end: Option<CodeLocation>, d: Declarations, log: Log): (r: Filed)
    ensures Grows(d, r.declarations)
    decreases SizeSeq(items)
  {
    if items == [] then Filed(false, d, log)
    else
      SizeSeqDrop(items, 1);
      match Declaration(items[0], items[1..], end, d, log)
      case SuperPanicked => Filed(true, d, log)
      case FileEnded => Filed(false, d, log)
      case Declared(rest, d', log') => FileFrom(rest, end, d', log')
  }

  // ---------------------------------------------------------------------
  // Size facts
  // ---------------------------------------------------------------------

  lemma {:induction false} SizeSeqDrop(items: seq<TokenBlock>, k: nat)
    requires k <= |items|
    ensures SizeSeq(items[k..]) <= SizeSeq(items)
    ensures k > 0 ==> SizeSeq(items[k..]) < SizeSeq(items)
    decreases k
  {
    if k > 0 {
      SizeSeqDrop(items[1..], k - 1);
      assert items[1..][k - 1..] == items[k..];
    }
  }

  lemma SizeSeqCons(item: TokenBlock, items: seq<TokenBlock>)
    ensures SizeSeq([item] + items) == ItemSize(item) + SizeSeq(items)
  {
    assert ([item] + items)[1..] == items;
  }

  lemma BlockBodySmaller(items: seq<TokenBlock>)
    ensures items != [] && items[0].Block? ==> SizeSeq(items[0].block.body) < SizeSeq(items)
  {
  }
}
