/**
 * The syntax tree the parser builds (src/compiler/syntax.rs).  Names,
 * fields and literals carry the location they were read from when the
 * parser has one.
 */
module Syntax {
  import opened Wrappers
  import opened CodeLocations
  import Tokens

  datatype TypeSyntax =
    | Atom(atomType: Tokens.AtomType)
    | Set(elements: seq<TypeSyntax>)
    | Composite(name: LocationValue<string>)

  datatype ExpressionSyntax =
    | String(text: LocationValue<string>)
    | Int(integer: LocationValue<Tokens.Usize>)
    | Tuple(elements: seq<ExpressionSyntax>)
    | Array(elements: seq<ExpressionSyntax>)
    | LengthArray(count: ExpressionSyntax, base: ExpressionSyntax)
    | Variable(name: LocationValue<string>)
    | Access(base: ExpressionSyntax, field: LocationValue<string>)
    | AccessIdx(base: ExpressionSyntax, idx: LocationValue<Tokens.Usize>)
    | IndexOp(base: ExpressionSyntax, index: ExpressionSyntax)
    | SubCall(call: SubCallSyntax)
    | Literal(literal: LocationValue<Tokens.AtomType>)
    | CompositeConstructor(typeName: LocationValue<string>, fieldAssign: seq<FieldAssignSyntax>)

  /** A call of a sub: where it lives and what it is applied to. */
  datatype SubCallSyntax = SubCallSyntax(location: SubLocation, application: Option<ExpressionSyntax>)

  datatype SubLocation =
    | Structure(collection: LocationValue<string>, sub: LocationValue<string>)
    | Super(superName: LocationValue<string>)
    | AtomSub(atomSub: LocationValue<Tokens.AtomSub>)

  datatype FieldAssignSyntax = FieldAssignSyntax(left: LocationValue<string>, right: ExpressionSyntax)

  datatype CodeSyntax =
    | Reassign(target: ExpressionSyntax, newValue: ExpressionSyntax)
    | For(iteratorVariable: LocationValue<string>, iteratorAmount: ExpressionSyntax, iteratorBody: seq<CodeSyntax>)
    | If(condition: ExpressionSyntax, conditionTrue: seq<CodeSyntax>)
    | IfElse(condition: ExpressionSyntax, conditionTrue: seq<CodeSyntax>, conditionFalse: seq<CodeSyntax>)
    | Let(variable: LocationValue<string>, value: ExpressionSyntax)
    | Force(value: ExpressionSyntax, typeSyntax: TypeSyntax)
    | SubStatement(call: SubCallSyntax)
    | Output(expression: ExpressionSyntax)

  datatype TypedIdentifierSyntax = TypedIdentifierSyntax(name: LocationValue<string>, typeSyntax: TypeSyntax)

  datatype SubstructureSyntax = SubstructureSyntax(
    name: LocationValue<string>,
    args: seq<TypedIdentifierSyntax>,
    code: seq<CodeSyntax>,
    result: Option<ExpressionSyntax>)

  datatype CollectionSyntax = CollectionSyntax(subs: seq<SubstructureSyntax>, name: LocationValue<string>)

  datatype CompositeTypeSyntax = CompositeTypeSyntax(name: LocationValue<string>, fields: seq<TypedIdentifierSyntax>)
}
