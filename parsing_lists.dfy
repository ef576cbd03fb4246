/**
 * What the list-reading loops of src/compiler/parser.rs make of a whole
 * list.  A list is written as entries one after another with a separator
 * between each entry and the next; read where it stands, each entry gives
 * one element, so the loop returns exactly those elements in order, and a
 * separator that is not a comma costs one diagnostic while the loop goes
 * on.  The same for the `.` chains of an expression, the entries of
 * `parse_solution` and the parts of `parse_sub`.
 */
module ParsingLists {
  import opened Wrappers
  import opened CodeLocations
  import opened Tokens
  import opened BlockParser
  import Diagnostics
  import S = Syntax
  import opened Parsing

  // ---------------------------------------------------------------------
  // Lists as written
  // ---------------------------------------------------------------------

  /** `n` entries need `n - 1` separators, and none when there is no entry. */
  predicate Separated(n: nat, seps: seq<TokenBlock>)
  {
    if n == 0 then seps == [] else |seps| == n - 1
  }

  /** The entries written one after another, `seps[i]` between entry `i` and entry `i + 1`. */
  function Joined(segs: seq<seq<TokenBlock>>, seps: seq<TokenBlock>): seq<TokenBlock>
    requires Separated(|segs|, seps)
    decreases |segs|, 1
  {
    if segs == [] then [] else segs[0] + After(segs, seps)
  }

  /** What follows the first entry: nothing after the last one, otherwise its separator and the entries after it. */
  function After(segs: seq<seq<TokenBlock>>, seps: seq<TokenBlock>): seq<TokenBlock>
    requires segs != [] && Separated(|segs|, seps)
    decreases |segs|, 0
  {
    if |segs| == 1 then [] else [seps[0]] + Joined(segs[1..], seps[1..])
  }

  predicate IsComma(item: TokenBlock)
  {
    KindOf(item) == TokenKind(Delimiter(Comma))
  }

  predicate IsColon(item: TokenBlock)
  {
    KindOf(item) == TokenKind(Delimiter(Colon))
  }

  /** `assert_is_delimiter_or_error(Comma)` on each separator in turn: one error for each that is not a comma. */
  function CommaErrors(seps: seq<TokenBlock>): Log
  {
    if seps == [] then [] else AssertIsDelimiterOrError(seps[0], Comma).errors + CommaErrors(seps[1..])
  }

  /** Separators add no diagnostic exactly when they are all commas, and at most one each. */
  lemma {:induction false} CommaErrorsCount(seps: seq<TokenBlock>)
    ensures CommaErrors(seps) == [] <==> forall i :: 0 <= i < |seps| ==> IsComma(seps[i])
    ensures |CommaErrors(seps)| <= |seps|
  {
    if seps != [] {
      CommaErrorsCount(seps[1..]);
      assert forall i :: 1 <= i < |seps| ==> seps[1..][i - 1] == seps[i];
    }
  }

  lemma Associative<T>(a: seq<T>, b: seq<T>, c: seq<T>)
    ensures a + b + c == a + (b + c)
  {
  }

  lemma CommaErrorsAppend(seps: seq<TokenBlock>, sep: TokenBlock)
    ensures CommaErrors(seps + [sep]) == CommaErrors(seps) + AssertIsDelimiterOrError(sep, Comma).errors
  {
    if seps != [] {
      assert (seps + [sep])[1..] == seps[1..] + [sep];
      CommaErrorsAppend(seps[1..], sep);
    } else {
      assert [sep][1..] == [];
    }
  }

  // ---------------------------------------------------------------------
  // `parse_typed_identifiers` (src/compiler/parser.rs:202-228)
  // ---------------------------------------------------------------------

  /** A typed identifier as written: `type : name`. */
  datatype TypedEntry = TypedEntry(typeItem: TokenBlock, colon: TokenBlock, name: TokenBlock)

  /** An item `parse_type` accepts: an atom type or the name of a composite. */
  predicate IsTypeItem(item: TokenBlock)
  {
    item.Token? && (item.token.tokenType.Identifier? || (item.token.tokenType.Atom? && item.token.tokenType.atom.Type?))
  }

  function TypeOf(item: TokenBlock): S.TypeSyntax
    requires IsTypeItem(item)
  {
    if IsIdentifier(item) then S.Composite(Located(item, IdentifierName(item)))
    else S.Atom(item.token.tokenType.atom.atomType)
  }

  predicate WellTyped(e: TypedEntry)
  {
    IsTypeItem(e.typeItem) && IsColon(e.colon) && IsIdentifier(e.name)
  }

  function TypedSegs(es: seq<TypedEntry>): (r: seq<seq<TokenBlock>>)
    ensures |r| == |es|
  {
    if es == [] then [] else [TypedItems(es[0])] + TypedSegs(es[1..])
  }

  /** The syntax an entry stands for: its name, located at the name, and its type. */
  function EntrySyntax(e: TypedEntry): S.TypedIdentifierSyntax
    requires WellTyped(e)
  {
    S.TypedIdentifierSyntax(Located(e.name, IdentifierName(e.name)), TypeOf(e.typeItem))
  }

  function TypedSyntax(es: seq<TypedEntry>): (r: seq<S.TypedIdentifierSyntax>)
    requires forall i :: 0 <= i < |es| ==> WellTyped(es[i])
    ensures |r| == |es|
  {
    if es == [] then []
    else
      assert WellTyped(es[0]);
      [EntrySyntax(es[0])] + TypedSyntax(es[1..])
  }

  /** The written form of one entry. */
  function TypedItems(e: TypedEntry): seq<TokenBlock>
  {
    [e.typeItem, e.colon, e.name]
  }

  /** The last entry: it is added and the list ends. */
  lemma TypedEntryLast(e: TypedEntry, end: Option<CodeLocation>, acc: seq<S.TypedIdentifierSyntax>, log: Log)
    requires WellTyped(e)
    ensures TypedIdentifiersFrom(TypedItems(e), end, acc, log) == Step(Some(acc + [EntrySyntax(e)]), [], log)
  {
    var items := TypedItems(e);
    assert items[1..][0] == e.colon && items[1..][1..][0] == e.name && items[1..][1..][1..] == [];
    assert ParseType(items, end, log) == Step(Some(TypeOf(e.typeItem)), items[1..], log);
    assert TypedIdentifierEntry(items, end, log) == Step(Some(EntrySyntax(e)), [], log);
  }

  /** An entry and a separator: the entry is added and the loop goes on after the separator. */
  lemma TypedEntryThen(e: TypedEntry, sep: TokenBlock, more: seq<TokenBlock>, end: Option<CodeLocation>,
                       acc: seq<S.TypedIdentifierSyntax>, log: Log)
    requires WellTyped(e)
    ensures TypedIdentifiersFrom(TypedItems(e) + ([sep] + more), end, acc, log)
         == TypedIdentifiersFrom(more, end, acc + [EntrySyntax(e)], log + AssertIsDelimiterOrError(sep, Comma).errors)
  {
    var rest := [sep] + more;
    var items := TypedItems(e) + rest;
    assert items[1..][0] == e.colon && items[1..][1..][0] == e.name && items[1..][1..][1..] == rest;
    assert ParseType(items, end, log) == Step(Some(TypeOf(e.typeItem)), items[1..], log);
    assert TypedIdentifierEntry(items, end, log) == Step(Some(EntrySyntax(e)), rest, log);
    assert rest[0] == sep && rest[1..] == more;
  }

  /**
   * `k` well-formed entries with `k - 1` separators between them read as
   * exactly those `k` typed identifiers in order; each separator that is
   * not a comma adds one error and nothing else.
   */
  lemma {:induction false} TypedIdentifiersRead(es: seq<TypedEntry>, seps: seq<TokenBlock>, end: Option<CodeLocation>,
                                                acc: seq<S.TypedIdentifierSyntax>, log: Log)
    requires Separated(|es|, seps) && forall i :: 0 <= i < |es| ==> WellTyped(es[i])
    ensures TypedIdentifiersFrom(Joined(TypedSegs(es), seps), end, acc, log)
         == Step(Some(acc + TypedSyntax(es)), [], log + CommaErrors(seps))
  {
    if es == [] {
      assert seps == [] && acc + TypedSyntax(es) == acc && log + CommaErrors(seps) == log;
    } else {
      var e := es[0];
      var segs := TypedSegs(es);
      assert segs[0] == TypedItems(e) && segs[1..] == TypedSegs(es[1..]);
      assert TypedSyntax(es) == [EntrySyntax(e)] + TypedSyntax(es[1..]);
      if |es| == 1 {
        assert Joined(segs, seps) == TypedItems(e);
        TypedEntryLast(e, end, acc, log);
        assert acc + TypedSyntax(es) == acc + [EntrySyntax(e)];
        assert log + CommaErrors(seps) == log;
      } else {
        var more := Joined(TypedSegs(es[1..]), seps[1..]);
        assert Joined(segs, seps) == TypedItems(e) + ([seps[0]] + more);
        TypedEntryThen(e, seps[0], more, end, acc, log);
        var log' := log + AssertIsDelimiterOrError(seps[0], Comma).errors;
        TypedIdentifiersRead(es[1..], seps[1..], end, acc + [EntrySyntax(e)], log');
        Associative(acc, [EntrySyntax(e)], TypedSyntax(es[1..]));
        Associative(log, AssertIsDelimiterOrError(seps[0], Comma).errors, CommaErrors(seps[1..]));
      }
    }
  }

  /**
   * After `k >= 1` well-formed entries and one more separator, the loop
   * goes on with those entries read and one error for each separator that
   * is not a comma: an entry that fails further on is reported on top of
   * them.
   */
  lemma {:induction false} TypedIdentifiersGoOn(es: seq<TypedEntry>, seps: seq<TokenBlock>, sep: TokenBlock, more: seq<TokenBlock>,
                                                end: Option<CodeLocation>, acc: seq<S.TypedIdentifierSyntax>, log: Log)
    requires es != [] && Separated(|es|, seps) && forall i :: 0 <= i < |es| ==> WellTyped(es[i])
    ensures TypedIdentifiersFrom(Joined(TypedSegs(es), seps) + [sep] + more, end, acc, log)
         == TypedIdentifiersFrom(more, end, acc + TypedSyntax(es), log + CommaErrors(seps + [sep]))
  {
    var e := es[0];
    var segs := TypedSegs(es);
    assert segs[0] == TypedItems(e) && segs[1..] == TypedSegs(es[1..]);
    assert TypedSyntax(es) == [EntrySyntax(e)] + TypedSyntax(es[1..]);
    CommaErrorsAppend(seps, sep);
    if |es| == 1 {
      assert Joined(segs, seps) + [sep] + more == TypedItems(e) + ([sep] + more);
      TypedEntryThen(e, sep, more, end, acc, log);
      assert acc + TypedSyntax(es) == acc + [EntrySyntax(e)];
      assert log + CommaErrors(seps + [sep]) == log + AssertIsDelimiterOrError(sep, Comma).errors;
    } else {
      var tail := Joined(TypedSegs(es[1..]), seps[1..]) + [sep] + more;
      assert Joined(segs, seps) + [sep] + more == TypedItems(e) + ([seps[0]] + tail);
      TypedEntryThen(e, seps[0], tail, end, acc, log);
      var log' := log + AssertIsDelimiterOrError(seps[0], Comma).errors;
      TypedIdentifiersGoOn(es[1..], seps[1..], sep, more, end, acc + [EntrySyntax(e)], log');
      Associative(acc, [EntrySyntax(e)], TypedSyntax(es[1..]));
      assert (seps + [sep])[1..] == seps[1..] + [sep];
      Associative(log, AssertIsDelimiterOrError(seps[0], Comma).errors, CommaErrors(seps[1..] + [sep]));
    }
  }

  /**
   * An entry missing a part ends the whole list with `None` and exactly one
   * error: a type that is not one, a missing or wrong `:`, a missing or
   * wrong name.
   */
  lemma TypedIdentifierFails(items: seq<TokenBlock>, end: Option<CodeLocation>, acc: seq<S.TypedIdentifierSyntax>, log: Log)
    ensures var r := TypedIdentifiersFrom(items, end, acc, log);
      (items != [] && !IsTypeItem(items[0]) ==> r == Step(None, items[1..], log + [ErrorAtItem("Expected type", items[0])])) &&
      (|items| == 1 && IsTypeItem(items[0]) ==> r == Missing("colon", end, log)) &&
      (|items| >= 2 && IsTypeItem(items[0]) && !IsColon(items[1]) ==>
         r == Step(None, items[2..], log + [ErrorAtItem("Expected delimiter: " + DelimiterName(Colon), items[1])])) &&
      (|items| == 2 && IsTypeItem(items[0]) && IsColon(items[1]) ==> r == Missing("identifier", end, log)) &&
      (|items| >= 3 && IsTypeItem(items[0]) && IsColon(items[1]) && !IsIdentifier(items[2]) ==>
         r == Step(None, items[3..], log + [ErrorAtItem("Expected identifier", items[2])]))
  {
    if |items| >= 2 {
      assert items[1..][0] == items[1] && items[1..][1..] == items[2..];
    }
    if |items| >= 3 {
      assert items[2..][0] == items[2] && items[2..][1..] == items[3..];
    }
  }

  // ---------------------------------------------------------------------
  // `.` chains (src/compiler/parser.rs:402-429)
  // ---------------------------------------------------------------------

  /** One access as written: a `.` and the integer or identifier after it. */
  datatype Accessor = Accessor(period: TokenBlock, access: TokenBlock)

  predicate WellAccessed(a: Accessor)
  {
    KindOf(a.period) == TokenKind(Delimiter(Period)) &&
    a.access.Token? && (a.access.token.tokenType.Integer? || a.access.token.tokenType.Identifier?)
  }

  function AccessorItems(accs: seq<Accessor>): seq<TokenBlock>
  {
    if accs == [] then [] else [accs[0].period, accs[0].access] + AccessorItems(accs[1..])
  }

  /** `.<integer>` indexes the chain, `.<identifier>` reads a field of it (named where it is written). */
  function Accessed(chain: S.ExpressionSyntax, a: Accessor): (r: S.ExpressionSyntax)
    requires WellAccessed(a)
    ensures (r.Access? || r.AccessIdx?) && r.base == chain
  {
    if a.access.token.tokenType.Integer? then S.AccessIdx(chain, FromValue(a.access.token.tokenType.integer))
    else S.Access(chain, Located(a.access, a.access.token.tokenType.name))
  }

  /** The accesses applied from left to right. */
  function Chained(chain: S.ExpressionSyntax, accs: seq<Accessor>): S.ExpressionSyntax
    requires forall i :: 0 <= i < |accs| ==> WellAccessed(accs[i])
    decreases |accs|
  {
    if accs == [] then chain else Chained(Accessed(chain, accs[0]), accs[1..])
  }

  /** Chains nest to the left: the last access is the outermost node. */
  lemma {:induction false} ChainedLeftNested(chain: S.ExpressionSyntax, accs: seq<Accessor>, a: Accessor)
    requires forall i :: 0 <= i < |accs| ==> WellAccessed(accs[i])
    requires WellAccessed(a)
    ensures Chained(chain, accs + [a]) == Accessed(Chained(chain, accs), a)
    decreases |accs|
  {
    if accs != [] {
      assert (accs + [a])[1..] == accs[1..] + [a];
      ChainedLeftNested(Accessed(chain, accs[0]), accs[1..], a);
    }
  }

  /**
   * Each written access wraps the chain; the loop then goes on with what
   * follows, and stops there with the chain when that does not start with
   * a `.`.
   */
  lemma {:induction false} ChainRead(accs: seq<Accessor>, rest: seq<TokenBlock>, end: Option<CodeLocation>,
                                     chain: S.ExpressionSyntax, log: Log)
    requires forall i :: 0 <= i < |accs| ==> WellAccessed(accs[i])
    ensures ChainFrom(AccessorItems(accs) + rest, end, chain, log) == ChainFrom(rest, end, Chained(chain, accs), log)
    ensures !StartsWithPeriod(rest) ==>
      ChainFrom(AccessorItems(accs) + rest, end, chain, log) == Step(Some(Chained(chain, accs)), rest, log)
    decreases |accs|
  {
    if accs != [] {
      var a := accs[0];
      var items := AccessorItems(accs) + rest;
      assert items == [a.period, a.access] + (AccessorItems(accs[1..]) + rest);
      assert items[1..][0] == a.access && items[1..][1..] == AccessorItems(accs[1..]) + rest;
      assert ChainFrom(items, end, chain, log) == ChainFrom(items[1..][1..], end, Accessed(chain, a), log);
      assert Chained(chain, accs) == Chained(Accessed(chain, a), accs[1..]);
      ChainRead(accs[1..], rest, end, Accessed(chain, a), log);
    } else {
      assert AccessorItems(accs) + rest == rest;
    }
  }

  /** A `.` with nothing after it, or with something other than an integer or identifier, fails with one error. */
  lemma ChainFails(items: seq<TokenBlock>, end: Option<CodeLocation>, chain: S.ExpressionSyntax, log: Log)
    requires StartsWithPeriod(items)
    ensures |items| == 1 ==> ChainFrom(items, end, chain, log) == Missing("identifier", end, log)
    ensures |items| >= 2 && !(items[1].Token? && (items[1].token.tokenType.Integer? || items[1].token.tokenType.Identifier?)) ==>
      ChainFrom(items, end, chain, log) == Step(None, items[2..], log + [ErrorAtItem("Expected integer or identifier", items[1])])
  {
    if |items| >= 2 {
      assert items[1..][0] == items[1] && items[1..][1..] == items[2..];
    }
  }

  /** A name followed by one or more accesses is read as that variable with the accesses applied in order. */
  lemma VariableChainRead(x: TokenBlock, accs: seq<Accessor>, rest: seq<TokenBlock>, end: Option<CodeLocation>, log: Log)
    requires IsIdentifier(x) && accs != [] && forall i :: 0 <= i < |accs| ==> WellAccessed(accs[i])
    requires !StartsWithPeriod(rest)
    ensures ParseExpression([x] + AccessorItems(accs) + rest, end, log)
         == Step(Some(Chained(S.Variable(FromValue(IdentifierName(x))), accs)), rest, log)
  {
    var items := [x] + AccessorItems(accs) + rest;
    assert items[1] == accs[0].period;
    assert items[1..] == AccessorItems(accs) + rest;
    ChainRead(accs, rest, end, S.Variable(FromValue(IdentifierName(x))), log);
  }
  // ---------------------------------------------------------------------
  // The tuple arm of `parse_expression` (src/compiler/parser.rs:434-467)
  // ---------------------------------------------------------------------

  /** What a separator between tuple elements costs: nothing for a comma, one error at it otherwise. */
  function TupleSeparatorError(sep: TokenBlock): Log
  {
    if IsComma(sep) then [] else [ErrorAtItem("Expected ) or ,", sep)]
  }

  function TupleSeparatorErrors(seps: seq<TokenBlock>): Log
  {
    if seps == [] then [] else TupleSeparatorError(seps[0]) + TupleSeparatorErrors(seps[1..])
  }

  /**
   * Entry `i` of the list, read where it stands, is the expression
   * `exprs[i]`: it ends right before its separator and adds no diagnostic.
   */
  ghost predicate EachReads(segs: seq<seq<TokenBlock>>, seps: seq<TokenBlock>, exprs: seq<S.ExpressionSyntax>, end: Option<CodeLocation>)
    requires Separated(|segs|, seps)
  {
    |exprs| == |segs| &&
    forall i, l: Log :: 0 <= i < |segs| ==>
      ParseExpression(Joined(segs[i..], seps[i..]), end, l) == Step(Some(exprs[i]), After(segs[i..], seps[i..]), l)
  }

  /** An element that is the last thing in the block: it is added and the tuple ends. */
  lemma TupleElementLast(items: seq<TokenBlock>, e: S.ExpressionSyntax, end: Option<CodeLocation>, acc: seq<S.ExpressionSyntax>, log: Log)
    requires ParseExpression(items, end, log) == Step(Some(e), [], log)
    ensures TupleFrom(items, end, acc, log) == Step(Some(acc + [e]), [], log)
  {
  }

  /** An element and a separator: the element is added, the separator costs what it costs, and the loop goes on. */
  lemma TupleElementThen(items: seq<TokenBlock>, e: S.ExpressionSyntax, sep: TokenBlock, more: seq<TokenBlock>,
                         end: Option<CodeLocation>, acc: seq<S.ExpressionSyntax>, log: Log)
    requires ParseExpression(items, end, log) == Step(Some(e), [sep] + more, log)
    ensures TupleFrom(items, end, acc, log) == TupleFrom(more, end, acc + [e], log + TupleSeparatorError(sep))
  {
    assert ([sep] + more)[0] == sep && ([sep] + more)[1..] == more;
    assert log + [] == log;
  }

  /** An element that fails to parse is dropped, and the loop goes on after its separator. */
  lemma TupleElementDropped(items: seq<TokenBlock>, end: Option<CodeLocation>, acc: seq<S.ExpressionSyntax>, log: Log)
    requires items != [] && ParseExpression(items, end, log).value.None?
    ensures var element := ParseExpression(items, end, log);
      TupleFrom(items, end, acc, log)
      == if element.rest == [] then Step(Some(acc), [], element.log)
         else TupleFrom(element.rest[1..], end, acc, element.log + TupleSeparatorError(element.rest[0]))
  {
    var element := ParseExpression(items, end, log);
    assert element.log + [] == element.log;
  }

  /**
   * `k` elements with `k - 1` separators between them make a tuple of
   * exactly those `k` expressions in order; each separator that is not a
   * comma adds one "Expected ) or ," error and the loop goes on.
   */
  lemma {:induction false} TupleRead(segs: seq<seq<TokenBlock>>, seps: seq<TokenBlock>, exprs: seq<S.ExpressionSyntax>,
                                     end: Option<CodeLocation>, acc: seq<S.ExpressionSyntax>, log: Log)
    requires Separated(|segs|, seps) && EachReads(segs, seps, exprs, end)
    ensures TupleFrom(Joined(segs, seps), end, acc, log) == Step(Some(acc + exprs), [], log + TupleSeparatorErrors(seps))
  {
    if segs == [] {
      assert seps == [] && acc + exprs == acc && log + TupleSeparatorErrors(seps) == log;
    } else {
      assert segs[0..] == segs && seps[0..] == seps;
      var items := Joined(segs, seps);
      assert ParseExpression(items, end, log) == Step(Some(exprs[0]), After(segs, seps), log);
      if |segs| == 1 {
        TupleElementLast(items, exprs[0], end, acc, log);
        assert exprs == [exprs[0]] && seps == [];
      } else {
        var more := Joined(segs[1..], seps[1..]);
        assert After(segs, seps) == [seps[0]] + more;
        TupleElementThen(items, exprs[0], seps[0], more, end, acc, log);
        forall i, l: Log | 0 <= i < |segs| - 1
          ensures ParseExpression(Joined(segs[1..][i..], seps[1..][i..]), end, l)
               == Step(Some(exprs[1..][i]), After(segs[1..][i..], seps[1..][i..]), l)
        {
          assert segs[1..][i..] == segs[i + 1..] && seps[1..][i..] == seps[i + 1..];
        }
        var log' := log + TupleSeparatorError(seps[0]);
        TupleRead(segs[1..], seps[1..], exprs[1..], end, acc + [exprs[0]], log');
        Associative(acc, [exprs[0]], exprs[1..]);
        assert [exprs[0]] + exprs[1..] == exprs;
        Associative(log, TupleSeparatorError(seps[0]), TupleSeparatorErrors(seps[1..]));
      }
    }
  }

  /** A round block holding such a list is read as the tuple of its elements. */
  lemma TupleExpressionRead(b: Block, segs: seq<seq<TokenBlock>>, seps: seq<TokenBlock>, exprs: seq<S.ExpressionSyntax>,
                            rest: seq<TokenBlock>, end: Option<CodeLocation>, log: Log)
    requires b.braceType == Round && Separated(|segs|, seps) && b.body == Joined(segs, seps)
    requires EachReads(segs, seps, exprs, CloseLocation(b))
    ensures ParseExpression([TokenBlock.Block(b)] + rest, end, log)
         == Step(Some(S.Tuple(exprs)), rest, log + TupleSeparatorErrors(seps))
  {
    var items := [TokenBlock.Block(b)] + rest;
    assert items[0] == TokenBlock.Block(b) && items[1..] == rest;
    TupleRead(segs, seps, exprs, CloseLocation(b), [], log);
    assert [] + exprs == exprs;
  }

  // ---------------------------------------------------------------------
  // `parse_field_assign` (src/compiler/parser.rs:476-502)
  // ---------------------------------------------------------------------

  /** A field assignment as written: `name : value`. */
  datatype FieldEntry = FieldEntry(name: TokenBlock, colon: TokenBlock, value: seq<TokenBlock>)

  function FieldItems(f: FieldEntry): seq<TokenBlock>
  {
    [f.name, f.colon] + f.value
  }

  function FieldSegs(fs: seq<FieldEntry>): (r: seq<seq<TokenBlock>>)
    ensures |r| == |fs|
  {
    if fs == [] then [] else [FieldItems(fs[0])] + FieldSegs(fs[1..])
  }

  predicate WellNamed(f: FieldEntry)
  {
    IsIdentifier(f.name) && IsColon(f.colon)
  }

  /** The value of field `i`, read where it stands, is `exprs[i]`: it ends right before the separator and adds no diagnostic. */
  ghost predicate ValuesRead(fs: seq<FieldEntry>, seps: seq<TokenBlock>, exprs: seq<S.ExpressionSyntax>, end: Option<CodeLocation>)
    requires Separated(|fs|, seps)
  {
    |exprs| == |fs| &&
    forall i, l: Log :: 0 <= i < |fs| ==>
      ParseExpression(fs[i].value + After(FieldSegs(fs[i..]), seps[i..]), end, l)
      == Step(Some(exprs[i]), After(FieldSegs(fs[i..]), seps[i..]), l)
  }

  /** The assignment a field stands for: its name, located at the name, and the value read for it. */
  function Assignment(f: FieldEntry, e: S.ExpressionSyntax): S.FieldAssignSyntax
    requires IsIdentifier(f.name)
  {
    S.FieldAssignSyntax(Located(f.name, IdentifierName(f.name)), e)
  }

  function Assignments(fs: seq<FieldEntry>, exprs: seq<S.ExpressionSyntax>): (r: seq<S.FieldAssignSyntax>)
    requires |exprs| == |fs| && forall i :: 0 <= i < |fs| ==> WellNamed(fs[i])
    ensures |r| == |fs|
  {
    if fs == [] then []
    else
      assert WellNamed(fs[0]);
      [Assignment(fs[0], exprs[0])] + Assignments(fs[1..], exprs[1..])
  }

  /**
   * One field followed by `rest` (nothing, or its separator and what comes
   * after): the assignment is added; a colon that is not one costs one
   * error but the value is still read.
   */
  lemma FieldEntryStep(f: FieldEntry, e: S.ExpressionSyntax, rest: seq<TokenBlock>,
                       end: Option<CodeLocation>, acc: seq<S.FieldAssignSyntax>, log: Log)
    requires IsIdentifier(f.name)
    requires var l := log + AssertIsDelimiterOrError(f.colon, Colon).errors;
      ParseExpression(f.value + rest, end, l) == Step(Some(e), rest, l)
    ensures var l := log + AssertIsDelimiterOrError(f.colon, Colon).errors;
      FieldAssignFrom(FieldItems(f) + rest, end, acc, log)
      == if rest == [] then Step(Some(acc + [Assignment(f, e)]), [], l)
         else FieldAssignFrom(rest[1..], end, acc + [Assignment(f, e)], l + AssertIsDelimiterOrError(rest[0], Comma).errors)
  {
    var items := FieldItems(f) + rest;
    assert items[0] == f.name && items[1..][0] == f.colon && items[1..][1..] == f.value + rest;
    var l := log + AssertIsDelimiterOrError(f.colon, Colon).errors;
    assert IntoIdentifierOrError(f.name).errors == [];
    assert log + IntoIdentifierOrError(f.name).errors + AssertIsDelimiterOrError(f.colon, Colon).errors == l;
    assert FieldAssignEntry(items, end, log) == Step(Some(Assignment(f, e)), rest, l);
  }

  /**
   * `k` well-formed fields with `k - 1` separators between them read as
   * exactly those `k` assignments in order; each separator that is not a
   * comma adds one error.
   */
  lemma {:induction false} FieldAssignRead(fs: seq<FieldEntry>, seps: seq<TokenBlock>, exprs: seq<S.ExpressionSyntax>,
                                           end: Option<CodeLocation>, acc: seq<S.FieldAssignSyntax>, log: Log)
    requires Separated(|fs|, seps) && (forall i :: 0 <= i < |fs| ==> WellNamed(fs[i])) && ValuesRead(fs, seps, exprs, end)
    ensures FieldAssignFrom(Joined(FieldSegs(fs), seps), end, acc, log)
         == Step(Some(acc + Assignments(fs, exprs)), [], log + CommaErrors(seps))
  {
    if fs == [] {
      assert seps == [] && acc + Assignments(fs, exprs) == acc && log + CommaErrors(seps) == log;
    } else {
      var f := fs[0];
      var segs := FieldSegs(fs);
      assert fs[0..] == fs && seps[0..] == seps;
      assert segs[0] == FieldItems(f) && segs[1..] == FieldSegs(fs[1..]);
      assert WellNamed(f) && AssertIsDelimiterOrError(f.colon, Colon).errors == [] && log + [] == log;
      var rest := After(segs, seps);
      assert Joined(segs, seps) == FieldItems(f) + rest;
      assert ParseExpression(f.value + rest, end, log) == Step(Some(exprs[0]), rest, log);
      FieldEntryStep(f, exprs[0], rest, end, acc, log);
      assert Assignments(fs, exprs) == [Assignment(f, exprs[0])] + Assignments(fs[1..], exprs[1..]);
      if |fs| == 1 {
        assert rest == [] && Assignments(fs[1..], exprs[1..]) == [] && CommaErrors(seps) == [];
        assert acc + Assignments(fs, exprs) == acc + [Assignment(f, exprs[0])];
      } else {
        assert rest[0] == seps[0] && rest[1..] == Joined(FieldSegs(fs[1..]), seps[1..]);
        forall i, l: Log | 0 <= i < |fs| - 1
          ensures ParseExpression(fs[1..][i].value + After(FieldSegs(fs[1..][i..]), seps[1..][i..]), end, l)
               == Step(Some(exprs[1..][i]), After(FieldSegs(fs[1..][i..]), seps[1..][i..]), l)
        {
          assert fs[1..][i..] == fs[i + 1..] && seps[1..][i..] == seps[i + 1..];
        }
        var log' := log + AssertIsDelimiterOrError(seps[0], Comma).errors;
        FieldAssignRead(fs[1..], seps[1..], exprs[1..], end, acc + [Assignment(f, exprs[0])], log');
        Associative(acc, [Assignment(f, exprs[0])], Assignments(fs[1..], exprs[1..]));
        Associative(log, AssertIsDelimiterOrError(seps[0], Comma).errors, CommaErrors(seps[1..]));
      }
    }
  }
  /**
   * A field whose name is not an identifier ends the list with `None` and
   * one error, and so does a name with nothing after it.
   */
  lemma FieldAssignFails(items: seq<TokenBlock>, end: Option<CodeLocation>, acc: seq<S.FieldAssignSyntax>, log: Log)
    ensures items != [] && !IsIdentifier(items[0]) ==>
      FieldAssignFrom(items, end, acc, log) == Step(None, items[1..], log + [ErrorAtItem("Expected identifier", items[0])])
    ensures |items| == 1 && IsIdentifier(items[0]) ==> FieldAssignFrom(items, end, acc, log) == Missing(":", end, log)
  {
    if items != [] && IsIdentifier(items[0]) {
      assert log + IntoIdentifierOrError(items[0]).errors == log;
    }
  }

  // ---------------------------------------------------------------------
  // `parse_solution` (src/compiler/parser.rs:131-155)
  // ---------------------------------------------------------------------

  /** A solution as written: the name of a sub and its application. */
  datatype SolutionItem = SolutionItem(name: TokenBlock, application: seq<TokenBlock>)

  function SolutionItems(s: SolutionItem): seq<TokenBlock>
  {
    [s.name] + s.application
  }

  function SolutionSegs(ss: seq<SolutionItem>): (r: seq<seq<TokenBlock>>)
    ensures |r| == |ss|
  {
    if ss == [] then [] else [SolutionItems(ss[0])] + SolutionSegs(ss[1..])
  }

  /** The application of solution `i`, read where it stands, is `exprs[i]`: it ends right before the separator and adds no diagnostic. */
  ghost predicate ApplicationsRead(ss: seq<SolutionItem>, seps: seq<TokenBlock>, exprs: seq<S.ExpressionSyntax>, end: Option<CodeLocation>)
    requires Separated(|ss|, seps)
  {
    |exprs| == |ss| &&
    forall i, l: Log :: 0 <= i < |ss| ==>
      ParseExpression(ss[i].application + After(SolutionSegs(ss[i..]), seps[i..]), end, l)
      == Step(Some(exprs[i]), After(SolutionSegs(ss[i..]), seps[i..]), l)
  }

  predicate NamedSolutions(ss: seq<SolutionItem>)
  {
    forall i :: 0 <= i < |ss| ==> IsIdentifier(ss[i].name)
  }

  /** The call recorded for a solution: its sub, named where it is written, applied to what was read. */
  function Call(s: SolutionItem, e: S.ExpressionSyntax): S.SubCallSyntax
    requires IsIdentifier(s.name)
  {
    SolutionCall(Located(s.name, IdentifierName(s.name)), e)
  }

  /** The solutions after recording each entry in order under its name. */
  function Recorded(solutions: map<string, S.SubCallSyntax>, ss: seq<SolutionItem>, exprs: seq<S.ExpressionSyntax>)
    : map<string, S.SubCallSyntax>
    requires |exprs| == |ss| && NamedSolutions(ss)
    decreases |ss|
  {
    if ss == [] then solutions
    else
      assert IsIdentifier(ss[0].name);
      Recorded(solutions[IdentifierName(ss[0].name) := Call(ss[0], exprs[0])], ss[1..], exprs[1..])
  }

  /** Every written name ends up in the solutions, next to those already there, and nothing else does. */
  lemma {:induction false} RecordedKeys(solutions: map<string, S.SubCallSyntax>, ss: seq<SolutionItem>, exprs: seq<S.ExpressionSyntax>)
    requires |exprs| == |ss| && NamedSolutions(ss)
    ensures Recorded(solutions, ss, exprs).Keys == solutions.Keys + set i | 0 <= i < |ss| :: IdentifierName(ss[i].name)
    decreases |ss|
  {
    if ss != [] {
      assert IsIdentifier(ss[0].name);
      var n := IdentifierName(ss[0].name);
      RecordedKeys(solutions[n := Call(ss[0], exprs[0])], ss[1..], exprs[1..]);
      var all := set i | 0 <= i < |ss| :: IdentifierName(ss[i].name);
      var later := set i | 0 <= i < |ss[1..]| :: IdentifierName(ss[1..][i].name);
      assert all == {n} + later by {
        forall x | x in all ensures x in {n} + later {
          var i :| 0 <= i < |ss| && x == IdentifierName(ss[i].name);
          if i > 0 {
            assert ss[1..][i - 1] == ss[i];
          }
        }
        forall x | x in later ensures x in all {
          var i :| 0 <= i < |ss[1..]| && x == IdentifierName(ss[1..][i].name);
          assert ss[1..][i] == ss[i + 1];
        }
      }
    }
  }

  /** A name no entry mentions keeps the solution it had. */
  lemma {:induction false} RecordedUntouched(solutions: map<string, S.SubCallSyntax>, ss: seq<SolutionItem>, exprs: seq<S.ExpressionSyntax>,
                                             n: string)
    requires |exprs| == |ss| && NamedSolutions(ss)
    requires n in solutions && forall j :: 0 <= j < |ss| ==> IdentifierName(ss[j].name) != n
    ensures n in Recorded(solutions, ss, exprs) && Recorded(solutions, ss, exprs)[n] == solutions[n]
    decreases |ss|
  {
    if ss != [] {
      assert IsIdentifier(ss[0].name) && IdentifierName(ss[0].name) != n;
      var solutions' := solutions[IdentifierName(ss[0].name) := Call(ss[0], exprs[0])];
      assert forall j :: 0 <= j < |ss[1..]| ==> ss[1..][j] == ss[j + 1];
      RecordedUntouched(solutions', ss[1..], exprs[1..], n);
    }
  }

  /** A name written more than once keeps the solution of its last entry: later entries overwrite earlier ones. */
  lemma {:induction false} RecordedLast(solutions: map<string, S.SubCallSyntax>, ss: seq<SolutionItem>, exprs: seq<S.ExpressionSyntax>,
                                        i: nat)
    requires |exprs| == |ss| && NamedSolutions(ss) && i < |ss|
    requires forall j :: i < j < |ss| ==> IdentifierName(ss[j].name) != IdentifierName(ss[i].name)
    ensures IdentifierName(ss[i].name) in Recorded(solutions, ss, exprs)
    ensures Recorded(solutions, ss, exprs)[IdentifierName(ss[i].name)] == Call(ss[i], exprs[i])
    decreases |ss|
  {
    assert IsIdentifier(ss[0].name);
    var solutions' := solutions[IdentifierName(ss[0].name) := Call(ss[0], exprs[0])];
    assert forall j :: 0 <= j < |ss[1..]| ==> ss[1..][j] == ss[j + 1];
    if i == 0 {
      RecordedUntouched(solutions', ss[1..], exprs[1..], IdentifierName(ss[0].name));
    } else {
      RecordedLast(solutions', ss[1..], exprs[1..], i - 1);
    }
  }

  /**
   * One solution followed by `rest` (nothing, or its separator and what
   * comes after): it is recorded under its name, and the loop goes on after
   * the separator.
   */
  lemma SolutionStep(s: SolutionItem, e: S.ExpressionSyntax, rest: seq<TokenBlock>, end: Option<CodeLocation>,
                     solutions: map<string, S.SubCallSyntax>, log: Log)
    requires IsIdentifier(s.name)
    requires ParseExpression(s.application + rest, end, log) == Step(Some(e), rest, log)
    ensures var solutions' := solutions[IdentifierName(s.name) := Call(s, e)];
      SolutionsFrom(SolutionItems(s) + rest, end, solutions, log)
      == if rest == [] then Solutions(true, solutions', log)
         else SolutionsFrom(rest[1..], end, solutions', log + AssertIsDelimiterOrError(rest[0], Comma).errors)
  {
    var items := SolutionItems(s) + rest;
    assert items[0] == s.name && items[1..] == s.application + rest;
    assert log + IntoIdentifierOrError(s.name).errors == log;
    assert SolutionEntry(items, end, solutions, log)
        == Entry(true, solutions[IdentifierName(s.name) := Call(s, e)], rest, log);
  }

  /**
   * `k` named solutions with `k - 1` separators between them are all
   * recorded in order, so the last entry for a name is the one kept; the
   * parse runs to the end, and each separator that is not a comma adds one
   * error.
   */
  lemma {:induction false} SolutionsRead(ss: seq<SolutionItem>, seps: seq<TokenBlock>, exprs: seq<S.ExpressionSyntax>,
                                         end: Option<CodeLocation>, solutions: map<string, S.SubCallSyntax>, log: Log)
    requires Separated(|ss|, seps) && NamedSolutions(ss) && ApplicationsRead(ss, seps, exprs, end)
    ensures SolutionsFrom(Joined(SolutionSegs(ss), seps), end, solutions, log)
         == Solutions(true, Recorded(solutions, ss, exprs), log + CommaErrors(seps))
  {
    if ss == [] {
      assert seps == [] && log + CommaErrors(seps) == log;
    } else {
      var s := ss[0];
      var segs := SolutionSegs(ss);
      assert ss[0..] == ss && seps[0..] == seps;
      assert segs[0] == SolutionItems(s) && segs[1..] == SolutionSegs(ss[1..]);
      assert IsIdentifier(s.name);
      var rest := After(segs, seps);
      assert Joined(segs, seps) == SolutionItems(s) + rest;
      assert ParseExpression(s.application + rest, end, log) == Step(Some(exprs[0]), rest, log);
      SolutionStep(s, exprs[0], rest, end, solutions, log);
      var solutions' := solutions[IdentifierName(s.name) := Call(s, exprs[0])];
      assert Recorded(solutions, ss, exprs) == Recorded(solutions', ss[1..], exprs[1..]);
      if |ss| == 1 {
        assert rest == [] && CommaErrors(seps) == [] && log + CommaErrors(seps) == log;
      } else {
        assert rest[0] == seps[0] && rest[1..] == Joined(SolutionSegs(ss[1..]), seps[1..]);
        forall i, l: Log | 0 <= i < |ss| - 1
          ensures ParseExpression(ss[1..][i].application + After(SolutionSegs(ss[1..][i..]), seps[1..][i..]), end, l)
               == Step(Some(exprs[1..][i]), After(SolutionSegs(ss[1..][i..]), seps[1..][i..]), l)
        {
          assert ss[1..][i..] == ss[i + 1..] && seps[1..][i..] == seps[i + 1..];
        }
        assert NamedSolutions(ss[1..]) by {
          assert forall j :: 0 <= j < |ss[1..]| ==> ss[1..][j] == ss[j + 1];
        }
        var log' := log + AssertIsDelimiterOrError(seps[0], Comma).errors;
        SolutionsRead(ss[1..], seps[1..], exprs[1..], end, solutions', log');
        Associative(log, AssertIsDelimiterOrError(seps[0], Comma).errors, CommaErrors(seps[1..]));
      }
    }
  }

  /**
   * The entries `parse_solution` does not record: a name that is not an
   * identifier is skipped with one error, and a name with nothing after it
   * stops the parse with "Expected application".
   */
  lemma SolutionFails(items: seq<TokenBlock>, end: Option<CodeLocation>, solutions: map<string, S.SubCallSyntax>, log: Log)
    requires items != []
    ensures var r := SolutionsFrom(items, end, solutions, log);
      var err := [ErrorAtItem("Expected identifier", items[0])];
      (!IsIdentifier(items[0]) && |items| == 1 ==> r == Solutions(true, solutions, log + err)) &&
      (!IsIdentifier(items[0]) && |items| > 1 ==> r == SolutionsFrom(items[1..], end, solutions, log + err)) &&
      (IsIdentifier(items[0]) && |items| == 1 ==>
         r == Solutions(false, solutions, log + [Diagnostics.ErrorAt("Expected application", end)]))
  {
    if IsIdentifier(items[0]) {
      assert log + IntoIdentifierOrError(items[0]).errors == log;
    }
  }

  // ---------------------------------------------------------------------
  // `parse_sub` (src/compiler/parser.rs:176-200)
  // ---------------------------------------------------------------------

  /**
   * `name (args) { code }`, optionally followed by `= result`, is read as
   * the sub of that name with the arguments and code read from the two
   * blocks, and the result read after the `=` (`None` when that fails).
   */
  lemma SubRead(nameItem: TokenBlock, argsItem: TokenBlock, codeItem: TokenBlock, rest: seq<TokenBlock>,
                end: Option<CodeLocation>, log: Log)
    requires IsIdentifier(nameItem) && IsRoundBlock(argsItem) && codeItem.Block? && codeItem.block.braceType == Curly
    requires TypedIdentifiers(argsItem.block, log).value.Some?
    requires CodeBlock(codeItem.block, TypedIdentifiers(argsItem.block, log).log).value.Some?
    ensures var args := TypedIdentifiers(argsItem.block, log);
      var code := CodeBlock(codeItem.block, args.log);
      var name := Located(nameItem, IdentifierName(nameItem));
      var r := ParseSub([nameItem, argsItem, codeItem] + rest, end, log);
      (!(rest != [] && KindOf(rest[0]) == TokenKind(Delimiter(Equals))) ==>
         r == Step(Some(S.SubstructureSyntax(name, args.value.value, code.value.value, None)), rest, code.log)) &&
      (rest != [] && KindOf(rest[0]) == TokenKind(Delimiter(Equals)) ==>
         var result := ParseExpression(rest[1..], end, code.log);
         r == Step(Some(S.SubstructureSyntax(name, args.value.value, code.value.value, result.value)), result.rest, result.log))
  {
    var items := [nameItem, argsItem, codeItem] + rest;
    assert items[0] == nameItem && items[1..][0] == argsItem && items[1..][1..][0] == codeItem && items[1..][1..][1..] == rest;
    assert log + IntoIdentifierOrError(nameItem).errors == log;
    var args := TypedIdentifiers(argsItem.block, log);
    assert args.log + IntoBlockTypeOrError(codeItem, Curly).errors == args.log;
    assert log + IntoBlockTypeOrError(argsItem, Round).errors == log;
  }

  /** Each missing or wrong part of a sub ends it with `None` and exactly one error of its own. */
  lemma SubFails(items: seq<TokenBlock>, end: Option<CodeLocation>, log: Log)
    ensures var r := ParseSub(items, end, log);
      (items == [] ==> r == Missing("identifier", end, log)) &&
      (items != [] && !IsIdentifier(items[0]) ==> r == Step(None, items[1..], log + [ErrorAtItem("Expected identifier", items[0])])) &&
      (|items| == 1 && IsIdentifier(items[0]) ==> r == Missing("args", end, log)) &&
      (|items| >= 2 && IsIdentifier(items[0]) && !IsRoundBlock(items[1]) ==>
         r == Step(None, items[2..], log + [ErrorAtItem("Expected " + BraceName(Round) + " block", items[1])]))
    ensures |items| >= 2 && IsIdentifier(items[0]) && IsRoundBlock(items[1]) ==>
      var args := TypedIdentifiers(items[1].block, log);
      var r := ParseSub(items, end, log);
      (args.value.None? ==> r == Step(None, items[2..], args.log)) &&
      (args.value.Some? && |items| == 2 ==> r == Missing("code block", end, args.log)) &&
      (args.value.Some? && |items| >= 3 && !(items[2].Block? && items[2].block.braceType == Curly) ==>
         r == Step(None, items[3..], args.log + [ErrorAtItem("Expected " + BraceName(Curly) + " block", items[2])])) &&
      (args.value.Some? && |items| >= 3 && items[2].Block? && items[2].block.braceType == Curly &&
       CodeBlock(items[2].block, args.log).value.None? ==>
         r == Step(None, items[3..], CodeBlock(items[2].block, args.log).log))
  {
    if items != [] && IsIdentifier(items[0]) {
      assert log + IntoIdentifierOrError(items[0]).errors == log;
    }
    if |items| >= 2 {
      assert items[1..][0] == items[1] && items[1..][1..] == items[2..];
      if IsRoundBlock(items[1]) {
        assert log + IntoBlockTypeOrError(items[1], Round).errors == log;
      }
    }
    if |items| >= 3 {
      assert items[2..][0] == items[2] && items[2..][1..] == items[3..];
      if IsRoundBlock(items[1]) && items[2].Block? && items[2].block.braceType == Curly {
        var args := TypedIdentifiers(items[1].block, log);
        assert args.log + IntoBlockTypeOrError(items[2], Curly).errors == args.log;
      }
    }
  }
}
