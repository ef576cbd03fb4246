/**
 * Brace grouping (src/compiler/block_parser.rs): the flat token stream is
 * turned into a sequence of items, each either a single token or a block
 * holding its opening brace, its body and its closing brace.
 *
 * The grouping methods are proved against a flat brace matcher that keeps an
 * explicit stack of open brace kinds (`Scan`, `MatchFrom`): grouping succeeds
 * exactly when the matcher accepts, and flattening the groups gives the
 * tokens back in order.
 */
module BlockParser {
  import opened Wrappers
  import opened CodeLocations
  import opened Tokens
  import Diagnostics
  import opened TypeStreams

  datatype TokenBlock = Token(token: Tokens.Token) | Block(block: Block)

  datatype Block = Block(span: CodeLocation, braceType: Brace, openToken: Tokens.Token, body: seq<TokenBlock>, closeToken: Option<Tokens.Token>)

  // ---------------------------------------------------------------------
  // `Debug` names used in messages
  // ---------------------------------------------------------------------

  function BraceName(b: Brace): string
  {
    match b
    case Round => "Round"
    case Curly => "Curly"
    case Square => "Square"
  }

  function KeywordName(k: Keyword): string
  {
    match k
    case If => "If"
    case Let => "Let"
    case Else => "Else"
    case Super => "Super"
    case Force => "Force"
    case Output => "Output"
    case Problem => "Problem"
    case Solution => "Solution"
    case Composite => "Composite"
    case Collection => "Collection"
    case SubStructure => "SubStructure"
  }

  function DelimiterName(d: Delimiter): string
  {
    match d
    case Brace(b, state) => "Brace(" + BraceName(b) + ", " + (if state.Open? then "Open" else "Closed") + ")"
    case Colon => "Colon"
    case DoubleColon => "DoubleColon"
    case Comma => "Comma"
    case Period => "Period"
    case Semicolon => "Semicolon"
    case Equals => "Equals"
    case ThickArrowRight => "ThickArrowRight"
    case ThinArrowRight => "ThinArrowRight"
  }

  // ---------------------------------------------------------------------
  // Item helpers (src/compiler/block_parser.rs:22-145)
  // ---------------------------------------------------------------------

  /** `code_location`: a block's span or a token's location. */
  function LocationOf(item: TokenBlock): CodeLocation
  {
    match item
    case Block(b) => b.span
    case Token(t) => t.codeLocation
  }

  function Located<T>(item: TokenBlock, value: T): LocationValue<T>
  {
    LocationValue(Some(LocationOf(item)), value)
  }

  function ErrorAtItem(message: string, item: TokenBlock): Diagnostics.Diagnostic
  {
    Diagnostics.ErrorAt(message, Some(LocationOf(item)))
  }

  function Fail<T>(message: string, item: TokenBlock): (r: Diagnostics.Reported<T>)
    ensures r.value.None? && r.errors == [ErrorAtItem(message, item)]
  {
    Diagnostics.Reported(None, [ErrorAtItem(message, item)])
  }

  function Ok<T>(value: T): (r: Diagnostics.Reported<T>)
    ensures r.value == Some(value) && r.errors == []
  {
    Diagnostics.Reported(Some(value), [])
  }

  /** `into_block_type_or_error`: the block itself when it has the requested brace kind. */
  function IntoBlockTypeOrError(item: TokenBlock, blockType: Brace): (r: Diagnostics.Reported<Block>)
    ensures r.value.Some? <==> item.Block? && item.block.braceType == blockType
    ensures r.value.Some? ==> r.value.value == item.block
    ensures r.value.None? ==> r.errors == [ErrorAtItem("Expected " + BraceName(blockType) + " block", item)]
    ensures Diagnostics.OneErrorOnFailure(r)
  {
    if item.Block? && item.block.braceType == blockType then Ok(item.block)
    else Fail("Expected " + BraceName(blockType) + " block", item)
  }

  /** `into_identifier_or_error`. */
  function IntoIdentifierOrError(item: TokenBlock): (r: Diagnostics.Reported<LocationValue<string>>)
    ensures r.value.Some? <==> item.Token? && item.token.tokenType.Identifier?
    ensures r.value.Some? ==> r.value.value == LocationValue(Some(item.token.codeLocation), item.token.tokenType.name)
    ensures r.value.None? ==> r.errors == [ErrorAtItem("Expected identifier", item)]
    ensures Diagnostics.OneErrorOnFailure(r)
  {
    if item.Token? && item.token.tokenType.Identifier? then Ok(Located(item, item.token.tokenType.name))
    else Fail("Expected identifier", item)
  }

  /** `into_integer_or_error`. */
  function IntoIntegerOrError(item: TokenBlock): (r: Diagnostics.Reported<LocationValue<Usize>>)
    ensures r.value.Some? <==> item.Token? && item.token.tokenType.Integer?
    ensures r.value.Some? ==> r.value.value == LocationValue(Some(item.token.codeLocation), item.token.tokenType.integer)
    ensures r.value.None? ==> r.errors == [ErrorAtItem("Expected integer", item)]
    ensures Diagnostics.OneErrorOnFailure(r)
  {
    if item.Token? && item.token.tokenType.Integer? then Ok(Located(item, item.token.tokenType.integer))
    else Fail("Expected integer", item)
  }

  /** `into_string_or_error`; its message reads "Expected integer" as in the source. */
  function IntoStringOrError(item: TokenBlock): (r: Diagnostics.Reported<LocationValue<string>>)
    ensures r.value.Some? <==> item.Token? && item.token.tokenType.StringLit?
    ensures r.value.Some? ==> r.value.value == LocationValue(Some(item.token.codeLocation), item.token.tokenType.text)
    ensures r.value.None? ==> r.errors == [ErrorAtItem("Expected integer", item)]
    ensures Diagnostics.OneErrorOnFailure(r)
  {
    if item.Token? && item.token.tokenType.StringLit? then Ok(Located(item, item.token.tokenType.text))
    else Fail("Expected integer", item)
  }

  /** `into_atom_type_or_error`: a `true`/`false` token. */
  function IntoAtomTypeOrError(item: TokenBlock): (r: Diagnostics.Reported<LocationValue<AtomType>>)
    ensures r.value.Some? <==> item.Token? && item.token.tokenType.Atom? && item.token.tokenType.atom.Type?
    ensures r.value.Some? ==> r.value.value == LocationValue(Some(item.token.codeLocation), item.token.tokenType.atom.atomType)
    ensures r.value.None? ==> r.errors == [ErrorAtItem("Expected atom type (true/false)", item)]
    ensures Diagnostics.OneErrorOnFailure(r)
  {
    if item.Token? && item.token.tokenType.Atom? && item.token.tokenType.atom.Type? then
      Ok(Located(item, item.token.tokenType.atom.atomType))
    else Fail("Expected atom type (true/false)", item)
  }

  /** `into_atom_sub_or_error`: a `not`/`or` token. */
  function IntoAtomSubOrError(item: TokenBlock): (r: Diagnostics.Reported<LocationValue<AtomSub>>)
    ensures r.value.Some? <==> item.Token? && item.token.tokenType.Atom? && item.token.tokenType.atom.Sub?
    ensures r.value.Some? ==> r.value.value == LocationValue(Some(item.token.codeLocation), item.token.tokenType.atom.atomSub)
    ensures r.value.None? ==> r.errors == [ErrorAtItem("Expected atom sub (not/or)", item)]
    ensures Diagnostics.OneErrorOnFailure(r)
  {
    if item.Token? && item.token.tokenType.Atom? && item.token.tokenType.atom.Sub? then
      Ok(Located(item, item.token.tokenType.atom.atomSub))
    else Fail("Expected atom sub (not/or)", item)
  }

  /** `assert_is_keyword_or_error`: the item's location when it is exactly that keyword. */
  function AssertIsKeywordOrError(item: TokenBlock, expected: Keyword): (r: Diagnostics.Reported<CodeLocation>)
    ensures r.value.Some? <==> item.Token? && item.token.tokenType == Keyword(expected)
    ensures r.value.Some? ==> r.value.value == item.token.codeLocation
    ensures r.value.None? ==> r.errors == [ErrorAtItem("Expected keyword: " + KeywordName(expected), item)]
    ensures Diagnostics.OneErrorOnFailure(r)
  {
    if item.Token? && item.token.tokenType == Keyword(expected) then Ok(LocationOf(item))
    else Fail("Expected keyword: " + KeywordName(expected), item)
  }

  /** `assert_is_delimiter_or_error`: the item's location when it is exactly that delimiter. */
  function AssertIsDelimiterOrError(item: TokenBlock, expected: Delimiter): (r: Diagnostics.Reported<CodeLocation>)
    ensures r.value.Some? <==> item.Token? && item.token.tokenType == Delimiter(expected)
    ensures r.value.Some? ==> r.value.value == item.token.codeLocation
    ensures r.value.None? ==> r.errors == [ErrorAtItem("Expected delimiter: " + DelimiterName(expected), item)]
    ensures Diagnostics.OneErrorOnFailure(r)
  {
    if item.Token? && item.token.tokenType == Delimiter(expected) then Ok(LocationOf(item))
    else Fail("Expected delimiter: " + DelimiterName(expected), item)
  }

  // ---------------------------------------------------------------------
  // `TokenBlockType` (src/compiler/block_parser.rs:146-182)
  // ---------------------------------------------------------------------

  datatype TokenBlockType = TokenKind(tokenType: TokenType) | BlockKind(brace: Brace)

  /** `token_type`: a token's type, or a block's brace kind. */
  function KindOf(item: TokenBlock): TokenBlockType
  {
    match item
    case Token(t) => TokenKind(t.tokenType)
    case Block(b) => BlockKind(b.braceType)
  }

  function AsDelimiter(k: TokenBlockType): (r: Option<Delimiter>)
    ensures r.Some? <==> k.TokenKind? && k.tokenType.Delimiter?
    ensures r.Some? ==> k == TokenKind(Delimiter(r.value))
  {
    match k
    case TokenKind(t) => if t.Delimiter? then Some(t.delimiter) else None
    case BlockKind(_) => None
  }

  function AsBlock(k: TokenBlockType): (r: Option<Brace>)
    ensures r.Some? <==> k.BlockKind?
    ensures r.Some? ==> k == BlockKind(r.value)
  {
    match k
    case TokenKind(_) => None
    case BlockKind(b) => Some(b)
  }

  predicate IsDoubleColon(k: TokenBlockType)
  {
    var d := AsDelimiter(k); d.Some? && d.value.DoubleColon?
  }

  predicate IsPeriod(k: TokenBlockType)
  {
    var d := AsDelimiter(k); d.Some? && d.value.Period?
  }

  predicate IsCurlyBlock(k: TokenBlockType)
  {
    var b := AsBlock(k); b.Some? && b.value.Curly?
  }

  /** Each kind predicate holds for exactly one token or block kind. */
  lemma KindPredicates(k: TokenBlockType)
    ensures IsDoubleColon(k) <==> k == TokenKind(Delimiter(DoubleColon))
    ensures IsPeriod(k) <==> k == TokenKind(Delimiter(Period))
    ensures IsCurlyBlock(k) <==> k == BlockKind(Curly)
  {
  }

  // ---------------------------------------------------------------------
  // The flat brace matcher
  // ---------------------------------------------------------------------

  /** What the grouping pass distinguishes about a token. */
  datatype Role = Opens(brace: Brace) | Closes(brace: Brace) | EndOfFile | Plain

  function RoleOf(t: Tokens.Token): (r: Role)
    ensures r.Opens? ==> t.tokenType == Delimiter(Brace(r.brace, Open))
    ensures r.Closes? ==> t.tokenType == Delimiter(Brace(r.brace, Closed))
    ensures r.EndOfFile? <==> t.tokenType.EOF?
    ensures r.Plain? ==> !t.tokenType.EOF? && !(t.tokenType.Delimiter? && t.tokenType.delimiter.Brace?)
  {
    if t.tokenType.Delimiter? && t.tokenType.delimiter.Brace? then
      if t.tokenType.delimiter.state.Open? then Opens(t.tokenType.delimiter.brace) else Closes(t.tokenType.delimiter.brace)
    else if t.tokenType.EOF? then EndOfFile
    else Plain
  }

  predicate IsBrace(t: Tokens.Token)
  {
    RoleOf(t).Opens? || RoleOf(t).Closes?
  }

  /**
   * Outcome of the matcher: `Ends(n)` when it stops successfully after `n`
   * tokens, `Unbalanced` on a wrong or missing closing brace, `Exhausted`
   * when the tokens run out first.
   */
  datatype Scanned = Ends(length: nat) | Unbalanced | Exhausted

  function ShiftBy(s: Scanned, k: nat): Scanned
  {
    if s.Ends? then Ends(s.length + k) else s
  }

  lemma ShiftTwice(s: Scanned, a: nat, b: nat)
    ensures ShiftBy(ShiftBy(s, a), b) == ShiftBy(s, a + b)
  {
  }

  /**
   * Whole-file matcher: braces must nest with matching kinds, and the first
   * EOF must come with no brace open; `Ends(n)` counts the tokens before it.
   */
  function Scan(ts: seq<Tokens.Token>, stack: seq<Brace>): (s: Scanned)
    ensures s.Ends? ==> s.length < |ts|
  {
    if ts == [] then Exhausted
    else match RoleOf(ts[0])
      case EndOfFile => if stack == [] then Ends(0) else Unbalanced
      case Closes(b) =>
        if stack != [] && stack[|stack| - 1] == b then ShiftBy(Scan(ts[1..], stack[..|stack| - 1]), 1)
        else Unbalanced
      case Opens(b) => ShiftBy(Scan(ts[1..], stack + [b]), 1)
      case Plain => ShiftBy(Scan(ts[1..], stack), 1)
  }

  /** The whole-file matcher stops exactly at an EOF. */
  lemma {:induction false} ScanStopsAtEof(ts: seq<Tokens.Token>, stack: seq<Brace>)
    ensures Scan(ts, stack).Ends? ==> ts[Scan(ts, stack).length].tokenType.EOF?
    decreases |ts|
  {
    if ts != [] && Scan(ts, stack).Ends? {
      match RoleOf(ts[0])
      case EndOfFile =>
      case Closes(b) =>
        ScanStopsAtEof(ts[1..], stack[..|stack| - 1]);
      case Opens(b) =>
        ScanStopsAtEof(ts[1..], stack + [b]);
      case Plain =>
        ScanStopsAtEof(ts[1..], stack);
    }
  }

  /**
   * Block matcher: runs from inside open braces `stack` until the stack
   * empties; `Ends(n)` counts the tokens up to and including that closing brace.
   */
  function MatchFrom(ts: seq<Tokens.Token>, stack: seq<Brace>): (s: Scanned)
    requires stack != []
    ensures s.Ends? ==> 1 <= s.length <= |ts|
  {
    if ts == [] then Exhausted
    else match RoleOf(ts[0])
      case EndOfFile => Unbalanced
      case Closes(b) =>
        if stack[|stack| - 1] != b then Unbalanced
        else if |stack| == 1 then Ends(1)
        else ShiftBy(MatchFrom(ts[1..], stack[..|stack| - 1]), 1)
      case Opens(b) => ShiftBy(MatchFrom(ts[1..], stack + [b]), 1)
      case Plain => ShiftBy(MatchFrom(ts[1..], stack), 1)
  }

  /**
   * Matcher bookkeeping over plain values: when both matchers took one token
   * and the rest agrees as stated, the whole agrees the same way.
   */
  lemma ShiftedThen(whole: Scanned, matched: Scanned, wholeRest: Scanned, matchedRest: Scanned, after: Scanned)
    requires whole == ShiftBy(wholeRest, 1) && matched == ShiftBy(matchedRest, 1)
    requires matchedRest.Ends? ==> wholeRest == ShiftBy(after, matchedRest.length)
    requires !matchedRest.Ends? ==> wholeRest == matchedRest
    ensures matched.Ends? ==> matched.length == matchedRest.length + 1 && whole == ShiftBy(after, matched.length)
    ensures !matched.Ends? ==> whole == matched
  {
    if matchedRest.Ends? {
      ShiftTwice(after, matchedRest.length, 1);
    }
  }

  /** The stack the block matcher continues with after the first token, when it continues. */
  function NextStack(role: Role, stack: seq<Brace>): (r: seq<Brace>)
    requires stack != []
  {
    if role.Closes? then stack[..|stack| - 1] else if role.Opens? then stack + [role.brace] else stack
  }

  /** Whether the block matcher stops at the first token (with either verdict). */
  predicate StopsAt(role: Role, stack: seq<Brace>)
    requires stack != []
  {
    role.EndOfFile? || (role.Closes? && (stack[|stack| - 1] != role.brace || |stack| == 1))
  }

  /** Unfolding both matchers by one token on a stack with `below` underneath. */
  lemma MatchersStep(ts: seq<Tokens.Token>, below: seq<Brace>, stack: seq<Brace>)
    requires ts != [] && stack != [] && !StopsAt(RoleOf(ts[0]), stack)
    ensures Scan(ts, below + stack) == ShiftBy(Scan(ts[1..], below + NextStack(RoleOf(ts[0]), stack)), 1)
    ensures MatchFrom(ts, stack) == ShiftBy(MatchFrom(ts[1..], NextStack(RoleOf(ts[0]), stack)), 1)
    ensures below != [] ==>
      MatchFrom(ts, below + stack) == ShiftBy(MatchFrom(ts[1..], below + NextStack(RoleOf(ts[0]), stack)), 1)
  {
    var full := below + stack;
    assert full[|full| - 1] == stack[|stack| - 1];
    var role := RoleOf(ts[0]);
    if role.Closes? {
      assert full[..|full| - 1] == below + stack[..|stack| - 1];
    } else if role.Opens? {
      assert full + [role.brace] == below + (stack + [role.brace]);
    }
  }

  /** Once `stack` is closed, the whole-file matcher continues with what was open beneath it. */
  lemma {:induction false} MatchThenScan(ts: seq<Tokens.Token>, below: seq<Brace>, stack: seq<Brace>)
    requires stack != []
    ensures MatchFrom(ts, stack).Ends? ==>
      Scan(ts, below + stack) == ShiftBy(Scan(ts[MatchFrom(ts, stack).length..], below), MatchFrom(ts, stack).length)
    ensures !MatchFrom(ts, stack).Ends? ==> Scan(ts, below + stack) == MatchFrom(ts, stack)
  {
    if ts != [] {
      var full := below + stack;
      assert full[|full| - 1] == stack[|stack| - 1];
      var role := RoleOf(ts[0]);
      if StopsAt(role, stack) {
        if role.Closes? && stack[|stack| - 1] == role.brace {
          assert full[..|full| - 1] == below;
        }
      } else {
        var next := NextStack(role, stack);
        MatchersStep(ts, below, stack);
        MatchThenScan(ts[1..], below, next);
        var matchedRest := MatchFrom(ts[1..], next);
        if matchedRest.Ends? {
          var m := matchedRest.length;
          assert ts[1..][m..] == ts[m + 1..];
          ShiftedThen(Scan(ts, full), MatchFrom(ts, stack), Scan(ts[1..], below + next), matchedRest, Scan(ts[m + 1..], below));
        } else {
          ShiftedThen(Scan(ts, full), MatchFrom(ts, stack), Scan(ts[1..], below + next), matchedRest, Exhausted);
        }
      }
    }
  }

  /** The same for the block matcher with further braces open beneath `stack`. */
  lemma {:induction false} MatchThenMatch(ts: seq<Tokens.Token>, below: seq<Brace>, stack: seq<Brace>)
    requires stack != [] && below != []
    ensures MatchFrom(ts, stack).Ends? ==>
      MatchFrom(ts, below + stack) == ShiftBy(MatchFrom(ts[MatchFrom(ts, stack).length..], below), MatchFrom(ts, stack).length)
    ensures !MatchFrom(ts, stack).Ends? ==> MatchFrom(ts, below + stack) == MatchFrom(ts, stack)
  {
    if ts != [] {
      var full := below + stack;
      assert full[|full| - 1] == stack[|stack| - 1];
      var role := RoleOf(ts[0]);
      if StopsAt(role, stack) {
        if role.Closes? && stack[|stack| - 1] == role.brace {
          assert full[..|full| - 1] == below;
        }
      } else {
        var next := NextStack(role, stack);
        MatchersStep(ts, below, stack);
        MatchThenMatch(ts[1..], below, next);
        var matchedRest := MatchFrom(ts[1..], next);
        if matchedRest.Ends? {
          var m := matchedRest.length;
          assert ts[1..][m..] == ts[m + 1..];
          ShiftedThen(MatchFrom(ts, full), MatchFrom(ts, stack), MatchFrom(ts[1..], below + next), matchedRest, MatchFrom(ts[m + 1..], below));
        } else {
          ShiftedThen(MatchFrom(ts, full), MatchFrom(ts, stack), MatchFrom(ts[1..], below + next), matchedRest, Exhausted);
        }
      }
    }
  }

  /** A stream that contains an EOF token never exhausts the whole-file matcher. */
  lemma {:induction false} ScanReachesEof(ts: seq<Tokens.Token>, stack: seq<Brace>, k: nat)
    requires k < |ts| && ts[k].tokenType.EOF?
    ensures !Scan(ts, stack).Exhausted?
  {
    if k > 0 {
      match RoleOf(ts[0]) {
        case Closes(b) =>
          if stack != [] && stack[|stack| - 1] == b {
            ScanReachesEof(ts[1..], stack[..|stack| - 1], k - 1);
          }
        case Opens(b) =>
          ScanReachesEof(ts[1..], stack + [b], k - 1);
        case EndOfFile =>
        case Plain =>
          ScanReachesEof(ts[1..], stack, k - 1);
      }
    }
  }

  // ---------------------------------------------------------------------
  // Flattening and well-formed groups
  // ---------------------------------------------------------------------

  /** The tokens an item was built from, in source order. */
  function FlattenItem(item: TokenBlock): seq<Tokens.Token>
    decreases item
  {
    match item
    case Token(t) => [t]
    case Block(b) =>
      [b.openToken] + Flatten(b.body) + (if b.closeToken.Some? then [b.closeToken.value] else [])
  }

  function Flatten(items: seq<TokenBlock>): seq<Tokens.Token>
    decreases items
  {
    if items == [] then [] else Flatten(items[..|items| - 1]) + FlattenItem(items[|items| - 1])
  }

  /**
   * A token item is neither a brace nor EOF; a block opens and closes with
   * braces of its own kind, spans from one to the other, and has a
   * well-formed body.
   */
  predicate WellFormedItem(item: TokenBlock)
    decreases item
  {
    match item
    case Token(t) => RoleOf(t).Plain?
    case Block(b) =>
      RoleOf(b.openToken) == Opens(b.braceType) &&
      b.closeToken.Some? && RoleOf(b.closeToken.value) == Closes(b.braceType) &&
      TokenTo(b.openToken, b.closeToken.value) == Some(b.span) &&
      WellFormed(b.body)
  }

  predicate WellFormed(items: seq<TokenBlock>)
    decreases items
  {
    items == [] || (WellFormed(items[..|items| - 1]) && WellFormedItem(items[|items| - 1]))
  }

  /**
   * Every brace in `ts` can be merged with `location` (`Token::to` would
   * panic otherwise).  Stated token by token, from the front.
   */
  predicate BracesMergeWith(ts: seq<Tokens.Token>, location: CodeLocation)
    decreases |ts|
  {
    ts == [] || ((IsBrace(ts[0]) ==> Mergeable(location, ts[0].codeLocation)) && BracesMergeWith(ts[1..], location))
  }

  /** Any two braces in `ts` can be merged: each brace with every brace after it. */
  predicate BracesMergeable(ts: seq<Tokens.Token>)
    decreases |ts|
  {
    ts == [] || ((IsBrace(ts[0]) ==> BracesMergeWith(ts[1..], ts[0].codeLocation)) && BracesMergeable(ts[1..]))
  }

  /** `BracesMergeWith` says what its name says, index by index. */
  lemma {:induction false} BracesMergeWithAt(ts: seq<Tokens.Token>, location: CodeLocation, i: nat)
    requires BracesMergeWith(ts, location) && i < |ts| && IsBrace(ts[i])
    ensures Mergeable(location, ts[i].codeLocation)
    decreases i
  {
    if i > 0 {
      BracesMergeWithAt(ts[1..], location, i - 1);
    }
  }

  /** Braces that merge with one location merge with any location mergeable with it. */
  lemma {:induction false} BracesMergeMove(ts: seq<Tokens.Token>, a: CodeLocation, b: CodeLocation)
    requires BracesMergeWith(ts, a) && Mergeable(a, b)
    ensures BracesMergeWith(ts, b)
    decreases |ts|
  {
    if ts != [] {
      BracesMergeMove(ts[1..], a, b);
    }
  }

  /** Braces of a suffix still merge with `location`. */
  lemma {:induction false} BracesMergeSuffix(ts: seq<Tokens.Token>, k: nat, location: CodeLocation)
    requires k <= |ts| && BracesMergeWith(ts, location)
    ensures BracesMergeWith(ts[k..], location)
    decreases k
  {
    if k > 0 {
      BracesMergeSuffix(ts[1..], k - 1, location);
      assert ts[1..][k - 1..] == ts[k..];
    }
  }

  lemma {:induction false} BracesMergeableSuffix(ts: seq<Tokens.Token>, k: nat)
    requires k <= |ts| && BracesMergeable(ts)
    ensures BracesMergeable(ts[k..])
    decreases k
  {
    if k > 0 {
      BracesMergeableSuffix(ts[1..], k - 1);
      assert ts[1..][k - 1..] == ts[k..];
    }
  }

  /** The braces after a brace at `c` merge with it. */
  lemma BracesMergeAfter(ts: seq<Tokens.Token>, c: nat, location: CodeLocation)
    requires c < |ts| && IsBrace(ts[c]) && BracesMergeWith(ts, location)
    ensures BracesMergeWith(ts[c + 1..], ts[c].codeLocation)
  {
    BracesMergeSuffix(ts, c, location);
    var here := ts[c..];
    assert here[0] == ts[c] && here[1..] == ts[c + 1..];
    BracesMergeMove(ts[c + 1..], location, ts[c].codeLocation);
  }

  lemma BracesMergeableAfter(ts: seq<Tokens.Token>, c: nat)
    requires c < |ts| && IsBrace(ts[c]) && BracesMergeable(ts)
    ensures BracesMergeWith(ts[c + 1..], ts[c].codeLocation)
  {
    BracesMergeableSuffix(ts, c);
    var here := ts[c..];
    assert here[0] == ts[c] && here[1..] == ts[c + 1..];
  }

  lemma FlattenSnoc(items: seq<TokenBlock>, item: TokenBlock)
    ensures Flatten(items + [item]) == Flatten(items) + FlattenItem(item)
  {
    assert (items + [item])[..|items|] == items;
  }

  lemma WellFormedSnoc(items: seq<TokenBlock>, item: TokenBlock)
    requires WellFormed(items) && WellFormedItem(item)
    ensures WellFormed(items + [item])
  {
    assert (items + [item])[..|items|] == items;
  }

  // ---------------------------------------------------------------------
  // Grouping as functions of the remaining tokens
  // ---------------------------------------------------------------------

  /**
   * What a grouping step yields: the value and how many tokens it took, or a
   * failure, `reported` when an error is added and not when the tokens ran
   * out.
   */
  datatype Parsed<T> = Parsed(value: T, consumed: nat) | Failed(reported: bool)

  function ShiftParsed<T>(p: Parsed<T>, k: nat): (q: Parsed<T>)
    ensures q.Parsed? <==> p.Parsed?
    ensures q.Parsed? ==> q.value == p.value && q.consumed == p.consumed + k
    ensures q.Failed? ==> q == p
  {
    if p.Parsed? then Parsed(p.value, p.consumed + k) else p
  }

  /** `Token::to` where it does not panic; the grouping methods never reach the other case. */
  function SpanTo(openToken: Tokens.Token, closeToken: Tokens.Token): (r: CodeLocation)
    ensures TokenTo(openToken, closeToken).Some? ==> TokenTo(openToken, closeToken) == Some(r)
  {
    if TokenTo(openToken, closeToken).Some? then TokenTo(openToken, closeToken).value else openToken.codeLocation
  }

  /**
   * The block `parse_block` builds from `rest`, the tokens after `openToken`,
   * with `body` already grouped: a matching closing brace ends it, a wrong
   * one or an EOF fails with an error, and anything else is grouped as an
   * item and appended to the body.
   */
  function BlockFrom(rest: seq<Tokens.Token>, exit: Brace, openToken: Tokens.Token, body: seq<TokenBlock>): (p: Parsed<TokenBlock>)
    ensures p.Parsed? ==> 1 <= p.consumed <= |rest|
    decreases |rest|, 0
  {
    if rest == [] then Failed(false)
    else match RoleOf(rest[0])
      case Closes(b) =>
        if b == exit then Parsed(TokenBlock.Block(Block.Block(SpanTo(openToken, rest[0]), exit, openToken, body, Some(rest[0]))), 1)
        else Failed(true)
      case EndOfFile => Failed(true)
      case _ =>
        match ItemFrom(rest[0], rest[1..])
        case Failed(reported) => Failed(reported)
        case Parsed(item, n) => ShiftParsed(BlockFrom(rest[1 + n..], exit, openToken, body + [item]), 1 + n)
  }

  /** The item begun by `first`, taken already, with `rest` after it: a block for an opening brace, the token otherwise. */
  function ItemFrom(first: Tokens.Token, rest: seq<Tokens.Token>): (p: Parsed<TokenBlock>)
    ensures p.Parsed? ==> p.consumed <= |rest|
    decreases |rest|, 1
  {
    if RoleOf(first).Opens? then BlockFrom(rest, RoleOf(first).brace, first, [])
    else Parsed(TokenBlock.Token(first), 0)
  }

  /**
   * The items `from_token_stream` groups from `rest` after `res`: the first
   * EOF ends the file, a closing brace fails with an error, anything else is
   * grouped as an item.  `consumed` is the position of that EOF.
   */
  function FileFrom(rest: seq<Tokens.Token>, res: seq<TokenBlock>): (p: Parsed<seq<TokenBlock>>)
    ensures p.Parsed? ==> p.consumed < |rest|
    decreases |rest|
  {
    if rest == [] then Failed(false)
    else match RoleOf(rest[0])
      case EndOfFile => Parsed(res, 0)
      case Closes(_) => Failed(true)
      case _ =>
        match ItemFrom(rest[0], rest[1..])
        case Failed(reported) => Failed(reported)
        case Parsed(item, n) => ShiftParsed(FileFrom(rest[1 + n..], res + [item]), 1 + n)
  }

  /** The file grouping stops exactly at an EOF. */
  lemma {:induction false} FileFromStopsAtEof(rest: seq<Tokens.Token>, res: seq<TokenBlock>)
    ensures FileFrom(rest, res).Parsed? ==> rest[FileFrom(rest, res).consumed].tokenType.EOF?
    decreases |rest|
  {
    if rest != [] && !RoleOf(rest[0]).EndOfFile? && FileFrom(rest, res).Parsed? {
      var item := ItemFrom(rest[0], rest[1..]);
      FileFromStopsAtEof(rest[1 + item.consumed..], res + [item.value]);
    }
  }

  /** A failure that adds an error. */
  predicate Reports<T>(p: Parsed<T>)
  {
    p.Failed? && p.reported
  }

  /** The matcher outcome a grouping outcome corresponds to. */
  function Outcome<T>(p: Parsed<T>): (s: Scanned)
    ensures s.Ends? <==> p.Parsed?
    ensures s.Unbalanced? <==> Reports(p)
    ensures s.Ends? ==> s.length == p.consumed
  {
    match p
    case Parsed(_, n) => Ends(n)
    case Failed(reported) => if reported then Unbalanced else Exhausted
  }

  // ---------------------------------------------------------------------
  // The grouping functions agree with the matcher
  // ---------------------------------------------------------------------

  /** Unfolding the block grouping at an opening brace. */
  lemma BlockOpensStep(rest: seq<Tokens.Token>, exit: Brace, openToken: Tokens.Token, body: seq<TokenBlock>, b: Brace)
    requires rest != [] && RoleOf(rest[0]) == Opens(b)
    ensures var inner := BlockFrom(rest[1..], b, rest[0], []);
      (inner.Failed? ==> BlockFrom(rest, exit, openToken, body) == inner) &&
      (inner.Parsed? ==> (BlockFrom(rest, exit, openToken, body) ==
        ShiftParsed(BlockFrom(rest[1 + inner.consumed..], exit, openToken, body + [inner.value]), 1 + inner.consumed)))
  {
  }

  /** Unfolding the file grouping at an opening brace. */
  lemma FileOpensStep(rest: seq<Tokens.Token>, res: seq<TokenBlock>, b: Brace)
    requires rest != [] && RoleOf(rest[0]) == Opens(b)
    ensures var inner := BlockFrom(rest[1..], b, rest[0], []);
      (inner.Failed? ==> FileFrom(rest, res) == Failed(inner.reported)) &&
      (inner.Parsed? ==> (FileFrom(rest, res) ==
        ShiftParsed(FileFrom(rest[1 + inner.consumed..], res + [inner.value]), 1 + inner.consumed)))
  {
  }

  lemma OutcomeShift<T>(p: Parsed<T>, k: nat)
    ensures Outcome(ShiftParsed(p, k)) == ShiftBy(Outcome(p), k)
  {
  }

  /** Unfolding both matchers at an opening brace. */
  lemma MatchOpens(rest: seq<Tokens.Token>, exit: Brace, b: Brace)
    requires rest != [] && RoleOf(rest[0]) == Opens(b)
    ensures MatchFrom(rest, [exit]) == ShiftBy(MatchFrom(rest[1..], [exit, b]), 1)
  {
    assert [exit] + [b] == [exit, b];
  }

  lemma ScanOpens(rest: seq<Tokens.Token>, b: Brace)
    requires rest != [] && RoleOf(rest[0]) == Opens(b)
    ensures Scan(rest, []) == ShiftBy(Scan(rest[1..], [b]), 1)
  {
    assert [] + [b] == [b];
  }

  /** Inside a block, a nested block is matched first and the enclosing block continues after it. */
  lemma MatchAfterBlock(ts: seq<Tokens.Token>, exit: Brace, b: Brace, n: nat)
    requires MatchFrom(ts, [b]) == Ends(n)
    ensures MatchFrom(ts, [exit, b]) == ShiftBy(MatchFrom(ts[n..], [exit]), n)
  {
    assert [exit] + [b] == [exit, b];
    MatchThenMatch(ts, [exit], [b]);
  }

  lemma MatchInFailedBlock(ts: seq<Tokens.Token>, exit: Brace, b: Brace)
    requires !MatchFrom(ts, [b]).Ends?
    ensures MatchFrom(ts, [exit, b]) == MatchFrom(ts, [b])
  {
    assert [exit] + [b] == [exit, b];
    MatchThenMatch(ts, [exit], [b]);
  }

  /** At the top level, a block is matched first and the file continues after it. */
  lemma ScanAfterBlock(ts: seq<Tokens.Token>, b: Brace, n: nat)
    requires MatchFrom(ts, [b]) == Ends(n)
    ensures Scan(ts, [b]) == ShiftBy(Scan(ts[n..], []), n)
  {
    assert [] + [b] == [b];
    MatchThenScan(ts, [], [b]);
  }

  lemma ScanInFailedBlock(ts: seq<Tokens.Token>, b: Brace)
    requires !MatchFrom(ts, [b]).Ends?
    ensures Scan(ts, [b]) == MatchFrom(ts, [b])
  {
    assert [] + [b] == [b];
    MatchThenScan(ts, [], [b]);
  }

  /** Where the block grouping stops at once, it agrees with the block matcher. */
  lemma BlockStopsMatches(rest: seq<Tokens.Token>, exit: Brace, openToken: Tokens.Token, body: seq<TokenBlock>)
    requires rest == [] || RoleOf(rest[0]).EndOfFile? || RoleOf(rest[0]).Closes?
    ensures Outcome(BlockFrom(rest, exit, openToken, body)) == MatchFrom(rest, [exit])
  {
  }

  /** Where the file grouping stops at once, it agrees with the whole-file matcher. */
  lemma FileStopsScans(rest: seq<Tokens.Token>, res: seq<TokenBlock>)
    requires rest == [] || RoleOf(rest[0]).EndOfFile? || RoleOf(rest[0]).Closes?
    ensures Outcome(FileFrom(rest, res)) == Scan(rest, [])
  {
  }

  lemma BlockPlainMatches(rest: seq<Tokens.Token>, exit: Brace, openToken: Tokens.Token, body: seq<TokenBlock>)
    requires rest != [] && RoleOf(rest[0]).Plain?
    requires Outcome(BlockFrom(rest[1..], exit, openToken, body + [TokenBlock.Token(rest[0])])) == MatchFrom(rest[1..], [exit])
    ensures Outcome(BlockFrom(rest, exit, openToken, body)) == MatchFrom(rest, [exit])
  {
    assert rest[1 + 0..] == rest[1..];
  }

  /**
   * The matcher bookkeeping at an opening brace, over plain values: the
   * nested block's outcome is what the inner matcher gives, and the grouping
   * continues after it exactly as the matcher does.
   */

  /** Matcher bookkeeping over plain values after a nested block of `n` tokens was grouped. */
  lemma ParsedOutcome<T>(whole: Parsed<T>, cont: Parsed<T>, n: nat, target: Scanned, nested: Scanned, contTarget: Scanned)
    requires whole == ShiftParsed(cont, 1 + n) && Outcome(cont) == contTarget
    requires target == ShiftBy(nested, 1) && nested == ShiftBy(contTarget, n)
    ensures Outcome(whole) == target
  {
    OutcomeShift(cont, 1 + n);
    ShiftTwice(contTarget, n, 1);
  }

  lemma BlockOpensFailsMatches(rest: seq<Tokens.Token>, exit: Brace, openToken: Tokens.Token, body: seq<TokenBlock>, b: Brace)
    requires rest != [] && RoleOf(rest[0]) == Opens(b)
    requires BlockFrom(rest[1..], b, rest[0], []).Failed?
    requires Outcome(BlockFrom(rest[1..], b, rest[0], [])) == MatchFrom(rest[1..], [b])
    ensures Outcome(BlockFrom(rest, exit, openToken, body)) == MatchFrom(rest, [exit])
  {
    BlockOpensStep(rest, exit, openToken, body, b);
    MatchOpens(rest, exit, b);
    MatchInFailedBlock(rest[1..], exit, b);
  }

  lemma BlockOpensParsedStep(rest: seq<Tokens.Token>, exit: Brace, openToken: Tokens.Token, body: seq<TokenBlock>, b: Brace,
                             v: TokenBlock, n: nat)
    requires rest != [] && RoleOf(rest[0]) == Opens(b)
    requires BlockFrom(rest[1..], b, rest[0], []) == Parsed(v, n)
    ensures BlockFrom(rest, exit, openToken, body) == ShiftParsed(BlockFrom(rest[1 + n..], exit, openToken, body + [v]), 1 + n)
  {
    assert ItemFrom(rest[0], rest[1..]) == Parsed(v, n);
  }

  lemma BlockOpensParsedMatches(rest: seq<Tokens.Token>, exit: Brace, openToken: Tokens.Token, body: seq<TokenBlock>, b: Brace,
                                v: TokenBlock, n: nat)
    requires rest != [] && RoleOf(rest[0]) == Opens(b)
    requires BlockFrom(rest[1..], b, rest[0], []) == Parsed(v, n)
    requires MatchFrom(rest[1..], [b]) == Ends(n)
    requires Outcome(BlockFrom(rest[1 + n..], exit, openToken, body + [v])) == MatchFrom(rest[1 + n..], [exit])
    ensures Outcome(BlockFrom(rest, exit, openToken, body)) == MatchFrom(rest, [exit])
  {
    assert BlockFrom(rest, exit, openToken, body) == ShiftParsed(BlockFrom(rest[1 + n..], exit, openToken, body + [v]), 1 + n) by {
      BlockOpensParsedStep(rest, exit, openToken, body, b, v, n);
    }
    assert MatchFrom(rest, [exit]) == ShiftBy(MatchFrom(rest[1..], [exit, b]), 1) by {
      MatchOpens(rest, exit, b);
    }
    assert MatchFrom(rest[1..], [exit, b]) == ShiftBy(MatchFrom(rest[1 + n..], [exit]), n) by {
      MatchAfterBlock(rest[1..], exit, b, n);
      DropTwice(rest, 1, n);
    }
    ParsedOutcome(BlockFrom(rest, exit, openToken, body), BlockFrom(rest[1 + n..], exit, openToken, body + [v]), n,
                  MatchFrom(rest, [exit]), MatchFrom(rest[1..], [exit, b]), MatchFrom(rest[1 + n..], [exit]));
  }

  /**
   * Grouping a block succeeds exactly when the block matcher closes its
   * brace, takes as many tokens, and reports an error exactly when the
   * matcher finds the braces unbalanced.
   */
  lemma {:induction false} BlockFromMatches(rest: seq<Tokens.Token>, exit: Brace, openToken: Tokens.Token, body: seq<TokenBlock>)
    ensures Outcome(BlockFrom(rest, exit, openToken, body)) == MatchFrom(rest, [exit])
    decreases |rest|
  {
    if rest == [] || RoleOf(rest[0]).EndOfFile? || RoleOf(rest[0]).Closes? {
      BlockStopsMatches(rest, exit, openToken, body);
    } else if RoleOf(rest[0]).Plain? {
      BlockFromMatches(rest[1..], exit, openToken, body + [TokenBlock.Token(rest[0])]);
      BlockPlainMatches(rest, exit, openToken, body);
    } else {
      var b := RoleOf(rest[0]).brace;
      BlockFromMatches(rest[1..], b, rest[0], []);
      var inner := BlockFrom(rest[1..], b, rest[0], []);
      if inner.Parsed? {
        BlockFromMatches(rest[1 + inner.consumed..], exit, openToken, body + [inner.value]);
        BlockOpensParsedMatches(rest, exit, openToken, body, b, inner.value, inner.consumed);
      } else {
        BlockOpensFailsMatches(rest, exit, openToken, body, b);
      }
    }
  }

  lemma FilePlainScans(rest: seq<Tokens.Token>, res: seq<TokenBlock>)
    requires rest != [] && RoleOf(rest[0]).Plain?
    requires Outcome(FileFrom(rest[1..], res + [TokenBlock.Token(rest[0])])) == Scan(rest[1..], [])
    ensures Outcome(FileFrom(rest, res)) == Scan(rest, [])
  {
    assert rest[1 + 0..] == rest[1..];
  }

  lemma FileOpensFailsScans(rest: seq<Tokens.Token>, res: seq<TokenBlock>, b: Brace)
    requires rest != [] && RoleOf(rest[0]) == Opens(b)
    requires BlockFrom(rest[1..], b, rest[0], []).Failed?
    requires Outcome(BlockFrom(rest[1..], b, rest[0], [])) == MatchFrom(rest[1..], [b])
    ensures Outcome(FileFrom(rest, res)) == Scan(rest, [])
  {
    FileOpensStep(rest, res, b);
    ScanOpens(rest, b);
    ScanInFailedBlock(rest[1..], b);
  }

  lemma FileOpensParsedStep(rest: seq<Tokens.Token>, res: seq<TokenBlock>, b: Brace, v: TokenBlock, n: nat)
    requires rest != [] && RoleOf(rest[0]) == Opens(b)
    requires ItemFrom(rest[0], rest[1..]) == Parsed(v, n)
    ensures FileFrom(rest, res) == ShiftParsed(FileFrom(rest[1 + n..], res + [v]), 1 + n)
  {
  }

  lemma FileOpensParsedScans(rest: seq<Tokens.Token>, res: seq<TokenBlock>, b: Brace, v: TokenBlock, n: nat)
    requires rest != [] && RoleOf(rest[0]) == Opens(b)
    requires BlockFrom(rest[1..], b, rest[0], []) == Parsed(v, n)
    requires MatchFrom(rest[1..], [b]) == Ends(n)
    requires Outcome(FileFrom(rest[1 + n..], res + [v])) == Scan(rest[1 + n..], [])
    ensures Outcome(FileFrom(rest, res)) == Scan(rest, [])
  {
    assert FileFrom(rest, res) == ShiftParsed(FileFrom(rest[1 + n..], res + [v]), 1 + n) by {
      assert ItemFrom(rest[0], rest[1..]) == Parsed(v, n);
      FileOpensParsedStep(rest, res, b, v, n);
    }
    assert Scan(rest, []) == ShiftBy(Scan(rest[1..], [b]), 1) by {
      ScanOpens(rest, b);
    }
    assert Scan(rest[1..], [b]) == ShiftBy(Scan(rest[1 + n..], []), n) by {
      ScanAfterBlock(rest[1..], b, n);
      DropTwice(rest, 1, n);
    }
    ParsedOutcome(FileFrom(rest, res), FileFrom(rest[1 + n..], res + [v]), n,
                  Scan(rest, []), Scan(rest[1..], [b]), Scan(rest[1 + n..], []));
  }

  /** The same for a whole file and the whole-file matcher. */
  lemma {:induction false} FileFromScans(rest: seq<Tokens.Token>, res: seq<TokenBlock>)
    ensures Outcome(FileFrom(rest, res)) == Scan(rest, [])
    decreases |rest|
  {
    if rest == [] || RoleOf(rest[0]).EndOfFile? || RoleOf(rest[0]).Closes? {
      FileStopsScans(rest, res);
    } else if RoleOf(rest[0]).Plain? {
      FileFromScans(rest[1..], res + [TokenBlock.Token(rest[0])]);
      FilePlainScans(rest, res);
    } else {
      var b := RoleOf(rest[0]).brace;
      BlockFromMatches(rest[1..], b, rest[0], []);
      var inner := BlockFrom(rest[1..], b, rest[0], []);
      if inner.Parsed? {
        FileFromScans(rest[1 + inner.consumed..], res + [inner.value]);
        FileOpensParsedScans(rest, res, b, inner.value, inner.consumed);
      } else {
        FileOpensFailsScans(rest, res, b);
      }
    }
  }

  /** With an EOF somewhere in the file, grouping never runs out of tokens. */
  lemma FileFromReachesEof(rest: seq<Tokens.Token>, k: nat)
    requires k < |rest| && rest[k].tokenType.EOF?
    ensures !(FileFrom(rest, []).Failed? && !FileFrom(rest, []).reported)
  {
    FileFromScans(rest, []);
    ScanReachesEof(rest, [], k);
  }

  // ---------------------------------------------------------------------
  // The grouping functions build well-formed groups that flatten back
  // ---------------------------------------------------------------------

  /**
   * What a grouped block is: a block of the exit brace kind opened by
   * `openToken`, well formed, that flattens to `openToken`, the tokens
   * `before` of the body grouped already and the tokens it took from `rest`.
   */
  ghost predicate BuildsBlock(p: Parsed<TokenBlock>, exit: Brace, openToken: Tokens.Token, before: seq<Tokens.Token>, rest: seq<Tokens.Token>)
  {
    p.Parsed? ==>
      p.consumed <= |rest| &&
      p.value.Block? && p.value.block.braceType == exit && p.value.block.openToken == openToken &&
      WellFormedItem(p.value) && FlattenItem(p.value) == [openToken] + before + rest[..p.consumed]
  }

  /** What grouped file items are: well formed, flattening to `before` and the tokens taken from `rest`. */
  ghost predicate BuildsFile(p: Parsed<seq<TokenBlock>>, before: seq<Tokens.Token>, rest: seq<Tokens.Token>)
  {
    p.Parsed? ==> p.consumed <= |rest| && WellFormed(p.value) && Flatten(p.value) == before + rest[..p.consumed]
  }

  lemma BlockClosesBuilds(rest: seq<Tokens.Token>, exit: Brace, openToken: Tokens.Token, body: seq<TokenBlock>)
    requires rest != [] && RoleOf(rest[0]).Closes?
    requires RoleOf(openToken) == Opens(exit) && WellFormed(body)
    requires BracesMergeWith(rest, openToken.codeLocation)
    ensures BuildsBlock(BlockFrom(rest, exit, openToken, body), exit, openToken, Flatten(body), rest)
  {
    assert IsBrace(rest[0]);
    assert rest[..1] == [rest[0]];
  }

  lemma BlockPlainBuilds(rest: seq<Tokens.Token>, exit: Brace, openToken: Tokens.Token, body: seq<TokenBlock>)
    requires rest != [] && RoleOf(rest[0]).Plain?
    requires var item := TokenBlock.Token(rest[0]);
      BuildsBlock(BlockFrom(rest[1..], exit, openToken, body + [item]), exit, openToken, Flatten(body + [item]), rest[1..])
    ensures BuildsBlock(BlockFrom(rest, exit, openToken, body), exit, openToken, Flatten(body), rest)
  {
    var item := TokenBlock.Token(rest[0]);
    assert rest[1 + 0..] == rest[1..];
    assert BlockFrom(rest, exit, openToken, body) == ShiftParsed(BlockFrom(rest[1..], exit, openToken, body + [item]), 1);
    FlattenSnoc(body, item);
    var p := BlockFrom(rest[1..], exit, openToken, body + [item]);
    if p.Parsed? {
      assert [openToken] + (Flatten(body) + [rest[0]]) + rest[1..][..p.consumed] ==
             [openToken] + Flatten(body) + rest[..1 + p.consumed];
    }
  }

  /** The tokens of a nested block followed by the tokens after it are one prefix of `rest`. */
  lemma JoinNested<T>(flat: seq<T>, before: seq<T>, nested: seq<T>, rest: seq<T>, n: nat, m: nat)
    requires 1 + n + m <= |rest|
    requires nested == [rest[0]] + [] + rest[1..][..n]
    requires flat == before + nested + rest[1 + n..][..m]
    ensures flat == before + rest[..1 + n + m]
  {
    assert nested + rest[1 + n..][..m] == rest[..1 + n + m];
  }

  /** The building step after a nested block, with the grouping functions out of sight. */
  lemma BlockAfterNested(whole: Parsed<TokenBlock>, p: Parsed<TokenBlock>, inner: TokenBlock, n: nat,
                         rest: seq<Tokens.Token>, exit: Brace, openToken: Tokens.Token, body: seq<TokenBlock>)
    requires rest != [] && n <= |rest| - 1
    requires FlattenItem(inner) == [rest[0]] + [] + rest[1..][..n]
    requires BuildsBlock(p, exit, openToken, Flatten(body + [inner]), rest[1 + n..])
    requires whole == ShiftParsed(p, 1 + n)
    ensures BuildsBlock(whole, exit, openToken, Flatten(body), rest)
  {
    FlattenSnoc(body, inner);
    if p.Parsed? {
      JoinNested(FlattenItem(p.value), [openToken] + Flatten(body), FlattenItem(inner), rest, n, p.consumed);
    }
  }

  lemma BlockOpensBuilds(rest: seq<Tokens.Token>, exit: Brace, openToken: Tokens.Token, body: seq<TokenBlock>, b: Brace)
    requires rest != [] && RoleOf(rest[0]) == Opens(b)
    requires BuildsBlock(BlockFrom(rest[1..], b, rest[0], []), b, rest[0], [], rest[1..])
    requires var inner := BlockFrom(rest[1..], b, rest[0], []);
      inner.Parsed? ==>
        BuildsBlock(BlockFrom(rest[1 + inner.consumed..], exit, openToken, body + [inner.value]), exit, openToken,
                    Flatten(body + [inner.value]), rest[1 + inner.consumed..])
    ensures BuildsBlock(BlockFrom(rest, exit, openToken, body), exit, openToken, Flatten(body), rest)
  {
    BlockOpensStep(rest, exit, openToken, body, b);
    var inner := BlockFrom(rest[1..], b, rest[0], []);
    if inner.Parsed? {
      var n := inner.consumed;
      BlockAfterNested(BlockFrom(rest, exit, openToken, body), BlockFrom(rest[1 + n..], exit, openToken, body + [inner.value]),
                       inner.value, n, rest, exit, openToken, body);
    }
  }

  /**
   * A block grouped from `rest` after `openToken`, with `body` grouped
   * already, is a well-formed block of the exit brace kind that flattens back
   * to the tokens it was built from.
   */
  lemma {:induction false} BlockFromBuilds(rest: seq<Tokens.Token>, exit: Brace, openToken: Tokens.Token, body: seq<TokenBlock>)
    requires RoleOf(openToken) == Opens(exit) && WellFormed(body)
    requires BracesMergeWith(rest, openToken.codeLocation)
    ensures BuildsBlock(BlockFrom(rest, exit, openToken, body), exit, openToken, Flatten(body), rest)
    decreases |rest|
  {
    if rest != [] {
      var role := RoleOf(rest[0]);
      if role.Closes? {
        BlockClosesBuilds(rest, exit, openToken, body);
      } else if role.Plain? {
        var item := TokenBlock.Token(rest[0]);
        WellFormedSnoc(body, item);
        BracesMergeSuffix(rest, 1, openToken.codeLocation);
        BlockFromBuilds(rest[1..], exit, openToken, body + [item]);
        BlockPlainBuilds(rest, exit, openToken, body);
      } else if role.Opens? {
        BracesMergeAfter(rest, 0, openToken.codeLocation);
        BlockFromBuilds(rest[1..], role.brace, rest[0], []);
        var inner := BlockFrom(rest[1..], role.brace, rest[0], []);
        if inner.Parsed? {
          WellFormedSnoc(body, inner.value);
          BracesMergeSuffix(rest, 1 + inner.consumed, openToken.codeLocation);
          BlockFromBuilds(rest[1 + inner.consumed..], exit, openToken, body + [inner.value]);
        }
        BlockOpensBuilds(rest, exit, openToken, body, role.brace);
      }
    }
  }

  lemma FilePlainBuilds(rest: seq<Tokens.Token>, res: seq<TokenBlock>)
    requires rest != [] && RoleOf(rest[0]).Plain?
    requires var item := TokenBlock.Token(rest[0]);
      BuildsFile(FileFrom(rest[1..], res + [item]), Flatten(res + [item]), rest[1..])
    ensures BuildsFile(FileFrom(rest, res), Flatten(res), rest)
  {
    var item := TokenBlock.Token(rest[0]);
    assert rest[1 + 0..] == rest[1..];
    assert FileFrom(rest, res) == ShiftParsed(FileFrom(rest[1..], res + [item]), 1);
    FlattenSnoc(res, item);
    var p := FileFrom(rest[1..], res + [item]);
    if p.Parsed? {
      assert (Flatten(res) + [rest[0]]) + rest[1..][..p.consumed] == Flatten(res) + rest[..1 + p.consumed];
    }
  }

  /** The file-level building step after a nested block, with the grouping functions out of sight. */
  lemma FileAfterNested(whole: Parsed<seq<TokenBlock>>, p: Parsed<seq<TokenBlock>>, inner: TokenBlock, n: nat,
                        rest: seq<Tokens.Token>, res: seq<TokenBlock>)
    requires rest != [] && n <= |rest| - 1
    requires FlattenItem(inner) == [rest[0]] + [] + rest[1..][..n]
    requires BuildsFile(p, Flatten(res + [inner]), rest[1 + n..])
    requires whole == ShiftParsed(p, 1 + n)
    ensures BuildsFile(whole, Flatten(res), rest)
  {
    FlattenSnoc(res, inner);
    if p.Parsed? {
      JoinNested(Flatten(p.value), Flatten(res), FlattenItem(inner), rest, n, p.consumed);
    }
  }

  lemma FileOpensBuilds(rest: seq<Tokens.Token>, res: seq<TokenBlock>, b: Brace)
    requires rest != [] && RoleOf(rest[0]) == Opens(b)
    requires BuildsBlock(BlockFrom(rest[1..], b, rest[0], []), b, rest[0], [], rest[1..])
    requires var inner := BlockFrom(rest[1..], b, rest[0], []);
      inner.Parsed? ==>
        BuildsFile(FileFrom(rest[1 + inner.consumed..], res + [inner.value]), Flatten(res + [inner.value]), rest[1 + inner.consumed..])
    ensures BuildsFile(FileFrom(rest, res), Flatten(res), rest)
  {
    FileOpensStep(rest, res, b);
    var inner := BlockFrom(rest[1..], b, rest[0], []);
    if inner.Parsed? {
      var n := inner.consumed;
      FileAfterNested(FileFrom(rest, res), FileFrom(rest[1 + n..], res + [inner.value]), inner.value, n, rest, res);
    }
  }

  /** The items grouped from a whole file are well formed and flatten to the tokens before its first EOF. */
  lemma {:induction false} FileFromBuilds(rest: seq<Tokens.Token>, res: seq<TokenBlock>)
    requires WellFormed(res) && BracesMergeable(rest)
    ensures BuildsFile(FileFrom(rest, res), Flatten(res), rest)
    decreases |rest|
  {
    if rest != [] {
      var role := RoleOf(rest[0]);
      if role.Plain? {
        var item := TokenBlock.Token(rest[0]);
        WellFormedSnoc(res, item);
        BracesMergeableSuffix(rest, 1);
        FileFromBuilds(rest[1..], res + [item]);
        FilePlainBuilds(rest, res);
      } else if role.Opens? {
        BracesMergeableAfter(rest, 0);
        BlockFromBuilds(rest[1..], role.brace, rest[0], []);
        var inner := BlockFrom(rest[1..], role.brace, rest[0], []);
        if inner.Parsed? {
          WellFormedSnoc(res, inner.value);
          BracesMergeableSuffix(rest, 1 + inner.consumed);
          FileFromBuilds(rest[1 + inner.consumed..], res + [inner.value]);
        }
        FileOpensBuilds(rest, res, role.brace);
      }
    }
  }

  /**
   * The whole pass on a file whose braces can be merged and which holds an
   * EOF: it succeeds exactly when the braces balance before the first EOF,
   * and then the groups are well formed and flatten back to exactly the
   * tokens before that EOF; otherwise it fails with an error.
   */
  lemma GroupingRoundTrip(ts: seq<Tokens.Token>, k: nat)
    requires k < |ts| && ts[k].tokenType.EOF? && BracesMergeable(ts)
    ensures FileFrom(ts, []).Parsed? <==> Scan(ts, []).Ends?
    ensures FileFrom(ts, []).Parsed? ==>
      FileFrom(ts, []).consumed == Scan(ts, []).length &&
      WellFormed(FileFrom(ts, []).value) && Flatten(FileFrom(ts, []).value) == ts[..FileFrom(ts, []).consumed]
    ensures FileFrom(ts, []).Failed? ==> FileFrom(ts, []).reported
  {
    FileFromScans(ts, []);
    FileFromReachesEof(ts, k);
    FileFromBuilds(ts, []);
  }

  // ---------------------------------------------------------------------
  // Unfolding one step at a position of a fixed token sequence
  // ---------------------------------------------------------------------

  /** Unfolding the block grouping at a closing brace. */
  lemma BlockClosesStep(rest: seq<Tokens.Token>, exit: Brace, openToken: Tokens.Token, body: seq<TokenBlock>)
    requires rest != [] && RoleOf(rest[0]).Closes?
    ensures BlockFrom(rest, exit, openToken, body) ==
      if RoleOf(rest[0]).brace == exit
      then Parsed(TokenBlock.Block(Block.Block(SpanTo(openToken, rest[0]), exit, openToken, body, Some(rest[0]))), 1)
      else Failed(true)
  {
  }

  /** Unfolding the block grouping at an item that fails. */
  lemma BlockItemFails(rest: seq<Tokens.Token>, exit: Brace, openToken: Tokens.Token, body: seq<TokenBlock>)
    requires rest != [] && (RoleOf(rest[0]).Opens? || RoleOf(rest[0]).Plain?) && ItemFrom(rest[0], rest[1..]).Failed?
    ensures BlockFrom(rest, exit, openToken, body) == Failed(ItemFrom(rest[0], rest[1..]).reported)
  {
  }

  /** Unfolding the file grouping at an item that fails. */
  lemma FileItemFails(rest: seq<Tokens.Token>, res: seq<TokenBlock>)
    requires rest != [] && (RoleOf(rest[0]).Opens? || RoleOf(rest[0]).Plain?) && ItemFrom(rest[0], rest[1..]).Failed?
    ensures FileFrom(rest, res) == Failed(ItemFrom(rest[0], rest[1..]).reported)
  {
  }

  /** Unfolding the block grouping at an item that is grouped. */
  lemma BlockItemStep(rest: seq<Tokens.Token>, exit: Brace, openToken: Tokens.Token, body: seq<TokenBlock>, item: TokenBlock, n: nat)
    requires rest != [] && (RoleOf(rest[0]).Opens? || RoleOf(rest[0]).Plain?) && ItemFrom(rest[0], rest[1..]) == Parsed(item, n)
    ensures BlockFrom(rest, exit, openToken, body) == ShiftParsed(BlockFrom(rest[1..][n..], exit, openToken, body + [item]), 1 + n)
  {
    DropTwice(rest, 1, n);
  }

  /** Unfolding the file grouping at an item that is grouped. */
  lemma FileItemStep(rest: seq<Tokens.Token>, res: seq<TokenBlock>, item: TokenBlock, n: nat)
    requires rest != [] && (RoleOf(rest[0]).Opens? || RoleOf(rest[0]).Plain?) && ItemFrom(rest[0], rest[1..]) == Parsed(item, n)
    ensures FileFrom(rest, res) == ShiftParsed(FileFrom(rest[1..][n..], res + [item]), 1 + n)
  {
    DropTwice(rest, 1, n);
  }

  /** Shifting twice, with the grouping functions out of sight. */
  lemma ShiftChain<T>(whole: Parsed<T>, here: Parsed<T>, there: Parsed<T>, c: nat, k: nat, next: nat)
    requires whole == ShiftParsed(here, c) && here == ShiftParsed(there, k) && next == c + k
    ensures whole == ShiftParsed(there, next)
  {
  }

  lemma DropTwice<T>(ts: seq<T>, c: nat, k: nat)
    requires c + k <= |ts|
    ensures ts[c..][k..] == ts[c + k..]
  {
  }

  /** `rest` is what is left of `ts` after its first `c` elements, stated one element at a time. */
  ghost predicate At<T>(ts: seq<T>, c: nat, rest: seq<T>)
    decreases c
  {
    if c == 0 then rest == ts else ts != [] && At(ts[1..], c - 1, rest)
  }

  lemma {:induction false} AtDrop<T>(ts: seq<T>, c: nat, rest: seq<T>)
    requires At(ts, c, rest)
    ensures c <= |ts| && rest == ts[c..]
    decreases c
  {
    if c > 0 {
      AtDrop(ts[1..], c - 1, rest);
      assert ts[1..][c - 1..] == ts[c..];
    }
  }

  lemma {:induction false} AtSuffix<T>(ts: seq<T>, k: nat)
    requires k <= |ts|
    ensures At(ts, k, ts[k..])
    decreases k
  {
    if k > 0 {
      AtSuffix(ts[1..], k - 1);
      assert ts[1..][k - 1..] == ts[k..];
    }
  }

  /** Taking `k` more elements from what is left after `c`. */
  lemma {:induction false} AtAdvance<T>(ts: seq<T>, c: nat, cur: seq<T>, k: nat, rest: seq<T>)
    requires At(ts, c, cur) && k <= |cur| && rest == cur[k..]
    ensures At(ts, c + k, rest) && c + k <= |ts|
    decreases c
  {
    if c == 0 {
      AtSuffix(ts, k);
    } else {
      AtAdvance(ts[1..], c - 1, cur, k, rest);
    }
  }

  /** Taking one element and then `n` more. */
  lemma AtAdvanceItem<T>(ts: seq<T>, c: nat, cur: seq<T>, n: nat, rest: seq<T>)
    requires At(ts, c, cur) && cur != [] && n <= |cur| - 1 && rest == cur[1..][n..]
    ensures At(ts, c + 1 + n, rest) && c + 1 + n <= |ts|
  {
    DropTwice(cur, 1, n);
    AtAdvance(ts, c, cur, 1 + n, rest);
  }

  /** The block loop's state after one more item was grouped: `next` tokens taken, `grown` items, `rest` left. */
  lemma BlockItemRound(ts: seq<Tokens.Token>, c: nat, cur: seq<Tokens.Token>, exit: Brace, openToken: Tokens.Token,
                       body: seq<TokenBlock>, item: TokenBlock, n: nat, p: Parsed<TokenBlock>,
                       rest: seq<Tokens.Token>, grown: seq<TokenBlock>, next: nat)
    requires At(ts, c, cur) && cur != [] && (RoleOf(cur[0]).Opens? || RoleOf(cur[0]).Plain?)
    requires ItemFrom(cur[0], cur[1..]) == Parsed(item, n) && rest == cur[1..][n..]
    requires BracesMergeWith(cur, openToken.codeLocation)
    requires p == ShiftParsed(BlockFrom(cur, exit, openToken, body), c)
    requires grown == body + [item] && next == c + 1 + n
    ensures |rest| < |cur| && At(ts, next, rest) && BracesMergeWith(rest, openToken.codeLocation)
    ensures p == ShiftParsed(BlockFrom(rest, exit, openToken, grown), next)
  {
    ItemPosition(ts, c, cur, n, rest, openToken.codeLocation);
    BlockAdvance(cur, exit, openToken, body, item, n, p, c, rest, next, grown);
  }

  /** After one more item, `n` tokens past the one that began it: what is left, and where. */
  lemma ItemPosition(ts: seq<Tokens.Token>, c: nat, cur: seq<Tokens.Token>, n: nat, rest: seq<Tokens.Token>, location: CodeLocation)
    requires At(ts, c, cur) && cur != [] && n <= |cur| - 1 && rest == cur[1..][n..]
    requires BracesMergeWith(cur, location)
    ensures |rest| < |cur| && At(ts, c + 1 + n, rest) && BracesMergeWith(rest, location)
  {
    BracesMergeSuffix(cur[1..], n, location);
    AtAdvanceItem(ts, c, cur, n, rest);
  }

  /** The block loop's outcome after one more item was grouped: `next` tokens taken, `grown` items. */
  lemma BlockAdvance(cur: seq<Tokens.Token>, exit: Brace, openToken: Tokens.Token, body: seq<TokenBlock>, item: TokenBlock, n: nat,
                     whole: Parsed<TokenBlock>, c: nat, tail: seq<Tokens.Token>, next: nat, grown: seq<TokenBlock>)
    requires cur != [] && (RoleOf(cur[0]).Opens? || RoleOf(cur[0]).Plain?) && ItemFrom(cur[0], cur[1..]) == Parsed(item, n)
    requires whole == ShiftParsed(BlockFrom(cur, exit, openToken, body), c)
    requires tail == cur[1..][n..] && next == c + 1 + n && grown == body + [item]
    ensures whole == ShiftParsed(BlockFrom(tail, exit, openToken, grown), next)
  {
    BlockItemStep(cur, exit, openToken, body, item, n);
    ShiftChain(whole, BlockFrom(cur, exit, openToken, body), BlockFrom(tail, exit, openToken, grown), c, 1 + n, next);
  }

  /** The file loop's state after one more item was grouped: `next` tokens taken, `grown` items, `rest` left. */
  lemma FileItemRound(ts: seq<Tokens.Token>, c: nat, cur: seq<Tokens.Token>, res: seq<TokenBlock>, item: TokenBlock, n: nat,
                      whole: Parsed<seq<TokenBlock>>, rest: seq<Tokens.Token>, grown: seq<TokenBlock>, next: nat)
    requires At(ts, c, cur) && cur != [] && (RoleOf(cur[0]).Opens? || RoleOf(cur[0]).Plain?)
    requires ItemFrom(cur[0], cur[1..]) == Parsed(item, n) && rest == cur[1..][n..]
    requires BracesMergeable(cur)
    requires whole == ShiftParsed(FileFrom(cur, res), c)
    requires grown == res + [item] && next == c + 1 + n
    ensures |rest| < |cur| && At(ts, next, rest) && BracesMergeable(rest)
    ensures whole == ShiftParsed(FileFrom(rest, grown), next)
  {
    BracesMergeableSuffix(cur[1..], n);
    AtAdvanceItem(ts, c, cur, n, rest);
    FileAdvance(cur, res, item, n, whole, c, rest, next, grown);
  }

  /** The file loop's outcome after one more item was grouped: `next` tokens taken, `grown` items. */
  lemma FileAdvance(cur: seq<Tokens.Token>, res: seq<TokenBlock>, item: TokenBlock, n: nat, whole: Parsed<seq<TokenBlock>>,
                    c: nat, tail: seq<Tokens.Token>, next: nat, grown: seq<TokenBlock>)
    requires cur != [] && (RoleOf(cur[0]).Opens? || RoleOf(cur[0]).Plain?) && ItemFrom(cur[0], cur[1..]) == Parsed(item, n)
    requires whole == ShiftParsed(FileFrom(cur, res), c)
    requires tail == cur[1..][n..] && next == c + 1 + n && grown == res + [item]
    ensures whole == ShiftParsed(FileFrom(tail, grown), next)
  {
    FileItemStep(cur, res, item, n);
    ShiftChain(whole, FileFrom(cur, res), FileFrom(tail, grown), c, 1 + n, next);
  }

  /** The first of what is left after `c` elements is the element at `c`. */
  lemma AtFirst<T>(ts: seq<T>, c: nat, cur: seq<T>)
    requires At(ts, c, cur) && cur != []
    ensures c < |ts| && ts[c] == cur[0]
  {
    AtDrop(ts, c, cur);
  }

  /** Exactly one error was appended. */
  ghost predicate OneErrorAdded(before: seq<Diagnostics.Diagnostic>, after: seq<Diagnostics.Diagnostic>)
  {
    |after| == |before| + 1 && after[..|before|] == before && after[|before|].kind == Diagnostics.Error
  }

  // ---------------------------------------------------------------------
  // Grouping (src/compiler/block_parser.rs:184-247)
  // ---------------------------------------------------------------------

  /**
   * The item begun by `token`, already taken from the stream: a block when it
   * opens a brace, the token itself otherwise.  This is the step the two
   * loops below share.
   */
  method ParseItem(tokenStream: TypeStream<Tokens.Token>, compilation: Diagnostics.Compilation, token: Tokens.Token)
    returns (r: Option<TokenBlock>, ghost p: Parsed<TokenBlock>)
    requires tokenStream.Valid()
    requires RoleOf(token).Opens? || RoleOf(token).Plain?
    requires RoleOf(token).Opens? ==> BracesMergeWith(tokenStream.ToVec(), token.codeLocation)
    modifies tokenStream, compilation
    decreases |tokenStream.ToVec()|, 2
    ensures p == ItemFrom(token, old(tokenStream.ToVec()))
    ensures tokenStream.Valid()
    ensures r.Some? <==> p.Parsed?
    ensures r.Some? ==>
      r.value == p.value &&
      tokenStream.ToVec() == old(tokenStream.ToVec())[p.consumed..] &&
      compilation.diagnostics == old(compilation.diagnostics)
    ensures Reports(p) ==> OneErrorAdded(old(compilation.diagnostics), compilation.diagnostics)
    ensures p.Failed? && !p.reported ==> compilation.diagnostics == old(compilation.diagnostics)
  {
    if RoleOf(token).Opens? {
      r, p := ParseBlock(tokenStream, compilation, RoleOf(token).brace, token);
    } else {
      p := ItemFrom(token, tokenStream.ToVec());
      r := Some(TokenBlock.Token(token));
    }
  }

  /**
   * `parse_block`: groups the tokens after `openToken` up to the matching
   * closing brace, exactly as `BlockFrom` does; a wrong closing brace or an
   * EOF adds one error, running out of tokens adds none.
   */
  method ParseBlock(tokenStream: TypeStream<Tokens.Token>, compilation: Diagnostics.Compilation, exitBraceType: Brace, openToken: Tokens.Token)
    returns (r: Option<TokenBlock>, ghost p: Parsed<TokenBlock>)
    requires tokenStream.Valid()
    requires RoleOf(openToken) == Opens(exitBraceType)
    requires BracesMergeWith(tokenStream.ToVec(), openToken.codeLocation)
    modifies tokenStream, compilation
    decreases |tokenStream.ToVec()|, 1
    ensures p == BlockFrom(old(tokenStream.ToVec()), exitBraceType, openToken, [])
    ensures tokenStream.Valid()
    ensures r.Some? <==> p.Parsed?
    ensures r.Some? ==>
      r.value == p.value &&
      tokenStream.ToVec() == old(tokenStream.ToVec())[p.consumed..] &&
      compilation.diagnostics == old(compilation.diagnostics)
    ensures Reports(p) ==> OneErrorAdded(old(compilation.diagnostics), compilation.diagnostics)
    ensures p.Failed? && !p.reported ==> compilation.diagnostics == old(compilation.diagnostics)
  {
    ghost var ts := tokenStream.ToVec();
    p := BlockFrom(ts, exitBraceType, openToken, []);
    ghost var c: nat := 0;
    var body: seq<TokenBlock> := [];
    var done := false;
    while true
      invariant compilation.diagnostics == old(compilation.diagnostics)
      invariant tokenStream.Valid() && |tokenStream.ToVec()| <= |ts| && At(ts, c, tokenStream.ToVec())
      invariant BracesMergeWith(tokenStream.ToVec(), openToken.codeLocation)
      invariant p == ShiftParsed(BlockFrom(tokenStream.ToVec(), exitBraceType, openToken, body), c)
      decreases |tokenStream.ToVec()|
    {
      done, r, body, c := BlockStep(tokenStream, compilation, exitBraceType, openToken, body, ts, c, p);
      if done {
        if r.Some? {
          AtDrop(ts, p.consumed, tokenStream.ToVec());
        }
        return;
      }
    }
  }

  /**
   * One round of `parse_block`'s loop, `c` tokens into `ts`, with `body`
   * grouped so far and `p` the outcome of the whole block: either the block
   * ends (`done`, with that outcome) or one more item is grouped and the
   * round ends `next` tokens into `ts`.
   */
  method BlockStep(tokenStream: TypeStream<Tokens.Token>, compilation: Diagnostics.Compilation, exitBraceType: Brace,
                   openToken: Tokens.Token, body: seq<TokenBlock>, ghost ts: seq<Tokens.Token>, ghost c: nat, ghost p: Parsed<TokenBlock>)
    returns (done: bool, r: Option<TokenBlock>, grown: seq<TokenBlock>, ghost next: nat)
    requires tokenStream.Valid() && At(ts, c, tokenStream.ToVec())
    requires RoleOf(openToken) == Opens(exitBraceType)
    requires BracesMergeWith(tokenStream.ToVec(), openToken.codeLocation)
    requires p == ShiftParsed(BlockFrom(tokenStream.ToVec(), exitBraceType, openToken, body), c)
    modifies tokenStream, compilation
    decreases |tokenStream.ToVec()|, 0
    ensures tokenStream.Valid()
    ensures done ==> (r.Some? <==> p.Parsed?)
    ensures done && r.Some? ==>
      r.value == p.value && At(ts, p.consumed, tokenStream.ToVec()) &&
      compilation.diagnostics == old(compilation.diagnostics)
    ensures done && Reports(p) ==> OneErrorAdded(old(compilation.diagnostics), compilation.diagnostics)
    ensures done && p.Failed? && !p.reported ==> compilation.diagnostics == old(compilation.diagnostics)
    ensures !done ==>
      |tokenStream.ToVec()| < |old(tokenStream.ToVec())| && At(ts, next, tokenStream.ToVec()) &&
      BracesMergeWith(tokenStream.ToVec(), openToken.codeLocation) &&
      p == ShiftParsed(BlockFrom(tokenStream.ToVec(), exitBraceType, openToken, grown), next) &&
      compilation.diagnostics == old(compilation.diagnostics)
  {
    ghost var cur := tokenStream.ToVec();
    ghost var q := BlockFrom(cur, exitBraceType, openToken, body);
    grown, next := body, c;
    done := true;
    var peeked := tokenStream.Peek();
    if peeked.None? {
      r := None;
      return;
    }
    var token := peeked.value;
    if RoleOf(token).Closes? {
      BlockClosesStep(cur, exitBraceType, openToken, body);
      var closeToken := tokenStream.Next();
      if RoleOf(token).brace == exitBraceType {
        AtAdvance(ts, c, cur, 1, tokenStream.ToVec());
        var span := TokenTo(openToken, closeToken).value;
        r := Some(TokenBlock.Block(Block.Block(span, exitBraceType, openToken, body, Some(closeToken))));
      } else {
        compilation.AddError("Expected " + BraceName(exitBraceType), Some(closeToken.codeLocation));
        r := None;
      }
      return;
    }
    if RoleOf(token).EndOfFile? {
      assert q == Failed(true);
      compilation.AddError("Expected " + BraceName(exitBraceType), Some(token.codeLocation));
      r := None;
      return;
    }
    var first := tokenStream.Next();
    if RoleOf(first).Opens? {
      BracesMergeMove(cur[1..], openToken.codeLocation, first.codeLocation);
    }
    var item: Option<TokenBlock>;
    ghost var parsed: Parsed<TokenBlock>;
    item, parsed := ParseItem(tokenStream, compilation, first);
    if item.None? {
      BlockItemFails(cur, exitBraceType, openToken, body);
      r := None;
      return;
    }
    done, r := false, None;
    grown, next := body + [item.value], c + 1 + parsed.consumed;
    BlockItemRound(ts, c, cur, exitBraceType, openToken, body, item.value, parsed.consumed, p, tokenStream.ToVec(), grown, next);
  }

  /**
   * `from_token_stream`: groups a whole file exactly as `FileFrom` does; the
   * new stream ends at the location of the first EOF.  A stray closing brace
   * or a failing block adds one error.
   */
  method FromTokenStream(tokenStream: TypeStream<Tokens.Token>, compilation: Diagnostics.Compilation)
    returns (r: Option<TypeStream<TokenBlock>>)
    requires tokenStream.Valid()
    requires exists k :: 0 <= k < |tokenStream.ToVec()| && tokenStream.ToVec()[k].tokenType.EOF?
    requires BracesMergeable(tokenStream.ToVec())
    modifies tokenStream, compilation
    ensures r.Some? <==> FileFrom(old(tokenStream.ToVec()), []).Parsed?
    ensures r.Some? ==>
      fresh(r.value) && r.value.Valid() &&
      r.value.ToVec() == FileFrom(old(tokenStream.ToVec()), []).value &&
      r.value.end == Some(old(tokenStream.ToVec())[FileFrom(old(tokenStream.ToVec()), []).consumed].codeLocation) &&
      compilation.diagnostics == old(compilation.diagnostics)
    ensures r.None? ==> OneErrorAdded(old(compilation.diagnostics), compilation.diagnostics)
  {
    ghost var ts := tokenStream.ToVec();
    ghost var e :| 0 <= e < |ts| && ts[e].tokenType.EOF?;
    FileFromReachesEof(ts, e);
    ghost var whole := FileFrom(ts, []);
    ghost var c: nat := 0;
    var res: seq<TokenBlock> := [];
    var done := false;
    while true
      invariant compilation.diagnostics == old(compilation.diagnostics)
      invariant tokenStream.Valid() && |tokenStream.ToVec()| <= |ts| && At(ts, c, tokenStream.ToVec())
      invariant BracesMergeable(tokenStream.ToVec())
      invariant whole == ShiftParsed(FileFrom(tokenStream.ToVec(), res), c)
      decreases |tokenStream.ToVec()|
    {
      done, r, res, c := FileStep(tokenStream, compilation, res, ts, c, whole);
      if done {
        return;
      }
    }
  }

  /**
   * One round of `from_token_stream`'s loop, `c` tokens into `ts`, with `res`
   * grouped so far and `whole` the outcome of the whole file, which does not
   * run out of tokens: either the file ends (`done`, with that outcome) or
   * one more item is grouped and the round ends `next` tokens into `ts`.
   */
  method FileStep(tokenStream: TypeStream<Tokens.Token>, compilation: Diagnostics.Compilation, res: seq<TokenBlock>,
                  ghost ts: seq<Tokens.Token>, ghost c: nat, ghost whole: Parsed<seq<TokenBlock>>)
    returns (done: bool, r: Option<TypeStream<TokenBlock>>, grown: seq<TokenBlock>, ghost next: nat)
    requires tokenStream.Valid() && At(ts, c, tokenStream.ToVec())
    requires BracesMergeable(tokenStream.ToVec())
    requires whole == ShiftParsed(FileFrom(tokenStream.ToVec(), res), c) && !(whole.Failed? && !whole.reported)
    modifies tokenStream, compilation
    ensures done ==> (r.Some? <==> whole.Parsed?)
    ensures done && r.Some? ==>
      fresh(r.value) && r.value.Valid() && r.value.ToVec() == whole.value &&
      whole.consumed < |ts| && r.value.end == Some(ts[whole.consumed].codeLocation) &&
      compilation.diagnostics == old(compilation.diagnostics)
    ensures done && r.None? ==> OneErrorAdded(old(compilation.diagnostics), compilation.diagnostics)
    ensures !done ==>
      tokenStream.Valid() && |tokenStream.ToVec()| < |old(tokenStream.ToVec())| && At(ts, next, tokenStream.ToVec()) &&
      BracesMergeable(tokenStream.ToVec()) &&
      whole == ShiftParsed(FileFrom(tokenStream.ToVec(), grown), next) &&
      compilation.diagnostics == old(compilation.diagnostics)
  {
    ghost var cur := tokenStream.ToVec();
    grown, next := res, c;
    done := true;
    var token := tokenStream.Next();
    if RoleOf(token).EndOfFile? {
      AtFirst(ts, c, cur);
      var grouped := new TypeStream.FromIter(res, Some(token.codeLocation));
      r := Some(grouped);
      return;
    }
    if RoleOf(token).Closes? {
      compilation.AddError("Unexpected " + BraceName(RoleOf(token).brace), Some(token.codeLocation));
      r := None;
      return;
    }
    var item: Option<TokenBlock>;
    ghost var parsed: Parsed<TokenBlock>;
    item, parsed := ParseItem(tokenStream, compilation, token);
    if item.None? {
      FileItemFails(cur, res);
      r := None;
      return;
    }
    done, r := false, None;
    grown, next := res + [item.value], c + 1 + parsed.consumed;
    FileItemRound(ts, c, cur, res, item.value, parsed.consumed, whole, tokenStream.ToVec(), grown, next);
  }
}
