# Coala in Dafny

Coala compiles a small constraint language into a graph 3-colouring problem.
A lexer turns source text into tokens; a grouping pass folds the tokens into
brace blocks; a recursive-descent parser turns the blocks into syntax; a
translator lowers calls to `super` helpers and condition stacks into boolean
gate trees; a rewriting engine simplifies those trees (algebraic
simplification, restriction propagation, alias removal, inlining,
outlining of common subexpressions, marker stripping); and a graph encoder
turns the gates into NOT and OR gadgets over a node arena whose proper
3-colourings are the solutions. A CSV exporter writes the arena out.

This project models those stages and proves what each promises:

- `Tokens`, `CodeLocations`, `Diagnostics`, `Labels`: token and span
  helpers, the diagnostic log, and the colour algebra of the graph labels.
- `TypeStreams`: the one-element-lookahead stream as a class.
- `Lexer`, `LexerFacts`: the greedy lexer over a file reader modelled as a
  character sequence and a cursor, proved against a functional lexer.
- `BlockParser`: brace grouping, proved against an independent matcher, with
  the round trip from blocks back to tokens.
- `Syntax`, `Parsing`, `ParsingFacts`, `ParsingLists`, `Parser`: the
  parser's methods, each proved against a functional parser. `ParsingLists`
  states, for every input of the list rules (typed identifiers, tuples,
  field assignments, `.` chains, solutions) and of `parse_sub`, what a
  well-formed input reads as and which error each missing or wrong part
  gives; `ParsingFacts` does the same for a few single rules.
- `NaryTree`, `NarySimp`, `NaryForce`, `NaryLinks`, `NaryInline`,
  `NaryOutline`, `NarySystem`, `NaryRoot`: the IR with n-ary `Or`, its
  custom equality, and every pass, each proved to keep the set of solutions
  (`Solves`) or to keep its normal form. A seed label is a free input: the
  graph encoder gives each seed definition a node of its own
  (src/atom_tree_to_graph.rs:69-73), so two variables defined by the same
  seed label are not tied together. The solution statements hold for
  programs whose seed labels stand alone as whole definitions
  (`SeedsStandAlone`), which is how the translator introduces them
  (src/compiler/atom_tree_translate.rs:58-61), and every pass is proved to
  keep that shape.
- `BinaryTree`, `BinaryForce`, `BinaryRoot`: the older IR with binary `Or`,
  the one the graph encoder consumes. The translator names the n-ary IR's
  types but writes every `Or` with two operands; the model gives its trees
  in the binary IR (see "Left out").
- `Translator`: the condition-stack encodings, the `usize` helper
  arithmetic, the value accessors, `write_as_var` and `force`.
- `GraphArena`, `GraphEncoder`: the node arena, the gadgets and their
  colouring properties, and `AtomTreeCompiler::compile` with the end-to-end
  statement that every proper colouring meets every restriction.
- `IndexRemoval`: the "collect indices, remove them back to front" idiom
  both `simp_force` passes use.
- `CsvExport`: the label and edge tables.

A panic of the source (`expect`, `unwrap`, `todo!`, `panic!`) is a `None`
or an explicit flag where inputs can reach it. Hash map and hash set
iteration order is a nondeterministic choice (`:|`) wherever the result
depends on it.

## Model

| member | source | states |
|---|---|---|
| Labels.FromBool | src/atom_tree_to_graph.rs:240-247 | the colour of a boolean is one of the two boolean colours, `True` exactly for `true` |
| Labels.FromAtom | src/atom_tree_to_graph.rs:240-247 | a constant maps to the boolean colour of its truth value |
| Labels.Or | src/atom_tree_to_graph.rs:252-264 | `Null` if either side is `Null`; a panic exactly when neither is `Null` and one is `Neutral`; otherwise the colour of the disjunction |
| Labels.And | src/atom_tree_to_graph.rs:265-277 | `Null` if either side is `Null`; a panic exactly when neither is `Null` and one is `Neutral`; otherwise the colour of the conjunction |
| Labels.Not | src/atom_tree_to_graph.rs:278-285 | swaps the boolean colours, keeps `Null`, panics exactly on `Neutral` |
| Labels.AndIsDeMorgan | src/atom_tree_to_graph.rs:252-285 | on non-`Neutral` colours `and` equals `not(or(not a, not b))`, which is how the encoder builds conjunctions |
| Tokens.Not | src/compiler/token.rs:78-85 | `not` changes the constant |
| Tokens.NotInvolution | src/compiler/token.rs:78-85 | applying `not` twice gives the constant back |
| Tokens.ToBool | src/compiler/token.rs:74-77 | the truth value of a constant is `true` exactly for `True` |
| Tokens.NewToken | src/compiler/token.rs:23-28 | the token carries the given type and location |
| Tokens.Eof | src/compiler/token.rs:30-35 | an `EOF` token at the given path with no section |
| Tokens.TokenTo | src/compiler/token.rs:17-21 | the merged span exists exactly when the two locations are mergeable; it keeps the path and runs from the first token's start to the second's end |
| Tokens.IntoTokenType | src/compiler/token.rs:45-47 | rebuilding a token from its type and location gives it back |
| CodeLocations.New | src/compiler/code_location.rs:36-41 | a location at the path with no section |
| CodeLocations.WithSection | src/compiler/code_location.rs:43-51 | a location at the path whose section has the given bounds |
| CodeLocations.MergeSection | src/compiler/code_location.rs:20-34 | fails (the assertion or the panic) exactly when the paths differ or only one side has a section; otherwise keeps the path and spans from the beginning's start to the end's end |
| CodeLocations.To | src/compiler/code_location.rs:15-34 | the span exists exactly when the paths agree and both or neither locations have a section; it keeps the path of `self` and runs from the start of `self` to the end of `end`, with no section when neither has one |
| CodeLocations.MergeSelf | src/compiler/code_location.rs:20-34 | merging a location with itself gives it back |
| CodeLocations.MergeAssociative | src/compiler/code_location.rs:20-34 | merging three mergeable locations does not depend on grouping |
| CodeLocations.FromValue | src/compiler/code_location.rs:81-84 | the converted value has no location |
| CodeLocations.LocationValueHashConsistent | src/compiler/code_location.rs:62-73 | `Hash` agrees with `PartialEq`: two values equal under the location-blind equality leave any hasher in the same state |
| CodeLocations.LocationValueEqIsEquivalence | src/compiler/code_location.rs:60-73 | the location-blind equality is reflexive, symmetric and transitive, and ignores the location |
| Diagnostics.ErrorAt | src/compiler/compilation.rs:18-20 | an error diagnostic with the given message and location |
| Diagnostics.CountErrors | src/compiler/compilation.rs:27-29 | the number of errors among the diagnostics, at most their count |
| Diagnostics.Compilation.constructor | src/compiler/compilation.rs:32-37 | a new compilation has no diagnostics |
| Diagnostics.Compilation.AddError | src/compiler/compilation.rs:18-20 | appends exactly one error with the message and location |
| Diagnostics.Compilation.AddWarning | src/compiler/compilation.rs:21-23 | appends exactly one warning |
| Diagnostics.Compilation.AddInfo | src/compiler/compilation.rs:24-26 | appends exactly one info |
| Diagnostics.Compilation.AddAll | src/compiler/compilation.rs:13-15 | appends the given diagnostics in order |
| TypeStreams.TypeStream.ToVec | src/type_stream.rs:82-90 | the buffered element, if any, followed by the rest in order |
| TypeStreams.TypeStream.FromIter | src/type_stream.rs:46-54 | the new stream holds exactly the given elements and end location |
| TypeStreams.TypeStream.New | src/type_stream.rs:38-41 | the new stream holds exactly the given elements and no end location |
| TypeStreams.TypeStream.IsEmpty | src/type_stream.rs:35-37 | empty exactly when no element is left |
| TypeStreams.TypeStream.Next | src/type_stream.rs:56-69 | returns the first remaining element and leaves the others, in order |
| TypeStreams.TypeStream.IterNext | src/type_stream.rs:13-23 | `None` on an empty stream (nothing changes); otherwise the first element, leaving the rest |
| TypeStreams.TypeStream.Peek | src/type_stream.rs:75-77 | the first remaining element without consuming it; `None` exactly when empty |
| TypeStreams.TypeStream.Extract | src/type_stream.rs:71-73 | the extractor applied to the first remaining element |
| TypeStreams.TypeStream.Skip | src/type_stream.rs:79-81 | drops exactly the first remaining element |
| TypeStreams.TypeStream.ErrorIfEmpty | src/type_stream.rs:27-34 | fails exactly on an empty stream, and then appends one "Expected ..." error at the end location; otherwise reports nothing |
| Lexer.KeywordOf | src/lexer.rs:25-43 | the keyword table gives only keywords and the two constants |
| Lexer.DelimOf | src/lexer.rs:45-71 | the delimiter table gives only delimiters, for strings of one or two characters |
| Lexer.DigitsEnd | src/lexer.rs:168-182 | the end of the longest run of digits from the start |
| Lexer.WordEnd | src/lexer.rs:260-274 | the end of the longest run of letters, digits and `_` from the start |
| Lexer.DelimEnd | src/lexer.rs:211-225 | the delimiter grows while the grown string is in the table and stops at the first character that breaks it (longest match) |
| Lexer.NumberAt | src/lexer.rs:165-205 | a number read consumes at least one character and stays inside the text |
| Lexer.WordAt | src/lexer.rs:254-297 | a word read consumes at least one character and stays inside the text |
| Lexer.DelimAt | src/lexer.rs:208-252 | a delimiter read consumes at least one character, also when it reports "Invalid delimitor" |
| Lexer.TextAt | src/lexer.rs:153-163 | every read makes progress and stays inside the text |
| Lexer.CommentEnd | src/lexer.rs:115-129 | a finished comment ends just after a line feed or carriage return |
| Lexer.FileReader.PeekChar | src/lexer.rs:93-101 | the character under the cursor, end of file exactly when the cursor is past the text |
| Lexer.FileReader.ReadChar | src/lexer.rs:117-125 | the character under the cursor, and the cursor moves on by one |
| Lexer.FileReader.SetPosition | src/lexer.rs:183 | the cursor is moved to the given position |
| Lexer.ReadNumber | src/lexer.rs:165-205 | the reader's loop and step back give exactly `NumberAt`, with the cursor just after the digits |
| Lexer.ReadKeyword | src/lexer.rs:254-297 | the reader's loop and step back give exactly `WordAt`, with the cursor just after the word |
| Lexer.ReadDelim | src/lexer.rs:208-252 | the reader's loop and step back give exactly `DelimAt`, with the cursor just after the delimiter |
| Lexer.ReadDelimChars | src/lexer.rs:211-225 | the loop keeps exactly the characters up to `DelimEnd` and leaves the cursor one past them |
| Lexer.ReadDelimChar | src/lexer.rs:212-224 | one turn of the loop keeps the character exactly when the grown string is in the table |
| Lexer.ReadText | src/lexer.rs:153-163 | dispatching on the first character gives exactly `TextAt` |
| Lexer.SkipComment | src/lexer.rs:115-129 | a comment is consumed through its first line break; end of file exactly when no line break follows |
| Lexer.OnFileReaderError | src/lexer.rs:73-86 | at end of file the stream is the tokens read so far followed by one EOF token |
| Lexer.TokenizeStep | src/lexer.rs:89-150 | one turn of the loop advances the cursor and extends tokens and diagnostics exactly as `LexFrom` does |
| Lexer.Tokenize | src/lexer.rs:88-151 | the returned stream holds exactly the tokens of `LexFrom` and the diagnostics are exactly its errors |
| LexerFacts.SkippableLeavesNoTrace | src/lexer.rs:115-136 | blanks and finished comments produce no token and no diagnostic |
| LexerFacts.UnfinishedCommentEndsStream | src/lexer.rs:115-124 | a comment that runs to the end of the file ends the stream with the EOF token alone |
| LexerFacts.TextAtSpells | src/lexer.rs:153-297 | every token read spells out exactly the characters it covers: an integer is their decimal value with no digit after; an identifier is a whole word not in the keyword table; a keyword or constant is a whole word found in it; a delimiter is the longest table entry. Otherwise the read reports an overflowing numeral or a character that starts no delimiter |
| LexerFacts.TextAtNeverEof | src/lexer.rs:153-163 | no read gives an EOF token |
| LexerFacts.LexEndsWithEof | src/lexer.rs:73-151 | the stream ends with exactly one EOF token, and no earlier token is an EOF |
| LexerFacts.DelimEndShort | src/lexer.rs:45-71 | the greedy read stops after two characters and reaches two only through a one-character delimiter |
| LexerFacts.ThinArrowNeverLexed | src/lexer.rs:45-71 | `->` is in the table but `-` is not, so no token of the stream is a thin arrow |
| LexerFacts.PairsReadWhole | src/lexer.rs:208-252 | `::` and `=>` are each read as one token |
| LexerFacts.ThinArrowRejected | src/lexer.rs:208-252 | `->` gives two "Invalid delimitor" errors, one per character, and no token |
| BlockParser.IntoBlockTypeOrError | src/compiler/block_parser.rs:53-62 | succeeds exactly on a block of the requested brace kind and returns that block; otherwise exactly one error "Expected … block" at the item's location |
| BlockParser.IntoIdentifierOrError | src/compiler/block_parser.rs:69-78 | succeeds exactly on an identifier token, returning its name at the token's location; otherwise exactly one "Expected identifier" error |
| BlockParser.IntoIntegerOrError | src/compiler/block_parser.rs:79-88 | succeeds exactly on an integer token, returning its value at the token's location; otherwise exactly one "Expected integer" error |
| BlockParser.IntoStringOrError | src/compiler/block_parser.rs:90-99 | succeeds exactly on a string token, returning its text; otherwise exactly one error, whose message is "Expected integer" |
| BlockParser.IntoAtomTypeOrError | src/compiler/block_parser.rs:100-109 | succeeds exactly on a `true`/`false` token, returning that atom type; otherwise exactly one error |
| BlockParser.IntoAtomSubOrError | src/compiler/block_parser.rs:110-119 | succeeds exactly on a `not`/`or` token, returning that sub-atom; otherwise exactly one error |
| BlockParser.AssertIsKeywordOrError | src/compiler/block_parser.rs:120-131 | succeeds exactly on a token that is the expected keyword, returning its location; otherwise exactly one error naming the keyword |
| BlockParser.AssertIsDelimiterOrError | src/compiler/block_parser.rs:133-144 | succeeds exactly on a token that is the expected delimiter, returning its location; otherwise exactly one error naming the delimiter |
| BlockParser.AsDelimiter | src/compiler/block_parser.rs:153-162 | a delimiter exactly for a delimiter token, and the kind is that delimiter |
| BlockParser.AsBlock | src/compiler/block_parser.rs:163-172 | a brace kind exactly for a block, and the kind is that block's |
| BlockParser.KindPredicates | src/compiler/block_parser.rs:173-181 | `is_double_colon`, `is_period` and `is_curly_block` each hold for exactly one kind |
| BlockParser.RoleOf | src/compiler/block_parser.rs:189-201 | classifies a token as an opening brace, a closing brace, the EOF or anything else, matching its token type |
| BlockParser.FileFromStopsAtEof | src/compiler/block_parser.rs:196 | a successful file grouping ends exactly at an EOF token |
| BlockParser.ScanStopsAtEof | src/compiler/block_parser.rs:196 | the independent brace matcher also ends only at an EOF token |
| BlockParser.ScanReachesEof | src/compiler/block_parser.rs:185-209 | on a stream holding an EOF the brace matcher never runs out of tokens |
| BlockParser.BlockFromMatches | src/compiler/block_parser.rs:211-247 | grouping a block succeeds exactly when the independent brace matcher closes it, consumes as many tokens, and reports an error exactly when the braces are unbalanced |
| BlockParser.FileFromScans | src/compiler/block_parser.rs:185-209 | the same agreement for a whole file against the whole-file matcher |
| BlockParser.FileFromReachesEof | src/compiler/block_parser.rs:185-209 | with an EOF in the file, the file grouping never fails silently by running out of tokens |
| BlockParser.BlockFromBuilds | src/compiler/block_parser.rs:211-247 | a grouped block is well formed, of the exit brace kind, spans from its open to its close token, and flattens back to exactly the tokens it consumed |
| BlockParser.FileFromBuilds | src/compiler/block_parser.rs:185-209 | the grouped items of a file are well formed and flatten back to the tokens before the first EOF |
| BlockParser.GroupingRoundTrip | src/compiler/block_parser.rs:185-247 | on a file with an EOF, grouping succeeds exactly when the braces balance before the first EOF; then the groups flatten back to exactly those tokens; otherwise an error is reported |
| BlockParser.ParseItem | src/compiler/block_parser.rs:190-193 | an opening brace starts a nested block, anything else is kept as a token; result, stream and diagnostics agree with `ItemFrom` |
| BlockParser.ParseBlock | src/compiler/block_parser.rs:211-247 | the loop computes exactly `BlockFrom`: on success the block and the rest of the stream, with no diagnostic; a wrong closing brace or an EOF adds exactly one error; running out of tokens adds none |
| BlockParser.BlockStep | src/compiler/block_parser.rs:215-245 | one round of the block loop keeps the loop's outcome equal to `BlockFrom` of what is left |
| BlockParser.FromTokenStream | src/compiler/block_parser.rs:185-209 | the loop computes exactly `FileFrom`: on success a fresh stream holding the grouped items and ending at the first EOF's location, with no diagnostic; otherwise exactly one error |
| BlockParser.FileStep | src/compiler/block_parser.rs:188-206 | one round of the file loop keeps the loop's outcome equal to `FileFrom` of what is left |
| Parsing.Missing | src/type_stream.rs:27-34 | an empty stream yields `None`, leaves nothing, and adds exactly one "Expected …" error at the stream's end location |
| Parsing.ExpectIdentifier | src/compiler/parser.rs:176-178 | on an empty stream the "Expected identifier" error; otherwise the first item is taken and converted by `into_identifier_or_error`, with its diagnostics |
| Parsing.ExpectBlock | src/compiler/parser.rs:202-205 | on an empty stream one error; otherwise the first item is taken, and a success is exactly that item as a block of the requested brace kind |
| Parsing.ParseType | src/compiler/parser.rs:230-242 | an atom type gives that type and a name gives a composite type, each without diagnostics; anything else gives exactly one "Expected type" error; one item is taken |
| Parsing.TypedIdentifiersFrom | src/compiler/parser.rs:202-228 | a successful parse consumes the whole block and keeps the entries collected before it as a prefix |
| Parsing.TupleFrom | src/compiler/parser.rs:434-467 | always succeeds, consumes the whole block and keeps the earlier elements as a prefix |
| Parsing.FieldAssignFrom | src/compiler/parser.rs:476-502 | a success consumes the whole block and keeps the earlier assignments as a prefix |
| Parsing.ChainFrom | src/compiler/parser.rs:402-429 | a successful chain wraps the base expression and stops exactly where no `.` follows |
| Parsing.CodeBlockFrom | src/compiler/parser.rs:244-265 | a success consumes the whole block and keeps the earlier statements as a prefix |
| Parsing.IfBranches | src/compiler/parser.rs:273-299 | a success is an `if` on the given condition, and it has an `else` branch exactly when the item after the first branch is `else` |
| Parsing.SubCollectionFrom | src/compiler/parser.rs:157-174 | always succeeds and keeps the subs found earlier as a prefix |
| Parsing.SolutionsFrom | src/compiler/parser.rs:131-155 | never forgets a solution already recorded |
| Parsing.ParseSuper | src/compiler/parser.rs:90-104 | when it does not panic it takes at least one item, changes no existing super, and adds at most one |
| Parsing.Declaration | src/compiler/parser.rs:28-73 | one top-level declaration only adds to what was collected |
| Parsing.FileFrom | src/compiler/parser.rs:28-73 | the whole file only adds to what was collected |
| ParsingFacts.SuperDuplicateReported | src/compiler/parser.rs:90-104 | `super name = n` with a name in use: one error at the name, the supers unchanged, three items taken |
| ParsingFacts.SuperRecorded | src/compiler/parser.rs:90-104 | `super name = n` with a new name records `n` under it without diagnostics |
| ParsingFacts.SuperPanicsWhenShort | src/compiler/parser.rs:90-104 | `parse_super` panics exactly when the stream is empty, or holds a name and fewer than three items |
| ParsingFacts.SemicolonSkipped | src/compiler/parser.rs:244-265 | a `;` is dropped with one "Unneeded semicolon" warning at the next item; a trailing `;` makes the block fail |
| ParsingFacts.StatementThenSemicolon | src/compiler/parser.rs:244-265 | a statement followed by `;` is kept, and the block goes on after the `;` with one warning |
| ParsingFacts.IfElseOfVariable | src/compiler/parser.rs:273-299 | `if (x) { } else { }` parses to an `if`/`else` on variable `x` with empty branches, consuming exactly five items and reporting nothing |
| ParsingLists.CommaErrorsCount | src/compiler/parser.rs:152 | the separators of a list add no diagnostic exactly when all are commas, and at most one each |
| ParsingLists.TypedIdentifiersRead | src/compiler/parser.rs:202-228 | `k` well-formed `type : name` entries with `k - 1` separators read as exactly those typed identifiers in order, consume the block, and add one error per separator that is not a comma |
| ParsingLists.TypedIdentifiersGoOn | src/compiler/parser.rs:202-228 | after well-formed entries and one more separator the loop goes on with those entries kept, so a later failure is reported on top of them |
| ParsingLists.TypedIdentifierFails | src/compiler/parser.rs:206-216 | a bad type, a missing or wrong `:`, or a missing or wrong name ends the list with `None` and exactly the one error of that part |
| ParsingLists.ChainedLeftNested | src/compiler/parser.rs:411-425 | accesses nest to the left: the last one written is the outermost node |
| ParsingLists.ChainRead | src/compiler/parser.rs:402-428 | each written `.` access wraps the chain as an index or a field access, and the loop stops with the chain exactly where no `.` follows |
| ParsingLists.ChainFails | src/compiler/parser.rs:409-424 | a `.` with nothing after it, or followed by something other than an integer or a name, fails with one error |
| ParsingLists.VariableChainRead | src/compiler/parser.rs:402-428 | a name followed by accesses reads as that variable with the accesses applied in order |
| ParsingLists.TupleElementDropped | src/compiler/parser.rs:449-452 | an element that fails to parse is dropped and the loop goes on after its separator |
| ParsingLists.TupleRead | src/compiler/parser.rs:447-465 | `k` elements with `k - 1` separators read as exactly those `k` expressions in order; each separator that is not a comma adds one "Expected ) or ," error |
| ParsingLists.TupleExpressionRead | src/compiler/parser.rs:434-467 | a round block holding such a list is read as the tuple of its elements |
| ParsingLists.FieldEntryStep | src/compiler/parser.rs:481-495 | one field: the assignment is added under its located name; a colon that is not one costs one error but the value is still read |
| ParsingLists.FieldAssignRead | src/compiler/parser.rs:476-502 | `k` well-formed `name : value` fields with `k - 1` separators read as exactly those assignments in order, adding one error per separator that is not a comma |
| ParsingLists.FieldAssignFails | src/compiler/parser.rs:481-483 | a name that is not an identifier, or a name with nothing after it, ends the list with `None` and one error |
| ParsingLists.SolutionsRead | src/compiler/parser.rs:131-155 | named solutions with separators are all recorded in order under their names, each as a call of that sub on its application; the parse runs to the end and adds one error per separator that is not a comma |
| ParsingLists.RecordedKeys | src/compiler/parser.rs:146 | after recording, the names present are those already there plus every written name, and no other |
| ParsingLists.RecordedLast | src/compiler/parser.rs:146 | a name written more than once keeps the call of its last entry |
| ParsingLists.RecordedUntouched | src/compiler/parser.rs:146 | a name no entry mentions keeps the solution it had |
| ParsingLists.SolutionFails | src/compiler/parser.rs:135-139 | a name that is not an identifier is skipped with one error; a name with nothing after it stops the parse with "Expected application" |
| ParsingLists.SubRead | src/compiler/parser.rs:176-200 | `name (args) { code }` reads as the sub of that name with the arguments and code read from its blocks; a following `=` adds the result read after it, and without one the sub has no result |
| ParsingLists.SubFails | src/compiler/parser.rs:178-192 | a missing or wrong name, argument block or code block, or arguments or code that fail, end the sub with `None` and the error of that part |
| Parser.Parser.constructor | src/compiler/parser.rs:17-26 | a new parser has collected nothing and shares the given compilation |
| Parser.Parser.ParseType | src/compiler/parser.rs:230-242 | returns, leaves in the stream and reports exactly what `Parsing.ParseType` says |
| Parser.Parser.ParseTypedIdentifiers | src/compiler/parser.rs:202-228 | the loop over the block's stream yields exactly `Parsing.TypedIdentifiersFrom` |
| Parser.Parser.ParseExpression | src/compiler/parser.rs:350-474 | returns, leaves and reports exactly what `Parsing.ParseExpression` says |
| Parser.Parser.ChainExpression | src/compiler/parser.rs:402-429 | the `.` loop yields exactly `Parsing.ChainFrom` |
| Parser.Parser.ParseTuple | src/compiler/parser.rs:434-467 | the tuple loop yields exactly `Parsing.TupleFrom` |
| Parser.Parser.ParseFieldAssign | src/compiler/parser.rs:476-502 | the loop yields exactly `Parsing.FieldAssignFrom` |
| Parser.Parser.ParseCodeBlock | src/compiler/parser.rs:244-265 | the loop yields exactly `Parsing.CodeBlockFrom` |
| Parser.Parser.ParseStatement | src/compiler/parser.rs:267-348 | returns, leaves and reports exactly what `Parsing.ParseStatement` says |
| Parser.Parser.ParseSub | src/compiler/parser.rs:176-200 | returns, leaves and reports exactly what `Parsing.ParseSub` says |
| Parser.Parser.ParseSubCollection | src/compiler/parser.rs:157-174 | the loop yields exactly `Parsing.SubCollectionFrom` |
| Parser.Parser.ParseProblem | src/compiler/parser.rs:105-109 | the block's subs are appended to the problems, nothing else collected changes |
| Parser.Parser.ParseCollection | src/compiler/parser.rs:111-129 | returns, leaves and reports exactly what `Parsing.ParseCollection` says |
| Parser.Parser.ParseComposite | src/compiler/parser.rs:74-89 | the composite type is appended exactly when `Parsing.ParseComposite` parses it |
| Parser.Parser.ParseSolution | src/compiler/parser.rs:131-155 | the loop records exactly the solutions of `Parsing.SolutionsFrom` |
| Parser.Parser.ParseSuper | src/compiler/parser.rs:90-104 | panics exactly when `Parsing.ParseSuper` does; otherwise the stream, the supers and the diagnostics are the function's |
| Parser.Parser.ParseFile | src/compiler/parser.rs:28-73 | the loop collects exactly the declarations and diagnostics of `Parsing.FileFrom`, and panics exactly when it does |
| NaryTree.SeedAndMarkerNeverEqual | src/compiler/atom_tree.rs:243-260 | a seed label or a marker is unequal to every tree, itself included |
| NaryTree.EqSymmetric | src/compiler/atom_tree.rs:243-260 | the hand-written equality is symmetric |
| NaryTree.EqTransitive | src/compiler/atom_tree.rs:243-260 | the hand-written equality is transitive |
| NaryTree.EqReflexiveIffPlain | src/compiler/atom_tree.rs:243-260 | a tree equals itself exactly when it holds no seed label and no marker |
| NaryTree.OrOrderIndependent | src/compiler/atom_tree.rs:248-256 | reordering the operands of an `Or` of plain trees gives an equal `Or` |
| NaryTree.EqSound | src/compiler/atom_tree.rs:243-260 | equal trees have the same boolean meaning under every assignment |
| NaryTree.RemoveMarkerIsMarkerFree | src/compiler/atom_tree.rs:326-337 | removing markers leaves none |
| NaryTree.RemoveMarkerOfMarkerFree | src/compiler/atom_tree.rs:326-337 | removing markers from a marker-free tree changes nothing |
| NaryTree.RemoveMarkerEval | src/compiler/atom_tree.rs:326-337 | removing markers keeps the meaning |
| NaryTree.RemoveMarkerVars | src/compiler/atom_tree.rs:326-337 | removing markers keeps the set of variables |
| NaryTree.InlineVarSeedRoot | src/compiler/atom_tree.rs:338-349 | substituting entries that are not seed labels gives a seed label exactly when the tree was one |
| NaryTree.InlineVarEval | src/compiler/atom_tree.rs:338-349 | substituting entries that agree with the assignment keeps the meaning |
| NaryTree.InlineVarEliminates | src/compiler/atom_tree.rs:338-349 | on a marker-free tree, substitution with entries free of substituted ids leaves no substituted id and adds only the entries' variables |
| NarySimp.InsertAllOfDistinct | src/compiler/atom_tree.rs:383-409 | collecting pairwise unequal operands into the operand set keeps them all, in order |
| NarySimp.OrOperands | src/compiler/atom_tree.rs:382-409 | the operands `simp` collects for an `Or` come from non-constant operands or from nested `Or`s, every such tree is kept or represented by an equal one, and no two kept operands are equal |
| NarySimp.SimpShrinks | src/compiler/atom_tree.rs:372-422 | every rewrite `simp` reports makes the tree strictly smaller, so the loop of `simp_rec` ends |
| NarySimp.SimpSound | src/compiler/atom_tree.rs:372-422 | one `simp` step keeps the meaning of the tree |
| NarySimp.SimpRecSound | src/compiler/atom_tree.rs:350-368 | `simp_rec` keeps the meaning of the tree |
| NarySimp.SimpRecSeedFree | src/compiler/atom_tree.rs:350-368 | `simp_rec` never brings a seed label into a tree free of them |
| NarySimp.SimpRecFlat | src/compiler/atom_tree.rs:350-368 | `simp_rec` always returns a tree in normal form: no double negation, no negated constant, no constant or nested `Or` under an `Or`, at least two distinct operands per `Or` |
| NarySimp.FlatIsFixpoint | src/compiler/atom_tree.rs:350-368 | on a tree in normal form `simp_rec` returns it unchanged and reports no change |
| NarySimp.SimpRecIdempotent | src/compiler/atom_tree.rs:350-368 | running `simp_rec` on its own result reports no change and returns it unchanged |
| NarySimp.SimpStep | src/compiler/atom_tree.rs:372-422 | the method computes exactly `Simp` |
| NarySimp.SimpOr | src/compiler/atom_tree.rs:382-418 | the loop over an `Or`'s operands computes exactly `Simp` of that `Or` |
| NarySimp.SimpOrNext | src/compiler/atom_tree.rs:386-404 | one operand: a `True` stops the pass, anything else is absorbed into the operand set |
| NarySimp.InsertOperands | src/compiler/atom_tree.rs:396-398 | a nested `Or`'s operands are inserted one by one |
| NarySimp.SimpRecursive | src/compiler/atom_tree.rs:350-368 | computes exactly `SimpRec`, and raises the caller's flag exactly when a rewrite was reported |
| NarySimp.SimpOperands | src/compiler/atom_tree.rs:353 | `simp_rec` on each operand in order, threading the flag |
| NarySimp.SimpSettle | src/compiler/atom_tree.rs:356-366 | the `while simp(..)` loop computes exactly the fixpoint `SimpLoop` |
| NaryTree.PlainIsReflexive | src/compiler/atom_tree.rs:243-260 | a tree free of seed labels and markers is equal to itself |
| NaryTree.ReflexiveIsPlain | src/compiler/atom_tree.rs:243-260 | a tree equal to itself holds no seed label and no marker: those compare unequal even to themselves |
| NarySimp.EvalDedup | src/compiler/atom_tree.rs:383-409 | dropping duplicate operands does not change whether some operand holds |
| NarySimp.SimpUnreportedIsFlat | src/compiler/atom_tree.rs:385-416 | over normal-form children, a rewrite that reports no change returns a tree in normal form |
| NarySystem.SeedInputsIndependent | src/atom_tree_to_graph.rs:69-73 | two variables defined by the same seed label may take different values in one solution, as each seed gets its own node |
| NarySystem.RestrictionsHoldAppend | src/compiler/atom_tree.rs:74-77 | the restrictions of two action lists joined hold exactly when both lists' hold |
| NaryForce.ActionEquivalent | src/compiler/atom_tree.rs:36-73 | each forced action becomes an equivalent one (negation moved onto the constant) or, for `force or(..) => false`, the equivalent list of its operands forced false |
| NaryForce.ForceSubstFrom | src/compiler/atom_tree.rs:39-43 | every substitution entry comes from a `force id => c` and maps `id` to `c` |
| NaryForce.ForceSubstConstant | src/compiler/atom_tree.rs:40 | every substitution entry is a constant |
| NaryForce.SubstAgrees | src/compiler/atom_tree.rs:34-43 | an assignment meeting the restrictions on plain variables agrees with every substitution entry |
| NaryForce.FinishEval | src/compiler/atom_tree.rs:79-84 | under an assignment that agrees with the substitution, substituting and stripping markers keeps a tree's meaning |
| NaryForce.ForceKeepsVariableRestriction | src/compiler/atom_tree.rs:39-43 | each `force id => c` survives the pass as the same restriction on the plain variable, shielded from its own substitution by the marker |
| NaryForce.RestrictionsEquivalent | src/compiler/atom_tree.rs:36-77 | the restrictions left after deleting and appending hold exactly when the original ones do |
| NaryForce.ForceKeepsSeedsStandAlone | src/compiler/atom_tree.rs:31-85 | on a program whose seed labels stand alone, `simp_force` keeps them so: a seed definition stays a seed label and every other tree stays free of seed labels |
| NaryForce.ForcePreservesSolutions | src/compiler/atom_tree.rs:31-85 | an assignment solves the program before `simp_force` exactly when it solves the program after it |
| NaryForce.ForceLeavesNoMarker | src/compiler/atom_tree.rs:82-84 | no marker is left anywhere after `simp_force` |
| NaryForce.ForceEliminatesForcedVariables | src/compiler/atom_tree.rs:79-81 | in marker-free definitions, no forced variable is mentioned after the pass |
| NaryInline.RankBound | src/compiler/atom_tree.rs:295-316 | a bound above the rank of every given id |
| NaryInline.ExpandSound | src/compiler/atom_tree.rs:295-316 | under a solution of the definitions, expanding a tree keeps its meaning |
| NaryInline.ExpandOnlySeeds | src/compiler/atom_tree.rs:303-306 | in a marker-free program an expansion mentions only seed-defined variables |
| NaryInline.ExpandKeepsSeeds | src/compiler/atom_tree.rs:303-306 | an expansion is a seed label exactly when the tree is one |
| NaryInline.ExpandClosed | src/compiler/atom_tree.rs:301 | in a program where every mentioned id is defined, expansion never reaches the panic |
| NaryInline.ExpandShift | src/compiler/atom_tree.rs:295-316 | evaluating an expansion equals evaluating the tree under the assignment that gives inlined ids their expansions' values |
| NaryInline.InlineTree | src/compiler/atom_tree.rs:295-316 | the memoised recursion returns exactly the expansion, fails exactly where the source panics, and keeps the memo sound |
| NaryInline.InlineAllKeepsSolutions | src/compiler/atom_tree.rs:21-29 | every solution of the program is a solution after `inline_all` |
| NaryInline.InlineAllAddsNoSolutions | src/compiler/atom_tree.rs:21-29 | every solution after `inline_all` solves the original program once inlined ids take their expansions' values |
| NaryInline.InlineAllOnlySeeds | src/compiler/atom_tree.rs:21-29 | after `inline_all` the action trees mention only seed-defined variables |
| NaryLinks.LinkSubstEmpty | src/compiler/atom_tree.rs:119-141 | nothing is recorded exactly when no definition is an alias or a constant |
| NaryLinks.LinkedDefsShrink | src/compiler/atom_tree.rs:146-148 | a non-empty round strictly shrinks the definitions |
| NaryLinks.InlineVarShift | src/compiler/atom_tree.rs:338-349 | outside markers, substituting equals evaluating under the assignment extended by the substitution |
| NaryLinks.LinksKeepSolutions | src/compiler/atom_tree.rs:119-151 | every solution stays a solution after `remove_links` |
| NaryLinks.LinksAddNoSolutions | src/compiler/atom_tree.rs:119-151 | for a marker-free program, every solution after `remove_links` solves the original once deleted ids take their links' values |
| NaryLinks.LinksAddOnlyDeletedFreedom | src/compiler/atom_tree.rs:119-151 | with markers, a solution after `remove_links` that also satisfies the deleted definitions solves the original |
| NaryLinks.MarkedLinkLosesRestriction | src/compiler/atom_tree.rs:119-151 | a marked forced variable defined as `false` has no solution before `remove_links` but one after it |
| NaryLinks.LinksEliminate | src/compiler/atom_tree.rs:143-148 | without markers and self-aliases, no deleted id is mentioned in the remaining definitions |
| NaryOutline.Lookup | src/compiler/atom_tree.rs:280 | finds a recorded id exactly when some recorded subtree equals the tree, and returns that subtree's id |
| NaryOutline.OutlineShape | src/compiler/atom_tree.rs:271-294 | every non-variable subtree becomes a variable whose id is above the starting counter; the table only grows, stays numbered, keeps distinct keys and records only nodes whose children are variables |
| NaryOutline.OutlineLayered | src/compiler/atom_tree.rs:271-294 | outlining keeps each recorded node mentioning only ids below its own, and the returned variable is at most the new counter |
| NaryOutline.OutlineSound | src/compiler/atom_tree.rs:271-294 | outlining keeps the tree's meaning under every assignment that gives each recorded id its subtree's value |
| NaryOutline.OutlineRoot | src/compiler/atom_tree.rs:100-105 | one root tree outlined against the current table is rewritten to a variable that the grown table defines back to it |
| NaryOutline.OutlineNoSeedEntries | src/compiler/atom_tree.rs:271-294 | outlining a tree free of seed labels records no bare seed label in the table |
| NaryOutline.OutlineAddsNoSolutions | src/compiler/atom_tree.rs:97-109 | with fresh table ids, every solution of the outlined program solves the original |
| NaryOutline.EvalAgrees | src/compiler/atom_tree.rs:200-217 | a tree's value depends only on the variables it mentions |
| NaryOutline.ExtendHolds | src/compiler/atom_tree.rs:106-108 | on a layered table, giving each table id its node's value keeps the original ids and satisfies every inserted definition |
| NaryOutline.OutlineKeepsSolutions | src/compiler/atom_tree.rs:97-109 | every solution of the original program, extended to the table ids, solves the outlined program, keeping the original ids' values |
| NaryRoot.SimpKeepsSeedsStandAlone | src/compiler/atom_tree.rs:87-96 | `simp_rec` over every tree keeps seed labels standing alone, and a definition is a seed label afterwards exactly when it was one before |
| NaryRoot.SimpTreesPreserveSolutions | src/compiler/atom_tree.rs:91-93 | `simp_rec` over every tree keeps every solution and adds none |
| NaryRoot.SimpAllPreservesSolutions | src/compiler/atom_tree.rs:87-96 | `simp_all` keeps every solution and adds none |
| NaryRoot.FinalizePreservesSolutions | src/compiler/atom_tree.rs:110-117 | after `finalize_simp` no marker is left and the solutions are the same |
| NaryRoot.ForceFinishes | src/compiler/atom_tree.rs:74-84 | deleting, appending, substituting and stripping markers in that order give exactly the forced program |
| NaryRoot.ScanAction | src/compiler/atom_tree.rs:37-71 | one action of the scan: rewritten as `Rewrite` says, its position recorded exactly when dropped, its split parts appended, the substitution and the flag updated, and one warning exactly for a contradicted constant |
| NaryRoot.ScanForces | src/compiler/atom_tree.rs:36-73 | the scan loop computes exactly the rewritten actions, the positions, the appended restrictions, the substitution, the flag and the warnings of the specification |
| NaryRoot.SimpDefinitions | src/compiler/atom_tree.rs:169-173 | `simp_rec` over every definition, raising the flag exactly when some definition reports a change |
| NaryRoot.SimpActionTrees | src/compiler/atom_tree.rs:174-178 | `simp_rec` over every action tree in order, raising the flag exactly when some tree reports a change |
| NaryRoot.CollectLinks | src/compiler/atom_tree.rs:120-137 | in any visiting order the scan records only aliases and constants, each with its own definition; an alias never targets another recorded id; every link not recorded was excluded as an alias target or aliases a recorded id |
| NaryRoot.InlineDefinitions | src/compiler/atom_tree.rs:24-26 | every definition expanded against the unchanged copy; it fails exactly when some expansion would panic |
| NaryRoot.InlineActions | src/compiler/atom_tree.rs:24-26 | every action tree expanded, in order, with its action kept |
| NaryRoot.InlinedSeeds | src/compiler/atom_tree.rs:27 | the final filter keeps exactly the seed-label definitions |
| NaryRoot.OutlineDefinitions | src/compiler/atom_tree.rs:100-105 | every definition except seed labels rewritten against the growing table, which stays well formed and layered |
| NaryRoot.OutlineActions | src/compiler/atom_tree.rs:100-105 | every action tree rewritten against the growing table, actions kept |
| NaryRoot.AtomRoot.constructor | src/compiler/atom_tree.rs:6-12 | a new program has no definitions, no actions and counter 0 |
| NaryRoot.AtomRoot.DefineNewVar | src/compiler/atom_tree.rs:180-185 | binds the counter's value to the tree, returns it and advances the counter by one |
| NaryRoot.AtomRoot.DefineRestriction | src/compiler/atom_tree.rs:186-188 | appends one restriction and changes nothing else |
| NaryRoot.AtomRoot.ApplyToAllTreesMut | src/compiler/atom_tree.rs:153-163 | applies the function to every definition and every action tree, nothing else changes |
| NaryRoot.AtomRoot.SimpForce | src/compiler/atom_tree.rs:31-85 | the new program is exactly the forced program, the flag and the warnings are the specification's |
| NaryRoot.AtomRoot.SimpAll | src/compiler/atom_tree.rs:87-96 | the new program is `simp_rec` of the forced program, and the result reports any change |
| NaryRoot.AtomRoot.FinalizeSimp | src/compiler/atom_tree.rs:110-117 | strips every marker from every tree |
| NaryRoot.AtomRoot.RemoveLinks | src/compiler/atom_tree.rs:119-151 | returns true exactly when some definition is an alias or a constant; then the program is the linked one with strictly fewer definitions; otherwise nothing changes |
| NaryRoot.AtomRoot.InlineAll | src/compiler/atom_tree.rs:21-29 | succeeds exactly when no expansion panics, and then keeps only seed definitions and expands every action tree |
| NaryRoot.AtomRoot.OutlineCommonExpressions | src/compiler/atom_tree.rs:97-109 | every tree is rewritten against one well-formed table of fresh ids above the counter, the table's nodes are inserted as definitions, and the counter is left as it was |
| BinaryTree.Simp | src/atom_tree.rs:265-298 | one root rewrite in the source's arm order: double negation, negated constant, a constant operand of `Or`; anything that is neither `Not` nor `Or` is left unchanged and unreported |
| BinaryTree.SimpOrSame | src/atom_tree.rs:287-289 | `Or(a, a)` rewrites to `a`, constants included |
| BinaryTree.SimpOrComplement | src/atom_tree.rs:290-295 | a disjunction of a non-constant tree and its negation rewrites to `true` |
| BinaryTree.SimpShrinks | src/atom_tree.rs:265-298 | every reported rewrite strictly shrinks the tree |
| BinaryTree.SimpSound | src/atom_tree.rs:265-298 | a rewrite keeps the tree's meaning |
| BinaryTree.SimpRecSound | src/atom_tree.rs:249-264 | `simp_rec` keeps the tree's meaning |
| BinaryTree.SimpLoopOnce | src/atom_tree.rs:255-262 | over reduced children the loop applies at most one rewrite, and the result is reduced |
| BinaryTree.SimpRecReduced | src/atom_tree.rs:249-264 | `simp_rec` always returns a tree no rule applies to anywhere outside markers |
| BinaryTree.ReducedIsFixpoint | src/atom_tree.rs:249-264 | on a reduced tree `simp_rec` changes nothing and reports nothing |
| BinaryTree.SimpRecIdempotent | src/atom_tree.rs:249-264 | running `simp_rec` on its own result reports no change and returns it unchanged |
| BinaryTree.SimpStep | src/atom_tree.rs:265-298 | the match arms compute exactly `Simp` |
| BinaryTree.SimpRecursive | src/atom_tree.rs:249-264 | computes exactly `SimpRec`, raising the caller's flag exactly when a rewrite was reported |
| BinaryTree.InlineVarSeedRoot | src/atom_tree.rs:236-248 | substituting entries that are not seed labels gives a seed label exactly when the tree was one |
| BinaryTree.InlineVarEval | src/atom_tree.rs:236-248 | substituting entries that mean what their variables mean keeps the meaning |
| BinaryTree.InlineVarShift | src/atom_tree.rs:236-248 | outside markers, substituting equals evaluating under the extended assignment |
| BinaryTree.InlineVarEliminates | src/atom_tree.rs:236-248 | without markers, entries that avoid the substituted ids leave none of them behind |
| BinaryTree.RemoveMarker | src/atom_tree.rs:224-235 | the result holds no marker |
| BinaryTree.RemoveMarkerEval | src/atom_tree.rs:224-235 | stripping markers keeps the meaning |
| BinaryTree.RemoveMarkerOfMarkerFree | src/atom_tree.rs:224-235 | stripping markers from a marker-free tree changes nothing |
| BinaryTree.FinalizeTree | src/atom_tree.rs:224-235 | the in-place recursion computes exactly `RemoveMarker` |
| BinaryForce.RestrictionsHoldAppend | src/atom_tree.rs:62-65 | the restrictions of two joined lists hold exactly when both lists' hold |
| BinaryForce.Split | src/atom_tree.rs:42-47 | a split yields at most the two operand restrictions |
| BinaryForce.ActionEquivalent | src/atom_tree.rs:27-61 | each action becomes an equivalent one or, for `force Or(a, b) => false`, the equivalent pair of restrictions |
| BinaryForce.ForceSubstFrom | src/atom_tree.rs:30-33 | every substitution entry comes from a `force id => c` and maps `id` to `c` |
| BinaryForce.ForceSubstCovers | src/atom_tree.rs:30-33 | every forced variable has a substitution entry |
| BinaryForce.SubstAgrees | src/atom_tree.rs:25-33 | an assignment meeting the restrictions on plain variables agrees with every substitution entry |
| BinaryForce.ForceKeepsVariableRestriction | src/atom_tree.rs:30-33 | each `force id => c` survives as the same restriction on the marked variable |
| BinaryForce.RestrictionsEquivalent | src/atom_tree.rs:27-65 | the restrictions left after deleting and appending hold exactly when the original ones do |
| BinaryForce.ForcePreservesSolutions | src/atom_tree.rs:22-70 | an assignment solves the program before `simp_force` exactly when it solves it after |
| BinaryForce.ForceEliminatesForcedVariables | src/atom_tree.rs:22-70 | forced variables stay restricted as marked variables, and no marker-free definition mentions them afterwards |
| BinaryRoot.LinkSubstEmpty | src/atom_tree.rs:89-111 | nothing is recorded exactly when no definition is an alias or a constant |
| BinaryRoot.LinkedDefsShrink | src/atom_tree.rs:116-118 | a non-empty round strictly shrinks the definitions |
| BinaryRoot.LinksKeepSolutions | src/atom_tree.rs:89-121 | every solution stays a solution after `remove_links` |
| BinaryRoot.LinksAddNoSolutions | src/atom_tree.rs:89-121 | for a marker-free program, every solution after `remove_links` solves the original once deleted ids take their links' values |
| BinaryRoot.LinksAddOnlyDeletedFreedom | src/atom_tree.rs:89-121 | with markers, a solution after `remove_links` that also satisfies the deleted definitions solves the original |
| BinaryRoot.MarkedLinkLosesRestriction | src/atom_tree.rs:89-121 | a marked forced variable defined as `false` has no solution before `remove_links` but one after it |
| BinaryRoot.CollectLinks | src/atom_tree.rs:90-107 | in any visiting order the scan records only aliases and constants with their definitions, never an alias to another recorded id, and leaves out a link only when excluded or aliasing a recorded id |
| BinaryRoot.ScanAction | src/atom_tree.rs:28-59 | one action of the scan: rewritten, its position recorded exactly when dropped, its split parts appended, the substitution and flag updated, and one info or warning for a constant |
| BinaryRoot.ScanForces | src/atom_tree.rs:27-61 | the scan loop computes exactly the specification's rewritten actions, positions, appended restrictions, substitution, flag and notes |
| BinaryRoot.ForceFinishes | src/atom_tree.rs:62-69 | deleting, appending and substituting give exactly the forced program |
| BinaryRoot.SimpDefinitions | src/atom_tree.rs:163-167 | `simp_rec` over every definition, raising the flag exactly when some definition reports a change |
| BinaryRoot.SimpActionTrees | src/atom_tree.rs:168-172 | `simp_rec` over every action tree in order, raising the flag exactly when some tree reports a change |
| BinaryRoot.SimpKeepsSeedsStandAlone | src/atom_tree.rs:72-81 | `simp_rec` over every tree keeps seed labels standing alone, and a definition is a seed label afterwards exactly when it was one before |
| BinaryRoot.SimpTreesPreserveSolutions | src/atom_tree.rs:74-76 | `simp_rec` over every tree keeps every solution and adds none |
| BinaryRoot.SimpAllPreservesSolutions | src/atom_tree.rs:72-81 | `simp_all` keeps every solution and adds none |
| BinaryRoot.FinalizePreservesSolutions | src/atom_tree.rs:83-87 | after `finalize_simp` no marker is left and the solutions are the same |
| BinaryRoot.AtomRoot.constructor | src/atom_tree.rs:6-12 | a new program has no definitions, no actions and counter 0 |
| BinaryRoot.AtomRoot.DefineNewVar | src/atom_tree.rs:174-179 | binds the counter's value to the tree, returns it and advances the counter by one |
| BinaryRoot.AtomRoot.DefineRestriction | src/atom_tree.rs:180-182 | appends one restriction and changes nothing else |
| BinaryRoot.AtomRoot.ApplyToAllTreesMut | src/atom_tree.rs:148-158 | applies the function to every definition and every action tree, nothing else changes |
| BinaryRoot.AtomRoot.SimpForce | src/atom_tree.rs:22-70 | the new program is exactly the forced program; the flag and the notes are the specification's |
| BinaryRoot.AtomRoot.SimpAll | src/atom_tree.rs:72-81 | the new program is the forced program of the `simp_rec` results, and the result reports any change |
| BinaryRoot.AtomRoot.FinalizeSimp | src/atom_tree.rs:83-87 | strips every marker from every tree |
| BinaryRoot.AtomRoot.RemoveLinks | src/atom_tree.rs:89-121 | returns true exactly when some definition is an alias or a constant; then the program is the linked one with strictly fewer definitions; otherwise nothing changes |
| BinaryRoot.AtomRoot.InlineVars | src/atom_tree.rs:122-123 | returns at once, reporting no change and changing nothing |
| BinaryTree.SimpRecSeedFree | src/atom_tree.rs:249-264 | `simp_rec` never brings a seed label into a tree free of them |
| BinaryTree.SimpRec | src/atom_tree.rs:249-264 | `simp_rec` never makes the tree larger |
| Translator.GetAsIntOrError | src/compiler/atom_tree_translate.rs:646-654 | succeeds exactly on a super integer and returns it; otherwise exactly one error |
| Translator.GetAsArrayOrError | src/compiler/atom_tree_translate.rs:655-663 | succeeds exactly on an array and returns its items; otherwise exactly one error |
| Translator.GetAsAtomTreeIfSingleOrError | src/compiler/atom_tree_translate.rs:664-674 | succeeds exactly on a single boolean, a variable, or a one-element tuple of such at any depth; otherwise exactly one error |
| Translator.UnwrapsSingletons | src/compiler/atom_tree_translate.rs:668 | wrapping a value in one-element tuples any number of times does not change the outcome |
| Translator.AccessIdentifierOrError | src/compiler/atom_tree_translate.rs:697-717 | succeeds exactly on a composite that has the field and returns that field; otherwise exactly one error |
| Translator.AccessIndexedOrError | src/compiler/atom_tree_translate.rs:718-736 | succeeds exactly on an array with the index in bounds and returns that item; otherwise exactly one error |
| Translator.AccessIndexOrError | src/compiler/atom_tree_translate.rs:737-759 | succeeds exactly on a tuple with the index in bounds and returns that element; otherwise exactly one error |
| Translator.WrittenAgrees | src/compiler/atom_tree_translate.rs:675-696 | under any solution of the definitions, a value written as variables means what the value meant, leaf by leaf |
| Translator.AllConditionsEval | src/compiler/atom_tree_translate.rs:228-234 | the tree built from the condition stack is true exactly when every condition holds (true for an empty stack) |
| Translator.EnforcedEval | src/compiler/atom_tree_translate.rs:78-90 | forcing `true` asks for the value or a failed condition; forcing `false` builds the value and all conditions |
| Translator.EnforcedHoldsWhenConditionFails | src/compiler/atom_tree_translate.rs:77-90 | a restriction emitted under a failed condition always holds |
| Translator.EnforcedWhenAllHold | src/compiler/atom_tree_translate.rs:78-90 | when every condition holds, the emitted restriction is about the value alone |
| Translator.SelectIfConditionsMet | src/compiler/atom_tree_translate.rs:126-142 | the multiplexer is an `Or` of two negations |
| Translator.SelectEval | src/compiler/atom_tree_translate.rs:126-142 | the multiplexer means the first choice when the condition holds and the second otherwise |
| Translator.ForceErrors | src/compiler/atom_tree_translate.rs:92-114 | `force` reports one identical error per leaf that is neither single nor a tuple, and none exactly when there is no such leaf |
| Translator.Restrictions | src/compiler/atom_tree_translate.rs:92-114 | one restriction per boolean leaf |
| Translator.RestrictionsMeaning | src/compiler/atom_tree_translate.rs:92-114 | the emitted restrictions hold whenever some condition fails; when all hold, exactly when every leaf equals the forced constant |
| Translator.WrappingSubAdd | src/compiler/atom_tree_translate.rs:316-335 | wrapping subtraction undoes wrapping addition and the other way round |
| Translator.WrappingExact | src/compiler/atom_tree_translate.rs:316-345 | without overflow the wrapping operations are the plain ones |
| Translator.LookupSuperNames | src/compiler/atom_tree_translate.rs:315-447 | each built-in is selected by its own name and by no other |
| Translator.SuperOpCall | src/compiler/atom_tree_translate.rs:315-444 | at most one error; a wrong number of arguments always fails |
| Translator.SuperCall | src/compiler/atom_tree_translate.rs:305-448 | at most one error; an unknown name gives exactly "Unknown super function" |
| Translator.PairReachesOperation | src/compiler/atom_tree_translate.rs:315-444 | a pair of integers reaches the operation itself, first argument first |
| Translator.SuperArithmetic | src/compiler/atom_tree_translate.rs:316-345 | `add`, `sb` and `mul` wrap at the `usize` width; `sb` takes the second from the first |
| Translator.SuperDivision | src/compiler/atom_tree_translate.rs:346-373 | `div` and `mod` divide the first by the second and refuse a zero divisor with "Division by zero" |
| Translator.SuperComparison | src/compiler/atom_tree_translate.rs:374-413 | `eq`, `ne`, `grt` and `grte` give the constant tree of the comparison, first against second |
| Translator.SuperMinMax | src/compiler/atom_tree_translate.rs:424-443 | `min` and `max` return one of the arguments, no larger (no smaller) than both |
| Translator.SuperLen | src/compiler/atom_tree_translate.rs:414-423 | `len` counts the items of one array argument, bare or in a one-element tuple |
| Translator.SuperArgumentErrors | src/compiler/atom_tree_translate.rs:315-444 | a non-integer argument reports one error, the second argument checked first |
| Translator.AtomNotCall | src/compiler/atom_tree_translate.rs:452-455 | succeeds exactly on a single boolean; otherwise one error |
| Translator.AtomOrCall | src/compiler/atom_tree_translate.rs:456-472 | succeeds exactly on a pair of single booleans; otherwise one error |
| Translator.AtomNotEval | src/compiler/atom_tree_translate.rs:452-455 | `not` gives a single boolean meaning the negation of its argument |
| Translator.AtomOrEval | src/compiler/atom_tree_translate.rs:456-472 | `or` gives a single boolean meaning the disjunction of its arguments |
| Translator.AtomTreeTranslator.constructor | src/compiler/atom_tree_translate.rs:19-27 | an empty condition stack and a fresh, empty program |
| Translator.AtomTreeTranslator.MutateValueToEnforceAtCondition | src/compiler/atom_tree_translate.rs:78-90 | the loop builds exactly the enforced tree for the current condition stack |
| Translator.AtomTreeTranslator.TrueIfAllConditionsAreMet | src/compiler/atom_tree_translate.rs:228-234 | the loop builds exactly the conjunction of the condition stack |
| Translator.AtomTreeTranslator.Force | src/compiler/atom_tree_translate.rs:92-114 | appends exactly one enforced restriction per boolean leaf, in order, and one error per other leaf; definitions and counter unchanged |
| Translator.AtomTreeTranslator.WriteAsVar | src/compiler/atom_tree_translate.rs:675-696 | every single boolean gets its own fresh variable bound to its tree; the fresh ids are exactly the counter's new range; no action changes |
| Translator.AtomTreeTranslator.WriteTuple | src/compiler/atom_tree_translate.rs:680-685 | the elements written in order, their fresh ids disjoint and together exactly the new range |
| Translator.AtomTreeTranslator.WriteComposite | src/compiler/atom_tree_translate.rs:686-692 | the fields written in some order, their fresh ids disjoint and together exactly the new range |
| Translator.AtomTreeTranslator.CompileSuperCall | src/compiler/atom_tree_translate.rs:305-448 | returns and reports exactly what `SuperCall` says |
| Translator.AtomTreeTranslator.CompileAtomCall | src/compiler/atom_tree_translate.rs:450-473 | returns and reports exactly what the atom call says |
| GraphArena.Appended | src/atom_tree_to_graph.rs:177-180 | `Node::new` appends one node with no edges, the given colour and every colour allowed, and returns its index; earlier nodes unchanged |
| GraphArena.Narrowed | src/atom_tree_to_graph.rs:188-201 | `force_whitelist` cuts only that node's whitelist down to the requested colours it already allowed; colours and edges unchanged |
| GraphArena.ConnectedCommutes | src/atom_tree_to_graph.rs:220-229 | the argument order of `connect` does not change the arena |
| GraphArena.ConnectedKeeps | src/atom_tree_to_graph.rs:220-222 | `connect` keeps adjacency symmetric (with multiplicity) and puts each end on the other's list |
| GraphArena.ConnectAllKeeps | src/atom_tree_to_graph.rs:202-219 | connecting a node to several targets links each pair both ways and keeps adjacency symmetric |
| GraphArena.ConnectAllFixes | src/atom_tree_to_graph.rs:220-229 | connecting never changes a colour or a whitelist |
| GraphArena.GateNew | src/atom_tree_to_graph.rs:112-158 | a gadget node carries its colour and narrowed whitelist and is linked both ways to each of its links |
| GraphArena.GateOld | src/atom_tree_to_graph.rs:112-158 | a gadget node leaves earlier nodes' colours and whitelists alone and only extends their lists |
| GraphArena.OrGadget | src/atom_tree_to_graph.rs:108-158 | the OR gadget's label tables: panics exactly when `Label::or` does, output the `or` of the inputs, distinct colours across every edge for boolean inputs, and all `Null` for a `Null` input |
| GraphArena.OrGadgetForces | src/atom_tree_to_graph.rs:103-160 | in every colouring that respects the whitelists and the nine edges, the output is the `or` of the two inputs |
| GraphArena.OrEdgesForce | src/atom_tree_to_graph.rs:103-160 | every proper colouring of an arena holding the OR gadget colours its output with the `or` of its inputs |
| GraphArena.OrChainEdges | src/atom_tree_to_graph.rs:121-158 | the five gates add exactly the gadget's nine edges, each kept to the end |
| GraphArena.OrBuiltShape | src/atom_tree_to_graph.rs:103-160 | the OR arm adds five nodes, panics exactly when `Label::or` does, changes no colour, narrows only the inputs' whitelists, and keeps adjacency symmetric |
| GraphArena.OrBuiltGadget | src/atom_tree_to_graph.rs:103-160 | after the OR arm the arena holds the gadget's nine edges and its five nodes coloured by the label tables |
| GraphArena.NotBuilt | src/atom_tree_to_graph.rs:94-102 | the NOT arm panics exactly on a `Neutral` input; otherwise it adds one edgeless boolean node coloured with the input's negation and narrows the input to booleans |
| GraphArena.NotGadgetAdmitsEqualColours | src/atom_tree_to_graph.rs:94-102 | as written, a single `True` seed and its NOT node may both be coloured `True` in a proper colouring |
| GraphArena.CorrectedNotBuilt | src/atom_tree_to_graph.rs:94-102 | the corrected NOT arm panics exactly on a `Neutral` input and adds one node |
| GraphArena.CorrectedNotGadgetForces | src/atom_tree_to_graph.rs:94-102 | with the input-output edge, every proper colouring gives the output the opposite boolean colour of the input, and so does the compiler's intended colouring |
| GraphEncoder.CompletedColouring | src/atom_tree_to_graph.rs:59-61 | once every node is joined to the basis nodes of its forbidden colours, respecting the whitelists and edges is the same as a plain 3-colouring that gives the basis nodes their own colours |
| GraphEncoder.MissingLabels | src/atom_tree_to_graph.rs:202-219 | the colours of `Label::ALL_LABELS` a whitelist forbids, exactly, and never `Null` |
| GraphEncoder.BasisTargets | src/atom_tree_to_graph.rs:202-219 | each label's target is one of the three basis nodes |
| GraphEncoder.LabelTarget | src/atom_tree_to_graph.rs:207-216 | a label has no basis node exactly when it is `Null` |
| GraphEncoder.BasisTargetsHas | src/atom_tree_to_graph.rs:202-219 | a forbidden colour's basis node is among the targets |
| GraphEncoder.AdvancesTrans | src/atom_tree_to_graph.rs:66-166 | the compilation step relation (arena grows, earlier whitelists only narrowed for variable or new nodes, mappings only extended, definitions consumed) composes |
| GraphEncoder.AdvancesForced | src/atom_tree_to_graph.rs:188-201 | narrowing new or variable nodes keeps the step relation |
| GraphEncoder.AdvancesBind | src/atom_tree_to_graph.rs:66-83 | binding a consumed variable to a new or bound node keeps the step relation |
| GraphEncoder.CompletesNode | src/atom_tree_to_graph.rs:202-219 | `connect_with_whitelist` on a node completes it and keeps every colour, whitelist and earlier edge |
| GraphEncoder.CompletionStep | src/atom_tree_to_graph.rs:59-61 | one turn of the final loop completes node `i` and keeps the nodes before it complete |
| GraphEncoder.SolutionMeetsRestrictions | src/atom_tree_to_graph.rs:32-65 | in a compiled arena every 3-colouring that gives the basis nodes their colours puts on each restricted root the colour of its restriction |
| GraphEncoder.OrBuiltFacts | src/atom_tree_to_graph.rs:103-160 | the OR arm adds five nodes, only narrows its inputs, holds the gadget's edges, returns its last node with a boolean whitelist and keeps symmetry |
| GraphEncoder.AtomTreeCompiler.constructor | src/atom_tree_to_graph.rs:20-30 | `AtomTreeCompiler::new`: basis indices 0, empty arena and mappings, the tree's definitions and actions |
| GraphEncoder.AtomTreeCompiler.NewNode | src/atom_tree_to_graph.rs:177-180 | the arena becomes `Appended` and the index of the new node is returned |
| GraphEncoder.AtomTreeCompiler.ForceWhitelist | src/atom_tree_to_graph.rs:188-201 | the arena becomes `Narrowed` at `v` |
| GraphEncoder.AtomTreeCompiler.ForceBool | src/atom_tree_to_graph.rs:181-183 | narrows `v` to `True`, `False` |
| GraphEncoder.AtomTreeCompiler.ForceBoolPlusNeutral | src/atom_tree_to_graph.rs:184-187 | narrows `v` to `True`, `False`, `Neutral` |
| GraphEncoder.AtomTreeCompiler.Connect | src/atom_tree_to_graph.rs:220-229 | the arena becomes `Connected(a, b)` |
| GraphEncoder.AtomTreeCompiler.ConnectWithWhitelist | src/atom_tree_to_graph.rs:202-219 | `v` is connected, in declared order, to the basis node of each colour missing from its whitelist |
| GraphEncoder.AtomTreeCompiler.ConnectLabel | src/atom_tree_to_graph.rs:207-216 | one turn of that loop appends the label's basis node, if any, to the connected targets |
| GraphEncoder.AtomTreeCompiler.AddNot | src/atom_tree_to_graph.rs:94-102 | builds exactly `NotBuilt`, failing exactly when it does |
| GraphEncoder.AtomTreeCompiler.AddOr | src/atom_tree_to_graph.rs:103-160 | builds exactly `OrBuilt`, failing exactly when it does; five nodes, the gadget's edges, inputs only narrowed, output last with a boolean whitelist |
| GraphEncoder.AtomTreeCompiler.OrInputGates | src/atom_tree_to_graph.rs:112-143 | the gates `c_1`, `a_1`, `b_1`: the arena is stage 3 of the gadget and their indices follow the old arena |
| GraphEncoder.AtomTreeCompiler.OrGateC1 | src/atom_tree_to_graph.rs:112-122 | stage 1 of the gadget |
| GraphEncoder.AtomTreeCompiler.OrGateA1 | src/atom_tree_to_graph.rs:124-131 | stage 2 of the gadget |
| GraphEncoder.AtomTreeCompiler.OrGateB1 | src/atom_tree_to_graph.rs:133-143 | stage 3 of the gadget |
| GraphEncoder.AtomTreeCompiler.OrOutputGates | src/atom_tree_to_graph.rs:145-158 | the gates `c_2` and `output`: stage 5, the output the fifth new node |
| GraphEncoder.AtomTreeCompiler.OrGateC2 | src/atom_tree_to_graph.rs:145-152 | stage 4 of the gadget |
| GraphEncoder.AtomTreeCompiler.OrGateOutput | src/atom_tree_to_graph.rs:154-158 | stage 5 of the gadget |
| GraphEncoder.AtomTreeCompiler.CompileTree | src/atom_tree_to_graph.rs:84-166 | a compiled variable is looked up without change; an undefined variable, a seed label, a marker or an atom panics; otherwise the step relation holds and the result is a new or variable node |
| GraphEncoder.AtomTreeCompiler.CompileNot | src/atom_tree_to_graph.rs:94-102 | the NOT arm keeps the step relation and returns a new last node whitelisted to the booleans |
| GraphEncoder.AtomTreeCompiler.CompileOr | src/atom_tree_to_graph.rs:103-161 | the OR arm keeps the step relation and returns a new last node with a boolean whitelist |
| GraphEncoder.AtomTreeCompiler.JoinOr | src/atom_tree_to_graph.rs:103-161 | the gadget over two compiled operands keeps the step relation from the start of the compilation |
| GraphEncoder.AtomTreeCompiler.CompileVar | src/atom_tree_to_graph.rs:66-83 | `compile_var` panics on a missing or atom definition, gives a seed label a fresh node of its colour, otherwise binds the variable to its definition's node and consumes the definition |
| GraphEncoder.AtomTreeCompiler.BindTree | src/atom_tree_to_graph.rs:77-81 | a gate definition's node becomes the variable's mapping |
| GraphEncoder.AtomTreeCompiler.BindSeed | src/atom_tree_to_graph.rs:69-73 | a seed label gets a fresh node of its colour and the mapping to it |
| GraphEncoder.AtomTreeCompiler.Compile | src/atom_tree_to_graph.rs:32-65 | `compile` panics on an output action; otherwise returns an arena with basis nodes, symmetric edges, bounded whitelists, every node completed and every restricted root narrowed to its colour |
| GraphEncoder.AtomTreeCompiler.MakeBasis | src/atom_tree_to_graph.rs:35-45 | three basis nodes at 0, 1, 2, each whitelisted to its own colour |
| GraphEncoder.AtomTreeCompiler.CompileActions | src/atom_tree_to_graph.rs:48-57 | every restriction's root is narrowed to its colour; an output action panics |
| GraphEncoder.AtomTreeCompiler.CompileRestriction | src/atom_tree_to_graph.rs:50-53 | one restriction's root is a non-basis node narrowed to the restriction's colour |
| GraphEncoder.AtomTreeCompiler.ConnectWhitelists | src/atom_tree_to_graph.rs:59-61 | every node is completed and no colour or whitelist changes |
| IndexRemoval.SelectMembership | src/compiler/atom_tree.rs:32-77 | an element survives the removal exactly when it sits at a kept position |
| IndexRemoval.ClearedPositions | src/compiler/atom_tree.rs:32-72 | the positions collected for removal are in range |
| IndexRemoval.ClearedPositionsShape | src/compiler/atom_tree.rs:32-72 | they are collected in ascending order and are exactly the cleared positions |
| IndexRemoval.RemovalStep | src/compiler/atom_tree.rs:74-76 | removing one more collected position, going from the back, keeps the earlier positions valid and matches the partial selection |
| IndexRemoval.RemoveInReverse | src/compiler/atom_tree.rs:74-76 | removing the collected positions in reverse order leaves exactly the kept elements, in order |
| CsvExport.Digit | src/export.rs:9-18 | a digit character of the given value |
| CsvExport.Decimal | src/export.rs:9-18 | the decimal form of an index is non-empty and has no leading zero |
| CsvExport.DecimalRoundTrip | src/export.rs:9-18 | reading back the decimal form of a number gives the number |
| CsvExport.DecimalInjective | src/export.rs:9-18 | distinct indices are written differently |
| CsvExport.SplitJoin | src/export.rs:6-20 | splitting newline-terminated rows gives the rows back when none holds a newline |
| CsvExport.LabelFields | src/export.rs:8-13 | the label column and display colour hold no newline |
| CsvExport.Members | src/export.rs:15 | the hash set of a node's neighbours holds exactly its listed neighbours |
| CsvExport.LabelLine | src/export.rs:8-13 | the label row of node `i`: its index, label name and display colour |
| CsvExport.EdgeLine | src/export.rs:15-19 | the edge row of node `i`: its index then `;` and each distinct neighbour, in an order that enumerates the neighbour set |
| CsvExport.ExportAsCsv | src/export.rs:5-21 | `export_as_csv` appends the header and the label table to the label buffer and the edge table to the edge buffer, each node's neighbours in an enumeration of their set |
| CsvExport.LabelTableRows | src/export.rs:6-13 | the label buffer gains the header and then one row per node, in index order |
| CsvExport.EdgeTableRows | src/export.rs:14-20 | the edge buffer gains one row per node, in index order, starting with its index |
| CsvExport.EdgeRowFields | src/export.rs:15-18 | each edge row has one field per distinct neighbour: duplicate edges are written once |

## Left out

- NarySimp.Dedup: the source deduplicates `Or` operands through a hash set (src/compiler/atom_tree.rs:383-409), whose iteration order is unspecified; the model keeps first-insertion order. Membership, distinctness and meaning (`EvalDedup`) hold for every order, but the exact-equality statements `NarySimp.FlatIsFixpoint` and `NarySimp.SimpRecIdempotent` hold for the model's order only.
- NaryRoot.AtomRoot.InlineAll: requires a rank under which every definition only mentions lower-ranked ids (`Ranked`); on a cyclic definition the source recurses without end (src/compiler/atom_tree.rs:295-316), which the model does not capture.
- TypeStreams.TypeStream.Next: requires a non-empty stream, where the source panics on an empty one (src/type_stream.rs:57-68); the same holds for `TypeStreams.TypeStream.Skip` and `TypeStreams.TypeStream.Extract`. The debug print at src/type_stream.rs:61 is left out.
- BlockParser.FromTokenStream: requires the stream to hold an `EOF` token (the lexer always ends with one) and its braces to be mergeable spans; the source panics when it reads past the end (src/compiler/block_parser.rs:189) or when `Token::to` joins spans of different files (src/compiler/token.rs:18-21, src/compiler/block_parser.rs:222).
- BlockParser.ParseItem: requires mergeable brace spans, as `FromTokenStream` does.
- BlockParser.ParseBlock: requires mergeable brace spans, as `FromTokenStream` does.
- Tokens.USIZE_MODULUS: fixes `usize` at 64 bits; on other targets the wrapping arithmetic and the integer-literal bound would differ.
- NaryLinks.LinksAddNoSolutions: holds for marker-free programs only; `NaryLinks.MarkedLinkLosesRestriction` shows that with a marker `remove_links` may delete a forced variable's definition and so add solutions (the same for `BinaryRoot`).
- NaryOutline.OutlineKeepsSolutions: assumes the trees mention only ids at most `variable_id`, which the passes before it keep but do not check.
- NaryRoot.SimpTreesPreserveSolutions: like `NaryForce.ForcePreservesSolutions`, `NaryRoot.SimpAllPreservesSolutions`, `NaryRoot.FinalizePreservesSolutions` and `NaryOutline.OutlineAddsNoSolutions`, and their `BinaryRoot` counterparts, holds for programs whose seed labels stand alone as whole definitions (`SeedsStandAlone`); that the translator only builds such programs is not proved, since its statement-level lowering is not modelled.
- Translator.WrittenAgrees: requires the value's leaves to be free of seed labels (`SeedlessLeaves`), as values that only refer to seeds through the variables defining them are.
- Translator trees: the translator names the n-ary IR (src/compiler/atom_tree_translate.rs:3) but writes every `Or` with exactly two operands (src/compiler/atom_tree_translate.rs:82-85, 129-140), the shape of the binary IR; the model builds its trees in the binary IR, where a two-operand `Or` means the same as in the n-ary one.
- NaryTree hashing: the `Hash` implementation (XOR of operand hashes for `Or`) is not modelled; lookups in hash maps and sets are modelled by the custom equality directly.
- Lexer.Tokenize: `file_reader.rs` is not part of this model; the reader is a character sequence with a cursor, reading at or past the end yields end-of-file and still advances the cursor. Alphanumeric tests are ASCII; Unicode letters and digits are not modelled. `read_string` is commented out in the source and is left out.
- Parser.Parser.ParseSuper: the reachable panic of `parse_super` is a returned flag rather than an abort.
- Translator: `compile_expression`, `compile_code_block`, `convert` and the other statement-level lowering of `atom_tree_translate.rs` are not modelled; only the helpers and the `super`/atom arms of `compile_sub_call` are.
- The driver in src/compiler/mod.rs, which loops the passes, is not modelled; each pass is modelled and proved on its own.
- Printing: the debug prints of the binary IR (src/atom_tree.rs:77, 108), the graph encoder's messages on an empty whitelist and on equal-coloured neighbours (src/atom_tree_to_graph.rs:197-199, 224-227) are output only and left out.
- Borrowing: accessors that hand out `&mut` references return the element value; aliasing through those references is not modelled.
- Concurrency, file input and command-line handling are outside the modelled core.

## Findings

| source | as written | input that shows it | evidently intended | confidence | as-written member | corrected member |
|---|---|---|---|---|---|---|
| src/atom_tree_to_graph.rs:94-102 | the NOT gadget makes an output node but adds no edge to its input, so nothing forces the two to differ | a single `True` seed node `x` and `Not(x)`: colouring both `True` respects every whitelist and edge | the output node is joined to the input node, so every proper colouring gives it the opposite boolean colour | not executed | GraphArena.NotGadgetAdmitsEqualColours | GraphArena.CorrectedNotGadgetForces |
