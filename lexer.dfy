/**
 * The lexer (src/lexer.rs): a cursor over the characters of one file that
 * skips blanks and `#` comments and reads numbers, words and delimiters,
 * stepping back one character after each so that the character that ended
 * it is read again.
 *
 * `file_reader.rs` is not part of this model.  The reader is a character
 * sequence with a cursor; reading at or past the end reports end of file and
 * still advances the cursor, which is what the lexer's unconditional step
 * back after a number, word or delimiter needs in order to end up at the end
 * of the text.
 *
 * The methods are proved against the functions `NumberAt`, `WordAt`,
 * `DelimAt`, `TextAt` and `LexFrom`; the lemmas of `LexerFacts` state what the lexed stream
 * promises.
 */
module Lexer {
  import opened Wrappers
  import opened CodeLocations
  import opened Tokens
  import Diagnostics
  import opened TypeStreams

  // ---------------------------------------------------------------------
  // Character classes and tables (src/lexer.rs:18-67)
  // ---------------------------------------------------------------------

  /** `IGNORE_CHARS`: space, tab, line feed and carriage return. */
  predicate IsIgnored(c: char)
  {
    c == ' ' || c == '\t' || c == '\n' || c == '\r'
  }

  predicate IsDigit(c: char)
  {
    '0' <= c <= '9'
  }

  /** `char::is_alphanumeric`, restricted to ASCII. */
  predicate IsAlphanumeric(c: char)
  {
    IsDigit(c) || 'a' <= c <= 'z' || 'A' <= c <= 'Z'
  }

  /** A character that continues a word. */
  predicate IsWordChar(c: char)
  {
    IsAlphanumeric(c) || c == '_'
  }

  /** `KEYWORD_MAPPING`. */
  function KeywordOf(word: string): (r: Option<TokenType>)
    ensures r.Some? ==> r.value.Keyword? || r.value.Atom?
  {
    if word == "problem" then Some(Keyword(Problem))
    else if word == "solution" then Some(Keyword(Solution))
    else if word == "let" then Some(Keyword(Let))
    else if word == "force" then Some(Keyword(Force))
    else if word == "sub" then Some(Keyword(SubStructure))
    else if word == "collection" then Some(Keyword(Collection))
    else if word == "composite" then Some(Keyword(Composite))
    else if word == "true" then Some(Atom(Type(True)))
    else if word == "false" then Some(Atom(Type(False)))
    else if word == "not" then Some(Atom(Sub(NotSub)))
    else if word == "or" then Some(Atom(Sub(OrSub)))
    else None
  }

  /** `DELIM_MAPPING`: the one- and two-character delimiters. */
  function DelimOf(delim: string): (r: Option<TokenType>)
    ensures r.Some? ==> r.value.Delimiter? && 1 <= |delim| <= 2
  {
    if |delim| == 1 then SingleDelim(delim[0])
    else if |delim| == 2 then PairDelim(delim[0], delim[1])
    else None
  }

  function SingleDelim(c: char): (r: Option<TokenType>)
    ensures r.Some? ==> r.value.Delimiter?
  {
    match c
    case '(' => Some(Delimiter(Brace(Round, Open)))
    case ')' => Some(Delimiter(Brace(Round, Closed)))
    case '{' => Some(Delimiter(Brace(Curly, Open)))
    case '}' => Some(Delimiter(Brace(Curly, Closed)))
    case '[' => Some(Delimiter(Brace(Square, Open)))
    case ']' => Some(Delimiter(Brace(Square, Closed)))
    case ':' => Some(Delimiter(Colon))
    case ';' => Some(Delimiter(Semicolon))
    case ',' => Some(Delimiter(Comma))
    case '.' => Some(Delimiter(Period))
    case '=' => Some(Delimiter(Equals))
    case _ => None
  }

  function PairDelim(a: char, b: char): (r: Option<TokenType>)
    ensures r.Some? ==> r.value.Delimiter?
  {
    if a == '-' && b == '>' then Some(Delimiter(ThinArrowRight))
    else if a == '=' && b == '>' then Some(Delimiter(ThickArrowRight))
    else if a == ':' && b == ':' then Some(Delimiter(DoubleColon))
    else None
  }

  predicate AllDigits(text: string)
  {
    forall i :: 0 <= i < |text| ==> IsDigit(text[i])
  }

  /** The value of a decimal numeral, most significant digit first. */
  function DecimalValue(text: string): nat
    requires AllDigits(text)
  {
    if text == [] then 0
    else DecimalValue(text[..|text| - 1]) * 10 + ((text[|text| - 1] as int) - ('0' as int))
  }

  /** What `str::parse::<usize>` reports for a numeral that does not fit. */
  const OverflowMessage: string := "Couldn't parse integer: number too large to fit in target type"

  // ---------------------------------------------------------------------
  // What one read produces
  // ---------------------------------------------------------------------

  /** The outcome of `read_text`: a token or a diagnostic, and the cursor after it. */
  datatype TextRead = ReadToken(token: Token, next: nat) | ReadError(diagnostic: Diagnostics.Diagnostic, next: nat)

  /** The end of the run of digits starting at `p`. */
  function DigitsEnd(text: string, p: nat): (e: nat)
    requires p <= |text|
    ensures p <= e <= |text|
    ensures forall k :: p <= k < e ==> IsDigit(text[k])
    ensures e == |text| || !IsDigit(text[e])
    decreases |text| - p
  {
    if p < |text| && IsDigit(text[p]) then DigitsEnd(text, p + 1) else p
  }

  /** The end of the run of word characters starting at `p`. */
  function WordEnd(text: string, p: nat): (e: nat)
    requires p <= |text|
    ensures p <= e <= |text|
    ensures forall k :: p <= k < e ==> IsWordChar(text[k])
    ensures e == |text| || !IsWordChar(text[e])
    decreases |text| - p
  {
    if p < |text| && IsWordChar(text[p]) then WordEnd(text, p + 1) else p
  }

  /**
   * The end of the delimiter `read_delim` reads from `p`, having read up to
   * `q`: it grows while the grown string is in the table.
   */
  function DelimEnd(text: string, p: nat, q: nat): (e: nat)
    requires p <= q <= |text|
    ensures q <= e <= |text|
    ensures e > q ==> DelimOf(text[p..e]).Some?
    ensures e == |text| || DelimOf(text[p..e + 1]).None?
    decreases |text| - q
  {
    if q < |text| && DelimOf(text[p..q + 1]).Some? then DelimEnd(text, p, q + 1) else q
  }

  /** `read_number` from a digit at `p`. */
  function NumberAt(text: string, path: string, p: nat): (r: TextRead)
    requires p < |text| && IsDigit(text[p])
    ensures p < r.next <= |text|
  {
    var e := DigitsEnd(text, p);
    var location := WithSection(path, p, e);
    if DecimalValue(text[p..e]) < USIZE_MODULUS then ReadToken(Token(location, Integer(DecimalValue(text[p..e]))), e)
    else ReadError(Diagnostics.ErrorAt(OverflowMessage, Some(location)), e)
  }

  /** `read_keyword` from a letter at `p`: a keyword when the word is in the table, otherwise an identifier. */
  function WordAt(text: string, path: string, p: nat): (r: TextRead)
    requires p < |text| && IsAlphanumeric(text[p])
    ensures p < r.next <= |text|
  {
    var e := WordEnd(text, p);
    var word := text[p..e];
    var location := WithSection(path, p, e);
    match KeywordOf(word)
    case Some(t) => ReadToken(Token(location, t), e)
    case None => ReadToken(Token(location, Identifier(word)), e)
  }

  /**
   * `read_delim` from `p`: the greedy delimiter, or "Invalid delimitor" over
   * the one character it consumed.
   */
  function DelimAt(text: string, path: string, p: nat): (r: TextRead)
    requires p < |text|
    ensures p < r.next <= |text|
  {
    var e := DelimEnd(text, p, p);
    if e > p then ReadToken(Token(WithSection(path, p, e), DelimOf(text[p..e]).value), e)
    else ReadError(Diagnostics.ErrorAt("Invalid delimitor", Some(WithSection(path, p, p + 1))), p + 1)
  }

  /** `read_text`: a digit starts a number, any other alphanumeric a word, anything else a delimiter. */
  function TextAt(text: string, path: string, p: nat): (r: TextRead)
    requires p < |text|
    ensures p < r.next <= |text|
  {
    if IsDigit(text[p]) then NumberAt(text, path, p)
    else if IsAlphanumeric(text[p]) then WordAt(text, path, p)
    else DelimAt(text, path, p)
  }

  /** The position after the line break that ends a comment, scanning from `p`; `None` at end of file. */
  function CommentEnd(text: string, p: nat): (r: Option<nat>)
    requires p <= |text|
    ensures r.Some? ==> p < r.value <= |text| && (text[r.value - 1] == '\n' || text[r.value - 1] == '\r')
    decreases |text| - p
  {
    if p == |text| then None
    else if text[p] == '\n' || text[p] == '\r' then Some(p + 1)
    else CommentEnd(text, p + 1)
  }

  /** The tokens `tokenize` pushes and the diagnostics it adds. */
  datatype Lexed = Lexed(tokens: seq<Token>, errors: seq<Diagnostics.Diagnostic>)

  /** `tokenize` from position `p`. */
  function LexFrom(text: string, path: string, p: nat): Lexed
    requires p <= |text|
    decreases |text| - p
  {
    if p == |text| then Lexed([Eof(path)], [])
    else if text[p] == '#' then
      match CommentEnd(text, p + 1)
      case None => Lexed([Eof(path)], [])
      case Some(q) => LexFrom(text, path, q)
    else if IsIgnored(text[p]) then LexFrom(text, path, p + 1)
    else
      var r := TextAt(text, path, p);
      Emit(r, LexFrom(text, path, r.next))
  }

  /** One read in front of the rest: a token is pushed, a diagnostic added. */
  function Emit(r: TextRead, rest: Lexed): Lexed
  {
    match r
    case ReadToken(t, _) => Lexed([t] + rest.tokens, rest.errors)
    case ReadError(d, _) => Lexed(rest.tokens, [d] + rest.errors)
  }

  // ---------------------------------------------------------------------
  // The reader and the lexing methods
  // ---------------------------------------------------------------------

  /** The file reader: the text of one file and a cursor into it. */
  class FileReader {
    const text: string
    var position: nat

    constructor (text: string)
      ensures this.text == text && position == 0
    {
      this.text := text;
      position := 0;
    }

    /** `peek_char`: the character under the cursor; `None` stands for end of file. */
    function PeekChar(): (c: Option<char>)
      reads this
      ensures c.Some? <==> position < |text|
      ensures c.Some? ==> c.value == text[position]
    {
      if position < |text| then Some(text[position]) else None
    }

    /** `read_char`: the character under the cursor, which then moves on by one. */
    method ReadChar() returns (c: Option<char>)
      modifies this
      ensures c == old(PeekChar()) && position == old(position) + 1
    {
      c := PeekChar();
      position := position + 1;
    }

    method SetPosition(p: nat)
      modifies this
      ensures position == p
    {
      position := p;
    }
  }

  /**
   * `read_number`: the digit run is read, then the cursor steps back onto
   * the character after it. The loop's test for a blank is left out: a digit
   * is never a blank.
   */
  method ReadNumber(reader: FileReader, path: string) returns (r: TextRead)
    requires reader.position < |reader.text| && IsDigit(reader.text[reader.position])
    modifies reader
    ensures r == NumberAt(reader.text, path, old(reader.position)) && reader.position == r.next
  {
    var start := reader.position;
    var number: string := [];
    var c := reader.ReadChar();
    while c.Some? && IsDigit(c.value)
      invariant reader.position == start + |number| + 1 && start + |number| <= |reader.text|
      invariant number == reader.text[start..start + |number|]
      invariant c == (if start + |number| < |reader.text| then Some(reader.text[start + |number|]) else None)
      invariant DigitsEnd(reader.text, start) == DigitsEnd(reader.text, start + |number|)
      decreases |reader.text| - |number|
    {
      SliceGrows(reader.text, start, start + |number|);
      number := number + [c.value];
      c := reader.ReadChar();
    }
    reader.SetPosition(reader.position - 1);
    var location := WithSection(path, start, reader.position);
    if DecimalValue(number) < USIZE_MODULUS {
      r := ReadToken(Token(location, Integer(DecimalValue(number))), reader.position);
    } else {
      r := ReadError(Diagnostics.ErrorAt(OverflowMessage, Some(location)), reader.position);
    }
  }

  /**
   * `read_keyword`: the word is read, the cursor steps back, and the word is
   * looked up. As in `ReadNumber`, the test for a blank inside the loop can
   * never succeed and is left out.
   */
  method ReadKeyword(reader: FileReader, path: string) returns (r: TextRead)
    requires reader.position < |reader.text| && IsAlphanumeric(reader.text[reader.position])
    modifies reader
    ensures r == WordAt(reader.text, path, old(reader.position)) && reader.position == r.next
  {
    var start := reader.position;
    var keyword: string := [];
    var c := reader.ReadChar();
    while c.Some? && IsWordChar(c.value)
      invariant reader.position == start + |keyword| + 1 && start + |keyword| <= |reader.text|
      invariant keyword == reader.text[start..start + |keyword|]
      invariant c == (if start + |keyword| < |reader.text| then Some(reader.text[start + |keyword|]) else None)
      invariant WordEnd(reader.text, start) == WordEnd(reader.text, start + |keyword|)
      decreases |reader.text| - |keyword|
    {
      SliceGrows(reader.text, start, start + |keyword|);
      keyword := keyword + [c.value];
      c := reader.ReadChar();
    }
    reader.SetPosition(reader.position - 1);
    var location := WithSection(path, start, reader.position);
    match KeywordOf(keyword) {
      case Some(t) => r := ReadToken(Token(location, t), reader.position);
      case None => r := ReadToken(Token(location, Identifier(keyword)), reader.position);
    }
  }

  /**
   * `read_delim`: characters are taken while the grown string is in the
   * table; the one that breaks it is given back, and so is nothing when no
   * delimiter was read.
   */
  method ReadDelim(reader: FileReader, path: string) returns (r: TextRead)
    requires reader.position < |reader.text|
    modifies reader
    ensures r == DelimAt(reader.text, path, old(reader.position)) && reader.position == r.next
  {
    var start := reader.position;
    var delim := ReadDelimChars(reader);
    if |delim| != 0 {
      reader.SetPosition(reader.position - 1);
    }
    var location := WithSection(path, start, reader.position);
    match DelimOf(delim) {
      case Some(t) => r := ReadToken(Token(location, t), reader.position);
      case None => r := ReadError(Diagnostics.ErrorAt("Invalid delimitor", Some(location)), reader.position);
    }
  }

  /**
   * The loop of `read_delim`: characters are taken while the grown string is
   * in the table; the cursor ends one past the characters kept.
   */
  method ReadDelimChars(reader: FileReader) returns (delim: string)
    requires reader.position < |reader.text|
    modifies reader
    ensures old(reader.position) + |delim| == DelimEnd(reader.text, old(reader.position), old(reader.position))
    ensures delim == reader.text[old(reader.position)..old(reader.position) + |delim|]
    ensures reader.position == old(reader.position) + |delim| + 1
  {
    var start := reader.position;
    delim := [];
    var stop := false;
    while !stop
      invariant reader.position == start + |delim| + (if stop then 1 else 0) <= |reader.text| + (if stop then 1 else 0)
      invariant delim == reader.text[start..start + |delim|]
      invariant stop ==> start + |delim| == DelimEnd(reader.text, start, start + |delim|)
      invariant DelimEnd(reader.text, start, start) == DelimEnd(reader.text, start, start + |delim|)
      decreases |reader.text| - |delim|, if stop then 0 else 1
    {
      stop, delim := ReadDelimChar(reader, start, delim);
    }
  }

  /** One turn of the `read_delim` loop: a character is read and kept while the grown string is in the table. */
  method ReadDelimChar(reader: FileReader, ghost start: nat, delim: string) returns (stop: bool, delim': string)
    requires reader.position == start + |delim| <= |reader.text|
    requires delim == reader.text[start..start + |delim|]
    modifies reader
    ensures stop ==> delim' == delim && reader.position == start + |delim| + 1
    ensures stop ==> DelimEnd(reader.text, start, start + |delim|) == start + |delim|
    ensures !stop ==> |delim'| == |delim| + 1 && reader.position == start + |delim'| <= |reader.text|
    ensures !stop ==> delim' == reader.text[start..start + |delim'|]
    ensures !stop ==> DelimEnd(reader.text, start, start + |delim|) == DelimEnd(reader.text, start, start + |delim'|)
  {
    var c := reader.ReadChar();
    if c.None? {
      DelimEndStops(reader.text, start, start + |delim|);
      return true, delim;
    }
    SliceGrows(reader.text, start, start + |delim|);
    if DelimOf(delim + [c.value]).None? {
      DelimEndStops(reader.text, start, start + |delim|);
      return true, delim;
    }
    DelimEndGrows(reader.text, start, start + |delim|);
    return false, delim + [c.value];
  }

  lemma SliceGrows(text: string, p: nat, q: nat)
    requires p <= q < |text|
    ensures text[p..q + 1] == text[p..q] + [text[q]]
  {
  }

  lemma DelimEndGrows(text: string, p: nat, q: nat)
    requires p <= q < |text| && DelimOf(text[p..q + 1]).Some?
    ensures DelimEnd(text, p, q) == DelimEnd(text, p, q + 1)
  {
  }

  lemma DelimEndStops(text: string, p: nat, q: nat)
    requires p <= q <= |text|
    requires q == |text| || DelimOf(text[p..q + 1]).None?
    ensures DelimEnd(text, p, q) == q
  {
  }

  /** `read_text`: dispatches on the character under the cursor. */
  method ReadText(reader: FileReader, path: string) returns (r: TextRead)
    requires reader.position < |reader.text|
    modifies reader
    ensures r == TextAt(reader.text, path, old(reader.position)) && reader.position == r.next
  {
    var first := reader.PeekChar().value;
    if IsDigit(first) {
      r := ReadNumber(reader, path);
    } else if IsAlphanumeric(first) {
      r := ReadKeyword(reader, path);
    } else {
      r := ReadDelim(reader, path);
    }
  }

  /**
   * The comment loop of `tokenize`: characters are read through the first
   * line break; `eof` when the file ends first.
   */
  method SkipComment(reader: FileReader) returns (eof: bool)
    requires reader.position < |reader.text| && reader.text[reader.position] == '#'
    modifies reader
    ensures eof <==> CommentEnd(reader.text, old(reader.position) + 1).None?
    ensures !eof ==> reader.position == CommentEnd(reader.text, old(reader.position) + 1).value
  {
    var start := reader.position;
    var c := reader.ReadChar();
    while true
      invariant start < reader.position <= |reader.text|
      invariant CommentEnd(reader.text, start + 1) == CommentEnd(reader.text, reader.position)
      decreases |reader.text| - reader.position
    {
      c := reader.ReadChar();
      if c.None? {
        return true;
      }
      if c.value == '\n' || c.value == '\r' {
        return false;
      }
    }
  }

  /**
   * `on_file_reader_error` for end of file: the EOF token closes the stream.
   * The reader's other error, a diagnostic from the file system, is not part
   * of this model.
   */
  method OnFileReaderError(tokens: seq<Token>, path: string) returns (stream: TypeStream<Token>)
    ensures fresh(stream) && stream.Valid() && stream.ToVec() == tokens + [Eof(path)]
  {
    stream := new TypeStream<Token>.New(tokens + [Eof(path)]);
  }

  /**
   * One turn of the `tokenize` loop from a position inside the file: a
   * comment or a blank is passed over, or one read is taken, its token
   * pushed onto `tokens` or its diagnostic added; `eof` when a comment runs
   * to the end of the file.
   */
  method TokenizeStep(reader: FileReader, path: string, compilation: Diagnostics.Compilation, tokens: seq<Token>,
                      ghost before: seq<Diagnostics.Diagnostic>, ghost errors: seq<Diagnostics.Diagnostic>)
      returns (eof: bool, tokens': seq<Token>, ghost errors': seq<Diagnostics.Diagnostic>)
    requires reader.position < |reader.text|
    requires compilation.diagnostics == before + errors
    modifies reader, compilation
    ensures eof ==> LexFrom(reader.text, path, old(reader.position)) == Lexed([Eof(path)], [])
    ensures eof ==> tokens' == tokens && errors' == errors
    ensures !eof ==> old(reader.position) < reader.position <= |reader.text|
    ensures !eof ==> tokens' + LexFrom(reader.text, path, reader.position).tokens == tokens + LexFrom(reader.text, path, old(reader.position)).tokens
    ensures !eof ==> errors' + LexFrom(reader.text, path, reader.position).errors == errors + LexFrom(reader.text, path, old(reader.position)).errors
    ensures compilation.diagnostics == before + errors'
  {
    var current := reader.PeekChar().value;
    tokens', errors' := tokens, errors;
    if current == '#' {
      eof := SkipComment(reader);
    } else if IsIgnored(current) {
      eof := false;
      var _ := reader.ReadChar();
    } else {
      eof := false;
      var r := ReadText(reader, path);
      match r {
        case ReadToken(t, _) =>
          tokens' := tokens + [t];
        case ReadError(d, _) =>
          compilation.AddAll([d]);
          errors' := errors + [d];
      }
    }
  }

  /** `tokenize`: the whole file from the cursor, as `LexFrom` describes it. */
  method Tokenize(reader: FileReader, path: string, compilation: Diagnostics.Compilation) returns (stream: TypeStream<Token>)
    requires reader.position <= |reader.text|
    modifies reader, compilation
    ensures fresh(stream) && stream.Valid()
    ensures stream.ToVec() == LexFrom(reader.text, path, old(reader.position)).tokens
    ensures compilation.diagnostics == old(compilation.diagnostics) + LexFrom(reader.text, path, old(reader.position)).errors
  {
    var tokens: seq<Token> := [];
    ghost var errors: seq<Diagnostics.Diagnostic> := [];
    ghost var whole := LexFrom(reader.text, path, reader.position);
    while reader.PeekChar().Some?
      invariant reader.position <= |reader.text|
      invariant tokens + LexFrom(reader.text, path, reader.position).tokens == whole.tokens
      invariant errors + LexFrom(reader.text, path, reader.position).errors == whole.errors
      invariant compilation.diagnostics == old(compilation.diagnostics) + errors
      decreases |reader.text| - reader.position
    {
      var eof;
      eof, tokens, errors := TokenizeStep(reader, path, compilation, tokens, old(compilation.diagnostics), errors);
      if eof {
        break;
      }
    }
    assert errors + [] == errors;
    stream := OnFileReaderError(tokens, path);
  }
}
