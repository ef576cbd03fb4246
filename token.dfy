/** Tokens and the two-valued atom type (src/compiler/token.rs). */
module Tokens {
  import opened Wrappers
  import opened CodeLocations

  datatype AtomType = True | False

  /** `AtomType::not`: swaps the two constants. */
  function Not(a: AtomType): (r: AtomType)
    ensures r != a
  {
    match a
    case True => False
    case False => True
  }

  /** Applying `not` twice is the identity. */
  lemma NotInvolution(a: AtomType)
    ensures Not(Not(a)) == a
  {
  }

  function ToBool(a: AtomType): (b: bool)
    ensures b <==> a == True
  {
    a == True
  }

  datatype AtomSub = OrSub | NotSub

  datatype Atom = Type(atomType: AtomType) | Sub(atomSub: AtomSub)

  datatype Keyword = If | Let | Else | Super | Force | Output | Problem | Solution | Composite | Collection | SubStructure

  datatype Brace = Round | Curly | Square

  datatype BraceState = Open | Closed

  datatype Delimiter =
    | Brace(brace: Brace, state: BraceState)
    | Colon | DoubleColon | Comma | Period | Semicolon | Equals | ThickArrowRight | ThinArrowRight

  /** A `usize` value. */
  const USIZE_MODULUS: nat := 0x1_0000_0000_0000_0000
  type Usize = n: nat | n < USIZE_MODULUS

  datatype TokenType =
    | Keyword(keyword: Keyword)
    | Delimiter(delimiter: Delimiter)
    | Identifier(name: string)
    | Atom(atom: Atom)
    | Integer(integer: Usize)
    | StringLit(text: string)
    | EOF

  datatype Token = Token(codeLocation: CodeLocation, tokenType: TokenType)

  /** `Token::new`. */
  function NewToken(tokenType: TokenType, codeLocation: CodeLocation): (t: Token)
    ensures t.tokenType == tokenType && t.codeLocation == codeLocation
  {
    Token(codeLocation, tokenType)
  }

  /** `Token::eof`: an end-of-file token whose location has no section. */
  function Eof(path: string): (t: Token)
    ensures t.tokenType.EOF? && t.codeLocation.path == path && t.codeLocation.section.None?
  {
    Token(CodeLocations.New(path), EOF)
  }

  /** `Token::to`: the merged span from this token to `end`; `None` where the merge panics. */
  function TokenTo(self: Token, end: Token): (r: Option<CodeLocation>)
    ensures r.Some? <==> Mergeable(self.codeLocation, end.codeLocation)
    ensures r.Some? ==> r.value.path == self.codeLocation.path
    ensures r.Some? && self.codeLocation.section.Some? ==>
      r.value.section == Some(Section(self.codeLocation.section.value.locationBegin, end.codeLocation.section.value.locationEnd))
  {
    CodeLocations.To(self.codeLocation, end.codeLocation)
  }

  /** `Token::into_token_type`. */
  function IntoTokenType(t: Token): (r: TokenType)
    ensures NewToken(r, t.codeLocation) == t
  {
    t.tokenType
  }
}
