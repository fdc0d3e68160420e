/** Token kinds, tokens and the keyword table of token/token.go. */
module Token {

  /** Go strings are byte strings; a byte is modelled as a character whose
      code is below 256, so that ASCII text can be written as a literal. */
  type Byte = c: char | c as int < 256
  type Bytes = seq<Byte>

  /** The closed set of token kinds (Go's `token.Type` constants). */
  datatype Kind =
    | EOF | ILLEGAL
    | IDENT | INT
    | ASSIGN | ASTERISK | BANG | EQ | GT | LT | MINUS | NEQ | PLUS | SLASH
    | COMMA | LBRACE | LPAREN | RBRACE | RPAREN | SEMICOLON
    | ELSE | FALSE | FUNCTION | IF | LET | RETURN | TRUE

  /** The string value of each kind constant; this is what diagnostics print. */
  function Name(k: Kind): Bytes
  {
    match k
    case EOF => "EOF"
    case ILLEGAL => "ILLEGAL"
    case IDENT => "IDENT"
    case INT => "INT"
    case ASSIGN => "="
    case ASTERISK => "*"
    case BANG => "!"
    case EQ => "=="
    case GT => ">"
    case LT => "<"
    case MINUS => "-"
    case NEQ => "!="
    case PLUS => "+"
    case SLASH => "/"
    case COMMA => ","
    case LBRACE => "{"
    case LPAREN => "("
    case RBRACE => "}"
    case RPAREN => ")"
    case SEMICOLON => ";"
    case ELSE => "ELSE"
    case FALSE => "FALSE"
    case FUNCTION => "FUNCTION"
    case IF => "IF"
    case LET => "LET"
    case RETURN => "RETURN"
    case TRUE => "TRUE"
  }

  datatype Token = Token(kind: Kind, literal: Bytes)

  /** The concatenated literals of a token sequence. */
  function Spell(ts: seq<Token>): Bytes
  {
    if |ts| == 0 then [] else ts[0].literal + Spell(ts[1..])
  }

  predicate IsKeyword(k: Kind)
  {
    k == ELSE || k == FALSE || k == FUNCTION || k == IF || k == LET || k == RETURN || k == TRUE
  }

  /** Operator and delimiter kinds: the kinds whose name is a symbol. */
  predicate IsSymbol(k: Kind)
  {
    k == ASSIGN || k == ASTERISK || k == BANG || k == EQ || k == GT || k == LT || k == MINUS
    || k == NEQ || k == PLUS || k == SLASH || k == COMMA || k == LBRACE || k == LPAREN
    || k == RBRACE || k == RPAREN || k == SEMICOLON
  }

  /** The keyword table: exact spelling to keyword kind. */
  const Keywords: map<Bytes, Kind> := map[
    "else" := ELSE,
    "false" := FALSE,
    "fn" := FUNCTION,
    "if" := IF,
    "let" := LET,
    "return" := RETURN,
    "true" := TRUE
  ]

  /** The spelling under which a keyword kind appears in the table. */
  function Spelling(k: Kind): Bytes
    requires IsKeyword(k)
  {
    match k
    case ELSE => "else"
    case FALSE => "false"
    case FUNCTION => "fn"
    case IF => "if"
    case LET => "let"
    case RETURN => "return"
    case TRUE => "true"
  }

  /** Keyword lookup: a keyword's kind when the text is exactly in the
      table, `IDENT` otherwise. */
  function LookupIdent(ident: Bytes): (k: Kind)
    ensures k == IDENT || IsKeyword(k)
    ensures k != EOF && k != ILLEGAL && k != INT
    ensures IsKeyword(k) ==> ident == Spelling(k)
    ensures k == IDENT <==> ident !in Keywords
  {
    if ident in Keywords then Keywords[ident] else IDENT
  }

  /** Every keyword's spelling looks up to that keyword: the table and
      `Spelling` are inverse to each other. */
  lemma LookupSpelling(k: Kind)
    requires IsKeyword(k)
    ensures LookupIdent(Spelling(k)) == k
    ensures Spelling(k) in Keywords
  {
  }

  /** Two texts that look up to the same keyword are the same text. */
  lemma LookupKeywordInjective(a: Bytes, b: Bytes)
    requires IsKeyword(LookupIdent(a))
    requires LookupIdent(a) == LookupIdent(b)
    ensures a == b
  {
  }

  /** Kinds are Go strings; distinct kinds have distinct strings, so
      comparing datatype values is comparing the source's strings. */
  lemma NameInjective(a: Kind, b: Kind)
    requires Name(a) == Name(b)
    ensures a == b
  {
  }

  /** The lookup is case-sensitive. */
  lemma LookupCaseSensitive()
    ensures LookupIdent("Let") == IDENT
    ensures LookupIdent("LET") == IDENT
    ensures LookupIdent("let") == LET
  {
  }
}
