/** The Pratt parser of parser/parser.go. The parser reads the lexer's
    token stream through a two-token window (`Cur`, `Peek`) over an index
    into the stream; every read past the end is EOF, exactly as the lexer
    keeps answering EOF once the input is used up. Diagnostics are threaded
    through as an ordered list. */
module Parser {
  import opened Wrappers
  import opened Token
  import opened Ast
  import Lexer
  import LexerProperties
  import opened IntegerSyntax

  // The precedence ladder, from the loosest to the tightest binding.
  const LOWEST: int := 1
  const EQUALS: int := 2
  const LESSGREATER: int := 3
  const SUM: int := 4
  const PRODUCT: int := 5
  const PREFIX: int := 6
  const CALL: int := 7

  /** The binding power of each binary operator kind. */
  const Precedences: map<Kind, int> := map[
    EQ := EQUALS,
    NEQ := EQUALS,
    LT := LESSGREATER,
    GT := LESSGREATER,
    PLUS := SUM,
    MINUS := SUM,
    SLASH := PRODUCT,
    ASTERISK := PRODUCT
  ]

  /** The prefix parse functions, one per registered kind. */
  datatype PrefixRule = IdentifierRule | IntegerLiteralRule | PrefixExpressionRule

  const PrefixFns: map<Kind, PrefixRule> := map[
    IDENT := IdentifierRule,
    INT := IntegerLiteralRule,
    BANG := PrefixExpressionRule,
    MINUS := PrefixExpressionRule
  ]

  /** The kinds with an infix parse function; all of them share one. */
  const InfixFns: set<Kind> := {PLUS, MINUS, SLASH, ASTERISK, EQ, NEQ, LT, GT}

  /** The precedence of a kind: its table entry, LOWEST for a kind not in
      the table. Exactly the kinds with an infix function bind tighter than
      LOWEST, and nothing binds as tight as a prefix operator. */
  function PrecedenceOf(k: Kind): (prec: int)
    ensures LOWEST <= prec <= PRODUCT
    ensures prec > LOWEST <==> k in InfixFns
  {
    if k in Precedences then Precedences[k] else LOWEST
  }

  /** Parser state: the token stream, the index of the current token and
      the diagnostics so far. */
  datatype Parser = Parser(toks: seq<Token>, pos: nat, errors: seq<Bytes>)

  /** Every INT token is a non-empty digit string, as the lexer makes it. */
  predicate IntegerLiterals(toks: seq<Token>)
  {
    forall i :: 0 <= i < |toks| && toks[i].kind == INT ==> Digits(toks[i].literal)
  }

  /** The stream ends with EOF, the index stays within it (the index of a
      read past the end is clamped: every such read is EOF anyway), and
      integer literals are digit strings. */
  predicate Valid(p: Parser)
  {
    |p.toks| >= 1 && p.toks[|p.toks| - 1].kind == EOF
    && p.pos <= |p.toks|
    && IntegerLiterals(p.toks)
  }

  function Cur(p: Parser): Token
  {
    Lexer.At(p.toks, p.pos)
  }

  function Peek(p: Parser): Token
  {
    Lexer.At(p.toks, p.pos + 1)
  }

  /** The precedence of the current token: above LOWEST exactly when an
      infix function is registered for its kind. */
  function CurPrecedence(p: Parser): (r: int)
    ensures LOWEST <= r <= PRODUCT && (r > LOWEST <==> Cur(p).kind in InfixFns)
  {
    PrecedenceOf(Cur(p).kind)
  }

  /** The precedence of the peek token: above LOWEST exactly when an
      infix function is registered for its kind. */
  function PeekPrecedence(p: Parser): (r: int)
    ensures LOWEST <= r <= PRODUCT && (r > LOWEST <==> Peek(p).kind in InfixFns)
  {
    PrecedenceOf(Peek(p).kind)
  }

  /** A parser over the tokens of `input`, with the current and the peek
      token read: they are the lexer's first and second tokens. */
  function New(input: Bytes): (p: Parser)
    ensures Valid(p) && p.pos == 0 && p.errors == []
    ensures Cur(p) == Lexer.NthToken(Lexer.New(input), 0)
    ensures Peek(p) == Lexer.NthToken(Lexer.New(input), 1)
  {
    var l := Lexer.New(input);
    LexerProperties.TokensLexed(l);
    LexerProperties.PullEquivalence(l, 0);
    LexerProperties.PullEquivalence(l, 1);
    Parser(Lexer.Tokens(input), 0, [])
  }

  /** Shifts the window by one token: the peek token becomes current and
      the token after it is the new peek. Past the end nothing changes. */
  function NextToken(p: Parser): (r: Parser)
    requires Valid(p)
    ensures Valid(r) && r.toks == p.toks && r.errors == p.errors
    ensures Cur(r) == Peek(p) && Peek(r) == Lexer.At(p.toks, p.pos + 2)
    ensures p.pos < |p.toks| ==> r.pos == p.pos + 1
    ensures p.pos >= |p.toks| ==> r == p
  {
    if p.pos < |p.toks| then p.(pos := p.pos + 1) else p
  }

  function PeekErrorMessage(expected: Kind, got: Kind): Bytes
  {
    "expected next token to be " + Name(expected) + ", got " + Name(got) + " instead"
  }

  function NoPrefixMessage(k: Kind): Bytes
  {
    "no prefix parse function for " + Name(k) + " found"
  }

  /** The message for a literal that does not parse. Go quotes the literal
      with `%q`; a digit string quotes to itself between double quotes. */
  function IntegerMessage(literal: Bytes): Bytes
  {
    "could not parse \"" + literal + "\" as integer"
  }

  function AddError(p: Parser, message: Bytes): (r: Parser)
    ensures r.toks == p.toks && r.pos == p.pos && r.errors == p.errors + [message]
  {
    p.(errors := p.errors + [message])
  }

  /** Reports that the peek token is not of the expected kind. */
  function PeekError(p: Parser, expected: Kind): (r: Parser)
    ensures r.toks == p.toks && r.pos == p.pos
    ensures |r.errors| == |p.errors| + 1 && r.errors[..|p.errors|] == p.errors
    ensures r.errors[|p.errors|] == PeekErrorMessage(expected, Peek(p).kind)
  {
    AddError(p, PeekErrorMessage(expected, Peek(p).kind))
  }

  /** Reports a token kind that cannot start an expression. */
  function NoPrefixParseFnError(p: Parser, k: Kind): (r: Parser)
    ensures r.toks == p.toks && r.pos == p.pos
    ensures |r.errors| == |p.errors| + 1 && r.errors[..|p.errors|] == p.errors
    ensures r.errors[|p.errors|] == NoPrefixMessage(k)
  {
    AddError(p, NoPrefixMessage(k))
  }

  /** Advances onto the peek token when it has the expected kind, and
      otherwise stays put and reports it. */
  function ExpectPeek(p: Parser, expected: Kind): (r: (bool, Parser))
    requires Valid(p)
    ensures Valid(r.1) && r.1.toks == p.toks
    ensures r.0 <==> Peek(p).kind == expected
    ensures r.0 ==> r.1.errors == p.errors && Cur(r.1) == Peek(p)
    ensures r.0 && expected != EOF ==> r.1.pos == p.pos + 1
    ensures !r.0 ==> r.1.pos == p.pos && r.1.errors == p.errors + [PeekErrorMessage(expected, Peek(p).kind)]
  {
    if Peek(p).kind == expected then (true, NextToken(p)) else (false, PeekError(p, expected))
  }

  /** An identifier expression for the current token. */
  function ParseIdentifier(p: Parser): (e: Expr)
    ensures e.Ident? && e.id.token == Cur(p) && e.TokenLiteral() == e.String() == Cur(p).literal
  {
    Ident(Identifier(Cur(p), Cur(p).literal))
  }

  /** An integer literal for the current INT token, or a diagnostic and no
      expression when its text is not an int64 literal. */
  function ParseIntegerLiteral(p: Parser): (r: (Option<Expr>, Parser))
    requires Valid(p) && Cur(p).kind == INT
    ensures r.1.toks == p.toks && r.1.pos == p.pos
    ensures r.0.Some? <==> ParseInt64(Cur(p).literal).Some?
    ensures r.0.Some? ==>
      r.1.errors == p.errors && r.0.value == IntegerLiteral(Cur(p), ParseInt64(Cur(p).literal).value)
    ensures r.0.None? ==> r.1.errors == p.errors + [IntegerMessage(Cur(p).literal)]
  {
    var tok := Cur(p);
    match ParseInt64(tok.literal)
    case None => (None, AddError(p, IntegerMessage(tok.literal)))
    case Some(value) => (Some(IntegerLiteral(tok, value)), p)
  }

  /** A prefix operator applied to the operand parsed after it at PREFIX
      precedence. */
  function ParsePrefixExpression(p: Parser): (r: (Option<Expr>, Parser))
    requires Valid(p) && Cur(p).kind in PrefixFns && PrefixFns[Cur(p).kind] == PrefixExpressionRule
    ensures Valid(r.1) && r.1.toks == p.toks && p.errors <= r.1.errors
    ensures p.pos < r.1.pos < |p.toks|
    ensures r.0.Some? && r.0.value.PrefixExpression?
    ensures r.0.value.token == Cur(p) && r.0.value.operator == Cur(p).literal
    decreases |p.toks| - p.pos, 0
  {
    var tok := Cur(p);
    var (right, p1) := ParseExpression(NextToken(p), PREFIX);
    (Some(PrefixExpression(tok, tok.literal, right)), p1)
  }

  /** A binary operator whose left operand is already parsed; its right
      operand is parsed at the operator's own precedence. */
  function ParseInfixExpression(p: Parser, left: Option<Expr>): (r: (Option<Expr>, Parser))
    requires Valid(p) && Cur(p).kind in InfixFns
    ensures Valid(r.1) && r.1.toks == p.toks && p.errors <= r.1.errors
    ensures p.pos < r.1.pos < |p.toks|
    ensures r.0.Some? && r.0.value.InfixExpression?
    ensures r.0.value.token == Cur(p) && r.0.value.operator == Cur(p).literal && r.0.value.left == left
    decreases |p.toks| - p.pos, 0
  {
    var tok := Cur(p);
    var precedence := CurPrecedence(p);
    var (right, p1) := ParseExpression(NextToken(p), precedence);
    (Some(InfixExpression(tok, left, tok.literal, right)), p1)
  }

  /** Parses an expression whose operators all bind tighter than
      `precedence`. A current token that cannot start an expression is
      reported, and then nothing is consumed. */
  function ParseExpression(p: Parser, precedence: int): (r: (Option<Expr>, Parser))
    requires Valid(p)
    ensures Valid(r.1) && r.1.toks == p.toks && p.errors <= r.1.errors
    ensures p.pos <= r.1.pos && (r.1.pos == p.pos || r.1.pos < |p.toks|)
    ensures r.0.None? ==> |r.1.errors| > |p.errors|
    ensures Cur(p).kind !in PrefixFns ==>
      r.0.None? && r.1.pos == p.pos && r.1.errors == p.errors + [NoPrefixMessage(Cur(p).kind)]
    decreases |p.toks| - p.pos, 2
  {
    var k := Cur(p).kind;
    if k !in PrefixFns then
      (None, NoPrefixParseFnError(p, k))
    else
      var (left, p1) := ApplyPrefix(PrefixFns[k], p);
      InfixLoop(p1, left, precedence)
  }

  /** Calls the prefix parse function registered for the current token. */
  function ApplyPrefix(rule: PrefixRule, p: Parser): (r: (Option<Expr>, Parser))
    requires Valid(p) && Cur(p).kind in PrefixFns && PrefixFns[Cur(p).kind] == rule
    ensures Valid(r.1) && r.1.toks == p.toks && p.errors <= r.1.errors
    ensures p.pos <= r.1.pos < |p.toks|
    ensures r.0.None? ==> |r.1.errors| > |p.errors|
    decreases |p.toks| - p.pos, 1
  {
    match rule
    case IdentifierRule => (Some(ParseIdentifier(p)), p)
    case IntegerLiteralRule => ParseIntegerLiteral(p)
    case PrefixExpressionRule => ParsePrefixExpression(p)
  }

  /** The loop of `parseExpression`: while the peek token is not `;` and
      binds tighter than `precedence`, the expression so far becomes the
      left operand of the operator in the peek position. */
  function InfixLoop(p: Parser, left: Option<Expr>, precedence: int): (r: (Option<Expr>, Parser))
    requires Valid(p)
    ensures Valid(r.1) && r.1.toks == p.toks && p.errors <= r.1.errors
    ensures p.pos <= r.1.pos && (r.1.pos == p.pos || r.1.pos < |p.toks|)
    ensures r.0.None? ==> left.None? && r.1 == p
    decreases |p.toks| - p.pos, 1
  {
    if Peek(p).kind == SEMICOLON || precedence >= PeekPrecedence(p) then
      (left, p)
    else if Peek(p).kind !in InfixFns then
      (left, p)
    else
      var (left', p1) := ParseInfixExpression(NextToken(p), left);
      InfixLoop(p1, left', precedence)
  }

  /** The index of the first `;` at or after `from`, if there is one. */
  function FirstSemicolon(toks: seq<Token>, from: nat): (r: Option<nat>)
    ensures r.Some? ==> from <= r.value < |toks| && toks[r.value].kind == SEMICOLON
    decreases |toks| - from
  {
    if from >= |toks| then None
    else if toks[from].kind == SEMICOLON then Some(from)
    else FirstSemicolon(toks, from + 1)
  }

  /** Nothing before the index `FirstSemicolon` finds is a `;`, and when
      it finds none there is no `;` from `from` on. */
  lemma {:induction false} FirstSemicolonIsFirst(toks: seq<Token>, from: nat)
    ensures FirstSemicolon(toks, from).Some? ==>
      forall i :: from <= i < FirstSemicolon(toks, from).value ==> toks[i].kind != SEMICOLON
    ensures FirstSemicolon(toks, from).None? ==>
      forall i :: from <= i < |toks| ==> toks[i].kind != SEMICOLON
    decreases |toks| - from
  {
    if from < |toks| && toks[from].kind != SEMICOLON {
      FirstSemicolonIsFirst(toks, from + 1);
    }
  }

  /** The skip loop of the let and return statements: moves on until the
      current token is `;`. Once the index is past the end, every token is
      EOF and advancing changes nothing, so without a later `;` the loop
      never ends. */
  function SkipToSemicolon(p: Parser): (r: Run<Parser>)
    requires Valid(p)
    ensures r.Halts? ==> Valid(r.value) && r.value.toks == p.toks && r.value.errors == p.errors
    ensures r.Halts? ==> p.pos <= r.value.pos < |p.toks| && p.toks[r.value.pos].kind == SEMICOLON
    ensures r.Hangs? <==> FirstSemicolon(p.toks, p.pos).None?
    ensures r.Halts? ==> FirstSemicolon(p.toks, p.pos) == Some(r.value.pos)
    decreases |p.toks| - p.pos
  {
    if Cur(p).kind == SEMICOLON then Halts(p)
    else if p.pos >= |p.toks| then Hangs
    else SkipToSemicolon(NextToken(p))
  }

  /** `let <identifier> = ... ;`. A missing name or `=` is reported and
      yields the nil let statement, which is then the only statement with
      a diagnostic of its own; otherwise the value is skipped up to the
      next `;` and left absent. */
  function ParseLetStatement(p: Parser): (r: Run<(Stmt, Parser)>)
    requires Valid(p) && Cur(p).kind == LET
    ensures r.Halts? ==> Valid(r.value.1) && r.value.1.toks == p.toks && p.errors <= r.value.1.errors
    ensures r.Halts? ==> p.pos <= r.value.1.pos < |p.toks|
    ensures r.Halts? && r.value.0.NullLet? ==> |r.value.1.errors| == |p.errors| + 1
    ensures r.Halts? && !r.value.0.NullLet? ==>
      r.value.0.LetStatement? && r.value.1.errors == p.errors && Cur(r.value.1).kind == SEMICOLON
    ensures r.Hangs? ==> Peek(p).kind == IDENT && Lexer.At(p.toks, p.pos + 2).kind == ASSIGN
  {
    var tok := Cur(p);
    var (hasName, p1) := ExpectPeek(p, IDENT);
    if !hasName then Halts((NullLet, p1))
    else
      assert p1 == p.(pos := p.pos + 1);
      var name := Identifier(Cur(p1), Cur(p1).literal);
      var (hasAssign, p2) := ExpectPeek(p1, ASSIGN);
      if !hasAssign then Halts((NullLet, p2))
      else
        match SkipToSemicolon(p2)
        case Hangs => Hangs
        case Halts(p3) => Halts((LetStatement(tok, name, None), p3))
  }

  /** `return ... ;`: the value is skipped up to the next `;` and left
      absent. */
  function ParseReturnStatement(p: Parser): (r: Run<(Stmt, Parser)>)
    requires Valid(p) && Cur(p).kind == RETURN
    ensures r.Halts? ==> r.value.0 == ReturnStatement(Cur(p), None)
    ensures r.Halts? ==> Valid(r.value.1) && r.value.1.toks == p.toks && r.value.1.errors == p.errors
    ensures r.Halts? ==> p.pos < r.value.1.pos < |p.toks| && Cur(r.value.1).kind == SEMICOLON
  {
    var tok := Cur(p);
    match SkipToSemicolon(NextToken(p))
    case Hangs => Hangs
    case Halts(p1) => Halts((ReturnStatement(tok, None), p1))
  }

  /** An expression at LOWEST precedence, then an optional `;`. */
  function ParseExpressionStatement(p: Parser): (r: (Stmt, Parser))
    requires Valid(p)
    ensures Valid(r.1) && r.1.toks == p.toks && p.errors <= r.1.errors
    ensures p.pos <= r.1.pos && (p.pos < |p.toks| ==> r.1.pos < |p.toks|)
    ensures r.0.ExpressionStatement? && r.0.token == Cur(p)
    ensures var (e, p1) := ParseExpression(p, LOWEST);
      r.0.expression == e && r.1.errors == p1.errors
      && r.1.pos == (if Peek(p1).kind == SEMICOLON then p1.pos + 1 else p1.pos)
  {
    var tok := Cur(p);
    var (e, p1) := ParseExpression(p, LOWEST);
    var p2 := if Peek(p1).kind == SEMICOLON then NextToken(p1) else p1;
    (ExpressionStatement(tok, e), p2)
  }

  /** Dispatches on the current token: let, return, or an expression
      statement for anything else. */
  function ParseStatement(p: Parser): (r: Run<(Stmt, Parser)>)
    requires Valid(p) && Cur(p).kind != EOF
    ensures r.Halts? ==> Valid(r.value.1) && r.value.1.toks == p.toks && p.errors <= r.value.1.errors
    ensures r.Halts? ==> p.pos <= r.value.1.pos < |p.toks|
    ensures r.Halts? && r.value.0.NullLet? ==> Cur(p).kind == LET && |r.value.1.errors| == |p.errors| + 1
    ensures r.Hangs? ==> Cur(p).kind == LET || Cur(p).kind == RETURN
  {
    if Cur(p).kind == LET then ParseLetStatement(p)
    else if Cur(p).kind == RETURN then ParseReturnStatement(p)
    else Halts(ParseExpressionStatement(p))
  }

  /** The statements up to the current EOF, each followed by one advance of
      the window. */
  function ParseStatements(p: Parser): (r: Run<(seq<Stmt>, Parser)>)
    requires Valid(p)
    ensures r.Halts? ==> Valid(r.value.1) && r.value.1.toks == p.toks && p.errors <= r.value.1.errors
    ensures r.Halts? ==> p.pos <= r.value.1.pos && Cur(r.value.1).kind == EOF
    ensures r.Halts? ==> |r.value.0| <= |p.toks| - p.pos
    decreases |p.toks| - p.pos
  {
    if Cur(p).kind == EOF then Halts(([], p))
    else
      match ParseStatement(p)
      case Hangs => Hangs
      case Halts((s, p1)) =>
        match ParseStatements(NextToken(p1))
        case Hangs => Hangs
        case Halts((ss, p2)) => Halts(([s] + ss, p2))
  }

  /** The program: every statement parsed before the first EOF becomes the
      current token. */
  function ParseProgram(p: Parser): (r: Run<(Program, Parser)>)
    requires Valid(p)
    ensures r.Hangs? <==> ParseStatements(p).Hangs?
    ensures r.Halts? ==> r.value.0.statements == ParseStatements(p).value.0
    ensures r.Halts? ==> Valid(r.value.1) && Cur(r.value.1).kind == EOF && p.errors <= r.value.1.errors
  {
    match ParseStatements(p)
    case Hangs => Hangs
    case Halts((stmts, p1)) => Halts((Program(stmts), p1))
  }
}
