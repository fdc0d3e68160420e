/** What the parser promises: the trees it builds group by precedence and
    to the left, cover exactly the tokens they were parsed from, and stop
    where the loop says; the skip loop is the source's unbounded loop; and
    the program it returns is complete whenever nothing was reported. */
module ParserProperties {
  import opened Wrappers
  import opened Token
  import opened Ast
  import opened IntegerSyntax
  import opened Parser

  // ---------------------------------------------------------------------
  // The precedence ladder

  /** The ladder is strictly increasing, and the table gives each binary
      operator its rung. */
  lemma PrecedenceLadder()
    ensures LOWEST < EQUALS < LESSGREATER < SUM < PRODUCT < PREFIX < CALL
    ensures PrecedenceOf(EQ) == PrecedenceOf(NEQ) == EQUALS
    ensures PrecedenceOf(LT) == PrecedenceOf(GT) == LESSGREATER
    ensures PrecedenceOf(PLUS) == PrecedenceOf(MINUS) == SUM
    ensures PrecedenceOf(SLASH) == PrecedenceOf(ASTERISK) == PRODUCT
    ensures PrecedenceOf(SEMICOLON) == PrecedenceOf(LPAREN) == PrecedenceOf(EOF) == LOWEST
  {
  }

  /** When the loop of `parseExpression` runs at LOWEST or above, the peek
      token always has an infix function: the early return for a missing
      one cannot happen. */
  lemma NilInfixNeverFires(p: Parser, precedence: int)
    requires LOWEST <= precedence
    requires Peek(p).kind != SEMICOLON && precedence < PeekPrecedence(p)
    ensures Peek(p).kind in InfixFns
  {
  }

  // ---------------------------------------------------------------------
  // The shape of a parsed expression

  /** Every node has the shape the parse functions give it: identifiers
      named by their token, integer literals holding their token's parsed
      value, operator nodes for registered operator kinds spelled as their
      token, and every operand present. */
  predicate Parsed(e: Expr)
  {
    e.Complete() && Shaped(e)
  }

  predicate Shaped(e: Expr)
  {
    match e
    case Ident(id) => id.token.kind == IDENT && id.value == id.token.literal
    case IntegerLiteral(token, value) =>
      token.kind == INT && Digits(token.literal) && ParseInt64(token.literal) == Some(value)
    case PrefixExpression(token, operator, right) =>
      (token.kind == BANG || token.kind == MINUS) && operator == token.literal
      && (right.Some? ==> Shaped(right.value))
    case InfixExpression(token, left, operator, right) =>
      token.kind in InfixFns && operator == token.literal
      && (left.Some? ==> Shaped(left.value)) && (right.Some? ==> Shaped(right.value))
  }

  /** Grouping by precedence. Every binary node binds tighter than `min`;
      below a binary node of precedence q, the left operand holds no
      operator looser than q and the right operand only operators tighter
      than q (so equal operators group to the left); the operand of a
      prefix operator holds no binary operator at all. */
  predicate Grouped(e: Expr, min: int)
  {
    match e
    case Ident(_) => true
    case IntegerLiteral(_, _) => true
    case PrefixExpression(_, _, right) => right.Some? ==> Grouped(right.value, PREFIX)
    case InfixExpression(token, left, _, right) =>
      var q := PrecedenceOf(token.kind);
      min < q && (left.Some? ==> Grouped(left.value, q - 1)) && (right.Some? ==> Grouped(right.value, q))
  }

  /** Where an expression parsed at `precedence` ends: the peek token is
      `;` or binds no tighter than `precedence`. */
  predicate Stops(p: Parser, precedence: int)
  {
    Peek(p).kind == SEMICOLON || PeekPrecedence(p) <= precedence
  }

  /** `res` holds a parsed expression made of exactly the tokens from
      `start` to the one the parser ends on. */
  predicate Covers(toks: seq<Token>, start: nat, res: (Option<Expr>, Parser))
  {
    res.0.Some? && Parsed(res.0.value) && start <= res.1.pos < |toks|
    && Yield(res.0.value) == toks[start..res.1.pos + 1]
  }

  lemma PrefixOf<T>(a: seq<T>, b: seq<T>, c: seq<T>)
    requires a <= b && b <= c && c == a
    ensures b == a
  {
  }

  lemma SliceAround(toks: seq<Token>, i: nat, j: nat, k: nat)
    requires i <= j < k <= |toks|
    ensures toks[i..j] + [toks[j]] + toks[j + 1..k] == toks[i..k]
  {
    assert toks[i..j] + [toks[j]] == toks[i..j + 1];
  }

  /** The pratt parser's main property. An expression parsed without a new
      diagnostic is present, has the parser's node shapes, groups by
      precedence with every binary operator binding tighter than
      `precedence`, is made of exactly the tokens from the current one to
      the one the parser ends on, and ends where `Stops` says. */
  lemma {:induction false} ExpressionParsed(p: Parser, precedence: int)
    requires Valid(p) && LOWEST <= precedence
    requires ParseExpression(p, precedence).1.errors == p.errors
    ensures Covers(p.toks, p.pos, ParseExpression(p, precedence))
    ensures Grouped(ParseExpression(p, precedence).0.value, precedence)
    ensures Stops(ParseExpression(p, precedence).1, precedence)
    decreases |p.toks| - p.pos, 3
  {
    var k := Cur(p).kind;
    var r := ParseExpression(p, precedence).1;
    if k !in PrefixFns {
      assert false;
    }
    var (left, p1) := ApplyPrefix(PrefixFns[k], p);
    assert ParseExpression(p, precedence) == InfixLoop(p1, left, precedence);
    PrefixOf(p.errors, p1.errors, r.errors);
    ApplyPrefixParsed(PrefixFns[k], p, precedence);
    InfixLoopParsed(p1, left, precedence, p.pos);
  }

  /** The operand a prefix parse function returns is a leaf or a prefix
      operator node, and so is grouped for any precedence. */
  lemma {:induction false} ApplyPrefixParsed(rule: PrefixRule, p: Parser, precedence: int)
    requires Valid(p) && Cur(p).kind in PrefixFns && PrefixFns[Cur(p).kind] == rule
    requires ApplyPrefix(rule, p).1.errors == p.errors && LOWEST <= precedence
    ensures LoopInvariant(ApplyPrefix(rule, p).1, ApplyPrefix(rule, p).0, precedence, p.pos)
    decreases |p.toks| - p.pos, 2
  {
    match rule
    case IdentifierRule =>
      IdentifierLeaf(p);
      LeafInvariant(p, ParseIdentifier(p), precedence);
    case IntegerLiteralRule =>
      IntegerLiteralLeaf(p);
      LeafInvariant(p, ParseIntegerLiteral(p).0.value, precedence);
    case PrefixExpressionRule =>
      PrefixParsed(p);
  }

  /** The identifier for an IDENT token is a parsed node made of it. */
  lemma IdentifierLeaf(p: Parser)
    requires Valid(p) && Cur(p).kind == IDENT
    ensures p.pos < |p.toks| && Parsed(ParseIdentifier(p)) && Yield(ParseIdentifier(p)) == [p.toks[p.pos]]
  {
  }

  /** The integer literal for an INT token, when nothing is reported, is a
      parsed node made of it, and the window stays put. */
  lemma IntegerLiteralLeaf(p: Parser)
    requires Valid(p) && Cur(p).kind == INT && ParseIntegerLiteral(p).1.errors == p.errors
    ensures p.pos < |p.toks| && ParseIntegerLiteral(p).0.Some? && ParseIntegerLiteral(p).1 == p
    ensures Parsed(ParseIntegerLiteral(p).0.value) && Yield(ParseIntegerLiteral(p).0.value) == [p.toks[p.pos]]
  {
    assert Digits(p.toks[p.pos].literal);
  }

  /** An identifier or an integer literal made of the current token starts
      the loop. */
  lemma LeafInvariant(p: Parser, e: Expr, precedence: int)
    requires Valid(p) && p.pos < |p.toks| && LOWEST <= precedence
    requires (e.Ident? || e.IntegerLiteral?) && Parsed(e) && Yield(e) == [p.toks[p.pos]]
    ensures LoopInvariant(p, Some(e), precedence, p.pos)
  {
    assert p.toks[p.pos..p.pos + 1] == [p.toks[p.pos]];
  }

  /** A prefix operator and its operand, parsed without a new diagnostic. */
  lemma {:induction false} PrefixParsed(p: Parser)
    requires Valid(p) && Cur(p).kind in PrefixFns && PrefixFns[Cur(p).kind] == PrefixExpressionRule
    requires ParsePrefixExpression(p).1.errors == p.errors
    ensures Covers(p.toks, p.pos, ParsePrefixExpression(p))
    ensures Grouped(ParsePrefixExpression(p).0.value.right.value, PREFIX)
    ensures Stops(ParsePrefixExpression(p).1, PREFIX)
    decreases |p.toks| - p.pos, 0
  {
    var tok := Cur(p);
    PrefixOperatorKinds(tok.kind);
    var p1 := NextToken(p);
    ExpressionParsed(p1, PREFIX);
    var (right, r) := ParseExpression(p1, PREFIX);
    var e := PrefixExpression(tok, tok.literal, right);
    assert ParsePrefixExpression(p) == (Some(e), r);
    PrefixCovers(p.toks, p.pos, (right, r));
  }

  /** A prefix operator at `pos` and an operand covering the tokens after
      it cover the tokens from `pos`. */
  lemma PrefixCovers(toks: seq<Token>, pos: nat, res: (Option<Expr>, Parser))
    requires pos < |toks| && (toks[pos].kind == BANG || toks[pos].kind == MINUS)
    requires Covers(toks, pos + 1, res)
    ensures Covers(toks, pos, (Some(PrefixExpression(toks[pos], toks[pos].literal, res.0)), res.1))
  {
    PrefixNode(toks[pos], res.0.value);
    assert toks[pos..res.1.pos + 1] == [toks[pos]] + toks[pos + 1..res.1.pos + 1];
  }

  /** The kinds whose prefix function is the prefix operator's. */
  lemma PrefixOperatorKinds(k: Kind)
    requires k in PrefixFns && PrefixFns[k] == PrefixExpressionRule
    ensures k == BANG || k == MINUS
  {
  }

  /** The node shape and the tokens of a prefix node. */
  lemma PrefixNode(token: Token, right: Expr)
    requires (token.kind == BANG || token.kind == MINUS) && Parsed(right)
    ensures var e := PrefixExpression(token, token.literal, Some(right));
      Parsed(e) && Yield(e) == [token] + Yield(right)
  {
  }

  /** The node shape and the tokens of a binary node. */
  lemma InfixNode(token: Token, left: Expr, right: Expr)
    requires token.kind in InfixFns && Parsed(left) && Parsed(right)
    ensures var e := InfixExpression(token, Some(left), token.literal, Some(right));
      Parsed(e) && Yield(e) == Yield(left) + [token] + Yield(right)
  {
  }

  /** A binary operator and its right operand, parsed without a new
      diagnostic, after a left operand made of the tokens from `start`. */
  lemma {:induction false} InfixParsed(p: Parser, left: Option<Expr>, start: nat)
    requires Valid(p) && Cur(p).kind in InfixFns
    requires left.Some? && Parsed(left.value) && start <= p.pos && Yield(left.value) == p.toks[start..p.pos]
    requires ParseInfixExpression(p, left).1.errors == p.errors
    ensures Covers(p.toks, start, ParseInfixExpression(p, left))
    ensures Grouped(ParseInfixExpression(p, left).0.value.right.value, CurPrecedence(p))
    ensures Stops(ParseInfixExpression(p, left).1, CurPrecedence(p))
    decreases |p.toks| - p.pos, 0
  {
    var p1 := NextToken(p);
    var q := CurPrecedence(p);
    ExpressionParsed(p1, q);
    var res := ParseExpression(p1, q);
    InfixOperandCovers(p, left.value, start, res);
    assert ParseInfixExpression(p, left) == (Some(InfixExpression(Cur(p), left, Cur(p).literal, res.0)), res.1);
  }

  /** The same, for any right operand covering the tokens after the
      operator. */
  lemma InfixOperandCovers(p: Parser, left: Expr, start: nat, res: (Option<Expr>, Parser))
    requires Valid(p) && Cur(p).kind in InfixFns
    requires Parsed(left) && start <= p.pos && Yield(left) == p.toks[start..p.pos]
    requires Covers(NextToken(p).toks, NextToken(p).pos, res)
    ensures Covers(p.toks, start, (Some(InfixExpression(Cur(p), Some(left), Cur(p).literal, res.0)), res.1))
  {
    assert NextToken(p) == p.(pos := p.pos + 1);
    InfixCovers(p.toks, start, p.pos, left, res);
  }

  /** A left operand made of the tokens from `start` to `pos`, the binary
      operator at `pos` and a right operand covering the tokens after it
      cover the tokens from `start`. */
  lemma InfixCovers(toks: seq<Token>, start: nat, pos: nat, left: Expr, res: (Option<Expr>, Parser))
    requires start <= pos < |toks| && toks[pos].kind in InfixFns
    requires Parsed(left) && Yield(left) == toks[start..pos]
    requires Covers(toks, pos + 1, res)
    ensures Covers(toks, start, (Some(InfixExpression(toks[pos], Some(left), toks[pos].literal, res.0)), res.1))
  {
    var e := InfixExpression(toks[pos], Some(left), toks[pos].literal, res.0);
    InfixNode(toks[pos], left, res.0.value);
    SliceAround(toks, start, pos, res.1.pos + 1);
    assert Yield(e) == toks[start..res.1.pos + 1];
  }

  /** The loop invariant: the expression so far is made of the tokens from
      `start` to the current one, is grouped for the loop's precedence and,
      unless the peek is `;`, also as the left operand of the operator in
      the peek position. */
  predicate LoopInvariant(p: Parser, left: Option<Expr>, precedence: int, start: nat)
  {
    Valid(p) && LOWEST <= precedence
    && left.Some? && Parsed(left.value) && Grouped(left.value, precedence)
    && (Peek(p).kind == SEMICOLON || Grouped(left.value, PeekPrecedence(p) - 1))
    && start <= p.pos < |p.toks| && Yield(left.value) == p.toks[start..p.pos + 1]
  }

  lemma {:induction false} InfixLoopParsed(p: Parser, left: Option<Expr>, precedence: int, start: nat)
    requires LoopInvariant(p, left, precedence, start)
    requires InfixLoop(p, left, precedence).1.errors == p.errors
    ensures Covers(p.toks, start, InfixLoop(p, left, precedence))
    ensures Grouped(InfixLoop(p, left, precedence).0.value, precedence)
    ensures Stops(InfixLoop(p, left, precedence).1, precedence)
    decreases |p.toks| - p.pos, 2
  {
    if Peek(p).kind == SEMICOLON || precedence >= PeekPrecedence(p) {
    } else {
      NilInfixNeverFires(p, precedence);
      var step := ParseInfixExpression(NextToken(p), left);
      var rest := InfixLoop(step.1, step.0, precedence);
      assert InfixLoop(p, left, precedence) == rest;
      PrefixOf(p.errors, step.1.errors, rest.1.errors);
      LoopStepParsed(p, left, precedence, start);
      InfixLoopParsed(step.1, step.0, precedence, start);
    }
  }

  /** One turn of the loop keeps its invariant. */
  lemma {:induction false} LoopStepParsed(p: Parser, left: Option<Expr>, precedence: int, start: nat)
    requires LoopInvariant(p, left, precedence, start)
    requires Peek(p).kind in InfixFns && Peek(p).kind != SEMICOLON && precedence < PeekPrecedence(p)
    requires ParseInfixExpression(NextToken(p), left).1.errors == p.errors
    ensures var (e, r) := ParseInfixExpression(NextToken(p), left);
      LoopInvariant(r, e, precedence, start) && r.toks == p.toks && p.pos < r.pos
    decreases |p.toks| - p.pos, 1
  {
    var q := PeekPrecedence(p);
    var p1 := NextToken(p);
    assert CurPrecedence(p1) == q;
    var (e, r) := ParseInfixExpression(p1, left);
    InfixParsed(p1, left, start);
    GroupedInfix(e.value, precedence);
    if Peek(r).kind != SEMICOLON {
      GroupedInfix(e.value, PeekPrecedence(r) - 1);
    }
  }

  /** A binary node is grouped for any precedence below its own once its
      operands are. */
  lemma GroupedInfix(e: Expr, min: int)
    requires e.InfixExpression? && e.left.Some? && e.right.Some?
    requires min < PrecedenceOf(e.token.kind)
    requires Grouped(e.left.value, PrecedenceOf(e.token.kind) - 1)
    requires Grouped(e.right.value, PrecedenceOf(e.token.kind))
    ensures Grouped(e, min)
  {
  }
}
