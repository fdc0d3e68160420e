/** Worked instances of the parser and the integer syntax on concrete
    token streams and literals. */
module Examples {
  import opened Wrappers
  import opened Token
  import opened Ast
  import opened Parser
  import opened IntegerSyntax

  function Stream(): seq<Token>
  {
    [Token(IDENT, "a"), Token(PLUS, "+"), Token(IDENT, "b"), Token(ASTERISK, "*"), Token(IDENT, "c"), Token(EOF, [])]
  }

  function At(i: nat): Parser
  {
    Parser(Stream(), i, [])
  }

  function Leaf(i: nat): Expr
    requires i < |Stream()|
  {
    Ident(Identifier(Stream()[i], Stream()[i].literal))
  }

  function ProductTree(): Expr
  {
    InfixExpression(Stream()[3], Some(Leaf(2)), "*", Some(Leaf(4)))
  }

  function SumTree(): Expr
  {
    InfixExpression(Stream()[1], Some(Leaf(0)), "+", Some(ProductTree()))
  }

  /** The window moves one token at a time along the stream. */
  lemma Shift(i: nat)
    requires i < |Stream()|
    ensures NextToken(At(i)) == At(i + 1)
  {
  }

  /** On the last operand the loop stops: the peek token is EOF. */
  lemma LoopStopsAtEnd(e: Expr, precedence: int)
    requires LOWEST <= precedence
    ensures InfixLoop(At(4), Some(e), precedence) == (Some(e), At(4))
  {
  }

  /** `a + b * c`: the product binds tighter and is the sum's right operand. */
  lemma ProductInsideSum()
    ensures ParseExpression(At(0), LOWEST) == (Some(SumTree()), At(4))
  {
    assert Cur(At(0)) == Stream()[0] && PrefixFns[IDENT] == IdentifierRule;
    assert ParseExpression(At(0), LOWEST) == InfixLoop(At(0), Some(Leaf(0)), LOWEST);
    Shift(0);
    SumStep();
    assert InfixLoop(At(0), Some(Leaf(0)), LOWEST) == InfixLoop(At(4), Some(SumTree()), LOWEST);
    LoopStopsAtEnd(SumTree(), LOWEST);
  }

  /** The `+` step: its right operand, parsed at SUM precedence, takes in
      `b * c`. */
  lemma SumStep()
    ensures ParseInfixExpression(At(1), Some(Leaf(0))) == (Some(SumTree()), At(4))
  {
    Shift(1);
    assert Cur(At(1)) == Stream()[1] && CurPrecedence(At(1)) == SUM;
    var right := ParseExpression(At(2), SUM);
    assert ParseInfixExpression(At(1), Some(Leaf(0))) ==
      (Some(InfixExpression(Stream()[1], Some(Leaf(0)), Stream()[1].literal, right.0)), right.1);
    ProductOperand();
  }

  lemma ProductOperand()
    ensures ParseExpression(At(2), SUM) == (Some(ProductTree()), At(4))
  {
    assert Cur(At(2)) == Stream()[2] && PrefixFns[IDENT] == IdentifierRule;
    assert ParseExpression(At(2), SUM) == InfixLoop(At(2), Some(Leaf(2)), SUM);
    Shift(2);
    ProductStep();
    assert InfixLoop(At(2), Some(Leaf(2)), SUM) == InfixLoop(At(4), Some(ProductTree()), SUM);
    LoopStopsAtEnd(ProductTree(), SUM);
  }

  /** The `*` step: its right operand is `c` alone. */
  lemma ProductStep()
    ensures ParseInfixExpression(At(3), Some(Leaf(2))) == (Some(ProductTree()), At(4))
  {
    Shift(3);
    LoopStopsAtEnd(Leaf(4), PRODUCT);
    assert ParseExpression(At(4), PRODUCT) == (Some(Leaf(4)), At(4));
  }

  lemma SumTreeRenders()
    ensures SumTree().Complete() && SumTree().String() == "(a + (b * c))"
  {
    assert ProductTree().String() == "(b * c)";
  }

  /** A leading `0` makes the rest octal: `010` is eight, `08` is no
      literal at all, and `0` alone is zero. */
  lemma IntegerExamples()
    ensures ParseInt64("010") == Some(8)
    ensures ParseInt64("08") == None
    ensures ParseInt64("0") == Some(0)
  {
    assert Radix("010") == (8, "10");
    assert Value(8, "10") == 8 by {
      assert "10"[..1] == "1";
    }
    assert Radix("08") == (8, "8");
    assert DigitValue('8') == 8;
  }
}

/** Which trees the grouping predicate admits, on the standard examples of
    associativity and of prefix binding. */
module GroupingExamples {
  import opened Wrappers
  import opened Token
  import opened Ast
  import opened Parser
  import opened ParserProperties

  function Var(name: Bytes): Expr
  {
    Ident(Identifier(Token(IDENT, name), name))
  }

  function Binary(kind: Kind, left: Expr, right: Expr): Expr
  {
    InfixExpression(Token(kind, Name(kind)), Some(left), Name(kind), Some(right))
  }

  function Unary(kind: Kind, right: Expr): Expr
  {
    PrefixExpression(Token(kind, Name(kind)), Name(kind), Some(right))
  }

  /** Equal operators group to the left: of the two trees of `a + b + c`
      only the left-nested one is grouped, and it renders as
      `((a + b) + c)`. */
  lemma SumsGroupLeft()
    ensures Grouped(Binary(PLUS, Binary(PLUS, Var("a"), Var("b")), Var("c")), LOWEST)
    ensures !Grouped(Binary(PLUS, Var("a"), Binary(PLUS, Var("b"), Var("c"))), LOWEST)
    ensures Binary(PLUS, Binary(PLUS, Var("a"), Var("b")), Var("c")).String() == "((a + b) + c)"
  {
  }

  /** A prefix operator takes only its operand: of the two trees of
      `-a * b` only the one with the negation inside the product is
      grouped, and it renders as `((-a) * b)`. */
  lemma NegationInsideProduct()
    ensures Grouped(Binary(ASTERISK, Unary(MINUS, Var("a")), Var("b")), LOWEST)
    ensures !Grouped(Unary(MINUS, Binary(ASTERISK, Var("a"), Var("b"))), LOWEST)
    ensures Binary(ASTERISK, Unary(MINUS, Var("a")), Var("b")).String() == "((-a) * b)"
  {
  }
}
