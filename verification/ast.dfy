/** The syntax tree of ast/ast.go and its canonical rendering. */
module Ast {
  import opened Token
  import opened Wrappers

  datatype Identifier = Identifier(token: Token, value: Bytes)
  {
    function TokenLiteral(): Bytes
    {
      token.literal
    }

    function String(): Bytes
    {
      value
    }
  }

  /** Expressions. An absent operand stands for Go's nil `Expression`. */
  datatype Expr =
    | Ident(id: Identifier)
    | IntegerLiteral(token: Token, value: int)
    | PrefixExpression(token: Token, operator: Bytes, right: Option<Expr>)
    | InfixExpression(token: Token, left: Option<Expr>, operator: Bytes, right: Option<Expr>)
  {
    function TokenLiteral(): Bytes
    {
      match this
      case Ident(id) => id.TokenLiteral()
      case IntegerLiteral(token, _) => token.literal
      case PrefixExpression(token, _, _) => token.literal
      case InfixExpression(token, _, _, _) => token.literal
    }

    /** Every operand is present. Rendering dereferences the operands, so
        in Go an absent one makes `String` panic. */
    predicate Complete()
    {
      match this
      case Ident(_) => true
      case IntegerLiteral(_, _) => true
      case PrefixExpression(_, _, right) => right.Some? && right.value.Complete()
      case InfixExpression(_, left, _, right) =>
        left.Some? && left.value.Complete() && right.Some? && right.value.Complete()
    }

    /** The canonical, fully parenthesised rendering. An integer literal
        renders as the text it was written with, not as its value. */
    function String(): Bytes
      requires Complete()
    {
      match this
      case Ident(id) => id.String()
      case IntegerLiteral(token, _) => token.literal
      case PrefixExpression(_, operator, right) => "(" + operator + right.value.String() + ")"
      case InfixExpression(_, left, operator, right) =>
        "(" + left.value.String() + " " + operator + " " + right.value.String() + ")"
    }
  }

  /** Statements. `NullLet` is a nil `*LetStatement` stored in a non-nil
      `Statement` interface: it is a statement, but any method call on it
      dereferences nil. */
  datatype Stmt =
    | LetStatement(token: Token, name: Identifier, value: Option<Expr>)
    | NullLet
    | ReturnStatement(token: Token, returnValue: Option<Expr>)
    | ExpressionStatement(token: Token, expression: Option<Expr>)
  {
    /** The statement can be rendered without a nil dereference. */
    predicate Renderable()
    {
      match this
      case LetStatement(_, _, value) => value.None? || value.value.Complete()
      case NullLet => false
      case ReturnStatement(_, returnValue) => returnValue.None? || returnValue.value.Complete()
      case ExpressionStatement(_, expression) => expression.None? || expression.value.Complete()
    }

    function TokenLiteral(): Bytes
      requires !NullLet?
    {
      match this
      case LetStatement(token, _, _) => token.literal
      case ReturnStatement(token, _) => token.literal
      case ExpressionStatement(token, _) => token.literal
    }

    function String(): Bytes
      requires Renderable()
    {
      match this
      case LetStatement(token, name, value) =>
        token.literal + " " + name.String() + " = " + OptionString(value) + ";"
      case ReturnStatement(token, returnValue) =>
        token.literal + " " + OptionString(returnValue) + ";"
      case ExpressionStatement(_, expression) => OptionString(expression)
    }
  }

  /** The rendering of an optional expression; nothing when absent. */
  function OptionString(e: Option<Expr>): Bytes
    requires e.None? || e.value.Complete()
  {
    if e.Some? then e.value.String() else []
  }

  /** The root: the statements in source order. */
  datatype Program = Program(statements: seq<Stmt>)
  {
    predicate Renderable()
    {
      forall i :: 0 <= i < |statements| ==> statements[i].Renderable()
    }

    /** The first statement's token literal, or nothing for an empty
        program. */
    function TokenLiteral(): Bytes
      requires |statements| == 0 || !statements[0].NullLet?
    {
      if |statements| > 0 then statements[0].TokenLiteral() else []
    }

    /** The statements' renderings, concatenated in order. */
    function String(): Bytes
      requires Renderable()
    {
      Concat(statements)
    }
  }

  function Concat(stmts: seq<Stmt>): Bytes
    requires forall i :: 0 <= i < |stmts| ==> stmts[i].Renderable()
  {
    if |stmts| == 0 then [] else stmts[0].String() + Concat(stmts[1..])
  }

  /** The tokens of an expression in the order they appear in the source:
      operands around their operator, a prefix operator before its operand. */
  function Yield(e: Expr): seq<Token>
    requires e.Complete()
  {
    match e
    case Ident(id) => [id.token]
    case IntegerLiteral(token, _) => [token]
    case PrefixExpression(token, _, right) => [token] + Yield(right.value)
    case InfixExpression(token, left, _, right) => Yield(left.value) + [token] + Yield(right.value)
  }
}
