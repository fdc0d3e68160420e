/** What the canonical rendering promises. */
module AstProperties {
  import opened Token
  import opened Ast

  function Delta(c: Byte): int
  {
    if c == '(' then 1 else if c == ')' then -1 else 0
  }

  /** Opening minus closing parentheses. */
  function Depth(s: Bytes): int
  {
    if |s| == 0 then 0 else Delta(s[0]) + Depth(s[1..])
  }

  /** The lowest depth any prefix of `s` reaches (never above 0). */
  function Dip(s: Bytes): int
  {
    if |s| == 0 then 0
    else var d := Delta(s[0]) + Dip(s[1..]); if d < 0 then d else 0
  }

  /** Every prefix has at least as many `(` as `)`, and the whole has as
      many of each. */
  predicate Balanced(s: Bytes)
  {
    Depth(s) == 0 && Dip(s) == 0
  }

  /** `s` is one parenthesised group: it starts with `(`, ends with `)`,
      and what lies between is balanced, so the first `(` closes last. */
  predicate Wrapped(s: Bytes)
  {
    |s| >= 2 && s[0] == '(' && s[|s| - 1] == ')' && Balanced(s[1..|s| - 1])
  }

  predicate ParenFree(s: Bytes)
  {
    forall i :: 0 <= i < |s| ==> s[i] != '(' && s[i] != ')'
  }

  /** The identifier names, integer literals and operators of a tree
      contain no parentheses (true of every tree built from lexed tokens). */
  predicate ParenFreeLeaves(e: Expr)
  {
    match e
    case Ident(id) => ParenFree(id.value)
    case IntegerLiteral(token, _) => ParenFree(token.literal)
    case PrefixExpression(_, operator, right) =>
      ParenFree(operator) && (right.Some? ==> ParenFreeLeaves(right.value))
    case InfixExpression(_, left, operator, right) =>
      ParenFree(operator) && (left.Some? ==> ParenFreeLeaves(left.value))
      && (right.Some? ==> ParenFreeLeaves(right.value))
  }

  lemma {:induction false} DepthDipAppend(a: Bytes, b: Bytes)
    ensures Depth(a + b) == Depth(a) + Depth(b)
    ensures Dip(a + b) == Min(Dip(a), Depth(a) + Dip(b))
    decreases |a|
  {
    if |a| == 0 {
      assert a + b == b;
      DipNonPositive(b);
    } else {
      assert (a + b)[0] == a[0] && (a + b)[1..] == a[1..] + b;
      DepthDipAppend(a[1..], b);
    }
  }

  function Min(x: int, y: int): int
  {
    if x < y then x else y
  }

  lemma {:induction false} DipNonPositive(s: Bytes)
    ensures Dip(s) <= 0
  {
  }

  lemma {:induction false} ParenFreeBalanced(s: Bytes)
    requires ParenFree(s)
    ensures Depth(s) == 0 && Dip(s) == 0
    decreases |s|
  {
    if |s| > 0 {
      ParenFreeBalanced(s[1..]);
    }
  }

  lemma AppendBalanced(a: Bytes, b: Bytes)
    requires Balanced(a) && Balanced(b)
    ensures Balanced(a + b)
  {
    DepthDipAppend(a, b);
  }

  lemma WrapBalanced(inner: Bytes)
    requires Balanced(inner)
    ensures Wrapped("(" + inner + ")")
    ensures Balanced("(" + inner + ")")
  {
    var s := "(" + inner + ")";
    assert s[1..|s| - 1] == inner;
    DepthDipAppend(inner, ")");
    DepthDipAppend("(", inner + ")");
    assert s == "(" + (inner + ")");
  }

  lemma PrefixShapeBalanced(operator: Bytes, right: Bytes)
    requires ParenFree(operator) && Balanced(right)
    ensures Wrapped("(" + operator + right + ")") && Balanced("(" + operator + right + ")")
  {
    ParenFreeBalanced(operator);
    AppendBalanced(operator, right);
    WrapBalanced(operator + right);
    assert "(" + operator + right + ")" == "(" + (operator + right) + ")";
  }

  lemma InfixShapeBalanced(left: Bytes, operator: Bytes, right: Bytes)
    requires Balanced(left) && ParenFree(operator) && Balanced(right)
    ensures var s := "(" + left + " " + operator + " " + right + ")"; Wrapped(s) && Balanced(s)
  {
    var middle := " " + operator + " ";
    assert ParenFree(middle);
    ParenFreeBalanced(middle);
    AppendBalanced(left, middle);
    AppendBalanced(left + middle, right);
    WrapBalanced(left + middle + right);
    assert "(" + left + " " + operator + " " + right + ")" == "(" + (left + middle + right) + ")";
  }

  /** The rendering of any expression whose leaves and operators contain
      no parentheses is balanced, and a prefix or infix expression renders
      as one parenthesised group. */
  lemma {:induction false} RenderingBalanced(e: Expr)
    requires e.Complete() && ParenFreeLeaves(e)
    ensures Balanced(e.String())
    ensures (e.PrefixExpression? || e.InfixExpression?) ==> Wrapped(e.String())
  {
    match e
    case Ident(id) =>
      ParenFreeBalanced(id.value);
    case IntegerLiteral(token, _) =>
      ParenFreeBalanced(token.literal);
    case PrefixExpression(_, operator, right) =>
      RenderingBalanced(right.value);
      PrefixShapeBalanced(operator, right.value.String());
    case InfixExpression(_, left, operator, right) =>
      RenderingBalanced(left.value);
      RenderingBalanced(right.value);
      InfixShapeBalanced(left.value.String(), operator, right.value.String());
  }

  /** Rendering a program distributes over splitting its statement list. */
  lemma {:induction false} ConcatAppend(a: seq<Stmt>, b: seq<Stmt>)
    requires Program(a).Renderable() && Program(b).Renderable()
    ensures Program(a + b).Renderable()
    ensures Program(a + b).String() == Program(a).String() + Program(b).String()
    decreases |a|
  {
    if |a| == 0 {
      assert a + b == b;
    } else {
      assert (a + b)[0] == a[0] && (a + b)[1..] == a[1..] + b;
      assert Program(a[1..]).Renderable();
      ConcatAppend(a[1..], b);
    }
  }

  /** Bytes that rendering inserts around operands and operators. */
  predicate Punctuation(c: Byte)
  {
    c == '(' || c == ')' || c == ' '
  }

  /** The text with the rendering's punctuation removed. */
  function Erase(s: Bytes): Bytes
  {
    if |s| == 0 then []
    else (if Punctuation(s[0]) then [] else [s[0]]) + Erase(s[1..])
  }

  lemma {:induction false} EraseAppend(a: Bytes, b: Bytes)
    ensures Erase(a + b) == Erase(a) + Erase(b)
    decreases |a|
  {
    if |a| == 0 {
      assert a + b == b;
    } else {
      assert (a + b)[0] == a[0] && (a + b)[1..] == a[1..] + b;
      EraseAppend(a[1..], b);
    }
  }

  lemma {:induction false} EraseKeeps(s: Bytes)
    requires forall i :: 0 <= i < |s| ==> !Punctuation(s[i])
    ensures Erase(s) == s
    decreases |s|
  {
    if |s| > 0 {
      EraseKeeps(s[1..]);
    }
  }

  lemma {:induction false} SpellAppend(a: seq<Token>, b: seq<Token>)
    ensures Spell(a + b) == Spell(a) + Spell(b)
    decreases |a|
  {
    if |a| == 0 {
      assert a + b == b;
    } else {
      assert (a + b)[0] == a[0] && (a + b)[1..] == a[1..] + b;
      SpellAppend(a[1..], b);
    }
  }

  /** Every node renders its own token's text (identifiers their name,
      operators their operator), and that text has no punctuation. */
  predicate SpelledByTokens(e: Expr)
  {
    match e
    case Ident(id) => id.value == id.token.literal && NoPunctuation(id.value)
    case IntegerLiteral(token, _) => NoPunctuation(token.literal)
    case PrefixExpression(token, operator, right) =>
      operator == token.literal && NoPunctuation(operator)
      && (right.Some? ==> SpelledByTokens(right.value))
    case InfixExpression(token, left, operator, right) =>
      operator == token.literal && NoPunctuation(operator)
      && (left.Some? ==> SpelledByTokens(left.value))
      && (right.Some? ==> SpelledByTokens(right.value))
  }

  predicate NoPunctuation(s: Bytes)
  {
    forall i :: 0 <= i < |s| ==> !Punctuation(s[i])
  }

  lemma SpellOne(t: Token)
    ensures Spell([t]) == t.literal
  {
    assert Spell([t]) == t.literal + Spell([]);
  }

  lemma ErasePunctuation(c: Byte)
    requires Punctuation(c)
    ensures Erase([c]) == []
  {
    assert Erase([c]) == [] + Erase([]);
  }

  /** Erasing around a single punctuation byte. */
  lemma EraseAround(a: Bytes, c: Byte, b: Bytes)
    requires Punctuation(c)
    ensures Erase(a + [c] + b) == Erase(a) + Erase(b)
  {
    ErasePunctuation(c);
    EraseAppend(a, [c]);
    EraseAppend(a + [c], b);
  }

  lemma PrefixShapeErases(operator: Bytes, right: Bytes)
    requires NoPunctuation(operator)
    ensures Erase("(" + operator + right + ")") == operator + Erase(right)
  {
    var x := operator + right;
    assert "(" + operator + right + ")" == [] + ['('] + (x + [')']);
    EraseAround([], '(', x + [')']);
    assert x + [')'] == x + [')'] + [];
    EraseAround(x, ')', []);
    EraseAppend(operator, right);
    EraseKeeps(operator);
  }

  lemma InfixShapeErases(left: Bytes, operator: Bytes, right: Bytes)
    requires NoPunctuation(operator)
    ensures Erase("(" + left + " " + operator + " " + right + ")") == Erase(left) + operator + Erase(right)
  {
    var inner := left + [' '] + operator + [' '] + right;
    assert "(" + left + " " + operator + " " + right + ")" == [] + ['('] + (inner + [')']);
    EraseAround([], '(', inner + [')']);
    assert inner + [')'] == inner + [')'] + [];
    EraseAround(inner, ')', []);
    var ops := operator + [' '] + right;
    assert inner == left + [' '] + ops;
    EraseAround(left, ' ', ops);
    EraseAround(operator, ' ', right);
    EraseKeeps(operator);
  }

  /** The rendering adds only parentheses and spaces: with them erased it
      is the tree's tokens, in source order, spelled out. */
  lemma {:induction false} RenderingErasesToTokens(e: Expr)
    requires e.Complete() && SpelledByTokens(e)
    ensures Erase(e.String()) == Spell(Yield(e))
  {
    match e
    case Ident(id) =>
      EraseKeeps(id.value);
      SpellOne(id.token);
    case IntegerLiteral(token, _) =>
      EraseKeeps(token.literal);
      SpellOne(token);
    case PrefixExpression(token, operator, right) =>
      RenderingErasesToTokens(right.value);
      PrefixShapeErases(operator, right.value.String());
      SpellAppend([token], Yield(right.value));
      SpellOne(token);
    case InfixExpression(token, left, operator, right) =>
      RenderingErasesToTokens(left.value);
      RenderingErasesToTokens(right.value);
      InfixShapeErases(left.value.String(), operator, right.value.String());
      SpellAppend(Yield(left.value) + [token], Yield(right.value));
      SpellAppend(Yield(left.value), [token]);
      SpellOne(token);
  }
}
