/** The let and return statements case by case: which diagnostic a
    malformed let reports and where its window is left, and where a well
    formed statement ends (or that it never does). */
module StatementProperties {
  import opened Wrappers
  import opened Token
  import opened Ast
  import Lexer
  import opened Parser

  /** The skip loop halts on the first `;` from the current token, with the
      stream and the diagnostics unchanged. */
  lemma SkipLandsOnFirst(p: Parser, i: nat)
    requires Valid(p) && FirstSemicolon(p.toks, p.pos) == Some(i)
    ensures SkipToSemicolon(p) == Halts(p.(pos := i))
  {
    var r := SkipToSemicolon(p).value;
    assert r.toks == p.toks && r.errors == p.errors && r.pos == i;
  }

  /** `let` not followed by a name: the nil let, the window left on `let`,
      and one diagnostic naming the kind found instead. */
  lemma LetWithoutName(p: Parser)
    requires Valid(p) && Cur(p).kind == LET && Peek(p).kind != IDENT
    ensures ParseLetStatement(p) ==
      Halts((NullLet, Parser(p.toks, p.pos, p.errors + [PeekErrorMessage(IDENT, Peek(p).kind)])))
  {
  }

  /** `let <name>` not followed by `=`: the nil let, the window left on the
      name, and one diagnostic naming the kind found instead of `=`. */
  lemma LetWithoutAssign(p: Parser)
    requires Valid(p) && Cur(p).kind == LET && Peek(p).kind == IDENT
    requires Lexer.At(p.toks, p.pos + 2).kind != ASSIGN
    ensures ParseLetStatement(p) ==
      Halts((NullLet, Parser(p.toks, p.pos + 1,
                             p.errors + [PeekErrorMessage(ASSIGN, Lexer.At(p.toks, p.pos + 2).kind)])))
  {
    var p1 := Parser(p.toks, p.pos + 1, p.errors);
    assert ExpectPeek(p, IDENT) == (true, p1);
    assert Peek(p1) == Lexer.At(p.toks, p.pos + 2);
  }

  /** `let <name> =`: the statement is settled by the skip loop started
      on the token after the `=`. */
  lemma LetSkipsValue(p: Parser)
    requires Valid(p) && Cur(p).kind == LET && Peek(p).kind == IDENT
    requires Lexer.At(p.toks, p.pos + 2).kind == ASSIGN
    ensures p.pos + 2 < |p.toks| && Valid(Parser(p.toks, p.pos + 2, p.errors))
    ensures ParseLetStatement(p) ==
      match SkipToSemicolon(Parser(p.toks, p.pos + 2, p.errors))
      case Hangs => Hangs
      case Halts(q) => Halts((LetStatement(Cur(p), Identifier(Peek(p), Peek(p).literal), None), q))
  {
    var p1 := Parser(p.toks, p.pos + 1, p.errors);
    var p2 := Parser(p.toks, p.pos + 2, p.errors);
    assert ExpectPeek(p, IDENT) == (true, p1);
    assert Cur(p1) == Peek(p);
    assert ExpectPeek(p1, ASSIGN) == (true, p2);
  }

  /** `let <name> =` never ends exactly when no `;` follows the `=`. */
  lemma LetHangsExactly(p: Parser)
    requires Valid(p) && Cur(p).kind == LET && Peek(p).kind == IDENT
    requires Lexer.At(p.toks, p.pos + 2).kind == ASSIGN
    ensures ParseLetStatement(p).Hangs? <==> FirstSemicolon(p.toks, p.pos + 2).None?
  {
    LetSkipsValue(p);
    var p2 := Parser(p.toks, p.pos + 2, p.errors);
    assert ParseLetStatement(p).Hangs? <==> SkipToSemicolon(p2).Hangs?;
    assert SkipToSemicolon(p2).Hangs? <==> FirstSemicolon(p2.toks, p2.pos).None?;
    assert p2.toks == p.toks && p2.pos == p.pos + 2;
  }

  /** `let <name> = ... ;` ends on the first `;` after the `=`, with the
      name bound and no value. */
  lemma LetEndsAtSemicolon(p: Parser, i: nat)
    requires Valid(p) && Cur(p).kind == LET && Peek(p).kind == IDENT
    requires Lexer.At(p.toks, p.pos + 2).kind == ASSIGN
    requires FirstSemicolon(p.toks, p.pos + 2) == Some(i)
    ensures ParseLetStatement(p) ==
      Halts((LetStatement(Cur(p), Identifier(Peek(p), Peek(p).literal), None), p.(pos := i)))
  {
    LetSkipsValue(p);
    var p2 := Parser(p.toks, p.pos + 2, p.errors);
    SkipLandsOnFirst(p2, i);
    assert ParseLetStatement(p) ==
      Halts((LetStatement(Cur(p), Identifier(Peek(p), Peek(p).literal), None), p2.(pos := i)));
    assert p2.(pos := i) == p.(pos := i);
  }

  /** `return` never ends exactly when no `;` follows it. */
  lemma ReturnHangsExactly(p: Parser)
    requires Valid(p) && Cur(p).kind == RETURN
    ensures ParseReturnStatement(p).Hangs? <==> FirstSemicolon(p.toks, p.pos + 1).None?
  {
    assert p.pos < |p.toks|;
  }

  /** `return ... ;` ends on the first `;` after `return`, with no value. */
  lemma ReturnEndsAtSemicolon(p: Parser, i: nat)
    requires Valid(p) && Cur(p).kind == RETURN
    requires FirstSemicolon(p.toks, p.pos + 1) == Some(i)
    ensures ParseReturnStatement(p) == Halts((ReturnStatement(Cur(p), None), p.(pos := i)))
  {
    assert p.pos < |p.toks|;
  }
}
