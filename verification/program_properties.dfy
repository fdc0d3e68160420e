/** What the statement loop promises: a program parsed without a
    diagnostic can be rendered, every nil let statement has its own
    diagnostic, and a parse that never ends had a let or return with no
    `;` after it. */
module ProgramProperties {
  import opened Wrappers
  import opened Token
  import opened Ast
  import Lexer
  import opened Parser
  import opened ParserProperties
  import opened StatementProperties

  // ---------------------------------------------------------------------
  // Statements parsed without a diagnostic

  /** A statement as it comes out when nothing is reported: a let with its
      name and no value, a return with no value, or an expression
      statement holding a parsed expression that starts at the statement's
      token. */
  predicate Clean(s: Stmt)
  {
    match s
    case LetStatement(token, name, value) =>
      token.kind == LET && name.token.kind == IDENT && name.value == name.token.literal && value.None?
    case NullLet => false
    case ReturnStatement(token, returnValue) => token.kind == RETURN && returnValue.None?
    case ExpressionStatement(token, expression) =>
      expression.Some? && Parsed(expression.value) && Yield(expression.value)[0] == token
  }

  lemma CleanRenderable(s: Stmt)
    requires Clean(s)
    ensures s.Renderable() && !s.NullLet?
  {
  }

  lemma ExpressionStatementClean(p: Parser)
    requires Valid(p) && Cur(p).kind != EOF
    requires ParseExpressionStatement(p).1.errors == p.errors
    ensures Clean(ParseExpressionStatement(p).0)
  {
    var (e, p1) := ParseExpression(p, LOWEST);
    ExpressionParsed(p, LOWEST);
    assert Yield(e.value)[0] == p.toks[p.pos];
  }

  /** One statement parsed without a diagnostic is clean. */
  lemma StatementClean(p: Parser)
    requires Valid(p) && Cur(p).kind != EOF
    requires ParseStatement(p).Halts? && ParseStatement(p).value.1.errors == p.errors
    ensures Clean(ParseStatement(p).value.0)
  {
    if Cur(p).kind == LET {
      LetClean(p);
    } else if Cur(p).kind != RETURN {
      ExpressionStatementClean(p);
    }
  }

  lemma LetClean(p: Parser)
    requires Valid(p) && Cur(p).kind == LET
    requires ParseLetStatement(p).Halts? && ParseLetStatement(p).value.1.errors == p.errors
    ensures Clean(ParseLetStatement(p).value.0)
  {
    if Peek(p).kind != IDENT {
      LetWithoutName(p);
    } else if Lexer.At(p.toks, p.pos + 2).kind != ASSIGN {
      LetWithoutAssign(p);
    } else {
      LetHangsExactly(p);
      LetEndsAtSemicolon(p, FirstSemicolon(p.toks, p.pos + 2).value);
    }
  }

  /** A run that halts past a statement: that statement, then the run
      after the advance that follows it. */
  lemma StatementsUnfold(p: Parser)
    requires Valid(p) && Cur(p).kind != EOF && ParseStatements(p).Halts?
    ensures ParseStatement(p).Halts?
    ensures var p2 := NextToken(ParseStatement(p).value.1);
      ParseStatements(p2).Halts?
      && ParseStatements(p).value.0 == [ParseStatement(p).value.0] + ParseStatements(p2).value.0
      && ParseStatements(p).value.1 == ParseStatements(p2).value.1
  {
  }

  /** Every statement of a run that reported nothing is clean. */
  lemma {:induction false} StatementsClean(p: Parser)
    requires Valid(p)
    requires ParseStatements(p).Halts? && ParseStatements(p).value.1.errors == p.errors
    ensures forall i :: 0 <= i < |ParseStatements(p).value.0| ==> Clean(ParseStatements(p).value.0[i])
    decreases |p.toks| - p.pos
  {
    if Cur(p).kind != EOF {
      StatementsUnfold(p);
      var (s, p1) := ParseStatement(p).value;
      var p2 := NextToken(p1);
      var (ss, p3) := ParseStatements(p2).value;
      PrefixOf(p.errors, p1.errors, p3.errors);
      StatementClean(p);
      StatementsClean(p2);
      assert ParseStatements(p).value.0 == [s] + ss;
      forall i | 0 <= i < |[s] + ss| ensures Clean(([s] + ss)[i]) {
        if i > 0 {
          assert ([s] + ss)[i] == ss[i - 1];
        }
      }
    }
  }

  /** A program parsed without a diagnostic can be rendered: no statement
      is the nil let, and every expression in it is complete. */
  lemma NoErrorsRenderable(input: Bytes)
    requires ParseProgram(New(input)).Halts? && ParseProgram(New(input)).value.1.errors == []
    ensures ParseProgram(New(input)).value.0.Renderable()
    ensures forall i :: 0 <= i < |ParseProgram(New(input)).value.0.statements| ==>
      !ParseProgram(New(input)).value.0.statements[i].NullLet?
  {
    var p := New(input);
    StatementsClean(p);
    var ss := ParseProgram(p).value.0.statements;
    forall i | 0 <= i < |ss| ensures ss[i].Renderable() && !ss[i].NullLet? {
      CleanRenderable(ss[i]);
    }
  }

  // ---------------------------------------------------------------------
  // Diagnostics

  function NullLets(ss: seq<Stmt>): nat
  {
    if |ss| == 0 then 0 else (if ss[0].NullLet? then 1 else 0) + NullLets(ss[1..])
  }

  /** Each nil let statement in the program comes with a diagnostic of its
      own. */
  lemma {:induction false} NullLetsReported(p: Parser)
    requires Valid(p) && ParseStatements(p).Halts?
    ensures NullLets(ParseStatements(p).value.0) <= |ParseStatements(p).value.1.errors| - |p.errors|
    decreases |p.toks| - p.pos
  {
    if Cur(p).kind != EOF {
      StatementsUnfold(p);
      var s := ParseStatement(p).value.0;
      var p2 := NextToken(ParseStatement(p).value.1);
      var ss := ParseStatements(p2).value.0;
      assert ([s] + ss)[1..] == ss;
      NullLetsReported(p2);
    }
  }

  // ---------------------------------------------------------------------
  // Non-termination

  /** A token that starts a skip loop with no `;` anywhere after it. */
  predicate Unterminated(toks: seq<Token>, i: nat)
  {
    i < |toks| && (toks[i].kind == LET || toks[i].kind == RETURN)
    && forall j :: i < j < |toks| ==> toks[j].kind != SEMICOLON
  }

  /** The states the statement loop started at `p` begins a turn in: `p`
      itself, and every state reached by the advance after a statement
      that ends. */
  predicate Visits(p: Parser, q: Parser)
    requires Valid(p)
    ensures Visits(p, q) ==> Valid(q) && q.toks == p.toks && p.pos <= q.pos
    decreases |p.toks| - p.pos
  {
    q == p
    || (Cur(p).kind != EOF && ParseStatement(p).Halts?
        && Visits(NextToken(ParseStatement(p).value.1), q))
  }

  /** A parse that never ends began a statement, on a let or return token
      with no `;` anywhere after it, that never ends. */
  lemma {:induction false} HangsNeedsUnterminatedStatement(p: Parser)
    requires Valid(p) && ParseStatements(p).Hangs?
    ensures exists q :: (Visits(p, q) && Cur(q).kind != EOF && ParseStatement(q).Hangs?
                         && Unterminated(q.toks, q.pos))
    decreases |p.toks| - p.pos
  {
    if ParseStatement(p).Hangs? {
      StatementHangsUnterminated(p);
      assert Visits(p, p);
    } else {
      var p2 := NextToken(ParseStatement(p).value.1);
      HangsNeedsUnterminatedStatement(p2);
      var q :| Visits(p2, q) && Cur(q).kind != EOF && ParseStatement(q).Hangs?
        && Unterminated(q.toks, q.pos);
      assert Visits(p, q);
    }
  }

  /** The statement loop never ends exactly when it begins a statement
      that never ends. */
  lemma {:induction false} HangsExactlyAtVisitedStatement(p: Parser)
    requires Valid(p)
    ensures ParseStatements(p).Hangs? <==>
      exists q :: Visits(p, q) && Cur(q).kind != EOF && ParseStatement(q).Hangs?
    decreases |p.toks| - p.pos
  {
    if ParseStatements(p).Hangs? {
      HangsNeedsUnterminatedStatement(p);
    } else if exists q :: Visits(p, q) && Cur(q).kind != EOF && ParseStatement(q).Hangs? {
      var q :| Visits(p, q) && Cur(q).kind != EOF && ParseStatement(q).Hangs?;
      var p2 := NextToken(ParseStatement(p).value.1);
      assert q != p && Visits(p2, q);
      HangsExactlyAtVisitedStatement(p2);
      assert false;
    }
  }

  /** A statement that never ends is a let or return with no `;` after
      its start. */
  lemma StatementHangsUnterminated(p: Parser)
    requires Valid(p) && Cur(p).kind != EOF && ParseStatement(p).Hangs?
    ensures Unterminated(p.toks, p.pos)
  {
    if Cur(p).kind == LET {
      LetHangsUnterminated(p);
    } else {
      ReturnHangsExactly(p);
      FirstSemicolonIsFirst(p.toks, p.pos + 1);
    }
  }

  lemma LetHangsUnterminated(p: Parser)
    requires Valid(p) && Cur(p).kind == LET && ParseLetStatement(p).Hangs?
    ensures Unterminated(p.toks, p.pos)
  {
    LetHangsExactly(p);
    FirstSemicolonIsFirst(p.toks, p.pos + 2);
    assert p.toks[p.pos + 1].kind == IDENT;
  }

  /** A return statement with no `;` after it never ends, and so neither
      does the program around it. */
  lemma ReturnWithoutSemicolonHangs(p: Parser)
    requires Valid(p) && Cur(p).kind == RETURN
    requires forall j :: p.pos < j < |p.toks| ==> p.toks[j].kind != SEMICOLON
    ensures ParseStatements(p).Hangs? && ParseProgram(p).Hangs?
  {
    ReturnHangsExactly(p);
  }

  /** A let statement without a name is kept, as the nil let, with the
      diagnostic for its peek token. */
  lemma FailedLetKept(p: Parser)
    requires Valid(p) && Cur(p).kind == LET && Peek(p).kind != IDENT
    requires ParseStatements(p).Halts?
    ensures |ParseStatements(p).value.0| >= 1 && ParseStatements(p).value.0[0] == NullLet
    ensures |ParseStatements(p).value.1.errors| > |p.errors|
    ensures ParseStatements(p).value.1.errors[|p.errors|] == PeekErrorMessage(IDENT, Peek(p).kind)
  {
    LetWithoutName(p);
    var p1 := Parser(p.toks, p.pos, p.errors + [PeekErrorMessage(IDENT, Peek(p).kind)]);
    var p2 := NextToken(p1);
    var (ss, p3) := ParseStatements(p2).value;
    assert ParseStatements(p).value == ([NullLet] + ss, p3);
    assert p1.errors[|p.errors|] == PeekErrorMessage(IDENT, Peek(p).kind);
    assert p3.errors[..|p1.errors|] == p1.errors;
  }
}
