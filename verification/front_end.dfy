/** The whole front end as the interpreter drives it: lex the input, parse
    the program, collect the diagnostics. */
module FrontEnd {
  import opened Wrappers
  import opened Token
  import opened Ast
  import Lexer
  import Parser
  import opened ProgramProperties

  /** The program parsed from `input` and the diagnostics collected on the
      way. It never ends exactly when the statement loop begins a statement
      that never ends, which is a let or return with no `;` after it; when
      it ends, every nil let has a diagnostic of its own, and with no
      diagnostic at all the program renders. */
  function Parse(input: Bytes): (r: Run<(Program, seq<Bytes>)>)
    ensures r.Hangs? <==> (exists q :: Visits(Parser.New(input), q) && Parser.Cur(q).kind != EOF
                                       && Parser.ParseStatement(q).Hangs?)
    ensures r.Hangs? ==> (exists q :: Visits(Parser.New(input), q) && Parser.Cur(q).kind != EOF
                                      && Parser.ParseStatement(q).Hangs?
                                      && q.toks == Lexer.Tokens(input) && Unterminated(Lexer.Tokens(input), q.pos))
    ensures r.Halts? ==> |r.value.0.statements| <= |Lexer.Tokens(input)|
    ensures r.Halts? ==> NullLets(r.value.0.statements) <= |r.value.1|
    ensures r.Halts? && r.value.1 == [] ==>
      r.value.0.Renderable() && forall i :: 0 <= i < |r.value.0.statements| ==> !r.value.0.statements[i].NullLet?
  {
    var p := Parser.New(input);
    HangsExactlyAtVisitedStatement(p);
    match Parser.ParseProgram(p)
    case Hangs =>
      HangsNeedsUnterminatedStatement(p);
      Hangs
    case Halts((program, q)) =>
      NullLetsReported(p);
      if q.errors == [] then
        NoErrorsRenderable(input);
        Halts((program, q.errors))
      else
        Halts((program, q.errors))
  }
}
