# Interpreter front end: tokens, lexer, syntax tree and Pratt parser

This project models the front end of a small interpreter for a C-like
expression language: the token kinds and keyword table
(`token/token.go`), the byte-level lexer (`lexer/lexer.go`), the syntax
tree and its canonical rendering (`ast/ast.go`), and the Pratt parser
(`parser/parser.go`). It proves what these parts promise about each other.

- **Tokens** (`token.dfy`). `Kind` is the closed set of kinds, and
  `Name(k)` is Go's string value of each kind constant, which is what
  diagnostics print. `Keywords` is the keyword table and `LookupIdent`
  looks text up in it. Go strings are byte strings: `Bytes` is a sequence
  of characters with codes below 256.
- **Lexer** (`lexer.dfy`, `lexer_properties.dfy`). The lexer is a pure
  step function `NextToken` over the cursor state
  `Lexer(input, position, readPosition, ch)`. `TokensFrom`/`Tokens` give
  the token stream up to the EOF produced at the end of the input. The
  lemmas cover:
  - token boundaries and literals;
  - the two-byte operators;
  - maximal identifier and number runs;
  - `ILLEGAL`;
  - EOF at NUL;
  - the shape of every token;
  - a bound on the stream's length;
  - that lexing drops nothing but whitespace.
- **Syntax tree** (`ast.dfy`, `ast_properties.dfy`). The node variants
  are datatypes. `Option` stands for a nil `Expression`. `NullLet` is the
  typed-nil `*LetStatement` that the parser stores as a non-nil
  `Statement`. `TokenLiteral` and `String` are the Go methods, defined
  directly. Rendering is only defined where Go would not dereference nil
  (`Complete`, `Renderable`). The lemmas show two things about the
  fully parenthesised rendering:
  - its parentheses balance;
  - with parentheses and spaces erased, it is the node's tokens in
    source order.
- **Integer literals** (`integer_syntax.dfy`). This is the part of
  `strconv.ParseInt(lit, 0, 64)` that lexed literals reach: a run of
  digits is decimal, or octal behind a leading `0`, and it must fit a
  signed 64-bit integer. `Format` is an independent reference rendering,
  and round trips connect the two.
- **Parser** (`parser.dfy`, `statement_properties.dfy`, `skip_loop.dfy`,
  `parser_properties.dfy`, `program_properties.dfy`).
  - The parser works on an index into the token stream, with
    `Cur`/`Peek` as the two-token window. Every read past the end is
    EOF, and `PullEquivalence` shows that this is exactly what pulling
    tokens from the lexer one call at a time gives.
  - The prefix and infix tables are a `match` and a set. Diagnostics are
    an ordered list of strings.
  - The let and return statements' skip loops can run forever. Each
    statement parser therefore returns `Run<T>`, either `Hangs` or
    `Halts(value)`, and the lemmas say exactly when it hangs.
  - The main theorem is `ParserProperties.ExpressionParsed`. An
    expression parsed without a new diagnostic is made of exactly the
    tokens consumed. It groups by precedence, with equal operators to
    the left and prefix operators binding tightest, and it ends where
    the loop condition says.
  - At the program level: a program parsed without diagnostics renders
    without a nil dereference, and every nil let has its own diagnostic.
    A parse hangs exactly when the statement loop begins a statement
    that hangs, which is a let or return with no `;` after it.
    `FrontEnd.Parse` (`front_end.dfy`) is the whole front end, and its
    contract carries these facts.
- **Examples** (`examples.dfy`, `lexing_examples.dfy`). Concrete
  instances:
  - the token stream of `let five = 5;`, one lexer step at a time;
  - the parse of `a + b * c`;
  - the groupings of `a + b + c` and `-a * b`;
  - octal literals.

## Where the model follows the code rather than the usual description

- A NUL byte inside the input produces an EOF token, and the next call
  lexes the byte after it. EOF is returned for good only at the real end
  of the input (`lexer/lexer.go:24-27, 102-104, 118`). `Tokens` stops
  after that final EOF, and `LexerProperties.OnlyFinalEof` shows that
  without NUL bytes it is the only one.
- `newToken` builds the literal with Go's `string(ch)` conversion on a
  byte. That is the UTF-8 encoding of the code point, so an `ILLEGAL`
  byte at or above 0x80 has a two-byte literal (`Lexer.ByteString`).
- A let statement that fails is not dropped. `parseLetStatement`
  returns a typed nil, which becomes a non-nil `Statement`, so the
  `stmt != nil` filter keeps it (`parser/parser.go:92-93, 109, 122-128`).
  It appears in the program as `NullLet`.
- Parsing does not always terminate. A `let x =` or `return` with no
  later `;` loops forever, because advancing past the end keeps the
  current token at EOF (`parser/parser.go:129-133, 143-145`; the source
  comment says as much). This is an explicit `Hangs` outcome, not a
  precondition.

## Model

| member | source | states |
|---|---|---|
| Token.LookupIdent | token/token.go:128-133 | the kind is IDENT exactly when the text is not a key of the keyword table; otherwise it is a keyword kind whose table spelling is the text; never EOF, ILLEGAL or INT |
| Token.LookupSpelling | token/token.go:12-20 | each of the seven keyword spellings is in the table and looks up to its own keyword kind |
| Token.LookupKeywordInjective | token/token.go:12-20 | two texts that look up to the same keyword are the same text, so the keyword kinds are pairwise distinct |
| Token.NameInjective | token/token.go:23-125 | distinct kinds have distinct string values, so diagnostics name kinds unambiguously and symbol kinds are named by their own spelling |
| Token.LookupCaseSensitive | token/token.go:129-132 | the lookup is an exact match: `Let` and `LET` are identifiers, `let` is the keyword |
| Lexer.ReadChar | lexer/lexer.go:23-31 | the cursor moves to the old read position and the byte there (NUL at or past the end) becomes current; from any state the cursor invariant `readPosition == position + 1` holds afterwards |
| Lexer.New | lexer/lexer.go:16-20 | a fresh lexer is on byte 0 with the cursor invariant established |
| Lexer.PeekChar | lexer/lexer.go:34-40 | the peeked byte is exactly the byte the next `readChar` would make current, and the state does not change |
| Lexer.IsWhitespace | lexer/lexer.go:128-132 | the four bytes the whitespace skip passes over: space, tab, line feed and carriage return; none is NUL, so the skip stops at the end of the input |
| Lexer.IsLetter | lexer/lexer.go:135-137 | ASCII letters and `_`; no letter is NUL or whitespace, so an identifier scan stops at the end of the input |
| Lexer.IsDigit | lexer/lexer.go:140-142 | ASCII digits; no digit is NUL, whitespace or a letter, so the whitespace, identifier and number scans never overlap |
| Lexer.SkipWhitespace | lexer/lexer.go:128-132 | afterwards the current byte is not whitespace, and every byte skipped was whitespace |
| Lexer.ReadIdentifier | lexer/lexer.go:145-151 | the literal is the non-empty input slice of letters from the cursor, and the cursor rests on the first non-letter |
| Lexer.ReadNumber | lexer/lexer.go:154-160 | the literal is the non-empty input slice of digits from the cursor, and the cursor rests on the first non-digit |
| Lexer.ByteString | lexer/lexer.go:123-125 | Go's `string(byte)`: the byte itself below 0x80, otherwise its two-byte UTF-8 encoding, a lead byte 0xC2 or 0xC3 and a continuation byte in 0x80-0xBF whose payload bits decode to the byte |
| Lexer.Switch | lexer/lexer.go:46-117 | the dispatch on the byte after the whitespace always moves the cursor, and only the EOF produced at the end of the input leaves it past the end; the token of each branch is stated by `TwoByteOperators`, `OneByteKinds`, `IdentifierIsMaximalRun`, `NumberIsMaximalRun`, `EofAtNul` and `IllegalExactly` |
| Lexer.NextToken | lexer/lexer.go:43-120 | every call moves the cursor forward, and only the EOF produced at the end of the input leaves it past the end |
| Lexer.TokensFrom | lexer/lexer.go:43-120 | the stream is non-empty and ends with EOF with an empty literal |
| Lexer.Tokens | lexer/lexer.go:16-20 | the stream of a fresh lexer over the input is non-empty and ends with EOF with an empty literal; its contents are stated by `TokensSpellInput`, `TokensLexed` and `LexingExamples.LetFiveTokens` |
| LexerProperties.EofForever | lexer/lexer.go:102-104 | at or past the end of the input every call yields EOF with an empty literal and stays past the end |
| LexerProperties.NthTokenPastEnd | lexer/lexer.go:102-104 | once the input is used up, every later call yields EOF |
| LexerProperties.PullEquivalence | lexer/lexer.go:43-120 | the token of the n-th further `NextToken` call is the n-th token of the stream, or EOF past its end |
| LexerProperties.EofAtNul | lexer/lexer.go:102-104 | EOF is produced exactly when the byte after the whitespace is NUL, with an empty literal and one byte consumed |
| LexerProperties.TwoByteOperators | lexer/lexer.go:52-75 | `==` and `!=` are one token and consume two bytes; `=` and `!` not followed by `=` give ASSIGN and BANG and consume one |
| LexerProperties.IdentifierIsMaximalRun | lexer/lexer.go:106-109 | a token starting with a letter is the maximal letter run at the cursor, classified by the keyword table, with no extra advance |
| LexerProperties.NumberIsMaximalRun | lexer/lexer.go:110-113 | a token starting with a digit is INT with the maximal digit run as literal, with no extra advance |
| LexerProperties.SymbolSpelledAsName | lexer/lexer.go:52-101 | an operator or delimiter token's literal is its kind's name and exactly the bytes it consumed |
| LexerProperties.OneByteKinds | lexer/lexer.go:62-100 | the one-byte cases yield exactly the operators and delimiters named by that byte, for every symbol byte other than `=` and `!` |
| LexerProperties.SymbolBytes | token/token.go:49-99 | the symbol bytes are exactly the first bytes of the operator and delimiter names |
| LexerProperties.SwitchSymbolByte | lexer/lexer.go:52-101 | a symbol byte under the cursor always yields an operator or delimiter token |
| LexerProperties.IllegalExactly | lexer/lexer.go:105-116 | ILLEGAL is produced exactly for a byte that starts no other token; its literal is `string(ch)` and it consumes one byte |
| LexerProperties.NextTokenLexed | lexer/lexer.go:43-120 | every token has the shape of its kind: EOF empty, identifiers non-keyword letter runs, INT digit runs, keywords and symbols their own spelling, ILLEGAL one converted byte |
| LexerProperties.TokensLexed | lexer/lexer.go:43-120 | every token of the stream has the shape of its kind |
| LexerProperties.TokensBounded | lexer/lexer.go:114-118 | at most one token per remaining input byte precedes the final EOF |
| LexerProperties.OnlyFinalEof | lexer/lexer.go:102-104 | on input without NUL bytes the only EOF in the stream is the last token |
| LexerProperties.ConsumedLiteral | lexer/lexer.go:43-120 | for a 7-bit, non-NUL byte under the cursor, the literal is exactly the bytes the step consumed, and none is whitespace |
| LexerProperties.TokensSpellInput | lexer/lexer.go:43-132 | on 7-bit, NUL-free input the concatenated literals are the input with its whitespace removed |
| Ast.Identifier.TokenLiteral | ast/ast.go:35-37 | no contract: the literal of the identifier's token; `ParserProperties.IdentifierLeaf` shows the parser makes it the current token |
| Ast.Identifier.String | ast/ast.go:42 | no contract: the identifier's name; the parser sets it to the token's literal (`Parser.ParseIdentifier`) |
| Ast.Expr.TokenLiteral | ast/ast.go:83-233 | no contract: the literal of the node's own token, the operator for prefix and infix nodes; `ParserProperties.ExpressionParsed` places that token among the consumed ones |
| Ast.Expr.String | ast/ast.go:88-243 | no contract: the fully parenthesised rendering, defined only when no operand is nil; `AstProperties.RenderingBalanced` and `AstProperties.RenderingErasesToTokens` state what it is |
| Ast.Stmt.TokenLiteral | ast/ast.go:108-171 | no contract: the literal of the statement's first token, undefined on the nil let because Go would dereference nil |
| Ast.Stmt.String | ast/ast.go:112-185 | no contract: `let x = V;`, `return V;` or the expression, with an absent value rendered as nothing; `ProgramProperties.NoErrorsRenderable` shows a program parsed without diagnostics meets its precondition |
| Ast.OptionString | ast/ast.go:120-122 | no contract: a nil value renders as nothing, as the `!= nil` guards of the statement renderings do |
| Ast.Program.TokenLiteral | ast/ast.go:54-59 | no contract: the first statement's token literal, or nothing for an empty program |
| Ast.Program.String | ast/ast.go:61-67 | no contract: the statements' renderings concatenated in order; `AstProperties.ConcatAppend` states how it splits |
| Ast.Concat | ast/ast.go:61-67 | no contract: the loop of `Program.String`; `AstProperties.ConcatAppend` shows it distributes over appending statement lists |
| AstProperties.RenderingBalanced | ast/ast.go:205-243 | with identifier and integer leaves, every rendering has balanced parentheses, and an operator node's rendering is one parenthesised group |
| AstProperties.ConcatAppend | ast/ast.go:61-67 | rendering a program distributes over splitting its statement list |
| AstProperties.RenderingErasesToTokens | ast/ast.go:205-243 | with the parentheses and spaces the rendering inserts erased, the rendering is the node's token literals in source order |
| IntegerSyntax.Radix | parser/parser.go:190 | base 0 selects octal exactly for a leading `0` (dropped) and decimal otherwise |
| IntegerSyntax.ParseInt64 | parser/parser.go:190-197 | the parse succeeds exactly when every digit is a digit of the base and the value fits a signed 64-bit integer, and the value is the positional value of the digits in that base, so `0010` is eight and `007` is seven |
| IntegerSyntax.FormatValue | parser/parser.go:190 | the reference rendering of n in base 8 or 10 denotes n |
| IntegerSyntax.DecimalRoundTrip | parser/parser.go:190 | every int64 value written in decimal parses back to itself |
| IntegerSyntax.OctalRoundTrip | parser/parser.go:190 | every int64 value written in octal behind a `0` parses back to itself |
| IntegerSyntax.DecimalOverflow | parser/parser.go:190-191 | a decimal value above 2^63-1 fails to parse |
| IntegerSyntax.OctalRejectsEightAndNine | parser/parser.go:190-191 | a literal with a leading `0` and an `8` or `9` after it fails to parse |
| Parser.PrecedenceOf | parser/parser.go:263-277 | the precedence lies between LOWEST and PRODUCT and is above LOWEST exactly for the kinds with an infix function |
| Parser.CurPrecedence | parser/parser.go:271-277 | the current token's precedence lies between LOWEST and PRODUCT and is above LOWEST exactly when its kind has an infix function |
| Parser.PeekPrecedence | parser/parser.go:263-269 | the peek token's precedence lies between LOWEST and PRODUCT and is above LOWEST exactly when its kind has an infix function |
| Parser.New | parser/parser.go:57-83 | the window starts on the lexer's first two tokens, with no diagnostics |
| Parser.NextToken | parser/parser.go:227-230 | the peek token becomes current and the token after it the new peek; diagnostics are unchanged |
| Parser.PeekError | parser/parser.go:258-261 | appends exactly one diagnostic, "expected next token to be T, got U instead", and does not move |
| Parser.NoPrefixParseFnError | parser/parser.go:279-282 | appends exactly one diagnostic, "no prefix parse function for T found", and does not move |
| Parser.ApplyPrefix | parser/parser.go:165-170 | runs the prefix function registered for the current kind: the window stays in the stream and never moves back, diagnostics only grow, and an absent expression always comes with a new diagnostic |
| Parser.ExpectPeek | parser/parser.go:243-250 | succeeds exactly when the peek token has the expected kind; then it advances one token with no diagnostic, otherwise it stays put and appends the peek diagnostic |
| Parser.ParseIdentifier | parser/parser.go:101-103 | an identifier node for the current token, named and rendered by its literal |
| Parser.ParseIntegerLiteral | parser/parser.go:187-200 | a node holding the parsed value exactly when the literal parses as int64; otherwise no node and the diagnostic `could not parse "LIT" as integer`; never moves |
| Parser.ParsePrefixExpression | parser/parser.go:203-211 | a prefix node for the current operator that consumes at least its operand's first token |
| Parser.ParseInfixExpression | parser/parser.go:214-224 | a binary node for the current operator with the given left operand, consuming at least the operator and its right operand's first token |
| Parser.ParseExpression | parser/parser.go:164-184 | when the current kind has no prefix function: no expression, exactly one "no prefix parse function" diagnostic, and no advance; diagnostics only ever grow |
| Parser.InfixLoop | parser/parser.go:172-183 | the loop never loses a present expression and only moves forward within the stream |
| Parser.FirstSemicolonIsFirst | parser/parser.go:131-133 | the reference index of the first `;` has no `;` before it, and its absence means none follows |
| Parser.SkipToSemicolon | parser/parser.go:129-133 | the skip loop hangs exactly when no `;` follows, and otherwise stops on the first one without a diagnostic |
| Parser.ParseLetStatement | parser/parser.go:120-135 | a failed let is the nil let with exactly one new diagnostic; a successful one adds none and ends on `;`; it hangs only after `let <name> =` |
| Parser.ParseReturnStatement | parser/parser.go:138-148 | a return statement with no value, ending on a later `;`, without a diagnostic |
| Parser.ParseExpressionStatement | parser/parser.go:151-161 | the statement holds the expression parsed at LOWEST, and a `;` right after it is consumed |
| Parser.ParseStatement | parser/parser.go:106-117 | only a let statement can be the nil let, and only a let or return can hang |
| Parser.ParseStatements | parser/parser.go:90-96 | a halting run ends on EOF with at most one statement per remaining token |
| Parser.ParseProgram | parser/parser.go:86-98 | the program is the statement run, hangs exactly when it does, and ends on EOF |
| FrontEnd.Parse | parser/parser.go:86-98 | the parse never ends exactly when the statement loop begins a statement that never ends, and such a statement starts on a let or return token with no `;` after it; when it ends there are no more statements than tokens and no more nil lets than diagnostics, and with no diagnostic the program has no nil let and renders |
| StatementProperties.LetWithoutName | parser/parser.go:120-124 | `let` not followed by a name gives the nil let, stays on `let`, and reports the kind found instead of IDENT |
| StatementProperties.LetWithoutAssign | parser/parser.go:125-128 | `let <name>` not followed by `=` gives the nil let, stays on the name, and reports the kind found instead of `=` |
| StatementProperties.LetSkipsValue | parser/parser.go:120-135 | after `let <name> =` the statement is settled by the skip loop started on the token after `=` |
| StatementProperties.LetHangsExactly | parser/parser.go:129-133 | `let <name> =` hangs exactly when no `;` follows the `=` |
| StatementProperties.LetEndsAtSemicolon | parser/parser.go:120-135 | `let <name> = ... ;` binds the name, leaves the value absent, and ends on the first `;` after the `=` |
| StatementProperties.ReturnHangsExactly | parser/parser.go:138-145 | `return` hangs exactly when no `;` follows it |
| StatementProperties.ReturnEndsAtSemicolon | parser/parser.go:138-148 | `return ... ;` ends on the first `;` after `return`, with no value |
| SkipLoop.SkipToSemicolonIsTheLoop | parser/parser.go:131-133 | the recursive skip is the source's `for !curTokenIs(SEMICOLON) { nextToken() }`: it hangs exactly when no number of advances reaches `;`, else it is the advance to the first one |
| Advancing.CurAdvance | parser/parser.go:227-230 | after n advances the current token is `;` exactly when the stream has `;` at that index |
| ParserProperties.PrecedenceLadder | parser/parser.go:12-39 | LOWEST < EQUALS < LESSGREATER < SUM < PRODUCT < PREFIX < CALL, and each operator kind has its rung |
| ParserProperties.NilInfixNeverFires | parser/parser.go:172-176 | whenever the loop would continue, the peek kind has an infix function, so the nil-infix early return is dead code |
| ParserProperties.ExpressionParsed | parser/parser.go:164-224 | an expression parsed without a new diagnostic is present, made of exactly the tokens consumed, grouped by precedence (left-associative, prefix tightest), and ends where the loop condition says |
| ParserProperties.IdentifierLeaf | parser/parser.go:101-103 | an identifier is a parsed node made of the current token |
| ParserProperties.IntegerLiteralLeaf | parser/parser.go:187-200 | an integer literal parsed without a diagnostic is a parsed node made of the current token |
| ParserProperties.PrefixParsed | parser/parser.go:203-211 | a prefix operator and its operand cover the tokens consumed, with the operand grouped at PREFIX |
| ParserProperties.InfixParsed | parser/parser.go:214-224 | a binary node covers its left operand's tokens, the operator and the right operand's, with the right operand grouped at the operator's precedence |
| ParserProperties.InfixLoopParsed | parser/parser.go:172-183 | the loop keeps covering the tokens from the expression's start and keeps it grouped |
| ParserProperties.LoopStepParsed | parser/parser.go:178-180 | one turn of the loop keeps its invariant and moves forward |
| ProgramProperties.StatementsUnfold | parser/parser.go:90-96 | each turn of the statement loop appends exactly the statement just parsed, in source order |
| ProgramProperties.StatementClean | parser/parser.go:106-117 | a statement parsed without a diagnostic is a named let, a return, or an expression statement holding a parsed expression |
| ProgramProperties.StatementsClean | parser/parser.go:86-98 | every statement of a run that reported nothing is clean |
| ProgramProperties.NoErrorsRenderable | parser/parser.go:86-98 | a program parsed without diagnostics has no nil let and renders without a nil dereference |
| ProgramProperties.NullLetsReported | parser/parser.go:120-128 | each nil let in the program comes with a diagnostic of its own |
| ProgramProperties.FailedLetKept | parser/parser.go:90-96 | a let without a name is kept as the nil let, with the diagnostic for its peek token |
| ProgramProperties.HangsNeedsUnterminatedStatement | parser/parser.go:129-145 | a parse that never ends begins, in a state the statement loop reaches, a statement that never ends, and its first token is a let or return with no `;` anywhere after it |
| ProgramProperties.HangsExactlyAtVisitedStatement | parser/parser.go:89-95 | the statement loop never ends exactly when, in some state it reaches, the statement it begins never ends |
| ProgramProperties.ReturnWithoutSemicolonHangs | parser/parser.go:138-148 | a return with no `;` after it makes the whole program hang |
| LexingExamples.LetFiveTokens | lexer/lexer.go:43-120 | `let five = 5;` lexes to LET `let`, IDENT `five`, ASSIGN `=`, INT `5`, SEMICOLON `;` and the final EOF with an empty literal |
| Examples.ProductInsideSum | parser/parser.go:164-224 | `a + b * c` parses to the sum whose right operand is the product |
| Examples.SumTreeRenders | ast/ast.go:235-243 | that tree renders as `(a + (b * c))` |
| Examples.IntegerExamples | parser/parser.go:190 | `010` is eight, `08` fails, and `0` is zero |
| GroupingExamples.SumsGroupLeft | parser/parser.go:220-222 | of the two trees of `a + b + c` only `((a + b) + c)` is grouped |
| GroupingExamples.NegationInsideProduct | parser/parser.go:209 | of the two trees of `-a * b` only `((-a) * b)` is grouped |

## Left out

- The `*lexer.Lexer` pointer inside the parser. The parser reads a
  precomputed token sequence instead; `LexerProperties.PullEquivalence`
  shows a consumer sees the same tokens.
- `registerPrefix`/`registerInfix` and the map-of-closure dispatch
  (`parser/parser.go:284-292`). They are the constant tables `PrefixFns`
  and `InfixFns` and a `match`, since nothing registers anything after
  `New`.
- `curTokenIs`/`peekTokenIs`. They are written as kind comparisons.
- Go runtime panics. Rendering an expression with an absent operand,
  and rendering or calling `TokenLiteral` on the nil let, panic in Go.
  Here those calls have a precondition (`Complete`, `Renderable`,
  `!NullLet?`).
- `strconv.ParseInt` beyond what lexed literals reach: signs, `0x`/`0b`
  prefixes and underscores cannot occur in a digit run.
- `fmt.Sprintf`'s `%q`: it is modelled only for digit strings, which it
  quotes unchanged.
- Machine integer widths of the cursor positions. Positions are
  unbounded; Go's `int` cannot overflow on any input that fits in memory.
- A render-then-parse round trip. `(` has no prefix function, and let and
  return statements drop their values, so a rendering does not parse back
  to the same tree.
- Evaluation, the REPL and concurrency. None of them are part of these
  files.
- Parser.ParseLetStatement: the contract on the function states the
  shape of each outcome only; the exact result in each case is stated by
  the StatementProperties lemmas.
- Lexer.TokensFrom: the length bound is stated by
  `LexerProperties.TokensBounded` rather than on the function itself.
