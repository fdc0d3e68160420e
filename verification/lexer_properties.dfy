/** What the lexer promises about the tokens it produces. */
module LexerProperties {
  import opened Wrappers
  import opened Token
  import opened Lexer

  /** Once the cursor is at or past the end of the input, every call yields
      EOF with an empty literal and the cursor stays past the end. */
  lemma EofForever(l: Lexer)
    requires Valid(l) && l.position >= |l.input|
    ensures NextToken(l).0 == Token(EOF, [])
    ensures NextToken(l).1.position > |l.input|
  {
    assert SkipWhitespace(l) == l;
  }

  lemma {:induction false} NthTokenPastEnd(l: Lexer, n: nat)
    requires Valid(l) && l.position >= |l.input|
    ensures NthToken(l, n) == Token(EOF, [])
    decreases n
  {
    EofForever(l);
    if n > 0 {
      NthTokenPastEnd(NextToken(l).1, n - 1);
    }
  }

  /** Pulling tokens one call at a time gives exactly the token stream,
      padded with EOF: a consumer that reads past the end of `TokensFrom(l)`
      would have received EOF from the lexer. */
  lemma {:induction false} PullEquivalence(l: Lexer, n: nat)
    requires Valid(l)
    ensures NthToken(l, n) == At(TokensFrom(l), n)
    decreases n
  {
    var (tok, r) := NextToken(l);
    if n > 0 {
      if r.position > |l.input| {
        NthTokenPastEnd(r, n - 1);
      } else {
        PullEquivalence(r, n - 1);
      }
    }
  }

  /** EOF is produced exactly when the first byte after the whitespace is
      NUL: at the end of the input, or at a NUL byte inside it. Its literal
      is empty and it moves the cursor by one. */
  lemma EofAtNul(l: Lexer)
    requires Valid(l)
    ensures var s := SkipWhitespace(l);
      && (NextToken(l).0.kind == EOF <==> s.ch == NUL)
      && (s.ch == NUL ==> NextToken(l).0.literal == [] && NextToken(l).1.position == s.position + 1)
  {
  }

  /** `=` and `!` followed by `=` give the two-byte operators and consume
      both bytes; otherwise they give the one-byte tokens and consume one. */
  lemma TwoByteOperators(l: Lexer)
    requires Valid(l)
    ensures var s := SkipWhitespace(l); var next := ByteAt(l.input, s.position + 1);
      var (tok, r) := NextToken(l);
      && (s.ch == '=' && next == '=' ==> tok == Token(EQ, "==") && r.position == s.position + 2)
      && (s.ch == '=' && next != '=' ==> tok == Token(ASSIGN, "=") && r.position == s.position + 1)
      && (s.ch == '!' && next == '=' ==> tok == Token(NEQ, "!=") && r.position == s.position + 2)
      && (s.ch == '!' && next != '=' ==> tok == Token(BANG, "!") && r.position == s.position + 1)
  {
  }

  /** A token starting with a letter is the maximal run of letters at the
      cursor, classified by the keyword table; the cursor rests on the first
      byte after the run. */
  lemma IdentifierIsMaximalRun(l: Lexer)
    requires Valid(l) && IsLetter(SkipWhitespace(l).ch)
    ensures var s := SkipWhitespace(l); var (tok, r) := NextToken(l);
      && s.position < r.position <= |l.input|
      && tok.literal == l.input[s.position..r.position]
      && (forall i :: s.position <= i < r.position ==> IsLetter(l.input[i]))
      && !IsLetter(ByteAt(l.input, r.position))
      && tok.kind == LookupIdent(tok.literal)
  {
  }

  /** A token starting with a digit is an INT whose literal is the maximal
      run of digits at the cursor; the cursor rests on the first byte after
      the run. */
  lemma NumberIsMaximalRun(l: Lexer)
    requires Valid(l) && IsDigit(SkipWhitespace(l).ch)
    ensures var s := SkipWhitespace(l); var (tok, r) := NextToken(l);
      && s.position < r.position <= |l.input|
      && tok == Token(INT, l.input[s.position..r.position])
      && (forall i :: s.position <= i < r.position ==> IsDigit(l.input[i]))
      && !IsDigit(ByteAt(l.input, r.position))
  {
  }

  /** An operator or delimiter token is spelled exactly as its kind's name,
      and that spelling is what it consumed from the input. */
  lemma SymbolSpelledAsName(l: Lexer)
    requires Valid(l) && IsSymbol(NextToken(l).0.kind)
    ensures var s := SkipWhitespace(l); var (tok, r) := NextToken(l);
      && tok.literal == Name(tok.kind)
      && r.position <= |l.input|
      && tok.literal == l.input[s.position..r.position]
  {
    var s := SkipWhitespace(l);
    if s.ch == '=' || s.ch == '!' {
      SwitchTwoByteSymbol(s);
    } else {
      SwitchOneByteName(s);
      SwitchOneByteSlice(s);
    }
  }

  lemma SwitchTwoByteSymbol(s: Lexer)
    requires Valid(s) && (s.ch == '=' || s.ch == '!')
    ensures var (tok, r) := Switch(s);
      && tok.literal == Name(tok.kind)
      && r.position <= |s.input|
      && tok.literal == s.input[s.position..r.position]
  {
    var (tok, r) := Switch(s);
    assert s.position < |s.input| && s.input[s.position] == s.ch;
    if PeekChar(s) == '=' {
      assert s.position + 1 < |s.input| && s.input[s.position + 1] == '=';
      assert ByteString(s.ch) + ByteString('=') == [s.ch, '='];
      assert tok.literal == [s.ch, '='] && r.position == s.position + 2;
      SliceTwo(s.input, s.position);
    } else {
      assert tok.literal == [s.ch] && r.position == s.position + 1;
      SliceOne(s.input, s.position);
    }
  }

  lemma SliceOne(a: Bytes, i: nat)
    requires i < |a|
    ensures a[i..i + 1] == [a[i]]
  {
  }

  lemma SliceTwo(a: Bytes, i: nat)
    requires i + 1 < |a|
    ensures a[i..i + 2] == [a[i], a[i + 1]]
  {
  }

  lemma SwitchOneByteName(s: Lexer)
    requires Valid(s) && IsSymbol(Switch(s).0.kind) && s.ch != '=' && s.ch != '!'
    ensures Switch(s).0.literal == Name(Switch(s).0.kind)
  {
    OneByteKinds(s.ch);
  }

  lemma SwitchOneByteSlice(s: Lexer)
    requires Valid(s) && IsSymbol(Switch(s).0.kind) && s.ch != '=' && s.ch != '!'
    ensures var (tok, r) := Switch(s);
      && r.position <= |s.input|
      && tok.literal == s.input[s.position..r.position]
  {
    OneByteKinds(s.ch);
    assert OneByteKind(s.ch).Some?;
    assert s.position < |s.input| && s.input[s.position] == s.ch;
    SliceOne(s.input, s.position);
  }

  /** The one-byte tokens of the dispatch are the operators and delimiters
      other than those starting with `=` or `!`, each spelled as its one
      byte. */
  lemma OneByteKinds(c: Byte)
    ensures OneByteKind(c).Some? ==> IsSymbol(OneByteKind(c).value) && Name(OneByteKind(c).value) == [c]
    ensures OneByteKind(c).Some? <==> IsSymbolByte(c) && c != '=' && c != '!'
  {
  }

  /** The first bytes of the operators and delimiters. */
  predicate IsSymbolByte(c: Byte)
  {
    c == '=' || c == '+' || c == '-' || c == '!' || c == '*' || c == '/' || c == '<' || c == '>'
    || c == ',' || c == '{' || c == '(' || c == '}' || c == ')' || c == ';'
  }

  /** These bytes are exactly the first bytes of the names of the operator
      and delimiter kinds. */
  lemma SymbolBytes(c: Byte)
    ensures IsSymbolByte(c) <==> exists k :: IsSymbol(k) && Name(k)[0] == c
  {
    if IsSymbolByte(c) {
      if c == '=' { assert Name(ASSIGN)[0] == c; }
      else if c == '+' { assert Name(PLUS)[0] == c; }
      else if c == '-' { assert Name(MINUS)[0] == c; }
      else if c == '!' { assert Name(BANG)[0] == c; }
      else if c == '*' { assert Name(ASTERISK)[0] == c; }
      else if c == '/' { assert Name(SLASH)[0] == c; }
      else if c == '<' { assert Name(LT)[0] == c; }
      else if c == '>' { assert Name(GT)[0] == c; }
      else if c == ',' { assert Name(COMMA)[0] == c; }
      else if c == '{' { assert Name(LBRACE)[0] == c; }
      else if c == '(' { assert Name(LPAREN)[0] == c; }
      else if c == '}' { assert Name(RBRACE)[0] == c; }
      else if c == ')' { assert Name(RPAREN)[0] == c; }
      else { assert Name(SEMICOLON)[0] == c; }
    }
  }

  /** The first byte of an operator or delimiter yields one. */
  lemma SwitchSymbolByte(s: Lexer)
    requires Valid(s) && IsSymbolByte(s.ch)
    ensures IsSymbol(Switch(s).0.kind)
  {
  }

  /** A byte that starts no token: not NUL, whitespace, a letter, a digit
      or the first byte of an operator or delimiter. */
  predicate StartsNothing(c: Byte)
  {
    c != NUL && !IsWhitespace(c) && !IsLetter(c) && !IsDigit(c) && !IsSymbolByte(c)
  }

  /** ILLEGAL is produced exactly for a byte that starts nothing; its literal
      is Go's string conversion of that byte and it consumes one byte. */
  lemma IllegalExactly(l: Lexer)
    requires Valid(l)
    ensures var s := SkipWhitespace(l); var (tok, r) := NextToken(l);
      && (tok.kind == ILLEGAL <==> StartsNothing(s.ch))
      && (tok.kind == ILLEGAL ==> tok.literal == ByteString(s.ch) && r.position == s.position + 1)
  {
    var s := SkipWhitespace(l);
    if IsSymbolByte(s.ch) {
      SwitchSymbolByte(s);
    }
  }

  predicate AllLetters(s: Bytes)
  {
    forall i :: 0 <= i < |s| ==> IsLetter(s[i])
  }

  predicate AllDigits(s: Bytes)
  {
    forall i :: 0 <= i < |s| ==> IsDigit(s[i])
  }

  /** The shape of every token the lexer can produce, by kind. */
  predicate Lexed(t: Token)
  {
    match t.kind
    case EOF => t.literal == []
    case ILLEGAL => 1 <= |t.literal| <= 2 && StartsNothing(t.literal[0])
    case IDENT => |t.literal| >= 1 && AllLetters(t.literal) && t.literal !in Keywords
    case INT => |t.literal| >= 1 && AllDigits(t.literal)
    case _ => if IsKeyword(t.kind) then t.literal == Spelling(t.kind) else t.literal == Name(t.kind)
  }

  /** Every token produced by one step has the shape of its kind. */
  lemma NextTokenLexed(l: Lexer)
    requires Valid(l)
    ensures Lexed(NextToken(l).0)
  {
    var s := SkipWhitespace(l);
    var tok := NextToken(l).0;
    if s.ch == NUL {
      EofAtNul(l);
    } else if IsLetter(s.ch) {
      IdentifierIsMaximalRun(l);
      assert AllLetters(tok.literal);
    } else if IsDigit(s.ch) {
      NumberIsMaximalRun(l);
      assert AllDigits(tok.literal);
    } else if IsSymbolByte(s.ch) {
      SwitchSymbolByte(s);
      SymbolSpelledAsName(l);
    } else {
      IllegalExactly(l);
      IllegalLexed(s.ch);
    }
  }

  lemma IllegalLexed(c: Byte)
    requires StartsNothing(c)
    ensures Lexed(Token(ILLEGAL, ByteString(c)))
  {
    if c as int >= 0x80 {
      assert ByteString(c)[0] as int >= 0xC0;
    }
  }

  /** Every token of a stream has the shape of its kind. */
  lemma {:induction false} TokensLexed(l: Lexer)
    requires Valid(l)
    ensures forall i :: 0 <= i < |TokensFrom(l)| ==> Lexed(TokensFrom(l)[i])
    decreases |l.input| + 1 - l.position
  {
    var (tok, r) := NextToken(l);
    NextTokenLexed(l);
    if !(r.position > |l.input|) {
      TokensLexed(r);
      assert TokensFrom(l) == [tok] + TokensFrom(r);
    }
  }

  /** Every step before the final EOF consumes at least one byte, so at
      most one token per remaining byte precedes it. */
  lemma {:induction false} TokensBounded(l: Lexer)
    requires Valid(l) && l.position <= |l.input|
    ensures |TokensFrom(l)| + l.position <= |l.input| + 1
    decreases |l.input| + 1 - l.position
  {
    var (tok, r) := NextToken(l);
    if !(r.position > |l.input|) {
      TokensBounded(r);
      assert TokensFrom(l) == [tok] + TokensFrom(r);
    }
  }

  /** Without NUL bytes in the input, the only EOF is the final one. */
  lemma {:induction false} OnlyFinalEof(l: Lexer)
    requires Valid(l)
    requires forall i :: l.position <= i < |l.input| ==> l.input[i] != NUL
    ensures forall i :: 0 <= i < |TokensFrom(l)| - 1 ==> TokensFrom(l)[i].kind != EOF
    decreases |l.input| + 1 - l.position
  {
    var (tok, r) := NextToken(l);
    EofAtNul(l);
    if !(r.position > |l.input|) {
      assert tok.kind != EOF;
      OnlyFinalEof(r);
      assert TokensFrom(l) == [tok] + TokensFrom(r);
    }
  }

  /** The input with whitespace removed. */
  function Strip(s: Bytes): Bytes
  {
    if |s| == 0 then []
    else (if IsWhitespace(s[0]) then [] else [s[0]]) + Strip(s[1..])
  }

  /** 7-bit input without NUL bytes. */
  predicate Plain(s: Bytes)
  {
    forall i :: 0 <= i < |s| ==> NUL < s[i] && s[i] as int < 0x80
  }

  lemma {:induction false} StripAppend(a: Bytes, b: Bytes)
    ensures Strip(a + b) == Strip(a) + Strip(b)
    decreases |a|
  {
    if |a| > 0 {
      assert (a + b)[0] == a[0] && (a + b)[1..] == a[1..] + b;
      StripAppend(a[1..], b);
    } else {
      assert a + b == b;
    }
  }

  lemma {:induction false} StripKeeps(s: Bytes)
    requires forall i :: 0 <= i < |s| ==> !IsWhitespace(s[i])
    ensures Strip(s) == s
    decreases |s|
  {
    if |s| > 0 {
      StripKeeps(s[1..]);
    }
  }

  lemma {:induction false} StripDrops(s: Bytes)
    requires forall i :: 0 <= i < |s| ==> IsWhitespace(s[i])
    ensures Strip(s) == []
    decreases |s|
  {
    if |s| > 0 {
      StripDrops(s[1..]);
    }
  }

  /** For a 7-bit, NUL-free byte under the cursor, the token's literal is
      exactly the bytes the step consumed, and none of them is whitespace. */
  lemma ConsumedLiteral(l: Lexer)
    requires Valid(l)
    requires var s := SkipWhitespace(l); s.ch != NUL && s.ch as int < 0x80
    ensures var s := SkipWhitespace(l); var (tok, r) := NextToken(l);
      && s.position < r.position <= |l.input|
      && tok.literal == l.input[s.position..r.position]
      && forall i :: 0 <= i < |tok.literal| ==> !IsWhitespace(tok.literal[i])
  {
    var s := SkipWhitespace(l);
    var (tok, r) := NextToken(l);
    if IsLetter(s.ch) {
      IdentifierIsMaximalRun(l);
    } else if IsDigit(s.ch) {
      NumberIsMaximalRun(l);
    } else if IsSymbolByte(s.ch) {
      SwitchSymbolByte(s);
      SymbolSpelledAsName(l);
      NamesHaveNoWhitespace(tok.kind);
    } else {
      IllegalExactly(l);
      assert s.position < |l.input| && l.input[s.position] == s.ch;
      SliceOne(l.input, s.position);
    }
  }

  lemma NamesHaveNoWhitespace(k: Kind)
    ensures forall i :: 0 <= i < |Name(k)| ==> !IsWhitespace(Name(k)[i])
  {
  }

  /** Lexing loses nothing but whitespace: on 7-bit, NUL-free input the
      literals of the tokens, concatenated, are the input without its
      whitespace. */
  lemma {:induction false} TokensSpellInput(l: Lexer)
    requires Valid(l) && l.position <= |l.input| && Plain(l.input[l.position..])
    ensures Spell(TokensFrom(l)) == Strip(l.input[l.position..])
    decreases |l.input| + 1 - l.position
  {
    var s := SkipWhitespace(l);
    var (tok, r) := NextToken(l);
    StripWhitespacePrefix(l);
    if s.position >= |l.input| {
      EofAtNul(l);
      assert TokensFrom(l) == [tok];
      assert Spell([tok]) == tok.literal + Spell([]);
    } else {
      StripTokenStep(l);
      PlainSuffix(l.input, l.position, r.position);
      TokensSpellInput(r);
      assert TokensFrom(l) == [tok] + TokensFrom(r);
      assert Spell([tok] + TokensFrom(r)) == tok.literal + Spell(TokensFrom(r));
    }
  }

  lemma StripWhitespacePrefix(l: Lexer)
    requires Valid(l) && l.position <= |l.input|
    ensures var s := SkipWhitespace(l);
      s.position <= |l.input| && Strip(l.input[l.position..]) == Strip(l.input[s.position..])
  {
    var s := SkipWhitespace(l);
    assert l.input[l.position..] == l.input[l.position..s.position] + l.input[s.position..];
    StripAppend(l.input[l.position..s.position], l.input[s.position..]);
    StripDrops(l.input[l.position..s.position]);
  }

  lemma StripTokenStep(l: Lexer)
    requires Valid(l) && l.position <= |l.input| && Plain(l.input[l.position..])
    requires SkipWhitespace(l).position < |l.input|
    ensures var s := SkipWhitespace(l); var (tok, r) := NextToken(l);
      && tok.kind != EOF
      && r.position <= |l.input|
      && Strip(l.input[s.position..]) == tok.literal + Strip(l.input[r.position..])
  {
    var s := SkipWhitespace(l);
    var (tok, r) := NextToken(l);
    assert s.ch == l.input[l.position..][s.position - l.position];
    ConsumedLiteral(l);
    EofAtNul(l);
    assert l.input[s.position..] == l.input[s.position..r.position] + l.input[r.position..];
    assert l.input[s.position..] == tok.literal + l.input[r.position..];
    StripAppend(tok.literal, l.input[r.position..]);
    StripKeeps(tok.literal);
  }

  lemma PlainSuffix(s: Bytes, a: nat, b: nat)
    requires a <= b <= |s| && Plain(s[a..])
    ensures Plain(s[b..])
  {
    forall i | 0 <= i < |s| - b
      ensures NUL < s[b..][i] && s[b..][i] as int < 0x80
    {
      assert s[b..][i] == s[a..][b - a + i];
    }
  }
}
