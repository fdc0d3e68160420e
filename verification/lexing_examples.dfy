/** The lexer on a short statement, one `NextToken` call at a time:
    `let five = 5;` becomes a keyword, a name, `=`, an integer, `;` and the
    final EOF. */
module LexingExamples {
  import opened Token
  import opened Lexer

  function Input(): Bytes
  {
    "let five = 5;"
  }

  // The literals of the tokens, one function each so that every string
  // display is checked to be a byte string once.
  function LetText(): Bytes { "let" }
  function FiveText(): Bytes { "five" }
  function AssignText(): Bytes { "=" }
  function FiveDigit(): Bytes { "5" }
  function SemicolonText(): Bytes { ";" }

  /** The lexer state with the cursor on byte `i` of the input. */
  function Cursor(i: nat): Lexer
  {
    Lexer(Input(), i, i + 1, ByteAt(Input(), i))
  }

  lemma ReadMoves(i: nat)
    ensures ReadChar(Cursor(i)) == Cursor(i + 1)
  {
  }

  /** A scan on a byte it accepts moves on to the next byte. */
  lemma ScanOn(i: nat, p: Byte -> bool)
    requires !p(NUL) && p(ByteAt(Input(), i))
    ensures ScanWhile(Cursor(i), p) == ScanWhile(Cursor(i + 1), p)
  {
    ReadMoves(i);
  }

  /** A scan on a byte it rejects stays where it is. */
  lemma ScanOff(i: nat, p: Byte -> bool)
    requires !p(NUL) && !p(ByteAt(Input(), i))
    ensures ScanWhile(Cursor(i), p) == Cursor(i)
  {
  }

  /** A letter under the cursor: the identifier path of the dispatch. */
  lemma LetterDispatch(i: nat, word: Bytes, j: nat)
    requires IsLetter(ByteAt(Input(), i)) && ReadIdentifier(Cursor(i)) == (word, Cursor(j))
    ensures Switch(Cursor(i)) == (Token(LookupIdent(word), word), Cursor(j))
  {
    assert OneByteKind(ByteAt(Input(), i)).None?;
  }

  lemma EtScan()
    ensures ScanWhile(Cursor(1), IsLetter) == Cursor(3)
  {
    ScanOn(1, IsLetter);
    ScanOn(2, IsLetter);
    ScanOff(3, IsLetter);
  }

  lemma LetScan()
    ensures ScanWhile(Cursor(0), IsLetter) == Cursor(3)
  {
    ScanOn(0, IsLetter);
    EtScan();
  }

  lemma LetWord()
    ensures ReadIdentifier(Cursor(0)) == (LetText(), Cursor(3))
  {
    LetScan();
    assert Input()[0..3] == LetText();
  }

  lemma LetStep()
    ensures NextToken(Cursor(0)) == (Token(LET, LetText()), Cursor(3))
  {
    ScanOff(0, IsWhitespace);
    assert SkipWhitespace(Cursor(0)) == Cursor(0);
    LetWord();
    LetterDispatch(0, LetText(), 3);
    LookupSpelling(LET);
  }

  lemma FiveScan()
    ensures ScanWhile(Cursor(4), IsLetter) == Cursor(8)
  {
    ScanOn(4, IsLetter);
    ScanOn(5, IsLetter);
    ScanOn(6, IsLetter);
    ScanOn(7, IsLetter);
    ScanOff(8, IsLetter);
  }

  lemma FiveWord()
    ensures ReadIdentifier(Cursor(4)) == (FiveText(), Cursor(8))
  {
    FiveScan();
    assert Input()[4..8] == FiveText();
  }

  /** `five` is no keyword. */
  lemma FiveIsName()
    ensures LookupIdent(FiveText()) == IDENT
  {
    assert FiveText() !in Keywords;
  }

  lemma FiveStep()
    ensures NextToken(Cursor(3)) == (Token(IDENT, FiveText()), Cursor(8))
  {
    ScanOn(3, IsWhitespace);
    ScanOff(4, IsWhitespace);
    assert SkipWhitespace(Cursor(3)) == Cursor(4);
    FiveWord();
    LetterDispatch(4, FiveText(), 8);
    FiveIsName();
  }

  lemma AssignStep()
    ensures NextToken(Cursor(8)) == (Token(ASSIGN, AssignText()), Cursor(10))
  {
    ScanOn(8, IsWhitespace);
    ScanOff(9, IsWhitespace);
    assert SkipWhitespace(Cursor(8)) == Cursor(9);
    assert PeekChar(Cursor(9)) == ' ';
    ReadMoves(9);
  }

  lemma NumberStep()
    ensures NextToken(Cursor(10)) == (Token(INT, FiveDigit()), Cursor(12))
  {
    ScanOn(10, IsWhitespace);
    ScanOff(11, IsWhitespace);
    assert SkipWhitespace(Cursor(10)) == Cursor(11);
    ScanOn(11, IsDigit);
    ScanOff(12, IsDigit);
    assert Input()[11..12] == FiveDigit();
    assert ReadNumber(Cursor(11)) == (FiveDigit(), Cursor(12));
  }

  lemma SemicolonStep()
    ensures NextToken(Cursor(12)) == (Token(SEMICOLON, SemicolonText()), Cursor(13))
  {
    ScanOff(12, IsWhitespace);
    assert SkipWhitespace(Cursor(12)) == Cursor(12);
    ReadMoves(12);
  }

  lemma EofStep()
    ensures NextToken(Cursor(13)) == (Token(EOF, []), Cursor(14))
  {
    ScanOff(13, IsWhitespace);
    assert SkipWhitespace(Cursor(13)) == Cursor(13);
    ReadMoves(13);
  }

  /** One step of the stream: the token of the step, then the stream from
      where the step leaves the cursor. */
  lemma Unfold(i: nat)
    requires NextToken(Cursor(i)).1.position <= |Input()|
    ensures TokensFrom(Cursor(i)) == [NextToken(Cursor(i)).0] + TokensFrom(NextToken(Cursor(i)).1)
  {
  }

  lemma EofLink()
    ensures TokensFrom(Cursor(13)) == [Token(EOF, [])]
  {
    EofStep();
  }

  lemma SemicolonLink()
    ensures TokensFrom(Cursor(12)) == [Token(SEMICOLON, SemicolonText())] + TokensFrom(Cursor(13))
  {
    SemicolonStep();
    Unfold(12);
  }

  lemma NumberLink()
    ensures TokensFrom(Cursor(10)) == [Token(INT, FiveDigit())] + TokensFrom(Cursor(12))
  {
    NumberStep();
    Unfold(10);
  }

  lemma AssignLink()
    ensures TokensFrom(Cursor(8)) == [Token(ASSIGN, AssignText())] + TokensFrom(Cursor(10))
  {
    AssignStep();
    Unfold(8);
  }

  lemma NameLink()
    ensures TokensFrom(Cursor(3)) == [Token(IDENT, FiveText())] + TokensFrom(Cursor(8))
  {
    FiveStep();
    Unfold(3);
  }

  lemma LetLink()
    ensures TokensFrom(Cursor(0)) == [Token(LET, LetText())] + TokensFrom(Cursor(3))
  {
    LetStep();
    Unfold(0);
  }

  /** The links chained: each stream is its first token and the next one. */
  lemma Chain(s0: seq<Token>, s3: seq<Token>, s8: seq<Token>, s10: seq<Token>, s12: seq<Token>, s13: seq<Token>)
    requires s13 == [Token(EOF, [])]
    requires s12 == [Token(SEMICOLON, SemicolonText())] + s13
    requires s10 == [Token(INT, FiveDigit())] + s12
    requires s8 == [Token(ASSIGN, AssignText())] + s10
    requires s3 == [Token(IDENT, FiveText())] + s8
    requires s0 == [Token(LET, LetText())] + s3
    ensures s0 == [Token(LET, LetText()), Token(IDENT, FiveText()), Token(ASSIGN, AssignText()),
                   Token(INT, FiveDigit()), Token(SEMICOLON, SemicolonText()), Token(EOF, [])]
  {
  }

  /** The token stream of `let five = 5;`: the keyword, the name, `=`, the
      integer, `;` and the final EOF with an empty literal. */
  lemma LetFiveTokens()
    ensures Tokens(Input()) == [Token(LET, LetText()), Token(IDENT, FiveText()), Token(ASSIGN, AssignText()),
                                Token(INT, FiveDigit()), Token(SEMICOLON, SemicolonText()), Token(EOF, [])]
  {
    assert New(Input()) == Cursor(0);
    EofLink();
    SemicolonLink();
    NumberLink();
    AssignLink();
    NameLink();
    LetLink();
    Chain(TokensFrom(Cursor(0)), TokensFrom(Cursor(3)), TokensFrom(Cursor(8)),
          TokensFrom(Cursor(10)), TokensFrom(Cursor(12)), TokensFrom(Cursor(13)));
  }
}
