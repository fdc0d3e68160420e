/** The byte-level lexer of lexer/lexer.go: a cursor over the input that
    yields one token per step. */
module Lexer {
  import opened Wrappers
  import opened Token

  /** Lexer state: the input, the index of the current byte, the index of
      the next byte to read, and the current byte (NUL past the end). */
  datatype Lexer = Lexer(input: Bytes, position: nat, readPosition: nat, ch: Byte)

  const NUL: Byte := '\0'

  /** The byte at index `i`, or NUL at and past the end of the input. */
  function ByteAt(input: Bytes, i: nat): Byte
  {
    if i < |input| then input[i] else NUL
  }

  /** The cursor invariant: the next byte to read follows the current one,
      and `ch` is the byte under the cursor. */
  predicate Valid(l: Lexer)
  {
    l.readPosition == l.position + 1 && l.ch == ByteAt(l.input, l.position)
  }

  /** Moves the cursor to the next byte. Whatever state it starts from, the
      result satisfies the cursor invariant; from a valid state it moves by
      exactly one byte. */
  function ReadChar(l: Lexer): (r: Lexer)
    ensures Valid(r)
    ensures r.input == l.input && r.position == l.readPosition
    ensures Valid(l) ==> r.position == l.position + 1
  {
    var ch := if l.readPosition >= |l.input| then NUL else l.input[l.readPosition];
    Lexer(l.input, l.readPosition, l.readPosition + 1, ch)
  }

  /** A fresh lexer: positioned on the first byte of the input. */
  function New(input: Bytes): (l: Lexer)
    ensures Valid(l) && l.input == input && l.position == 0
  {
    ReadChar(Lexer(input, 0, 0, NUL))
  }

  /** The byte after the current one, without moving: exactly the byte that
      the next `ReadChar` would make current. */
  function PeekChar(l: Lexer): (c: Byte)
    ensures c == ReadChar(l).ch
    ensures Valid(l) ==> c == ByteAt(l.input, l.position + 1)
  {
    if l.readPosition >= |l.input| then NUL else l.input[l.readPosition]
  }

  /** Space, tab, line feed and carriage return. */
  predicate IsWhitespace(c: Byte)
    ensures IsWhitespace(c) ==> c != NUL
  {
    c == ' ' || c == '\t' || c == '\n' || c == '\r'
  }

  /** ASCII letters and `_`; no letter is whitespace or NUL. */
  predicate IsLetter(c: Byte)
    ensures IsLetter(c) ==> c != NUL && !IsWhitespace(c)
  {
    'a' <= c <= 'z' || 'A' <= c <= 'Z' || c == '_'
  }

  /** ASCII digits; no digit is a letter, whitespace or NUL, so the three
      scans of the dispatch never overlap. */
  predicate IsDigit(c: Byte)
    ensures IsDigit(c) ==> c != NUL && !IsWhitespace(c) && !IsLetter(c)
  {
    '0' <= c <= '9'
  }

  /** Advances while the current byte satisfies `p`: the bytes passed over
      all satisfy `p`, and the byte where it stops does not. */
  function ScanWhile(l: Lexer, p: Byte -> bool): (r: Lexer)
    requires Valid(l) && !p(NUL)
    ensures Valid(r) && r.input == l.input && l.position <= r.position
    ensures !p(r.ch)
    ensures r.position == l.position || r.position <= |l.input|
    ensures forall i :: l.position <= i < r.position ==> i < |l.input| && p(l.input[i])
    decreases |l.input| - l.position
  {
    if p(l.ch) then
      assert l.position < |l.input| && l.input[l.position] == l.ch;
      ScanWhile(ReadChar(l), p)
    else l
  }

  /** Skips the maximal run of whitespace under the cursor. */
  function SkipWhitespace(l: Lexer): (r: Lexer)
    requires Valid(l)
    ensures Valid(r) && r.input == l.input && l.position <= r.position
    ensures !IsWhitespace(r.ch)
    ensures r.position == l.position || r.position <= |l.input|
    ensures forall i :: l.position <= i < r.position ==> i < |l.input| && IsWhitespace(l.input[i])
  {
    var r := ScanWhile(l, IsWhitespace);
    assert forall i :: l.position <= i < r.position ==> i < |l.input| && IsWhitespace(l.input[i]);
    r
  }

  /** Reads the maximal run of letters starting at the cursor and leaves the
      cursor on the first byte after it. */
  function ReadIdentifier(l: Lexer): (res: (Bytes, Lexer))
    requires Valid(l) && IsLetter(l.ch)
    ensures Valid(res.1) && res.1.input == l.input
    ensures l.position < res.1.position <= |l.input|
    ensures res.0 == l.input[l.position..res.1.position]
    ensures forall i :: 0 <= i < |res.0| ==> IsLetter(res.0[i])
    ensures !IsLetter(res.1.ch)
  {
    var r := ScanWhile(l, IsLetter);
    (l.input[l.position..r.position], r)
  }

  /** Reads the maximal run of ASCII digits starting at the cursor and
      leaves the cursor on the first byte after it. */
  function ReadNumber(l: Lexer): (res: (Bytes, Lexer))
    requires Valid(l) && IsDigit(l.ch)
    ensures Valid(res.1) && res.1.input == l.input
    ensures l.position < res.1.position <= |l.input|
    ensures res.0 == l.input[l.position..res.1.position]
    ensures forall i :: 0 <= i < |res.0| ==> IsDigit(res.0[i])
    ensures !IsDigit(res.1.ch)
  {
    var r := ScanWhile(l, IsDigit);
    (l.input[l.position..r.position], r)
  }

  /** Go's `string(b)` for a byte `b`: the UTF-8 encoding of the code point
      `b`, which is the byte itself only below 0x80. */
  function ByteString(b: Byte): (s: Bytes)
    ensures b as int < 0x80 ==> s == [b]
    ensures b as int >= 0x80 ==> |s| == 2 && (s[0] as int % 32) * 64 + s[1] as int % 64 == b as int
    ensures b as int >= 0x80 ==> 0xC2 <= s[0] as int <= 0xC3 && 0x80 <= s[1] as int < 0xC0
  {
    if b as int < 0x80 then [b]
    else [(0xC0 + b as int / 64) as char, (0x80 + b as int % 64) as char]
  }

  function NewToken(kind: Kind, ch: Byte): Token
  {
    Token(kind, ByteString(ch))
  }

  /** One step of the lexer: skips whitespace and produces the token at the
      cursor. Every step moves the cursor; only the EOF produced at the end
      of the input leaves it past the end. */
  function NextToken(l: Lexer): (res: (Token, Lexer))
    requires Valid(l)
    ensures Valid(res.1) && res.1.input == l.input
    ensures res.1.position > l.position
    ensures res.1.position <= |l.input| || res.0 == Token(EOF, [])
  {
    Switch(SkipWhitespace(l))
  }

  /** The one-byte operators and delimiters of the dispatch: the bytes
      whose token is built from that byte alone, with no look-ahead. */
  function OneByteKind(c: Byte): Option<Kind>
  {
    match c
    case '+' => Some(PLUS)
    case '-' => Some(MINUS)
    case '*' => Some(ASTERISK)
    case '/' => Some(SLASH)
    case '<' => Some(LT)
    case '>' => Some(GT)
    case ',' => Some(COMMA)
    case '{' => Some(LBRACE)
    case '(' => Some(LPAREN)
    case '}' => Some(RBRACE)
    case ')' => Some(RPAREN)
    case ';' => Some(SEMICOLON)
    case _ => None
  }

  /** The dispatch on the current byte once whitespace is skipped. `=` and
      `!` look one byte ahead for a following `=`; NUL is EOF; the other
      operators and delimiters are one byte each. The identifier and number
      paths move the cursor themselves; every other path reads one more
      byte after building the token. */
  function Switch(l: Lexer): (res: (Token, Lexer))
    requires Valid(l)
    ensures Valid(res.1) && res.1.input == l.input
    ensures res.1.position > l.position
    ensures res.1.position <= |l.input| || res.0 == Token(EOF, [])
  {
    if l.ch == '=' then
      if PeekChar(l) == '=' then
        var ch := l.ch;
        var l' := ReadChar(l);
        (Token(EQ, ByteString(ch) + ByteString(l'.ch)), ReadChar(l'))
      else
        (NewToken(ASSIGN, l.ch), ReadChar(l))
    else if l.ch == '!' then
      if PeekChar(l) == '=' then
        var ch := l.ch;
        var l' := ReadChar(l);
        (Token(NEQ, ByteString(ch) + ByteString(l'.ch)), ReadChar(l'))
      else
        (NewToken(BANG, l.ch), ReadChar(l))
    else if OneByteKind(l.ch).Some? then
      (NewToken(OneByteKind(l.ch).value, l.ch), ReadChar(l))
    else if l.ch == NUL then
      (Token(EOF, []), ReadChar(l))
    else if IsLetter(l.ch) then
      var (literal, l') := ReadIdentifier(l);
      (Token(LookupIdent(literal), literal), l')
    else if IsDigit(l.ch) then
      var (literal, l') := ReadNumber(l);
      (Token(INT, literal), l')
    else
      (NewToken(ILLEGAL, l.ch), ReadChar(l))
  }

  /** The tokens a lexer produces, up to and including the EOF produced at
      the end of the input. (A NUL byte inside the input also produces an
      EOF token, but the lexer moves on past it.) */
  function TokensFrom(l: Lexer): (ts: seq<Token>)
    requires Valid(l)
    ensures |ts| >= 1 && ts[|ts| - 1] == Token(EOF, [])
    decreases |l.input| + 1 - l.position
  {
    var (tok, r) := NextToken(l);
    if r.position > |l.input| then [Token(EOF, [])]
    else
      var rest := TokensFrom(r);
      LastAppend([tok], rest);
      [tok] + rest
  }

  lemma LastAppend<T>(a: seq<T>, b: seq<T>)
    requires |b| >= 1
    ensures |a + b| >= 1 && (a + b)[|a + b| - 1] == b[|b| - 1]
  {
  }

  /** The token stream of an input. */
  function Tokens(input: Bytes): (ts: seq<Token>)
    ensures |ts| >= 1 && ts[|ts| - 1] == Token(EOF, [])
  {
    TokensFrom(New(input))
  }

  /** The `i`-th token of a stream; every read past its end is EOF. */
  function At(ts: seq<Token>, i: nat): Token
  {
    if i < |ts| then ts[i] else Token(EOF, [])
  }

  /** The token returned by the `n`-th further call of `NextToken`
      (counting from 0), as a pull-based consumer sees it. */
  function NthToken(l: Lexer, n: nat): Token
    requires Valid(l)
    decreases n
  {
    var (tok, r) := NextToken(l);
    if n == 0 then tok else NthToken(r, n - 1)
  }
}
