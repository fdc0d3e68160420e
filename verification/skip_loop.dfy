/** Repeated advances of the parser's window. */
module Advancing {
  import opened Token
  import opened Parser

  /** The window after `n` calls of `NextToken`. */
  function Advance(p: Parser, n: nat): (r: Parser)
    requires Valid(p)
    ensures Valid(r) && r.toks == p.toks && r.errors == p.errors
    ensures r.pos == if p.pos + n < |p.toks| then p.pos + n else |p.toks|
    decreases n
  {
    if n == 0 then p else NextToken(Advance(p, n - 1))
  }

  /** After `n` advances the current token is `;` exactly when the token
      `n` places on is one; past the end it is EOF. */
  lemma CurAdvance(p: Parser, n: nat)
    requires Valid(p)
    ensures Cur(Advance(p, n)).kind == SEMICOLON <==>
      p.pos + n < |p.toks| && p.toks[p.pos + n].kind == SEMICOLON
  {
  }

  /** The window moved on to a later token of the stream is some number
      of advances away. */
  lemma LandsOn(p: Parser, n: nat)
    requires Valid(p) && p.pos + n < |p.toks|
    ensures Advance(p, n) == p.(pos := p.pos + n)
  {
  }

  /** A window on the same stream and diagnostics, at or after the current
      token and inside the stream, is the window that many advances away. */
  lemma {:induction false} Lands(p: Parser, r: Parser)
    requires Valid(p) && r.toks == p.toks && r.errors == p.errors && p.pos <= r.pos < |p.toks|
    ensures Advance(p, r.pos - p.pos) == r
  {
    LandsOn(p, r.pos - p.pos);
  }

  /** No `;` in the `k` tokens from the current one: none of the first
      `k` advances lands on one. */
  lemma NoSemicolonBefore(p: Parser, k: nat)
    requires Valid(p) && p.pos + k <= |p.toks|
    requires forall i :: p.pos <= i < p.pos + k ==> p.toks[i].kind != SEMICOLON
    ensures forall n: nat :: n < k ==> Cur(Advance(p, n)).kind != SEMICOLON
  {
    forall n: nat | n < k ensures Cur(Advance(p, n)).kind != SEMICOLON {
      CurAdvance(p, n);
    }
  }
}

/** The skip loop of the let and return statements, as the source writes
    it: advance until the current token is `;`. */
module SkipLoop {
  import opened Token
  import opened Parser
  import opened Advancing

  /** `SkipToSemicolon` is the loop `for !curTokenIs(SEMICOLON) { nextToken() }`:
      it never ends exactly when no number of advances reaches a `;`, and
      when it ends it has advanced to the first one. */
  lemma {:induction false} SkipToSemicolonIsTheLoop(p: Parser)
    requires Valid(p)
    ensures SkipToSemicolon(p).Hangs? <==> forall n: nat :: Cur(Advance(p, n)).kind != SEMICOLON
    ensures SkipToSemicolon(p).Halts? ==>
      var k := SkipToSemicolon(p).value.pos - p.pos;
      k >= 0 && SkipToSemicolon(p).value == Advance(p, k)
      && forall n: nat :: n < k ==> Cur(Advance(p, n)).kind != SEMICOLON
  {
    if SkipToSemicolon(p).Hangs? {
      SkipHangs(p);
    } else {
      SkipHalts(p);
      SkipHaltsFirst(p);
    }
  }

  lemma {:induction false} SkipHangs(p: Parser)
    requires Valid(p) && SkipToSemicolon(p).Hangs?
    ensures forall n: nat :: Cur(Advance(p, n)).kind != SEMICOLON
  {
    assert FirstSemicolon(p.toks, p.pos).None?;
    FirstSemicolonIsFirst(p.toks, p.pos);
    forall n: nat ensures Cur(Advance(p, n)).kind != SEMICOLON {
      CurAdvance(p, n);
    }
  }

  lemma {:induction false} SkipHalts(p: Parser)
    requires Valid(p) && SkipToSemicolon(p).Halts?
    ensures p.pos <= SkipToSemicolon(p).value.pos
    ensures Advance(p, SkipToSemicolon(p).value.pos - p.pos) == SkipToSemicolon(p).value
  {
    Lands(p, SkipToSemicolon(p).value);
  }

  lemma {:induction false} SkipHaltsFirst(p: Parser)
    requires Valid(p) && SkipToSemicolon(p).Halts?
    ensures var k := SkipToSemicolon(p).value.pos - p.pos;
      forall n: nat :: n < k ==> Cur(Advance(p, n)).kind != SEMICOLON
  {
    var i := FirstSemicolon(p.toks, p.pos).value;
    assert SkipToSemicolon(p).value.pos == i;
    FirstSemicolonIsFirst(p.toks, p.pos);
    NoSemicolonBefore(p, i - p.pos);
  }
}
