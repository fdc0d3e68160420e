/** The part of Go's `strconv.ParseInt(s, 0, 64)` that integer literals
    reach: the lexer only ever produces non-empty runs of ASCII digits, and
    with base 0 such a run is decimal unless it starts with `0`, in which
    case the rest is octal. */
module IntegerSyntax {
  import opened Wrappers
  import opened Token
  import Lexer

  const MaxInt64: int := 0x7FFF_FFFF_FFFF_FFFF

  /** A non-empty run of ASCII digits: the shape of every INT literal. */
  predicate Digits(s: Bytes)
  {
    |s| >= 1 && forall i :: 0 <= i < |s| ==> Lexer.IsDigit(s[i])
  }

  function DigitValue(c: Byte): (d: nat)
    requires Lexer.IsDigit(c)
    ensures d < 10
  {
    c as int - '0' as int
  }

  /** Every digit is a digit of `base`. */
  predicate InBase(base: nat, s: Bytes)
    requires forall i :: 0 <= i < |s| ==> Lexer.IsDigit(s[i])
  {
    forall i :: 0 <= i < |s| ==> DigitValue(s[i]) < base
  }

  /** The number a digit string denotes in `base`, most significant digit
      first. The empty string denotes zero. */
  function Value(base: nat, s: Bytes): nat
    requires forall i :: 0 <= i < |s| ==> Lexer.IsDigit(s[i])
  {
    if |s| == 0 then 0 else Value(base, s[..|s| - 1]) * base + DigitValue(s[|s| - 1])
  }

  /** The base a literal is read in and the digits read in it: a leading
      `0` selects octal and is dropped (so `"0"` is octal with no digits). */
  function Radix(s: Bytes): (r: (nat, Bytes))
    requires Digits(s)
    ensures r.0 == 8 || r.0 == 10
    ensures r.0 == 8 <==> s[0] == '0'
    ensures |r.1| == |s| || (|r.1| == |s| - 1 && r.1 == s[1..])
    ensures forall i :: 0 <= i < |r.1| ==> Lexer.IsDigit(r.1[i])
  {
    if s[0] == '0' then (8, s[1..]) else (10, s)
  }

  /** The parse: absent on a digit outside the base or a value that does
      not fit a signed 64-bit integer. */
  function ParseInt64(s: Bytes): (r: Option<int>)
    requires Digits(s)
    ensures r.Some? ==> 0 <= r.value <= MaxInt64
    ensures r.Some? <==> InBase(Radix(s).0, Radix(s).1) && Value(Radix(s).0, Radix(s).1) <= MaxInt64
    ensures r.Some? ==> r.value == Value(Radix(s).0, Radix(s).1)
  {
    var (base, digits) := Radix(s);
    if InBase(base, digits) && Value(base, digits) <= MaxInt64 then Some(Value(base, digits)) else None
  }

  function Digit(d: nat): (c: Byte)
    requires d < 10
    ensures Lexer.IsDigit(c) && DigitValue(c) == d
  {
    ('0' as int + d) as char
  }

  /** The shortest rendering of `n` in one of the two bases a digit-only
      literal can be read in: the reference the parse is measured against. */
  function Format(base: nat, n: nat): (s: Bytes)
    requires base == 8 || base == 10
    ensures Digits(s) && InBase(base, s)
    ensures s[0] == '0' ==> s == "0"
    decreases n
  {
    if n < base then [Digit(n)] else Format(base, n / base) + [Digit(n % base)]
  }

  lemma ValueAppend(base: nat, s: Bytes, c: Byte)
    requires forall i :: 0 <= i < |s| ==> Lexer.IsDigit(s[i])
    requires Lexer.IsDigit(c)
    ensures Value(base, s + [c]) == Value(base, s) * base + DigitValue(c)
  {
    assert (s + [c])[..|s|] == s;
  }

  /** A rendering in `base` denotes the number it renders. */
  lemma {:induction false} FormatValue(base: nat, n: nat)
    requires base == 8 || base == 10
    ensures Value(base, Format(base, n)) == n
    decreases n
  {
    if n < base {
      assert Format(base, n) == [] + [Digit(n)];
      ValueAppend(base, [], Digit(n));
    } else {
      var q, d := n / base, n % base;
      FormatValue(base, q);
      ValueAppend(base, Format(base, q), Digit(d));
      if base == 8 {
        assert n == q * 8 + d;
      } else {
        assert n == q * 10 + d;
      }
    }
  }

  /** Decimal round trip: every int64 value written in decimal parses back
      to itself. */
  lemma DecimalRoundTrip(n: nat)
    requires n <= MaxInt64
    ensures ParseInt64(Format(10, n)) == Some(n)
  {
    var s := Format(10, n);
    FormatValue(10, n);
    if s[0] == '0' {
      assert s == "0" && Radix(s).1 == [];
    }
  }

  /** Octal round trip: every int64 value written in octal behind a `0`
      parses back to itself. */
  lemma OctalRoundTrip(n: nat)
    requires n <= MaxInt64
    ensures ParseInt64("0" + Format(8, n)) == Some(n)
  {
    var s := "0" + Format(8, n);
    FormatValue(8, n);
    assert s[1..] == Format(8, n);
    assert forall i :: 0 <= i < |s[1..]| ==> DigitValue(s[1..][i]) < 8;
  }

  /** A decimal rendering of a value beyond the int64 range fails. */
  lemma DecimalOverflow(n: nat)
    requires n > MaxInt64
    ensures ParseInt64(Format(10, n)) == None
  {
    FormatValue(10, n);
  }

  /** A literal with a leading `0` and an `8` or a `9` after it fails. */
  lemma OctalRejectsEightAndNine(s: Bytes, i: nat)
    requires Digits(s) && s[0] == '0' && 1 <= i < |s| && (s[i] == '8' || s[i] == '9')
    ensures ParseInt64(s) == None
  {
    assert Radix(s).1[i - 1] == s[i];
  }
}
