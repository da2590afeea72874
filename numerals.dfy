/** Decimal and hexadecimal numerals: the digit strings that amounts, nonces
    and order hashes travel as, and the natural numbers they denote. */
module Numerals {

  function Pow(base: nat, e: nat): (r: nat)
    ensures base > 0 ==> r > 0
  {
    if e == 0 then 1 else base * Pow(base, e - 1)
  }

  lemma {:induction false} PowAdd(base: nat, a: nat, b: nat)
    ensures Pow(base, a + b) == Pow(base, a) * Pow(base, b)
  {
    if a > 0 {
      PowAdd(base, a - 1, b);
      assert Pow(base, a + b) == base * Pow(base, a - 1 + b);
    }
  }

  function Abs(x: int): nat { if x < 0 then -x else x }

  // ---- characters ----

  predicate IsDecDigit(c: char) { '0' <= c <= '9' }

  predicate IsHexDigit(c: char) { '0' <= c <= '9' || 'a' <= c <= 'f' || 'A' <= c <= 'F' }

  predicate AllDec(s: string) { forall i :: 0 <= i < |s| ==> IsDecDigit(s[i]) }

  predicate AllHex(s: string) { forall i :: 0 <= i < |s| ==> IsHexDigit(s[i]) }

  function DecDigitValue(c: char): (d: nat)
    requires IsDecDigit(c)
    ensures d < 10
  {
    c as int - '0' as int
  }

  function HexDigitValue(c: char): (d: nat)
    requires IsHexDigit(c)
    ensures d < 16
  {
    if '0' <= c <= '9' then c as int - '0' as int
    else if 'a' <= c <= 'f' then c as int - 'a' as int + 10
    else c as int - 'A' as int + 10
  }

  function DecChar(d: nat): (c: char)
    requires d < 10
    ensures IsDecDigit(c) && DecDigitValue(c) == d
  {
    ('0' as int + d) as char
  }

  /** The lower-case hexadecimal digit, as Node's Buffer.toString('hex') prints it. */
  function HexChar(d: nat): (c: char)
    requires d < 16
    ensures IsHexDigit(c) && HexDigitValue(c) == d
    ensures !('A' <= c <= 'Z')
  {
    if d < 10 then ('0' as int + d) as char else ('a' as int + d - 10) as char
  }

  /** ASCII lower-casing, as String.prototype.toLowerCase does on the characters used here. */
  function LowerChar(c: char): char
  {
    if 'A' <= c <= 'Z' then (c as int - 'A' as int + 'a' as int) as char else c
  }

  function Lower(s: string): (t: string)
    ensures |t| == |s|
    ensures forall i :: 0 <= i < |s| ==> t[i] == LowerChar(s[i])
  {
    seq(|s|, i requires 0 <= i < |s| => LowerChar(s[i]))
  }

  // ---- numerals ----

  /** The number a string of decimal digits denotes (most significant digit first). */
  function DecToNat(s: string): nat
    requires AllDec(s)
  {
    if s == [] then 0 else 10 * DecToNat(s[..|s| - 1]) + DecDigitValue(s[|s| - 1])
  }

  /** The number a string of hexadecimal digits denotes, in either case. */
  function HexToNat(s: string): nat
    requires AllHex(s)
  {
    if s == [] then 0 else 16 * HexToNat(s[..|s| - 1]) + HexDigitValue(s[|s| - 1])
  }

  /** The shortest decimal numeral of n, as String(n) and BigNumber print a whole number. */
  function NatToDec(n: nat): (s: string)
    ensures |s| > 0 && AllDec(s)
    ensures s[0] != '0' || n == 0
  {
    if n < 10 then [DecChar(n)] else NatToDec(n / 10) + [DecChar(n % 10)]
  }

  /** Digits written after others shift them: the number of w followed by f
      is w's number times 10^|f| plus f's. */
  lemma {:induction false} DecToNatConcat(w: string, f: string)
    requires AllDec(w) && AllDec(f)
    ensures AllDec(w + f)
    ensures DecToNat(w + f) == DecToNat(w) * Pow(10, |f|) + DecToNat(f)
    decreases |f|
  {
    if f == [] {
      assert w + f == w;
    } else {
      var g := f[..|f| - 1];
      var last := DecDigitValue(f[|f| - 1]);
      assert (w + f)[..|w + f| - 1] == w + g && (w + f)[|w + f| - 1] == f[|f| - 1];
      DecToNatConcat(w, g);
      calc {
        DecToNat(w + f);
        10 * DecToNat(w + g) + last;
        10 * (DecToNat(w) * Pow(10, |g|) + DecToNat(g)) + last;
        { Shift(DecToNat(w), Pow(10, |g|)); }
        DecToNat(w) * Pow(10, |f|) + (10 * DecToNat(g) + last);
      }
    }
  }

  /** A numeral of n digits denotes less than 10^n. */
  lemma {:induction false} DecToNatBound(s: string)
    requires AllDec(s)
    ensures DecToNat(s) < Pow(10, |s|)
  {
    if s != [] {
      DecToNatBound(s[..|s| - 1]);
      assert DecToNat(s) <= 10 * (Pow(10, |s| - 1) - 1) + 9;
    }
  }

  /** The leading digit weighs 10^(n-1). */
  lemma DecToNatFirst(s: string)
    requires AllDec(s) && |s| > 0
    ensures DecToNat(s) == DecDigitValue(s[0]) * Pow(10, |s| - 1) + DecToNat(s[1..])
  {
    var head, tail := s[..1], s[1..];
    assert head + tail == s;
    assert head[..0] == [] && head[0] == s[0];
    assert DecToNat(head) == DecDigitValue(s[0]);
    DecToNatConcat(head, tail);
  }

  lemma Shift(a: nat, p: nat)
    ensures 10 * (a * p) == a * (10 * p)
  {
  }

  lemma {:induction false} DecRoundTrip(n: nat)
    ensures DecToNat(NatToDec(n)) == n
  {
    if n >= 10 {
      var s := NatToDec(n);
      assert s[..|s| - 1] == NatToDec(n / 10);
      DecRoundTrip(n / 10);
    }
  }
}
