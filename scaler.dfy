/** The decimal scaler: `expand(amount, decimals)` of idex.js, which reads a
    human amount with bignumber.js, multiplies it by 10 ** decimals and prints
    it with toFixed(0) (ROUND_HALF_UP, bignumber.js's default rounding mode). */
module Scaler {
  import opened Numerals
  import opened Wrappers

  /** The exact value coefficient × 10^exponent, as bignumber.js holds it. */
  datatype Decimal = Decimal(coefficient: int, exponent: int)

  /** A BigNumber: an exact decimal, or NaN for text it cannot read. */
  datatype BigNumber = NaN | Finite(value: Decimal)

  // ---- reading a BigNumber from text ----

  /** The first position of c in s, or |s| when there is none. */
  function IndexOf(s: string, c: char): (k: nat)
    ensures k <= |s| && (k < |s| ==> s[k] == c)
    ensures forall i :: 0 <= i < k ==> s[i] != c
  {
    if s == [] then 0 else if s[0] == c then 0 else 1 + IndexOf(s[1..], c)
  }

  predicate IsExponentMarker(c: char) { c == 'e' || c == 'E' }

  /** The first position of an exponent marker in s, or |s| when there is none. */
  function IndexOfExponent(s: string): (k: nat)
    ensures k <= |s| && (k < |s| ==> IsExponentMarker(s[k]))
    ensures forall i :: 0 <= i < k ==> !IsExponentMarker(s[i])
  {
    if s == [] then 0 else if IsExponentMarker(s[0]) then 0 else 1 + IndexOfExponent(s[1..])
  }

  /** The exponent part `[+-]?\d+` after the marker. */
  function ParseExponent(s: string): (e: Option<int>)
  {
    if |s| > 0 && (s[0] == '+' || s[0] == '-') then
      if |s| > 1 && AllDec(s[1..]) then
        Some(if s[0] == '-' then -(DecToNat(s[1..]) as int) else DecToNat(s[1..]))
      else None
    else if |s| > 0 && AllDec(s) then Some(DecToNat(s))
    else None
  }

  /** The unsigned mantissa `\d+(\.\d*)?|\.\d+`: its digits read as one
      number, and how many of them stand after the point. */
  function ParseMantissa(s: string): Option<(nat, nat)>
  {
    var dot := IndexOf(s, '.');
    var whole := s[..dot];
    var fraction := if dot < |s| then s[dot + 1..] else "";
    if AllDec(whole) && AllDec(fraction) && (|whole| > 0 || |fraction| > 0) then
      assert AllDec(whole + fraction);
      Some((DecToNat(whole + fraction), |fraction|))
    else None
  }

  /** The unsigned text `(\d+(\.\d*)?|\.\d+)([eE][+-]?\d+)?` as a
      non-negative decimal, or None. */
  function ParseMagnitude(t: string): (m: Option<Decimal>)
    ensures m.Some? ==> m.value.coefficient >= 0
  {
    var k := IndexOfExponent(t);
    var mantissa := ParseMantissa(t[..k]);
    var exponent := if k < |t| then ParseExponent(t[k + 1..]) else Some(0);
    if mantissa.None? || exponent.None? then None
    else
      var (digits, fractionLength) := mantissa.value;
      Some(Decimal(digits, exponent.value - fractionLength))
  }

  /** new BigNumber(text) for the text bignumber.js accepts on its fast path,
      `-?(\d+(\.\d*)?|\.\d+)([eE][+-]?\d+)?`; any other text is NaN. */
  function ParseBigNumber(s: string): (r: BigNumber)
    ensures s == "" || s == "-" ==> r.NaN?
    ensures r.Finite? && r.value.coefficient < 0 ==> s[0] == '-'
    ensures r.Finite? && s[0] == '-' ==> r.value.coefficient <= 0
  {
    if |s| > 0 && s[0] == '-' then
      match ParseMagnitude(s[1..])
      case None => NaN
      case Some(m) => Finite(Decimal(-m.coefficient, m.exponent))
    else
      match ParseMagnitude(s)
      case None => NaN
      case Some(m) => Finite(m)
  }

  /** Exponential notation for a decimal, e.g. "-125e-2"; the text that
      ParseBigNumber is proved to read back exactly. */
  function Render(d: Decimal): string
  {
    (if d.coefficient < 0 then "-" else "") + UnsignedText(d)
  }

  /** The digits of |coefficient|, "e" and the signed exponent. */
  function UnsignedText(d: Decimal): string
  {
    NatToDec(Abs(d.coefficient)) + "e" + ExponentText(d.exponent)
  }

  function ExponentText(e: int): string
  {
    (if e < 0 then "-" else "") + NatToDec(Abs(e))
  }

  lemma ParseExponentOfRender(e: int)
    ensures ParseExponent(ExponentText(e)) == Some(e)
  {
    var digits := NatToDec(Abs(e));
    DecRoundTrip(Abs(e));
    assert IsDecDigit(digits[0]);
    if e < 0 {
      var s := "-" + digits;
      assert s[0] == '-' && s[1..] == digits;
      assert ParseExponent(s) == Some(-(DecToNat(digits) as int));
    } else {
      assert "" + digits == digits;
      assert ParseExponent(digits) == Some(DecToNat(digits));
    }
  }

  lemma ParseMantissaOfDigits(digits: string)
    requires AllDec(digits) && |digits| > 0
    ensures ParseMantissa(digits) == Some((DecToNat(digits), 0))
  {
    var dot := IndexOf(digits, '.');
    assert dot < |digits| ==> IsDecDigit(digits[dot]);
    assert digits[..dot] + "" == digits;
  }

  /** Parsing undoes rendering: every decimal has a text that reads back as
      exactly that decimal. */
  lemma ParseRender(d: Decimal)
    ensures ParseBigNumber(Render(d)) == Finite(d)
  {
    var t := UnsignedText(d);
    MagnitudeOfUnsignedText(d);
    assert |t| > 0 && t[0] != '-' by { assert IsDecDigit(t[0]); }
    ParseSigned(d.coefficient < 0, t, Abs(d.coefficient), d.exponent);
  }

  lemma MagnitudeOfUnsignedText(d: Decimal)
    ensures ParseMagnitude(UnsignedText(d)) == Some(Decimal(Abs(d.coefficient), d.exponent))
  {
    var digits := NatToDec(Abs(d.coefficient));
    var t := UnsignedText(d);
    UnsignedRender(digits, ExponentText(d.exponent));
    DecRoundTrip(Abs(d.coefficient));
    ParseExponentOfRender(d.exponent);
    ParseUnsigned(t, Abs(d.coefficient), d.exponent);
  }

  /** How ParseBigNumber composes a sign with unsigned text. */
  lemma ParseSigned(negative: bool, t: string, digits: nat, e: int)
    requires |t| > 0 && t[0] != '-'
    requires ParseMagnitude(t) == Some(Decimal(digits, e))
    ensures ParseBigNumber((if negative then "-" else "") + t)
      == Finite(Decimal(if negative then -(digits as int) else digits, e))
  {
    if negative {
      ParseNegative(t, digits, e);
    } else {
      assert "" + t == t;
    }
  }

  lemma ParseUnsigned(t: string, digits: nat, e: int)
    requires IndexOfExponent(t) < |t|
    requires ParseMantissa(t[..IndexOfExponent(t)]) == Some((digits, 0))
    requires ParseExponent(t[IndexOfExponent(t) + 1..]) == Some(e)
    ensures ParseMagnitude(t) == Some(Decimal(digits, e))
  {
    var k := IndexOfExponent(t);
    var mantissa, exponent := ParseMantissa(t[..k]), ParseExponent(t[k + 1..]);
    assert mantissa == Some((digits, 0)) && exponent == Some(e);
  }

  lemma ParseNegative(t: string, digits: nat, e: int)
    requires ParseMagnitude(t) == Some(Decimal(digits, e))
    ensures ParseBigNumber("-" + t) == Finite(Decimal(-(digits as int), e))
  {
    var s := "-" + t;
    assert s[0] == '-' && s[1..] == t;
  }

  // ---- what amounts written by hand read as ----

  /** The exponent after the marker, with or without its sign: "+03" and "3"
      read as 3, "-3" as -3. */
  lemma ParseExponentOfDigits(digits: string)
    requires AllDec(digits) && |digits| > 0
    ensures ParseExponent("+" + digits) == Some(DecToNat(digits) as int)
    ensures ParseExponent("-" + digits) == Some(-(DecToNat(digits) as int))
    ensures ParseExponent(digits) == Some(DecToNat(digits) as int)
  {
    assert IsDecDigit(digits[0]);
    assert ("+" + digits)[1..] == digits && ("-" + digits)[1..] == digits;
  }

  /** The digits on both sides of a point taken as one number:
      w × 10^|f| + f. */
  function PointDigits(w: string, f: string): (v: nat)
    requires AllDec(w) && AllDec(f)
    ensures AllDec(w + f) && v == DecToNat(w + f)
  {
    DecToNatConcat(w, f);
    DecToNat(w) * Pow(10, |f|) + DecToNat(f)
  }

  /** A mantissa with a point reads as the digits on both sides taken as one
      number, with as many places as there are digits after the point. */
  lemma MantissaWithPoint(w: string, f: string)
    requires AllDec(w) && AllDec(f) && |w| + |f| > 0
    ensures ParseMantissa(w + "." + f) == Some((PointDigits(w, f), |f|))
  {
    var s := w + "." + f;
    PointAt(w, f);
    assert s[..|w|] == w && s[|w| + 1..] == f;
    assert PointDigits(w, f) == DecToNat(w + f);
  }

  lemma PointAt(w: string, f: string)
    requires AllDec(w)
    ensures IndexOf(w + "." + f, '.') == |w|
  {
    var s := w + "." + f;
    var dot := IndexOf(s, '.');
    assert s[|w|] == '.';
    assert forall i :: 0 <= i < |w| ==> s[i] == w[i];
  }

  /** Digits around a point hold no exponent marker and no leading "-". */
  lemma PointTextIsPlain(w: string, f: string)
    requires AllDec(w) && AllDec(f)
    ensures var m := w + "." + f;
      && (forall i :: 0 <= i < |m| ==> !IsExponentMarker(m[i]))
      && m[0] != '-'
  {
    var m := w + "." + f;
    forall i | 0 <= i < |m| ensures !IsExponentMarker(m[i]) {
      if i < |w| {
        assert m[i] == w[i] && IsDecDigit(w[i]);
      } else if i > |w| {
        assert m[i] == f[i - |w| - 1] && IsDecDigit(f[i - |w| - 1]);
      }
    }
    if |w| > 0 {
      assert m[0] == w[0] && IsDecDigit(w[0]);
    }
  }

  lemma MagnitudeWithoutExponent(m: string, digits: nat, places: nat)
    requires forall i :: 0 <= i < |m| ==> !IsExponentMarker(m[i])
    requires ParseMantissa(m) == Some((digits, places))
    ensures ParseMagnitude(m) == Some(Decimal(digits, -(places as int)))
  {
    assert IndexOfExponent(m) == |m|;
    assert m[..|m|] == m;
  }

  /** An amount written with a point, as amounts usually are: an optional
      "-", digits w, "." and digits f read as ±(w × 10^|f| + f) × 10^-|f|;
      "0.5" is 5 × 10^-1 and "-2.25" is -225 × 10^-2. */
  lemma ParseFixed(negative: bool, w: string, f: string)
    requires AllDec(w) && AllDec(f) && |w| + |f| > 0
    ensures var v := PointDigits(w, f);
      ParseBigNumber((if negative then "-" else "") + (w + "." + f))
        == Finite(Decimal(if negative then -(v as int) else v, -|f|))
  {
    if negative {
      ParseFixedNegative(w, f);
    } else {
      ParseFixedPositive(w, f);
      assert "" + (w + "." + f) == w + "." + f;
    }
  }

  lemma ParseFixedPositive(w: string, f: string)
    requires AllDec(w) && AllDec(f) && |w| + |f| > 0
    ensures ParseBigNumber(w + "." + f) == Finite(Decimal(PointDigits(w, f), -|f|))
  {
    MantissaWithPoint(w, f);
    PointTextIsPlain(w, f);
    PositiveOfMantissa(w + "." + f, PointDigits(w, f), |f|);
  }

  lemma ParseFixedNegative(w: string, f: string)
    requires AllDec(w) && AllDec(f) && |w| + |f| > 0
    ensures ParseBigNumber("-" + (w + "." + f)) == Finite(Decimal(-(PointDigits(w, f) as int), -|f|))
  {
    MantissaWithPoint(w, f);
    PointTextIsPlain(w, f);
    NegativeOfMantissa(w + "." + f, PointDigits(w, f), |f|);
  }

  /** An unsigned mantissa without exponent, as text of its own. */
  lemma PositiveOfMantissa(m: string, digits: nat, places: nat)
    requires |m| > 0 && m[0] != '-'
    requires forall i :: 0 <= i < |m| ==> !IsExponentMarker(m[i])
    requires ParseMantissa(m) == Some((digits, places))
    ensures ParseBigNumber(m) == Finite(Decimal(digits, -(places as int)))
  {
    assert IndexOfExponent(m) == |m|;
    assert m[..|m|] == m;
  }

  /** The same mantissa after a "-". */
  lemma NegativeOfMantissa(m: string, digits: nat, places: nat)
    requires forall i :: 0 <= i < |m| ==> !IsExponentMarker(m[i])
    requires ParseMantissa(m) == Some((digits, places))
    ensures ParseBigNumber("-" + m) == Finite(Decimal(-(digits as int), -(places as int)))
  {
    var s := "-" + m;
    assert s[0] == '-' && s[1..] == m;
    assert IndexOfExponent(m) == |m|;
    assert m[..|m|] == m;
  }

  /** The same text followed by an exponent, as in "1.5e+3": the exponent is
      added to the places' negative count. A "-" in front negates the value,
      as for any unsigned text (NegatedText). */
  lemma ParseFixedWithExponent(w: string, f: string, x: string, e: int)
    requires AllDec(w) && AllDec(f) && |w| + |f| > 0
    requires ParseExponent(x) == Some(e)
    ensures ParseBigNumber(w + "." + f + "e" + x) == Finite(Decimal(PointDigits(w, f), e - |f|))
  {
    MantissaWithPoint(w, f);
    PointTextIsPlain(w, f);
    PositiveOfExponential(w + "." + f, x, PointDigits(w, f), |f|, e);
  }

  /** An unsigned mantissa, the marker "e" and an exponent. */
  lemma PositiveOfExponential(m: string, x: string, digits: nat, places: nat, e: int)
    requires |m| > 0 && m[0] != '-'
    requires forall i :: 0 <= i < |m| ==> !IsExponentMarker(m[i])
    requires ParseMantissa(m) == Some((digits, places)) && ParseExponent(x) == Some(e)
    ensures ParseBigNumber(m + "e" + x) == Finite(Decimal(digits, e - places))
  {
    ExponentialTextSplits(m, x);
    assert (m + "e" + x)[0] == m[0];
  }

  /** The first marker in m + "e" + x is the one between them. */
  lemma ExponentialTextSplits(m: string, x: string)
    requires forall i :: 0 <= i < |m| ==> !IsExponentMarker(m[i])
    ensures var t := m + "e" + x;
      IndexOfExponent(t) == |m| && t[..|m|] == m && t[|m| + 1..] == x
  {
    var t := m + "e" + x;
    assert t[|m|] == 'e';
    assert forall i :: 0 <= i < |m| ==> t[i] == m[i];
    assert t[..|m|] == m && t[|m| + 1..] == x;
  }

  /** A "-" in front of text that has none negates what the text reads as. */
  lemma NegatedText(t: string, d: Decimal)
    requires |t| > 0 && t[0] != '-'
    requires ParseBigNumber(t) == Finite(d)
    ensures ParseBigNumber("-" + t) == Finite(Decimal(-d.coefficient, d.exponent))
  {
    var s := "-" + t;
    assert s[0] == '-' && s[1..] == t;
  }

  /** A whole amount, "-"-signed or not, reads as its digits' number. */
  lemma ParseWhole(negative: bool, w: string)
    requires AllDec(w) && |w| > 0
    ensures ParseBigNumber((if negative then "-" else "") + w)
      == Finite(Decimal(if negative then -(DecToNat(w) as int) else DecToNat(w), 0))
  {
    MagnitudeOfWhole(w);
    ParseSigned(negative, w, DecToNat(w), 0);
  }

  lemma MagnitudeOfWhole(w: string)
    requires AllDec(w) && |w| > 0
    ensures w[0] != '-' && ParseMagnitude(w) == Some(Decimal(DecToNat(w), 0))
  {
    ParseMantissaOfDigits(w);
    DigitsArePlain(w);
    MagnitudeWithoutExponent(w, DecToNat(w), 0);
  }

  lemma DigitsArePlain(w: string)
    requires AllDec(w) && |w| > 0
    ensures forall i :: 0 <= i < |w| ==> !IsExponentMarker(w[i])
    ensures w[0] != '-'
  {
    forall i | 0 <= i < |w| ensures !IsExponentMarker(w[i]) {
      assert IsDecDigit(w[i]);
    }
    assert IsDecDigit(w[0]);
  }

  /** The unsigned part of Render splits at its exponent marker into the digits and the exponent. */
  lemma UnsignedRender(digits: string, exponentText: string)
    requires AllDec(digits) && |digits| > 0
    ensures var t := digits + "e" + exponentText;
      var k := IndexOfExponent(t);
      k == |digits| && t[..k] == digits && t[k + 1..] == exponentText
      && ParseMantissa(t[..k]) == Some((DecToNat(digits), 0))
  {
    var t := digits + "e" + exponentText;
    var k := IndexOfExponent(t);
    assert IsExponentMarker(t[|digits|]);
    assert k < |digits| ==> IsDecDigit(t[k]);
    assert t[..k] == digits;
    assert t[k + 1..] == exponentText;
    ParseMantissaOfDigits(digits);
  }

  // ---- arithmetic and rounding ----

  /** BigNumber.prototype.times: exact multiplication. */
  function Times(a: Decimal, b: Decimal): Decimal
  {
    Decimal(a.coefficient * b.coefficient, a.exponent + b.exponent)
  }

  /** The value of d as a fraction Numerator(d) / Denominator(d). */
  function Numerator(d: Decimal): int
  {
    if d.exponent >= 0 then d.coefficient * Pow(10, d.exponent) else d.coefficient
  }

  function Denominator(d: Decimal): (r: nat)
    ensures r > 0
  {
    if d.exponent >= 0 then 1 else Pow(10, -d.exponent)
  }

  /** n / den rounded to the nearest integer, halves away from zero
      (bignumber.js ROUND_HALF_UP). */
  function RoundHalfUp(n: int, den: nat): (r: int)
    requires den > 0
    ensures 2 * Abs(r * den - n) <= den
    ensures 2 * Abs(r * den - n) == den ==> Abs(r * den) > Abs(n)
    ensures (n >= 0 ==> r >= 0) && (n <= 0 ==> r <= 0)
  {
    HalfUpBounds(n, den);
    if n >= 0 then HalfUp(n, den) as int else -(HalfUp(-n, den) as int)
  }

  /** A non-negative n / den rounded half up. */
  function HalfUp(n: nat, den: nat): nat
    requires den > 0
  {
    (2 * n + den) / (2 * den)
  }

  lemma HalfUpBounds(n: int, den: nat)
    requires den > 0
    ensures var r := if n >= 0 then HalfUp(n, den) as int else -(HalfUp(-n, den) as int);
      2 * Abs(r * den - n) <= den
      && (2 * Abs(r * den - n) == den ==> Abs(r * den) > Abs(n))
      && (n >= 0 ==> r >= 0) && (n <= 0 ==> r <= 0)
  {
    var m := Abs(n);
    var q := HalfUp(m, den);
    HalfUpOfNatural(m, den);
    if n < 0 {
      NegatedProduct(q, den);
    }
  }

  lemma NegatedProduct(q: int, den: int)
    ensures (-q) * den == -(q * den)
  {
  }

  lemma HalfUpOfNatural(n: nat, den: nat)
    requires den > 0
    ensures var q := HalfUp(n, den);
      2 * Abs(q * den - n) <= den && (2 * Abs(q * den - n) == den ==> q * den > n)
  {
    var q := HalfUp(n, den);
    var rem := (2 * n + den) % (2 * den);
    assert 2 * n + den == 2 * den * q + rem;
    assert 2 * (q * den - n) == den - rem;
  }

  /** The integer nearest the value of d, halves away from zero. */
  function Rounded(d: Decimal): (r: int)
    ensures 2 * Abs(r * Denominator(d) - Numerator(d)) <= Denominator(d)
    ensures 2 * Abs(r * Denominator(d) - Numerator(d)) == Denominator(d) ==> Abs(r * Denominator(d)) > Abs(Numerator(d))
    ensures (d.coefficient >= 0 ==> r >= 0) && (d.coefficient <= 0 ==> r <= 0)
  {
    if d.exponent >= 0 then d.coefficient * Pow(10, d.exponent)
    else RoundHalfUp(d.coefficient, Pow(10, -d.exponent))
  }

  /** BigNumber.prototype.toFixed(0): the rounded value in plain digits, with a
      minus sign whenever the unrounded value is negative (so -0.4 prints "-0"). */
  function ToFixed0(d: Decimal): (r: string)
    ensures |r| > 0 && (r[0] == '-' || IsDecDigit(r[0]))
  {
    (if d.coefficient < 0 then "-" else "") + NatToDec(Abs(Rounded(d)))
  }

  /** expand(amount, decimals = 18): amount × 10 ** decimals, rounded, as
      whole-number text; "NaN" for an amount bignumber.js cannot read. The
      power of ten is exact. */
  function Expand(amount: string, decimals: nat := 18): (r: string)
    ensures r == "NaN" <==> ParseBigNumber(amount).NaN?
  {
    match ParseBigNumber(amount)
    case NaN => "NaN"
    case Finite(d) => ToFixed0(Scaled(d, decimals))
  }

  /** The amount times 10 ** decimals, before rounding. */
  function Scaled(d: Decimal, decimals: nat): Decimal
  {
    Times(d, Decimal(Pow(10, decimals), 0))
  }

  // ---- what the printed amount says ----

  /** Whole-number text: an optional minus sign, then decimal digits. */
  predicate IsIntegerText(s: string)
  {
    var digits := if |s| > 0 && s[0] == '-' then s[1..] else s;
    |digits| > 0 && AllDec(digits)
  }

  function IntegerValue(s: string): int
    requires IsIntegerText(s)
  {
    if |s| > 0 && s[0] == '-' then -(DecToNat(s[1..]) as int) else DecToNat(s)
  }

  lemma ToFixed0Value(d: Decimal)
    ensures IsIntegerText(ToFixed0(d)) && IntegerValue(ToFixed0(d)) == Rounded(d)
  {
    var r := Rounded(d);
    SignedNumeralValue(d.coefficient < 0, r);
  }

  lemma SignedNumeralValue(negative: bool, r: int)
    requires negative ==> r <= 0
    requires !negative ==> r >= 0
    ensures var s := (if negative then "-" else "") + NatToDec(Abs(r));
      IsIntegerText(s) && IntegerValue(s) == r
  {
    var digits := NatToDec(Abs(r));
    DecRoundTrip(Abs(r));
    assert IsDecDigit(digits[0]);
    if negative {
      var s := "-" + digits;
      assert s[0] == '-' && s[1..] == digits;
    } else {
      assert "" + digits == digits;
    }
  }

  /** expand prints a whole number with no fractional digits, and that number
      is the amount times 10 ** decimals rounded to the nearest integer
      (halves away from zero); an unreadable amount prints "NaN". */
  lemma ExpandIsRoundedScaledAmount(amount: string, decimals: nat)
    ensures ParseBigNumber(amount).NaN? ==> Expand(amount, decimals) == "NaN"
    ensures ParseBigNumber(amount).Finite? ==>
      var exact := Scaled(ParseBigNumber(amount).value, decimals);
      var r := Expand(amount, decimals);
      IsIntegerText(r) && IntegerValue(r) == Rounded(exact)
      && 2 * Abs(IntegerValue(r) * Denominator(exact) - Numerator(exact)) <= Denominator(exact)
  {
    if ParseBigNumber(amount).Finite? {
      ToFixed0Value(Scaled(ParseBigNumber(amount).value, decimals));
    }
  }

  /** When the scaled amount is a whole number nothing is lost: for the
      decimal coefficient × 10^exponent with exponent + decimals >= 0 the
      printed value is exactly coefficient × 10^(exponent + decimals). */
  lemma ExpandIsExact(d: Decimal, decimals: nat)
    requires d.exponent + decimals >= 0
    ensures IsIntegerText(Expand(Render(d), decimals))
    ensures IntegerValue(Expand(Render(d), decimals)) == d.coefficient * Pow(10, d.exponent + decimals)
  {
    var r := Expand(Render(d), decimals);
    ExpandOfRender(d, decimals);
    ToFixed0Value(Scaled(d, decimals));
    ScaledWholeIsExact(d.coefficient, d.exponent, decimals);
    assert IntegerValue(r) == Rounded(Decimal(d.coefficient * Pow(10, decimals), d.exponent));
  }

  /** expand of an amount written with a point and no more fraction digits
      than `decimals` loses nothing: expand("0.5", 18) prints 5 × 10^17 and
      expand("-2.25", 6) prints -2250000. */
  lemma ExpandOfFixed(negative: bool, w: string, f: string, decimals: nat)
    requires AllDec(w) && AllDec(f) && |w| + |f| > 0 && |f| <= decimals
    ensures var v := PointDigits(w, f);
      var r := Expand((if negative then "-" else "") + (w + "." + f), decimals);
      IsIntegerText(r) && IntegerValue(r) == (if negative then -(v as int) else v) * Pow(10, decimals - |f|)
  {
    if negative {
      ExpandOfFixedNegative(w, f, decimals);
    } else {
      ExpandOfFixedPositive(w, f, decimals);
      assert "" + (w + "." + f) == w + "." + f;
    }
  }

  lemma ExpandOfFixedPositive(w: string, f: string, decimals: nat)
    requires AllDec(w) && AllDec(f) && |w| + |f| > 0 && |f| <= decimals
    ensures var r := Expand(w + "." + f, decimals);
      IsIntegerText(r) && IntegerValue(r) == PointDigits(w, f) * Pow(10, decimals - |f|)
  {
    ParseFixed(false, w, f);
    assert "" + (w + "." + f) == w + "." + f;
    ExpandOfFewPlaces(w + "." + f, PointDigits(w, f), |f|, decimals);
  }

  lemma ExpandOfFixedNegative(w: string, f: string, decimals: nat)
    requires AllDec(w) && AllDec(f) && |w| + |f| > 0 && |f| <= decimals
    ensures var r := Expand("-" + (w + "." + f), decimals);
      IsIntegerText(r) && IntegerValue(r) == -(PointDigits(w, f) as int) * Pow(10, decimals - |f|)
  {
    ParseFixed(true, w, f);
    ExpandOfFewPlaces("-" + (w + "." + f), -(PointDigits(w, f) as int), |f|, decimals);
  }

  lemma ExpandOfFewPlaces(amount: string, c: int, places: nat, decimals: nat)
    requires places <= decimals
    requires ParseBigNumber(amount) == Finite(Decimal(c, -(places as int)))
    ensures IsIntegerText(Expand(amount, decimals))
    ensures IntegerValue(Expand(amount, decimals)) == c * Pow(10, decimals - places)
  {
    FewPlacesScaleExactly(Expand(amount, decimals), c, places, decimals);
  }

  /** A decimal with at most `decimals` places prints, once scaled, exactly. */
  lemma FewPlacesScaleExactly(r: string, c: int, places: nat, decimals: nat)
    requires places <= decimals
    requires r == ToFixed0(Scaled(Decimal(c, -(places as int)), decimals))
    ensures IsIntegerText(r) && IntegerValue(r) == c * Pow(10, decimals - places)
  {
    ToFixed0Value(Scaled(Decimal(c, -(places as int)), decimals));
    ScaledWholeIsExact(c, -(places as int), decimals);
  }

  lemma ExpandOfRender(d: Decimal, decimals: nat)
    ensures Expand(Render(d), decimals) == ToFixed0(Scaled(d, decimals))
  {
    ParseRender(d);
  }

  lemma ScaledWholeIsExact(c: int, e: int, decimals: nat)
    requires e + decimals >= 0
    ensures Rounded(Decimal(c * Pow(10, decimals), e)) == c * Pow(10, e + decimals)
  {
    if e >= 0 {
      ScaledByWholeExponent(c, e, decimals);
    } else {
      ScaledByFractionExponent(c, -e, decimals);
    }
  }

  lemma ScaledByWholeExponent(c: int, e: nat, decimals: nat)
    ensures Rounded(Decimal(c * Pow(10, decimals), e)) == c * Pow(10, e + decimals)
  {
    PowAdd(10, decimals, e);
    Associate(c, Pow(10, decimals), Pow(10, e));
  }

  lemma ScaledByFractionExponent(c: int, j: nat, decimals: nat)
    requires 0 < j <= decimals
    ensures Rounded(Decimal(c * Pow(10, decimals), -(j as int))) == c * Pow(10, decimals - j)
  {
    var whole := Pow(10, decimals - j);
    var den := Pow(10, j);
    var exact := Decimal(c * Pow(10, decimals), -(j as int));
    PowAdd(10, decimals - j, j);
    Associate(c, whole, den);
    assert Numerator(exact) == (c * whole) * den && Denominator(exact) == den;
    RoundingAMultiple(Rounded(exact), c * whole, den);
  }

  lemma Associate(a: int, b: int, c: int)
    ensures a * (b * c) == (a * b) * c
  {
  }

  /** Rounding m × den / den gives back m. */
  lemma RoundingAMultiple(r: int, m: int, den: nat)
    requires den > 0 && 2 * Abs(r * den - m * den) <= den
    ensures r == m
  {
    Distribute(r, m, den);
    if r != m {
      AtLeastOnce(r - m, den);
    }
  }

  lemma Distribute(r: int, m: int, den: int)
    ensures r * den - m * den == (r - m) * den
  {
  }

  lemma AtLeastOnce(x: int, den: nat)
    requires x != 0
    ensures Abs(x * den) >= den
  {
    if x > 0 {
      assert x * den == den + (x - 1) * den;
    } else {
      assert x * den == -(den + (-x - 1) * den);
    }
  }
}
