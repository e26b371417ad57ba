/**
 * Decimal text: Python's str() of an int, and the part of Python's float()
 * string parser that yields finite numbers. Numbers are exact (int, real).
 */
module Decimal {
  import opened Wrappers

  predicate IsDigit(c: char) { '0' <= c <= '9' }

  function DigitValue(c: char): (d: nat)
    requires IsDigit(c)
    ensures d < 10
  {
    (c as int) - ('0' as int)
  }

  function DigitChar(d: nat): (c: char)
    requires d < 10
    ensures IsDigit(c) && DigitValue(c) == d
  {
    (('0' as int) + d) as char
  }

  predicate AllDigits(s: string) { forall i :: 0 <= i < |s| ==> IsDigit(s[i]) }

  predicate HasDigit(s: string) { exists i :: 0 <= i < |s| && IsDigit(s[i]) }

  /** The value of a run of decimal digits, most significant first. */
  function DigitsValue(s: string): nat
    requires AllDigits(s)
  {
    if s == [] then 0 else DigitsValue(s[..|s| - 1]) * 10 + DigitValue(s[|s| - 1])
  }

  function Pow10(n: nat): (p: nat)
    ensures p >= 1
  {
    if n == 0 then 1 else 10 * Pow10(n - 1)
  }

  /** str(n) for n >= 0: the shortest decimal rendering, read back to n. */
  function NatToString(n: nat): (s: string)
    ensures |s| > 0 && AllDigits(s)
    ensures DigitsValue(s) == n
    ensures s[0] == '0' ==> s == "0"
  {
    if n < 10 then [DigitChar(n)]
    else
      var s := NatToString(n / 10) + [DigitChar(n % 10)];
      assert s[..|s| - 1] == NatToString(n / 10);
      s
  }

  /** str(n) for any int: a minus sign in front of negative numbers. */
  function IntToString(n: int): (s: string)
    ensures |s| > 0
    ensures n < 0 <==> s[0] == '-'
  {
    if n < 0 then "-" + NatToString(-n) else NatToString(n)
  }

  /** A number of exactly k digits is written with exactly k characters. */
  lemma {:induction false} NatToStringLength(n: nat, k: nat)
    requires k >= 1 && Pow10(k - 1) <= n < Pow10(k)
    ensures |NatToString(n)| == k
  {
    if k > 1 {
      NatToStringLength(n / 10, k - 1);
    }
  }

  // ---------------------------------------------------------------------
  // float(str): whitespace, an optional sign, a mantissa with an optional
  // point, and an optional exponent.
  // ---------------------------------------------------------------------

  /** The ASCII characters Python's float() skips around a number. */
  predicate IsSpace(c: char) { c == ' ' || '\t' <= c <= '\r' }

  function TrimStart(s: string): (t: string)
    ensures |t| <= |s| && t == s[|s| - |t|..]
    ensures t != [] ==> !IsSpace(t[0])
  {
    if s != [] && IsSpace(s[0]) then TrimStart(s[1..]) else s
  }

  function TrimEnd(s: string): (t: string)
    ensures |t| <= |s| && t == s[..|t|]
    ensures t != [] ==> !IsSpace(t[|t| - 1])
  {
    if s != [] && IsSpace(s[|s| - 1]) then TrimEnd(s[..|s| - 1]) else s
  }

  function Strip(s: string): string { TrimEnd(TrimStart(s)) }

  /** Index of the first character satisfying p, or |s| if none does. */
  function FindFirst(s: string, p: char -> bool): (k: nat)
    ensures k <= |s|
    ensures k < |s| ==> p(s[k])
    ensures forall i :: 0 <= i < k ==> !p(s[i])
  {
    if s == [] then 0
    else if p(s[0]) then 0
    else 1 + FindFirst(s[1..], p)
  }

  predicate IsExponentMark(c: char) { c == 'e' || c == 'E' }

  predicate IsPoint(c: char) { c == '.' }

  /** A finite decimal number: mantissa times ten to the exponent. */
  datatype DecimalNumber = DecimalNumber(mantissa: int, exponent: int)

  /** The exact value, one power of ten at a time. */
  function ToReal(d: DecimalNumber): real
    decreases if d.exponent < 0 then -d.exponent else d.exponent
  {
    if d.exponent == 0 then d.mantissa as real
    else if d.exponent > 0 then ToReal(DecimalNumber(d.mantissa, d.exponent - 1)) * 10.0
    else ToReal(DecimalNumber(d.mantissa, d.exponent + 1)) / 10.0
  }

  /**
   * Digits, "digits.", ".digits" or "digits.digits"; no sign, no exponent.
   * "12.34" is 1234 times ten to the -2.
   */
  function ParseMantissa(t: string): Option<DecimalNumber>
  {
    var d := FindFirst(t, IsPoint);
    var whole, frac := t[..d], if d < |t| then t[d + 1..] else [];
    if AllDigits(whole) && AllDigits(frac) && |whole| + |frac| > 0 then
      Some(DecimalNumber(DigitsValue(whole + frac), -|frac|))
    else None
  }

  /** The integer after an exponent mark: an optional sign and at least one digit. */
  function ParseExponent(t: string): Option<int>
  {
    var neg := t != [] && t[0] == '-';
    var body := if t != [] && (t[0] == '-' || t[0] == '+') then t[1..] else t;
    if body != [] && AllDigits(body) then
      Some(if neg then -(DigitsValue(body) as int) else DigitsValue(body))
    else None
  }

  function ParseUnsigned(t: string): Option<DecimalNumber>
  {
    var e := FindFirst(t, IsExponentMark);
    if e == |t| then ParseMantissa(t)
    else
      match (ParseMantissa(t[..e]), ParseExponent(t[e + 1..]))
      case (Some(m), Some(x)) => Some(DecimalNumber(m.mantissa, m.exponent + x))
      case _ => None
  }

  /** An optional sign in front of an unsigned number. */
  function ParseSigned(t: string): Option<DecimalNumber>
  {
    if t != [] && (t[0] == '-' || t[0] == '+') then
      match ParseUnsigned(t[1..])
      case Some(d) => Some(if t[0] == '-' then DecimalNumber(-d.mantissa, d.exponent) else d)
      case None => None
    else ParseUnsigned(t)
  }

  /**
   * float(s) on a str in its decimal grammar (inf and nan spellings are not
   * read), or None where Python raises ValueError. In this grammar only text
   * holding a digit converts: "N/A", "", "-" and "." all fail.
   */
  function ParseFloat(s: string): (r: Option<real>)
    ensures r.Some? ==> HasDigit(s)
  {
    SignedNeedsDigit(s);
    match ParseSigned(Strip(s))
    case Some(d) => Some(ToReal(d))
    case None => None
  }

  /**
   * The text str() gives a float holding m / 100, as round(x, 2) leaves it:
   * the integer part, a point, and the two decimals with a trailing zero
   * dropped (one digit always stays).
   */
  function CentsText(m: nat): (s: string)
    ensures |s| >= 3 && IsDigit(s[0]) && IsDigit(s[|s| - 1])
    ensures s[|s| - 1] == '0' ==> s[|s| - 2] == '.'
  {
    NatToString(m / 100) + "." + Decimals(m % 100)
  }

  /** The decimals of c hundredths: "5" for 50, "05" for 5, "0" for 0. */
  function Decimals(c: nat): (s: string)
    requires c < 100
    ensures 1 <= |s| <= 2 && AllDigits(s)
    ensures s[|s| - 1] == '0' ==> |s| == 1
  {
    if c % 10 == 0 then [DigitChar(c / 10)] else [DigitChar(c / 10), DigitChar(c % 10)]
  }

  // ---------------------------------------------------------------------
  // Properties
  // ---------------------------------------------------------------------

  lemma StripUnpadded(s: string)
    requires s != [] && !IsSpace(s[0]) && !IsSpace(s[|s| - 1])
    ensures Strip(s) == s
  {
  }

  /** A bare run of digits is read as the number it spells. */
  lemma ParseUnsignedOfDigits(digits: string)
    requires digits != [] && AllDigits(digits)
    ensures ParseUnsigned(digits) == Some(DecimalNumber(DigitsValue(digits), 0))
  {
    NoneSatisfy(digits, IsExponentMark);
    NoneSatisfy(digits, IsPoint);
    assert digits[..|digits|] == digits;
    assert digits + [] == digits;
  }

  /** A bare run of digits, leading zeros and all, converts to the number it spells. */
  lemma ParseFloatOfDigits(s: string)
    requires s != [] && AllDigits(s)
    ensures ParseFloat(s) == Some(DigitsValue(s) as real)
  {
    SignedOfUnpadded(s);
    ParseUnsignedOfDigits(s);
    ParseFloatOfSigned(s, DecimalNumber(DigitsValue(s), 0));
  }

  /** The text of an int is read as that int times ten to the zero. */
  lemma ParseSignedOfIntToString(n: int)
    ensures ParseSigned(Strip(IntToString(n))) == Some(DecimalNumber(n, 0))
  {
    var s := IntToString(n);
    if n < 0 {
      var digits := NatToString(-n);
      assert s[1..] == digits;
      assert s[|s| - 1] == digits[|digits| - 1];
      StripUnpadded(s);
      ParseUnsignedOfDigits(digits);
    } else {
      SignedOfUnpadded(s);
      ParseUnsignedOfDigits(s);
    }
  }

  /** The text Python writes for an int reads back as that same number. */
  lemma ParseFloatOfIntToString(n: int)
    ensures ParseFloat(IntToString(n)) == Some(n as real)
  {
    ParseSignedOfIntToString(n);
    ParseFloatOfSigned(IntToString(n), DecimalNumber(n, 0));
  }

  /** Different ints are written differently. */
  lemma IntToStringInjective(a: int, b: int)
    requires IntToString(a) == IntToString(b)
    ensures a == b
  {
    ParseFloatOfIntToString(a);
    ParseFloatOfIntToString(b);
  }

  lemma MantissaNeedsDigit(t: string)
    requires ParseMantissa(t).Some?
    ensures HasDigit(t)
  {
    var d := FindFirst(t, IsPoint);
    var whole, frac := t[..d], if d < |t| then t[d + 1..] else [];
    if |whole| > 0 {
      assert IsDigit(t[0]);
    } else {
      assert IsDigit(t[d + 1]);
    }
  }

  lemma UnsignedNeedsDigit(t: string)
    requires ParseUnsigned(t).Some?
    ensures HasDigit(t)
  {
    var e := FindFirst(t, IsExponentMark);
    if e == |t| {
      MantissaNeedsDigit(t);
    } else {
      MantissaNeedsDigit(t[..e]);
      var i :| 0 <= i < e && IsDigit(t[..e][i]);
      assert IsDigit(t[i]);
    }
  }

  lemma StripKeepsDigits(s: string)
    requires HasDigit(Strip(s))
    ensures HasDigit(s)
  {
    var t := Strip(s);
    assert t == TrimStart(s)[..|t|];
    var i :| 0 <= i < |t| && IsDigit(t[i]);
    assert IsDigit(s[|s| - |TrimStart(s)| + i]);
  }

  lemma SignedNeedsDigit(s: string)
    ensures ParseSigned(Strip(s)).Some? ==> HasDigit(s)
  {
    var t := Strip(s);
    if ParseSigned(t).Some? {
      if t != [] && (t[0] == '-' || t[0] == '+') {
        UnsignedNeedsDigit(t[1..]);
        var i :| 0 <= i < |t[1..]| && IsDigit(t[1..][i]);
        assert IsDigit(t[i + 1]);
      } else {
        UnsignedNeedsDigit(t);
      }
      StripKeepsDigits(s);
    }
  }

  /** No character of s satisfies p, so the search runs to the end. */
  lemma NoneSatisfy(s: string, p: char -> bool)
    requires forall i :: 0 <= i < |s| ==> !p(s[i])
    ensures FindFirst(s, p) == |s|
  {
  }

  /** whole.frac is read as the digits of both, scaled down by the decimals. */
  lemma MantissaPointed(whole: string, frac: string)
    requires whole != [] && frac != [] && AllDigits(whole) && AllDigits(frac)
    ensures ParseMantissa(whole + "." + frac) == Some(DecimalNumber(DigitsValue(whole + frac), -|frac|))
  {
    var s := whole + "." + frac;
    assert forall i :: 0 <= i < |whole| ==> !IsPoint(s[i]) by {
      forall i | 0 <= i < |whole| ensures !IsPoint(s[i]) {
        assert s[i] == whole[i];
      }
    }
    FirstAt(s, IsPoint, |whole|);
    assert s[..|whole|] == whole && s[|whole| + 1..] == frac;
  }

  /** The first character satisfying p is at k. */
  lemma FirstAt(s: string, p: char -> bool, k: nat)
    requires k < |s| && p(s[k])
    requires forall i :: 0 <= i < k ==> !p(s[i])
    ensures FindFirst(s, p) == k
  {
  }

  lemma UnsignedPointed(whole: string, frac: string)
    requires whole != [] && frac != [] && AllDigits(whole) && AllDigits(frac)
    ensures ParseUnsigned(whole + "." + frac) == Some(DecimalNumber(DigitsValue(whole + frac), -|frac|))
  {
    var s := whole + "." + frac;
    assert forall i :: 0 <= i < |s| ==> !IsExponentMark(s[i]) by {
      forall i | 0 <= i < |s| ensures !IsExponentMark(s[i]) {
        if i < |whole| {
          assert s[i] == whole[i];
        } else if i > |whole| {
          assert s[i] == frac[i - |whole| - 1];
        }
      }
    }
    NoneSatisfy(s, IsExponentMark);
    MantissaPointed(whole, frac);
  }

  /** Text starting and ending with a digit is read without strip or sign. */
  lemma SignedOfUnpadded(t: string)
    requires t != [] && IsDigit(t[0]) && IsDigit(t[|t| - 1])
    ensures ParseSigned(Strip(t)) == ParseUnsigned(t)
  {
    StripUnpadded(t);
  }

  /** The digits of m / 100 and of its decimals, scaled down, make m / 100. */
  lemma CentsValue(m: nat)
    ensures ToReal(CentsNumber(m)) == m as real / 100.0
  {
    var whole, c := NatToString(m / 100), m % 100;
    var frac := Decimals(c);
    var v := DigitsValue(whole + frac);
    if c % 10 == 0 {
      assert (whole + frac)[..|whole|] == whole;
      assert v == (m / 100) * 10 + c / 10;
      assert m == 10 * v;
      assert ToReal(DecimalNumber(v, -1)) == v as real / 10.0;
    } else {
      var head := whole + [frac[0]];
      assert (whole + frac)[..|whole| + 1] == head;
      assert head[..|whole|] == whole;
      assert DigitsValue(head) == (m / 100) * 10 + c / 10;
      assert v == DigitsValue(head) * 10 + c % 10;
      assert m == v;
      assert ToReal(DecimalNumber(v, -2)) == ToReal(DecimalNumber(v, -1)) / 10.0;
    }
  }

  lemma ParseFloatOfSigned(s: string, d: DecimalNumber)
    requires ParseSigned(Strip(s)) == Some(d)
    ensures ParseFloat(s) == Some(ToReal(d))
  {
  }

  lemma DigitsConcat(a: string, b: string)
    requires AllDigits(a) && AllDigits(b)
    ensures AllDigits(a + b)
  {
    assert forall i :: 0 <= i < |a + b| ==> (a + b)[i] == if i < |a| then a[i] else b[i - |a|];
  }

  /** The number CentsText(m) spells: its digits over ten to the count of decimals. */
  function CentsNumber(m: nat): DecimalNumber
  {
    var whole, frac := NatToString(m / 100), Decimals(m % 100);
    DigitsConcat(whole, frac);
    DecimalNumber(DigitsValue(whole + frac), -|frac|)
  }

  lemma CentsParse(m: nat)
    ensures ParseFloat(CentsText(m)) == Some(ToReal(CentsNumber(m)))
  {
    var whole, frac := NatToString(m / 100), Decimals(m % 100);
    assert ParseSigned(Strip(CentsText(m))) == Some(CentsNumber(m)) by {
      assert CentsText(m) == whole + "." + frac;
      UnsignedPointed(whole, frac);
      SignedOfUnpadded(CentsText(m));
    }
    ParseFloatOfSigned(CentsText(m), CentsNumber(m));
  }

  /** The text of a two-decimal float reads back as that float. */
  lemma ParseFloatOfCents(m: nat)
    ensures ParseFloat(CentsText(m)) == Some(m as real / 100.0)
  {
    CentsParse(m);
    CentsValue(m);
    // The two lemmas meet at ToReal(CentsNumber(m)); naming the value and
    // lifting the equality into Some keeps the solver from searching for it.
    var x := m as real / 100.0;
    assert ToReal(CentsNumber(m)) == x;
    assert Some(ToReal(CentsNumber(m))) == Some(x);
  }
}
