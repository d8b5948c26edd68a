/**
 * Integer-to-text conversion as Number.prototype.toString(radix) performs it
 * on integral values (section 21.1.3.6 of ECMA-262): the digits are '0'..'9'
 * followed by 'a'..'z', there is no leading zero except in "0", and a
 * negative value is written as '-' followed by the numeral of its magnitude.
 * Template literals render a Number in radix 10, the same way.
 *
 * The parser here is the reference definition the conversion is proved
 * against: every integer is written as a canonical numeral that parses back
 * to it, and every canonical numeral is the rendering of the value it parses to.
 */
module Numerals {
  import opened Wrappers

  /** The radixes Number.prototype.toString accepts. */
  type Radix = r: int | 2 <= r <= 36 witness 10

  /** The character of digit value d: '0'..'9', then 'a'..'z'. */
  function DigitChar(d: nat): (c: char)
    requires d < 36
    ensures DigitValue(c) == Some(d)
  {
    if d < 10 then ('0' as int + d) as char else ('a' as int + (d - 10)) as char
  }

  /** The value of c as a digit of some radix up to 36, if it is one. */
  function DigitValue(c: char): (r: Option<nat>)
    ensures r.Some? <==> '0' <= c <= '9' || 'a' <= c <= 'z'
    ensures r.Some? ==> r.value < 36
  {
    if '0' <= c <= '9' then Some(c as int - '0' as int)
    else if 'a' <= c <= 'z' then Some(c as int - 'a' as int + 10)
    else None
  }

  /** Every digit character is the character of its own value. */
  lemma DigitCharOfValue(c: char)
    requires DigitValue(c).Some?
    ensures DigitChar(DigitValue(c).value) == c
  {
  }

  predicate IsDigit(c: char, radix: Radix) {
    DigitValue(c).Some? && DigitValue(c).value < radix
  }

  predicate IsDigits(s: string, radix: Radix) {
    forall i :: 0 <= i < |s| ==> IsDigit(s[i], radix)
  }

  /** The digits of radix r are '0' up to the r-th character of "0123456789abc...z". */
  lemma DigitAlphabet(c: char, radix: Radix)
    ensures IsDigit(c, radix) <==>
      ('0' <= c <= '9' && c as int - '0' as int < radix) ||
      ('a' <= c <= 'z' && c as int - 'a' as int + 10 < radix)
  {
  }

  /** The value of a digit string, most significant digit first. */
  function DigitsValue(s: string, radix: Radix): nat
    requires IsDigits(s, radix)
  {
    if s == [] then 0
    else DigitsValue(s[..|s| - 1], radix) * radix + DigitValue(s[|s| - 1]).value
  }

  /** A numeral without sign as toString writes one: no leading zero unless it is "0". */
  predicate IsCanonicalNat(s: string, radix: Radix) {
    |s| > 0 && IsDigits(s, radix) && (s[0] == '0' ==> |s| == 1)
  }

  /** A canonical numeral with an optional leading '-', never "-0". */
  predicate IsCanonicalInt(s: string, radix: Radix) {
    IsCanonicalNat(s, radix) ||
    (|s| >= 2 && s[0] == '-' && IsCanonicalNat(s[1..], radix) && s[1] != '0')
  }

  /** Reference parser for a numeral without sign. */
  function ParseNat(s: string, radix: Radix): Option<nat> {
    if |s| > 0 && IsDigits(s, radix) then Some(DigitsValue(s, radix)) else None
  }

  /** Reference parser for a numeral with an optional leading '-'. */
  function ParseInt(s: string, radix: Radix): Option<int> {
    if |s| > 0 && s[0] == '-' then
      match ParseNat(s[1..], radix)
      case Some(n) => Some(-(n as int))
      case None => None
    else
      match ParseNat(s, radix)
      case Some(n) => Some(n)
      case None => None
  }

  /** Euclidean division: n is its quotient times the radix plus its remainder. */
  lemma DivModDecompose(n: nat, radix: Radix)
    ensures n == (n / radix) * radix + n % radix && 0 <= n % radix < radix
    ensures n >= radix ==> 0 < n / radix < n
  {
    if n >= radix {
      MultipleAtLeastRadix(n / radix + 1, radix);
    }
  }

  /** A positive multiple of the radix is at least the radix. */
  lemma MultipleAtLeastRadix(a: nat, radix: Radix)
    requires a > 0
    ensures a * radix >= radix
  {
    assert a * radix == (a - 1) * radix + radix;
  }

  /** Algebra of base-radix digits: the quotient and remainder of a * radix + d. */
  lemma SplitLastDigit(a: nat, d: nat, radix: Radix)
    requires d < radix
    ensures (a * radix + d) / radix == a && (a * radix + d) % radix == d
  {
    var n := a * radix + d;
    var q, m := n / radix, n % radix;
    DivModDecompose(n, radix);
    assert (a - q) * radix == m - d;
    if a - q >= 1 {
      MultipleAtLeastRadix(a - q, radix);
      assert false;
    } else if q - a >= 1 {
      MultipleAtLeastRadix(q - a, radix);
      assert false;
    }
  }

  /** Appending a digit multiplies the value by the radix and adds the digit. */
  lemma AppendDigit(p: string, c: char, radix: Radix)
    requires IsDigits(p, radix) && IsDigit(c, radix)
    ensures IsDigits(p + [c], radix)
    ensures DigitsValue(p + [c], radix) == DigitsValue(p, radix) * radix + DigitValue(c).value
  {
    var s := p + [c];
    assert s[..|s| - 1] == p;
  }

  /** Number.prototype.toString(radix) on a non-negative integer. */
  function NatToString(n: nat, radix: Radix): (s: string)
    ensures IsCanonicalNat(s, radix) && DigitsValue(s, radix) == n
    ensures s[0] == '0' <==> n == 0
    decreases n
  {
    if n < radix then
      var c := DigitChar(n);
      assert [c][..0] == [];
      assert DigitsValue([c], radix) == 0 * radix + n;
      [c]
    else
      var q, d := n / radix, n % radix;
      DivModDecompose(n, radix);
      var p := NatToString(q, radix);
      var c := DigitChar(d);
      AppendDigit(p, c, radix);
      assert (p + [c])[0] == p[0] != '0';
      p + [c]
  }

  /** Number.prototype.toString(radix) on an integer. */
  function IntToString(x: int, radix: Radix): (s: string)
    ensures IsCanonicalInt(s, radix)
    ensures s[0] == '-' <==> x < 0
    ensures ParseInt(s, radix) == Some(x)
  {
    if x < 0 then
      var s := "-" + NatToString(-x, radix);
      assert s[1..] == NatToString(-x, radix);
      s
    else NatToString(x, radix)
  }

  /** A digit string that starts with a non-zero digit has a positive value. */
  lemma {:induction false} LeadingDigitPositive(s: string, radix: Radix)
    requires |s| > 0 && IsDigits(s, radix) && s[0] != '0'
    ensures DigitsValue(s, radix) > 0
    decreases |s|
  {
    if |s| == 1 {
      assert DigitsValue(s, radix) == DigitsValue([], radix) * radix + DigitValue(s[0]).value;
    } else {
      var p := s[..|s| - 1];
      assert p[0] == s[0];
      LeadingDigitPositive(p, radix);
    }
  }

  /** Every canonical numeral without sign is the rendering of its own value. */
  lemma {:induction false} NatToStringOfCanonical(s: string, radix: Radix)
    requires IsCanonicalNat(s, radix)
    ensures NatToString(DigitsValue(s, radix), radix) == s
    decreases |s|
  {
    var d := DigitValue(s[|s| - 1]).value;
    DigitCharOfValue(s[|s| - 1]);
    if |s| == 1 {
      assert DigitsValue(s, radix) == DigitsValue([], radix) * radix + d;
    } else {
      var p := s[..|s| - 1];
      assert p[0] == s[0];
      assert s == p + [s[|s| - 1]];
      LeadingDigitPositive(p, radix);
      NatToStringOfCanonical(p, radix);
      var a := DigitsValue(p, radix);
      SplitLastDigit(a, d, radix);
      MultipleAtLeastRadix(a, radix);
    }
  }

  /** Every canonical numeral is the rendering of the integer it parses to. */
  lemma IntToStringOfCanonical(s: string, radix: Radix)
    requires IsCanonicalInt(s, radix)
    ensures ParseInt(s, radix).Some? && IntToString(ParseInt(s, radix).value, radix) == s
  {
    if IsCanonicalNat(s, radix) {
      assert s[0] != '-';
      NatToStringOfCanonical(s, radix);
    } else {
      var m := s[1..];
      assert ParseInt(s, radix) == Some(0 - DigitsValue(m, radix));
      NatToStringOfCanonical(m, radix);
      LeadingDigitPositive(m, radix);
      assert s == "-" + m;
    }
  }

  /** A canonical numeral has a '-' only in front, and only for a negative value. */
  lemma CanonicalIntChars(s: string, radix: Radix)
    requires IsCanonicalInt(s, radix)
    ensures forall i :: 0 < i < |s| ==> IsDigit(s[i], radix)
    ensures s[0] == '-' || IsDigit(s[0], radix)
    ensures '-' in s <==> s[0] == '-'
  {
    if s[0] == '-' && !IsCanonicalNat(s, radix) {
      assert forall i :: 0 < i < |s| ==> s[i] == s[1..][i - 1];
    }
  }
}
