/**
 * The version formatter of remote/version-formatting.js: a version counter v
 * is displayed as the decimal numeral of floor(v / 1000), the letter 'f', and
 * the base-32 numeral of v - floor(v / 1000).
 *
 * The input is an Option<int>: None stands for an absent or falsy argument,
 * which the source's `v ||= 0` replaces by 0, and among integers only 0 is
 * falsy. The minor part is taken literally as v - floor(v / 1000),
 * which is not v mod 1000 (MinorAgreesWithModExactlyBelowThousand).
 */
module VersionFormatting {
  import opened Wrappers
  import opened Numerals

  /** The character between the two parts. */
  const Separator: char := 'f'

  /** The divisor that separates the major part. */
  const Scale: int := 1000

  /** JavaScript falsiness, restricted to the inputs modelled. */
  predicate Falsy(v: Option<int>) {
    v.None? || v.value == 0
  }

  /** The value after `v ||= 0`: a falsy input becomes 0, any other is kept. */
  function Effective(v: Option<int>): (e: int)
    ensures v.None? ==> e == 0
    ensures v.Some? ==> e == v.value
  {
    if Falsy(v) then 0 else v.value
  }

  /** Math.floor(v / 1000): the greatest q with q * 1000 <= v. */
  function Major(v: int): (q: int)
    ensures q * Scale <= v < q * Scale + Scale
  {
    v / Scale
  }

  /**
   * The literal minor value v - Math.floor(v / 1000). Writing v as
   * 1000 * q + r with 0 <= r < 1000, it is 999 * q + r, and it is negative
   * exactly for the inputs below -1.
   */
  function Minor(v: int): (m: int)
    ensures m == 999 * Major(v) + v % Scale
    ensures m >= 0 <==> v >= -1
  {
    v - Major(v)
  }

  /**
   * The exported function. Its output splits at its first 'f' into the
   * decimal numeral of floor(e / 1000) and the base-32 numeral of
   * e - floor(e / 1000), where e is the input after the falsy default, even
   * when the minor part itself contains 'f'.
   */
  function FormatVersion(v: Option<int>): (s: string)
    ensures SplitAtSeparator(s) ==
      Some((IntToString(Major(Effective(v)), 10), IntToString(Minor(Effective(v)), 32)))
  {
    var e := Effective(v);
    var major, minor := IntToString(Major(e), 10), IntToString(Minor(e), 32);
    DecimalHasNoSeparator(Major(e));
    SplitAtFirstSeparator(major, minor);
    major + [Separator] + minor
  }

  /** The text before the first separator and the text after it, if there is one. */
  function SplitAtSeparator(s: string): (r: Option<(string, string)>)
    ensures r.Some? ==> s == r.value.0 + [Separator] + r.value.1 && Separator !in r.value.0
    ensures r.None? ==> Separator !in s
  {
    if s == [] then None
    else if s[0] == Separator then Some(([], s[1..]))
    else
      match SplitAtSeparator(s[1..])
      case None => None
      case Some((a, b)) => Some(([s[0]] + a, b))
  }

  /**
   * Reference inverse: the text before the first separator read in decimal,
   * plus the text after it read in base 32.
   */
  function ParseVersion(s: string): Option<int> {
    match SplitAtSeparator(s)
    case None => None
    case Some((a, b)) =>
      match (ParseInt(a, 10), ParseInt(b, 32))
      case (Some(major), Some(minor)) => Some(major + minor)
      case _ => None
  }

  /** The separator is found at the first 'f', whatever follows it. */
  lemma {:induction false} SplitAtFirstSeparator(a: string, b: string)
    requires Separator !in a
    ensures SplitAtSeparator(a + [Separator] + b) == Some((a, b))
    decreases |a|
  {
    var s := a + [Separator] + b;
    if a != [] {
      assert s[1..] == a[1..] + [Separator] + b;
      SplitAtFirstSeparator(a[1..], b);
      assert [a[0]] + a[1..] == a;
    } else {
      assert s[1..] == b;
    }
  }

  /** A decimal numeral has no 'f', so it cannot hide the separator. */
  lemma DecimalHasNoSeparator(x: int)
    ensures Separator !in IntToString(x, 10)
  {
    var s := IntToString(x, 10);
    CanonicalIntChars(s, 10);
    forall i | 0 <= i < |s| ensures s[i] != Separator {
      if s[i] != '-' {
        DigitAlphabet(s[i], 10);
      }
    }
  }

  /** Reading the two parts back and adding them gives the effective input. */
  lemma Reconstruction(v: Option<int>)
    ensures ParseVersion(FormatVersion(v)) == Some(Effective(v))
  {
  }

  /** Distinct integer inputs are displayed differently. */
  lemma FormatVersionInjective(x: int, y: int)
    requires FormatVersion(Some(x)) == FormatVersion(Some(y))
    ensures x == y
  {
    Reconstruction(Some(x));
    Reconstruction(Some(y));
  }

  /** The display is "0f0" exactly for the falsy inputs. */
  lemma ZeroInput(v: Option<int>)
    ensures FormatVersion(v) == "0f0" <==> Falsy(v)
  {
    assert IntToString(0, 10) == "0";
    assert IntToString(0, 32) == "0";
    if FormatVersion(v) == "0f0" {
      Reconstruction(v);
      assert "0f0" == "0" + [Separator] + "0";
      SplitAtFirstSeparator("0", "0");
      assert ParseVersion("0f0") == Some(0);
    }
  }

  /**
   * The major part uses only '0'..'9' after an optional leading '-', the
   * minor part only '0'..'9' and 'a'..'v' after an optional leading '-', and
   * neither has a leading zero unless it is "0".
   */
  lemma PartAlphabets(v: int)
    ensures var major := IntToString(Major(v), 10);
      && IsCanonicalInt(major, 10)
      && (major[0] == '-' || '0' <= major[0] <= '9')
      && forall i :: 0 < i < |major| ==> '0' <= major[i] <= '9'
    ensures var minor := IntToString(Minor(v), 32);
      && IsCanonicalInt(minor, 32)
      && (minor[0] == '-' || '0' <= minor[0] <= '9' || 'a' <= minor[0] <= 'v')
      && forall i :: 0 < i < |minor| ==> '0' <= minor[i] <= '9' || 'a' <= minor[i] <= 'v'
  {
    var major := IntToString(Major(v), 10);
    var minor := IntToString(Minor(v), 32);
    CanonicalIntChars(major, 10);
    CanonicalIntChars(minor, 32);
    forall i | 0 <= i < |major| && IsDigit(major[i], 10) ensures '0' <= major[i] <= '9' {
      DigitAlphabet(major[i], 10);
    }
    forall i | 0 <= i < |minor| && IsDigit(minor[i], 32)
      ensures '0' <= minor[i] <= '9' || 'a' <= minor[i] <= 'v'
    {
      DigitAlphabet(minor[i], 32);
    }
  }

  /** The display carries a '-' exactly when the input is negative. */
  lemma SignOfOutput(v: int)
    ensures Separator !in IntToString(Major(v), 10)
    ensures v >= 0 ==> '-' !in IntToString(Major(v), 10) && '-' !in IntToString(Minor(v), 32)
    ensures '-' in FormatVersion(Some(v)) <==> v < 0
  {
    var major := IntToString(Major(v), 10);
    var minor := IntToString(Minor(v), 32);
    DecimalHasNoSeparator(Major(v));
    CanonicalIntChars(major, 10);
    CanonicalIntChars(minor, 32);
    var s := FormatVersion(Some(v));
    assert s == major + [Separator] + minor;
    if v < 0 {
      assert s[0] == major[0] == '-';
    } else {
      assert Major(v) >= 0 && Minor(v) >= 0;
      forall i | 0 <= i < |s| ensures s[i] != '-' {
        if i > |major| {
          assert s[i] == minor[i - |major| - 1];
        }
      }
    }
  }

  /**
   * The literal minor value agrees with v mod 1000 only on 0..999: for every
   * other input the major part is non-zero and is subtracted once, not
   * 1000 times.
   */
  lemma MinorAgreesWithModExactlyBelowThousand(v: int)
    ensures Minor(v) == v % Scale <==> 0 <= v < Scale
  {
    var q := Major(v);
    assert v % Scale == v - q * Scale;
    if q != 0 {
      assert q * Scale != q;
    }
  }

  /** An input of 1000 displays its minor part as 999, not 0. */
  lemma ThousandExample()
    ensures FormatVersion(Some(1000)) == "1fv7"
  {
    assert NatToString(999, 32) == "v7";
  }

  /** The minor part may begin with the separator letter: 500 is "fk" in base 32. */
  lemma FiveHundredExample()
    ensures FormatVersion(Some(500)) == "0ffk"
  {
    assert NatToString(500, 32) == "fk";
  }

  lemma TwoThousandFiveHundredExample()
    ensures FormatVersion(Some(2500)) == "2f2e2"
  {
    assert NatToString(2498, 32) == "2e2";
  }

  /** Floor division rounds -1 / 1000 down to -1, and the minor value is then 0. */
  lemma MinusOneExample()
    ensures FormatVersion(Some(-1)) == "-1f0"
  {
  }

  lemma MinusThousandExample()
    ensures FormatVersion(Some(-1000)) == "-1f-v7"
  {
    assert Major(-1000) == -1 && Minor(-1000) == -999;
    assert IntToString(-1, 10) == "-1";
    assert NatToString(999, 32) == "v7";
    assert IntToString(-999, 32) == "-v7";
  }
}
