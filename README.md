# Version formatting

A Dafny model of the single function in `remote/version-formatting.js`. The
function takes a numeric version counter `v` and displays it as
`<major>f<minor>`:

- an absent or falsy `v` is replaced by `0` (`v ||= 0`);
- `major` is `Math.floor(v / 1000)`, rendered in decimal by the template literal;
- `minor` is `v - Math.floor(v / 1000)`, rendered by `toString(32)`.

The minor value is taken literally. It is `v - floor(v / 1000)`, not
`v mod 1000`. So 1000 is displayed as `1fv7` (minor 999), and 2500 as `2f2e2`
(minor 2498 = 2·1024 + 14·32 + 2). 500 is displayed as `0ffk`, because 500 is
`fk` in base 32. `FiveHundredExample` and `TwoThousandFiveHundredExample`
prove "0ffk" and "2f2e2".

Files:

- `wrappers.dfy` (module `Wrappers`): the `Option` datatype.
- `numerals.dfy` (module `Numerals`): integer-to-text conversion as
  `Number.prototype.toString(radix)` performs it on integers (section 21.1.3.6
  of ECMA-262). Digits are `0`–`9` then `a`–`z`. There are no leading zeros,
  zero is written `"0"`, and a negative number gets one leading `-`. It also
  defines a reference parser. Conversion and parser are proved inverse in both
  directions on canonical numerals.
- `version_formatting.dfy` (module `VersionFormatting`): the default, the
  floor division, the literal minor value and the formatter `FormatVersion`.
  It also has a splitter at the first `f` and a reference inverse
  `ParseVersion`, against which the formatter is proved.

The input is modelled as `Option<int>`. `None` stands for an absent argument,
and among integers only `0` is falsy. The function is pure: `FormatVersion` is
a Dafny function of `v` alone, so its result depends on nothing else and it
changes no state.

## Model

| member | source | states |
|---|---|---|
| `VersionFormatting.FormatVersion` | remote/version-formatting.js:1-4 | the display splits at its first 'f' into the decimal numeral of floor(e / 1000) and the base-32 numeral of e - floor(e / 1000), where e is the input after the falsy default, even when the minor part contains 'f' |
| `VersionFormatting.Effective` | remote/version-formatting.js:2 | the value after `v ||= 0` (the falsy test is the predicate `Falsy`: absent or 0): an absent input becomes 0; an integer input, including the falsy 0, is kept unchanged |
| `VersionFormatting.Major` | remote/version-formatting.js:3 | the major value is the floor of v / 1000: q · 1000 <= v < q · 1000 + 1000, which also holds for negative v |
| `VersionFormatting.Minor` | remote/version-formatting.js:3 | the literal minor value v - floor(v / 1000) equals 999 · floor(v / 1000) + (v mod 1000); it is negative exactly when v < -1 |
| `VersionFormatting.SplitAtSeparator` | remote/version-formatting.js:3 | when an 'f' is present, the text splits around its first occurrence, with no 'f' before it; when none is present, the result is None |
| `VersionFormatting.SplitAtFirstSeparator` | remote/version-formatting.js:3 | for a prefix without 'f', splitting prefix + "f" + rest returns exactly (prefix, rest), whatever rest contains |
| `VersionFormatting.DecimalHasNoSeparator` | remote/version-formatting.js:3 | the decimal rendering of any integer contains no 'f' |
| `VersionFormatting.Reconstruction` | remote/version-formatting.js:2-3 | reading the major part in decimal and the minor part in base 32, then adding them, gives back the effective input |
| `VersionFormatting.FormatVersionInjective` | remote/version-formatting.js:3 | two distinct integer inputs never produce the same display |
| `VersionFormatting.ZeroInput` | remote/version-formatting.js:2-3 | the output is "0f0" if and only if the input is falsy (absent or 0) |
| `VersionFormatting.PartAlphabets` | remote/version-formatting.js:3 | the major part is a canonical decimal numeral over '0'..'9'; the minor part is a canonical base-32 numeral over '0'..'9' and 'a'..'v'; each has at most one '-', at its front, and no leading zero unless it is "0" |
| `VersionFormatting.SignOfOutput` | remote/version-formatting.js:3 | for v >= 0 neither part has a '-'; the whole display contains a '-' exactly when v < 0 |
| `VersionFormatting.MinorAgreesWithModExactlyBelowThousand` | remote/version-formatting.js:3 | the literal minor value equals v mod 1000 exactly when 0 <= v < 1000 |
| `VersionFormatting.ThousandExample` | remote/version-formatting.js:3 | 1000 is displayed as "1fv7" |
| `VersionFormatting.FiveHundredExample` | remote/version-formatting.js:3 | 500 is displayed as "0ffk": the minor part begins with the separator letter |
| `VersionFormatting.TwoThousandFiveHundredExample` | remote/version-formatting.js:3 | 2500 is displayed as "2f2e2" |
| `VersionFormatting.MinusOneExample` | remote/version-formatting.js:3 | -1 is displayed as "-1f0": floor rounds toward negative infinity |
| `VersionFormatting.MinusThousandExample` | remote/version-formatting.js:3 | -1000 is displayed as "-1f-v7": a negative minor value gets its own '-' |
| `Numerals.DigitChar` | remote/version-formatting.js:3 | each digit value below 36 has a character that reads back as that value |
| `Numerals.DigitValue` | remote/version-formatting.js:3 | the digit characters are exactly '0'..'9' and 'a'..'z', with values below 36 |
| `Numerals.DigitCharOfValue` | remote/version-formatting.js:3 | every digit character is the character of its own value |
| `Numerals.DigitAlphabet` | remote/version-formatting.js:3 | the digits of radix r are the first r characters of 0–9, a–z |
| `Numerals.NatToString` | remote/version-formatting.js:3 | a non-negative integer is rendered as a canonical numeral whose digit value is that integer; it starts with '0' exactly when the integer is 0 |
| `Numerals.IntToString` | remote/version-formatting.js:3 | an integer is rendered as a canonical numeral with a leading '-' exactly when negative, and the reference parser reads it back as that integer |
| `Numerals.NatToStringOfCanonical` | remote/version-formatting.js:3 | every canonical numeral without a sign is the rendering of its own value |
| `Numerals.IntToStringOfCanonical` | remote/version-formatting.js:3 | every canonical numeral parses, and is the rendering of the integer it parses to; with IntToString's contract this makes rendering and parsing inverse in both directions |
| `Numerals.CanonicalIntChars` | remote/version-formatting.js:3 | a canonical numeral is digits after an optional leading '-', and contains a '-' only at its front |

## Left out

- Non-integer inputs: `toString(32)` of a fractional Number emits a floating-point base-32 expansion. That is floating-point behaviour, and the model takes `v` as an integer.
- NaN, ±Infinity, `null`, `undefined`, `-0` and strings: these are JavaScript coercion details. All of them are falsy or non-integral, and the ones `v ||= 0` replaces are represented by `None`, which the model maps to 0. Non-falsy non-numbers and the `"NaN"`/`"Infinity"` text forms are not modelled.
- Integers outside ±(2^53 − 1): Number loses precision there, and decimal output switches to exponent notation from 1e21. The model uses unbounded integers and so is faithful only within the safe-integer range.
- The `export default` wrapper: module plumbing with no behaviour.
