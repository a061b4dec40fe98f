/** Small pieces of JavaScript's string and number semantics that the rest of the model
    relies on: `null`-able values, the truncating `%` operator, ASCII case tests and case
    mapping, and suffix tests. */
module JsText {

  /** A value that may be absent (`null`, `undefined`, or a parse that failed). */
  datatype Option<+T> = None | Some(value: T)

  /** JavaScript's `%` on integers: the remainder truncates toward zero, so it takes the
      sign of the dividend (Dafny's `%` is Euclidean and never negative). */
  function JsRem(a: int, b: int): (r: int)
    requires b > 0
    ensures -b < r < b
    ensures a >= 0 ==> r == a % b
    ensures a < 0 ==> r <= 0
  {
    if a >= 0 then a % b else -((-a) % b)
  }

  /** The truncating remainder by 26 differs from the dividend by a multiple of 26, and is
      zero exactly when the Euclidean one is. */
  lemma JsRem26(a: int)
    ensures (a - JsRem(a, 26)) % 26 == 0
    ensures JsRem(a, 26) == 0 <==> a % 26 == 0
  {
  }

  predicate IsUpper(c: char) { 'A' <= c <= 'Z' }
  predicate IsLower(c: char) { 'a' <= c <= 'z' }
  predicate IsLetter(c: char) { IsUpper(c) || IsLower(c) }

  /** Lower-cases an ASCII letter and leaves every other character alone. */
  function LowerAscii(c: char): (d: char)
    ensures IsLower(d) <==> IsLetter(c)
    ensures !IsLetter(c) ==> d == c
  {
    if IsUpper(c) then (c as int + 32) as char else c
  }

  /** Upper-cases an ASCII letter and leaves every other character alone: the result is
      the upper-case letter with the same lower-case form. */
  function UpperAscii(c: char): (d: char)
    ensures IsUpper(d) <==> IsLetter(c)
    ensures !IsLetter(c) ==> d == c
    ensures LowerAscii(d) == LowerAscii(c)
  {
    if IsLower(c) then (c as int - 32) as char else c
  }

  /** `s.toUpperCase()` restricted to ASCII letters: the result spells the same text up to
      case and holds no lower-case letter. */
  function UpperAsciiString(s: string): (r: string)
    ensures |r| == |s|
    ensures forall i :: 0 <= i < |s| ==> LowerAscii(r[i]) == LowerAscii(s[i]) && !IsLower(r[i])
  {
    seq(|s|, i requires 0 <= i < |s| => UpperAscii(s[i]))
  }

  /** The two properties stated for upper-casing determine it: a text with no lower-case
      letter that spells `s` up to case is the upper-cased `s`. */
  lemma UpperAsciiStringUnique(s: string, r: string)
    requires |r| == |s|
    requires forall i :: 0 <= i < |s| ==> LowerAscii(r[i]) == LowerAscii(s[i]) && !IsLower(r[i])
    ensures r == UpperAsciiString(s)
  {
    var u := UpperAsciiString(s);
    forall i | 0 <= i < |s| ensures r[i] == u[i] {
      assert LowerAscii(r[i]) == LowerAscii(u[i]);
    }
  }

  /** `s.toLowerCase()` restricted to ASCII letters. */
  function LowerAsciiString(s: string): (r: string)
    ensures |r| == |s|
    ensures forall i :: 0 <= i < |s| ==> r[i] == LowerAscii(s[i])
  {
    seq(|s|, i requires 0 <= i < |s| => LowerAscii(s[i]))
  }

  /** Folding to upper case and folding to lower case identify the same characters. */
  lemma SameIgnoringCaseLower(a: char, b: char)
    ensures SameIgnoringCase(a, b) <==> LowerAscii(a) == LowerAscii(b)
  {
  }

  /** Value of a digit in bases up to 36 (`0-9`, then letters of either case); 36 for a
      character that is no digit. */
  function DigitValue(c: char): (v: nat)
    ensures v <= 36
    ensures v < 10 <==> '0' <= c <= '9'
  {
    if '0' <= c <= '9' then c as int - '0' as int
    else if 'a' <= c <= 'z' then c as int - 'a' as int + 10
    else if 'A' <= c <= 'Z' then c as int - 'A' as int + 10
    else 36
  }

  /** Numeric value of a run of digits, most significant first, in base 16 or 10. */
  function DigitsValue(z: string, hex: bool): nat {
    if z == [] then 0
    else if hex then 16 * DigitsValue(z[..|z| - 1], hex) + DigitValue(z[|z| - 1])
    else 10 * DigitsValue(z[..|z| - 1], hex) + DigitValue(z[|z| - 1])
  }

  /** Two characters are equal under ASCII case folding (the `i` flag of a
      non-Unicode regular expression folds only ASCII letters onto each other). */
  predicate SameIgnoringCase(a: char, b: char) {
    UpperAscii(a) == UpperAscii(b)
  }

  /** `/<suffix>$/i.test(s)`: `s` ends with `suffix`, letters compared without case. */
  predicate EndsWithIgnoringCase(s: string, suffix: string) {
    |suffix| <= |s| &&
    forall i :: 0 <= i < |suffix| ==> SameIgnoringCase(s[|s| - |suffix| + i], suffix[i])
  }

  /** `s.startsWith(prefix)`. */
  predicate StartsWith(s: string, prefix: string) {
    |prefix| <= |s| && s[..|prefix|] == prefix
  }

  /** JavaScript truthiness of a string: only the empty string is falsy. */
  predicate Truthy(s: string) { s != "" }

  /** JavaScript truthiness of a string that may be `null`. */
  predicate TruthyOpt(s: Option<string>) { s.Some? && s.value != "" }
}
