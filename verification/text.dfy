/** The .NET string primitives the domain relies on: `char.IsWhiteSpace`,
    `string.Trim`, `string.IsNullOrWhiteSpace`, `ToUpperInvariant`, ordinal
    case-insensitive comparison, and the decimal rendering of integers used in
    messages and dates. */
module Text {
  import opened Results

  /** `char.IsWhiteSpace`: the Unicode space separators (category Zs), the line
      and paragraph separators, and the control characters U+0009..U+000D, U+0085. */
  predicate IsWhiteSpace(c: char) {
    || ('\U{9}' <= c <= '\U{D}')
    || c == ' '
    || c == '\U{85}'
    || c == '\U{A0}'
    || c == '\U{1680}'
    || ('\U{2000}' <= c <= '\U{200A}')
    || c == '\U{2028}'
    || c == '\U{2029}'
    || c == '\U{202F}'
    || c == '\U{205F}'
    || c == '\U{3000}'
  }

  /** The twenty-five characters `char.IsWhiteSpace` accepts, listed one by one. */
  const WhiteSpaceChars: set<char> := {
    '\U{9}', '\U{A}', '\U{B}', '\U{C}', '\U{D}', ' ', '\U{85}', '\U{A0}', '\U{1680}',
    '\U{2000}', '\U{2001}', '\U{2002}', '\U{2003}', '\U{2004}', '\U{2005}',
    '\U{2006}', '\U{2007}', '\U{2008}', '\U{2009}', '\U{200A}',
    '\U{2028}', '\U{2029}', '\U{202F}', '\U{205F}', '\U{3000}'
  }

  /** The range description of white space agrees with the listing. */
  lemma WhiteSpaceListed(c: char)
    ensures IsWhiteSpace(c) <==> c in WhiteSpaceChars
  {
  }

  /** True when every character is white space (so also for the empty string). */
  predicate IsBlank(s: string) {
    forall i :: 0 <= i < |s| ==> IsWhiteSpace(s[i])
  }

  /** `string.IsNullOrWhiteSpace`. */
  predicate IsNullOrWhiteSpace(s: Option<string>) {
    s.None? || IsBlank(s.value)
  }

  /** The first index at or after `i` that does not hold white space (or `|s|`). */
  function SkipWhiteFrom(s: string, i: nat): (j: nat)
    requires i <= |s|
    ensures i <= j <= |s|
    ensures forall k :: i <= k < j ==> IsWhiteSpace(s[k])
    ensures j < |s| ==> !IsWhiteSpace(s[j])
    decreases |s| - i
  {
    if i < |s| && IsWhiteSpace(s[i]) then SkipWhiteFrom(s, i + 1) else i
  }

  /** Moving left from `e`, the end of the last character in `s[a..e]` that is
      not white space (or `a`). */
  function SkipWhiteBack(s: string, a: nat, e: nat): (b: nat)
    requires a <= e <= |s|
    ensures a <= b <= e
    ensures forall k :: b <= k < e ==> IsWhiteSpace(s[k])
    ensures b > a ==> !IsWhiteSpace(s[b - 1])
    decreases e
  {
    if e > a && IsWhiteSpace(s[e - 1]) then SkipWhiteBack(s, a, e - 1) else e
  }

  /** `string.Trim()`: drops white space at both ends. */
  function Trim(s: string): (r: string)
    ensures |r| <= |s|
    ensures r == [] || (!IsWhiteSpace(r[0]) && !IsWhiteSpace(r[|r| - 1]))
  {
    var a := SkipWhiteFrom(s, 0);
    var b := SkipWhiteBack(s, a, |s|);
    s[a..b]
  }

  /** `r` is the infix of `s` at offset `i`, and only white space lies
      outside it. */
  predicate IsWhitePadded(s: string, i: nat, r: string) {
    && i + |r| <= |s| && r == s[i..i + |r|]
    && (forall k :: 0 <= k < i ==> IsWhiteSpace(s[k]))
    && (forall k :: i + |r| <= k < |s| ==> IsWhiteSpace(s[k]))
  }

  /** What `Trim` leaves: the infix of `s` that follows its leading white
      space, with only white space dropped at either end. */
  lemma TrimCharacterised(s: string)
    ensures IsWhitePadded(s, SkipWhiteFrom(s, 0), Trim(s))
  {
  }

  /** A string is blank exactly when trimming leaves nothing. */
  lemma BlankIffTrimEmpty(s: string)
    ensures IsBlank(s) <==> Trim(s) == []
  {
  }

  /** Trimming removes exactly the white padding around a text whose ends are
      not white: `Trim(l + c + r) == c`. */
  lemma TrimOfPadded(l: string, c: string, r: string)
    requires IsBlank(l) && IsBlank(r)
    requires c != [] && !IsWhiteSpace(c[0]) && !IsWhiteSpace(c[|c| - 1])
    ensures Trim(l + c + r) == c
  {
    var s := l + c + r;
    var a := SkipWhiteFrom(s, 0);
    assert s[|l|] == c[0];
    assert a == |l|;
    var b := SkipWhiteBack(s, a, |s|);
    assert s[|l| + |c| - 1] == c[|c| - 1];
    assert b == |l| + |c|;
    assert s[a..b] == c;
  }

  /** A text whose ends are not white is its own trim. */
  lemma TrimOfUnpadded(c: string)
    requires c != [] && !IsWhiteSpace(c[0]) && !IsWhiteSpace(c[|c| - 1])
    ensures Trim(c) == c
  {
    assert [] + c + [] == c;
    TrimOfPadded([], c, []);
  }

  /** Invariant-culture upper-casing of one character (ASCII letters only). */
  function UpperChar(c: char): (u: char)
    ensures 'a' <= c <= 'z' ==> u as int == c as int - 32
    ensures !('a' <= c <= 'z') ==> u == c
  {
    if 'a' <= c <= 'z' then (c as int - 32) as char else c
  }

  /** `ToUpperInvariant()`, character by character. */
  function ToUpper(s: string): (r: string)
    ensures |r| == |s|
    ensures forall i :: 0 <= i < |s| ==> r[i] == UpperChar(s[i])
  {
    if s == [] then [] else [UpperChar(s[0])] + ToUpper(s[1..])
  }

  /** Upper-casing leaves no lower-case ASCII letter and is idempotent. */
  lemma ToUpperIdempotent(s: string)
    ensures forall i :: 0 <= i < |s| ==> !('a' <= ToUpper(s)[i] <= 'z')
    ensures ToUpper(ToUpper(s)) == ToUpper(s)
  {
  }

  /** A string with no lower-case ASCII letter is its own upper-casing. */
  lemma ToUpperOfUpper(s: string)
    requires forall i :: 0 <= i < |s| ==> !('a' <= s[i] <= 'z')
    ensures ToUpper(s) == s
  {
    assert forall i :: 0 <= i < |s| ==> ToUpper(s)[i] == s[i];
  }

  /** `string.Equals(a, b, StringComparison.OrdinalIgnoreCase)`: equal lengths
      and equal characters once both are upper-cased. */
  predicate EqualsIgnoreCase(a: string, b: string) {
    |a| == |b| && forall i :: 0 <= i < |a| ==> UpperChar(a[i]) == UpperChar(b[i])
  }

  /** Ordinal case-insensitive equality is equality of the upper-cased strings. */
  lemma EqualsIgnoreCaseIffUpperEqual(a: string, b: string)
    ensures EqualsIgnoreCase(a, b) <==> ToUpper(a) == ToUpper(b)
  {
    if ToUpper(a) == ToUpper(b) {
      assert |a| == |b|;
      forall i | 0 <= i < |a|
        ensures UpperChar(a[i]) == UpperChar(b[i])
      {
        assert ToUpper(a)[i] == ToUpper(b)[i];
      }
    }
  }

  // ---------------------------------------------------------------------
  // Length in UTF-16 code units

  /** The UTF-16 code units a character takes in a .NET string: a character
      beyond the Basic Multilingual Plane is stored as a surrogate pair. */
  function CodeUnits(c: char): (n: nat)
    ensures n == 1 || n == 2
    ensures n == 1 <==> c as int <= 0xFFFF
  {
    if c as int > 0xFFFF then 2 else 1
  }

  /** `string.Length`, which counts UTF-16 code units rather than characters. */
  function Utf16Length(s: string): (n: nat)
    ensures |s| <= n <= 2 * |s|
  {
    if s == [] then 0 else Utf16Length(s[..|s| - 1]) + CodeUnits(s[|s| - 1])
  }

  /** True when no character of `s` needs a surrogate pair. */
  predicate InBasicPlane(s: string) {
    forall i :: 0 <= i < |s| ==> s[i] as int <= 0xFFFF
  }

  /** The code-unit count of a concatenation is the sum of the counts. */
  lemma {:induction false} Utf16LengthAppend(a: string, b: string)
    ensures Utf16Length(a + b) == Utf16Length(a) + Utf16Length(b)
    decreases |b|
  {
    if b == [] {
      assert a + b == a;
    } else {
      var b' := b[..|b| - 1];
      assert (a + b)[..|a + b| - 1] == a + b';
      assert (a + b)[|a + b| - 1] == b[|b| - 1];
      Utf16LengthAppend(a, b');
    }
  }

  /** `string.Length` counts characters exactly when none lies beyond the
      Basic Multilingual Plane; each one that does counts twice. */
  lemma {:induction false} Utf16LengthIsLength(s: string)
    ensures Utf16Length(s) == |s| <==> InBasicPlane(s)
  {
    if s != [] {
      var s' := s[..|s| - 1];
      Utf16LengthIsLength(s');
      assert InBasicPlane(s) <==> InBasicPlane(s') && s[|s| - 1] as int <= 0xFFFF;
    }
  }

  /** Every white-space character is a single UTF-16 code unit. */
  lemma WhiteSpaceIsOneUnit(c: char)
    requires IsWhiteSpace(c)
    ensures CodeUnits(c) == 1
  {
  }

  // ---------------------------------------------------------------------
  // Decimal digits

  predicate IsAsciiDigit(c: char) {
    '0' <= c <= '9'
  }

  predicate AllDigits(s: string) {
    forall i :: 0 <= i < |s| ==> IsAsciiDigit(s[i])
  }

  function DigitChar(d: nat): (c: char)
    requires d < 10
    ensures IsAsciiDigit(c) && c as int - '0' as int == d
  {
    ('0' as int + d) as char
  }

  function DigitOf(c: char): (d: nat)
    requires IsAsciiDigit(c)
    ensures d < 10 && DigitChar(d) == c
  {
    c as int - '0' as int
  }

  function Pow10(n: nat): (p: nat)
    ensures p >= 1
  {
    if n == 0 then 1 else 10 * Pow10(n - 1)
  }

  /** The number an ASCII digit string spells, most significant digit first. */
  function DigitsValue(s: string): (v: nat)
    requires AllDigits(s)
    ensures v < Pow10(|s|)
  {
    if s == [] then 0 else DigitsValue(s[..|s| - 1]) * 10 + DigitOf(s[|s| - 1])
  }

  /** `n` rendered with exactly `width` digits, zero-padded on the left
      (the `yyyy`, `MM` and `dd` format specifiers). */
  function PadDigits(n: nat, width: nat): (s: string)
    requires n < Pow10(width)
    ensures |s| == width && AllDigits(s)
    ensures DigitsValue(s) == n
  {
    if width == 0 then [] else
      var s := PadDigits(n / 10, width - 1) + [DigitChar(n % 10)];
      assert s[..|s| - 1] == PadDigits(n / 10, width - 1);
      s
  }

  /** Two padded renderings of the same width are equal exactly when the numbers are. */
  lemma {:induction false} DigitsValueInjective(a: string, b: string)
    requires AllDigits(a) && AllDigits(b) && |a| == |b|
    requires DigitsValue(a) == DigitsValue(b)
    ensures a == b
  {
    if a != [] {
      var a', b' := a[..|a| - 1], b[..|b| - 1];
      assert DigitOf(a[|a| - 1]) == DigitOf(b[|b| - 1]);
      DigitsValueInjective(a', b');
      assert a == a' + [a[|a| - 1]];
      assert b == b' + [b[|b| - 1]];
    }
  }

  /** A padded rendering is the only digit string of its width with its value. */
  lemma PadDigitsUnique(s: string, width: nat)
    requires AllDigits(s) && |s| == width
    ensures PadDigits(DigitsValue(s), width) == s
  {
    DigitsValueInjective(PadDigits(DigitsValue(s), width), s);
  }

  /** The shortest decimal rendering of `n` (C#'s `int.ToString()` for n >= 0). */
  function NatToString(n: nat): (s: string)
    ensures |s| >= 1 && AllDigits(s)
    ensures DigitsValue(s) == n
    ensures |s| > 1 ==> s[0] != '0'
  {
    if n < 10 then [DigitChar(n)] else
      var s := NatToString(n / 10) + [DigitChar(n % 10)];
      assert s[..|s| - 1] == NatToString(n / 10);
      s
  }
}
