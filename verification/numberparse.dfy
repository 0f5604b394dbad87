/** `decimal.TryParse(value, NumberStyles.Number, CultureInfo.InvariantCulture)`,
    the reading of an exchange-rate text. `NumberStyles.Number` admits leading
    and trailing white space, one sign either before or after the digits, a
    decimal point, and ',' group separators in the integer part; the invariant
    culture spells these '+', '-', '.' and ','. The parsed value is exact. */
module DecimalParsing {
  import opened Results
  import opened Text

  /** The white space the number parser skips: U+0009..U+000D and the space. */
  predicate IsNumberWhite(c: char) {
    c == ' ' || ('\U{9}' <= c <= '\U{D}')
  }

  predicate IsSign(c: char) {
    c == '+' || c == '-'
  }

  /** A character of the integer part once its first digit has been read. */
  predicate IsGroupedDigit(c: char) {
    IsAsciiDigit(c) || c == ','
  }

  predicate AllNumberWhite(s: string) {
    forall k :: 0 <= k < |s| ==> IsNumberWhite(s[k])
  }

  /** The first index at or after `i` that is not number white space (or `|s|`). */
  function SkipNumberWhite(s: string, i: nat): (j: nat)
    requires i <= |s|
    ensures i <= j <= |s|
    decreases |s| - i
  {
    if i < |s| && IsNumberWhite(s[i]) then SkipNumberWhite(s, i + 1) else i
  }

  /** The first index at or after `i` that is not an ASCII digit (or `|s|`). */
  function SkipDigits(s: string, i: nat): (j: nat)
    requires i <= |s|
    ensures i <= j <= |s|
    decreases |s| - i
  {
    if i < |s| && IsAsciiDigit(s[i]) then SkipDigits(s, i + 1) else i
  }

  /** The first index at or after `i` that is neither a digit nor ',' (or `|s|`). */
  function SkipGroupedDigits(s: string, i: nat): (j: nat)
    requires i <= |s|
    ensures i <= j <= |s|
    decreases |s| - i
  {
    if i < |s| && IsGroupedDigit(s[i]) then SkipGroupedDigits(s, i + 1) else i
  }

  /** The end of the integer part that starts at `i`: a group separator is
      accepted only after a first digit, so the part is empty unless `s[i]`
      is a digit. */
  function IntegerEnd(s: string, i: nat): (j: nat)
    requires i <= |s|
    ensures i <= j <= |s|
    ensures j == i <==> i == |s| || !IsAsciiDigit(s[i])
  {
    if i < |s| && IsAsciiDigit(s[i]) then SkipGroupedDigits(s, i + 1) else i
  }

  /** Where the trailing white space ends, and the trailing sign met on the way. */
  datatype Trail = Trail(end: nat, sign: Option<char>)

  /** The trailing part from `k`: white space, with at most one sign among it,
      and only when `allowSign` (no sign led the number). */
  function TrailScan(s: string, k: nat, allowSign: bool): (t: Trail)
    requires k <= |s|
    ensures k <= t.end <= |s|
    ensures t.sign.Some? ==> allowSign && IsSign(t.sign.value)
    decreases |s| - k
  {
    if k < |s| && IsNumberWhite(s[k]) then TrailScan(s, k + 1, allowSign)
    else if k < |s| && allowSign && IsSign(s[k]) then
      var rest := TrailScan(s, k + 1, false);
      Trail(rest.end, Some(s[k]))
    else Trail(k, None)
  }

  /** Everything from `i` on is a NUL character (the parser's terminator). */
  predicate NulsFrom(s: string, i: nat) {
    forall k :: i <= k < |s| ==> s[k] == '\0'
  }

  /** The number spelt by the ASCII digits of `s`, most significant first;
      any other character (a group separator) is passed over. */
  function GroupedValue(s: string): nat {
    if s == [] then 0
    else if IsAsciiDigit(s[|s| - 1]) then GroupedValue(s[..|s| - 1]) * 10 + DigitOf(s[|s| - 1])
    else GroupedValue(s[..|s| - 1])
  }

  /** The value of the digits after the decimal point. */
  function FractionValue(f: string): real {
    GroupedValue(f) as real / Pow10(|f|) as real
  }

  /** `decimal.TryParse(value, NumberStyles.Number, InvariantCulture)`; `None`
      is the `false` answer. */
  function ParseDecimal(value: Option<string>): (r: Option<real>)
    ensures value.None? ==> r.None?
    ensures value.Some? && value.value == [] ==> r.None?
  {
    if value.None? then None
    else
      var s := value.value;
      var i0 := SkipNumberWhite(s, 0);
      var leadSign := i0 < |s| && IsSign(s[i0]);
      var i1 := if leadSign then i0 + 1 else i0;
      var j := IntegerEnd(s, i1);
      var hasPoint := j < |s| && s[j] == '.';
      var f := if hasPoint then j + 1 else j;
      var k := SkipDigits(s, f);
      if j == i1 && k == f then None
      else
        var t := TrailScan(s, k, !leadSign);
        if !NulsFrom(s, t.end) then None
        else
          var negative := (leadSign && s[i0] == '-') || t.sign == Some('-');
          var magnitude := GroupedValue(s[i1..j]) as real + FractionValue(s[f..k]);
          Some(if negative then -magnitude else magnitude)
  }

  /** On a plain digit string the grouped value is the ordinary one. */
  lemma {:induction false} GroupedValueOfDigits(s: string)
    requires AllDigits(s)
    ensures GroupedValue(s) == DigitsValue(s)
  {
    if s != [] {
      GroupedValueOfDigits(s[..|s| - 1]);
    }
  }

  // ---------------------------------------------------------------------
  // The grammar of accepted texts

  /** Cut points dividing a text into the parts of a number: leading white
      space `[0, i0)`, a sign `[i0, i1)`, the integer part `[i1, j)`, the
      point `[j, f)`, the fraction digits `[f, k)`, trailing white space with
      its sign `[k, e)`, and NUL characters `[e, |s|)`. */
  datatype Cuts = Cuts(i0: nat, i1: nat, j: nat, f: nat, k: nat, e: nat)

  /** The texts `NumberStyles.Number` admits, in the invariant culture, stated
      character by character: white space; at most one leading sign; an
      integer part that starts with a digit and may carry ',' after it; an
      optional '.' with fraction digits; at least one digit in all; then white
      space holding at most one sign, and only when none led; then NULs. */
  predicate NumberTextAt(s: string, c: Cuts) {
    && c.i0 <= c.i1 <= c.j <= c.f <= c.k <= c.e <= |s|
    && (forall m :: 0 <= m < c.i0 ==> IsNumberWhite(s[m]))
    && (c.i1 == c.i0 || (c.i1 == c.i0 + 1 && IsSign(s[c.i0])))
    && (c.j == c.i1 || IsAsciiDigit(s[c.i1]))
    && (forall m :: c.i1 <= m < c.j ==> IsGroupedDigit(s[m]))
    && (c.f == c.j || (c.f == c.j + 1 && s[c.j] == '.'))
    && (forall m :: c.f <= m < c.k ==> IsAsciiDigit(s[m]))
    && (c.f == c.j ==> c.k == c.f)
    && (c.i1 < c.j || c.f < c.k)
    && (forall m :: c.k <= m < c.e ==> IsNumberWhite(s[m]) || (c.i1 == c.i0 && IsSign(s[m])))
    && (forall a, b :: c.k <= a < b < c.e ==> !(IsSign(s[a]) && IsSign(s[b])))
    && (forall m :: c.e <= m < |s| ==> s[m] == '\0')
  }

  /** The digits of `p`, with the group separators dropped. */
  function DigitsOnly(p: string): (d: string)
    ensures AllDigits(d)
  {
    if p == [] then []
    else if IsAsciiDigit(p[|p| - 1]) then DigitsOnly(p[..|p| - 1]) + [p[|p| - 1]]
    else DigitsOnly(p[..|p| - 1])
  }

  /** The value a number text spells: its integer digits, plus its fraction
      digits scaled down, negated when either sign is a minus. */
  function TextValue(s: string, c: Cuts): real
    requires NumberTextAt(s, c)
  {
    var fraction := s[c.f..c.k];
    assert AllDigits(fraction);
    var m := DigitsValue(DigitsOnly(s[c.i1..c.j])) as real + DigitsValue(fraction) as real / Pow10(|fraction|) as real;
    if (c.i1 > c.i0 && s[c.i0] == '-') || '-' in s[c.k..c.e] then -m else m
  }

  /** `ParseDecimal` accepts exactly the number texts, and reads each as the
      value it spells. */
  lemma ParseDecimalCharacterised(s: string)
    ensures ParseDecimal(Some(s)).Some? <==> exists c :: NumberTextAt(s, c)
    ensures forall c :: NumberTextAt(s, c) ==> ParseDecimal(Some(s)) == Some(TextValue(s, c))
  {
    forall c | NumberTextAt(s, c)
      ensures ParseDecimal(Some(s)) == Some(TextValue(s, c))
    {
      ParseNumberText(s, c);
    }
    if ParseDecimal(Some(s)).Some? {
      ParsedIsNumberText(s);
    }
  }

  // ---------------------------------------------------------------------
  // A number text parses to its value

  /** The grouped scan reads the digits of its text, whatever separators lie between them. */
  lemma {:induction false} GroupedValueIsDigitsOnly(p: string)
    ensures GroupedValue(p) == DigitsValue(DigitsOnly(p))
  {
    if p != [] {
      var q := p[..|p| - 1];
      GroupedValueIsDigitsOnly(q);
      if IsAsciiDigit(p[|p| - 1]) {
        var d := DigitsOnly(p);
        assert d[..|d| - 1] == DigitsOnly(q);
      }
    }
  }

  /** A digit string has no separators to drop. */
  lemma {:induction false} DigitsOnlyOfDigits(p: string)
    requires AllDigits(p)
    ensures DigitsOnly(p) == p
  {
    if p != [] {
      DigitsOnlyOfDigits(p[..|p| - 1]);
      assert p == p[..|p| - 1] + [p[|p| - 1]];
    }
  }

  /** The white-space scan stops at the first character that is not white. */
  lemma {:induction false} SkipNumberWhiteStopsAt(s: string, i: nat, j: nat)
    requires i <= j <= |s|
    requires forall k :: i <= k < j ==> IsNumberWhite(s[k])
    requires j < |s| ==> !IsNumberWhite(s[j])
    ensures SkipNumberWhite(s, i) == j
    decreases j - i
  {
    if i < j {
      SkipNumberWhiteStopsAt(s, i + 1, j);
    }
  }

  /** The digit scan stops at the first character that is not a digit. */
  lemma {:induction false} SkipDigitsStopsAt(s: string, i: nat, j: nat)
    requires i <= j <= |s|
    requires forall k :: i <= k < j ==> IsAsciiDigit(s[k])
    requires j < |s| ==> !IsAsciiDigit(s[j])
    ensures SkipDigits(s, i) == j
    decreases j - i
  {
    if i < j {
      SkipDigitsStopsAt(s, i + 1, j);
    }
  }

  lemma {:induction false} SkipGroupedDigitsStopsAt(s: string, i: nat, j: nat)
    requires i <= j <= |s|
    requires forall k :: i <= k < j ==> IsGroupedDigit(s[k])
    requires j < |s| ==> !IsGroupedDigit(s[j])
    ensures SkipGroupedDigits(s, i) == j
    decreases j - i
  {
    if i < j {
      SkipGroupedDigitsStopsAt(s, i + 1, j);
    }
  }

  /** Over white space holding at most one sign, allowed only when no sign
      led, the trailing scan runs to a following NUL or the end of the text. */
  lemma {:induction false} TrailScanOver(s: string, k: nat, e: nat, allowSign: bool)
    requires k <= e <= |s|
    requires forall m :: k <= m < e ==> IsNumberWhite(s[m]) || (allowSign && IsSign(s[m]))
    requires forall a, b :: k <= a < b < e ==> !(IsSign(s[a]) && IsSign(s[b]))
    requires e < |s| ==> s[e] == '\0'
    ensures TrailScan(s, k, allowSign).end == e
    decreases e - k
  {
    if k < e {
      if IsNumberWhite(s[k]) {
        TrailScanOver(s, k + 1, e, allowSign);
      } else {
        forall m | k + 1 <= m < e
          ensures IsNumberWhite(s[m])
        {
          assert !(IsSign(s[k]) && IsSign(s[m]));
        }
        TrailScanOver(s, k + 1, e, false);
      }
    }
  }

  /** What the trailing scan passes over: white space and, only when
      allowed, one sign; it reports a minus exactly when one lies there. */
  lemma {:induction false} TrailScanShape(s: string, k: nat, allowSign: bool)
    requires k <= |s|
    ensures var t := TrailScan(s, k, allowSign);
            && (forall m :: k <= m < t.end ==> IsNumberWhite(s[m]) || (allowSign && IsSign(s[m])))
            && (forall a, b :: k <= a < b < t.end ==> !(IsSign(s[a]) && IsSign(s[b])))
            && (t.sign == Some('-') <==> '-' in s[k..t.end])
    decreases |s| - k
  {
    var t := TrailScan(s, k, allowSign);
    if k < |s| && IsNumberWhite(s[k]) {
      TrailScanShape(s, k + 1, allowSign);
      assert s[k..t.end] == [s[k]] + s[k + 1..t.end];
    } else if k < |s| && allowSign && IsSign(s[k]) {
      TrailScanShape(s, k + 1, false);
      assert s[k..t.end] == [s[k]] + s[k + 1..t.end];
      assert '-' !in s[k + 1..t.end];
    }
  }

  /** The cut points at which `ParseDecimal`'s scans stop. */
  predicate ScansStopAt(s: string, c: Cuts) {
    && c.i0 <= c.i1 <= c.j <= c.f <= c.k <= c.e <= |s|
    && SkipNumberWhite(s, 0) == c.i0
    && (c.i0 < |s| && IsSign(s[c.i0])) == (c.i1 == c.i0 + 1)
    && (c.i1 == c.i0 || c.i1 == c.i0 + 1)
    && IntegerEnd(s, c.i1) == c.j
    && (c.j < |s| && s[c.j] == '.') == (c.f == c.j + 1)
    && (c.f == c.j || c.f == c.j + 1)
    && SkipDigits(s, c.f) == c.k
    && TrailScan(s, c.k, c.i1 == c.i0).end == c.e
  }

  /** A number text's parts are where `ParseDecimal`'s scans stop. */
  lemma NumberTextScans(s: string, c: Cuts)
    requires NumberTextAt(s, c)
    ensures ScansStopAt(s, c)
  {
    NumberTextLead(s, c);
    NumberTextInteger(s, c);
    NumberTextFraction(s, c);
    TrailScanOver(s, c.k, c.e, c.i1 == c.i0);
  }

  /** The leading white space ends at the sign, a digit or the point. */
  lemma NumberTextLead(s: string, c: Cuts)
    requires NumberTextAt(s, c)
    ensures SkipNumberWhite(s, 0) == c.i0
    ensures (c.i0 < |s| && IsSign(s[c.i0])) == (c.i1 == c.i0 + 1)
  {
    assert c.i0 < |s| && (IsSign(s[c.i0]) || IsAsciiDigit(s[c.i0]) || s[c.i0] == '.');
    assert (c.i1 == c.i0 + 1) == IsSign(s[c.i0]);
    SkipNumberWhiteStopsAt(s, 0, c.i0);
  }

  /** The integer part ends at the point, the trailing part or the NULs. */
  lemma NumberTextInteger(s: string, c: Cuts)
    requires NumberTextAt(s, c)
    ensures IntegerEnd(s, c.i1) == c.j
    ensures (c.j < |s| && s[c.j] == '.') == (c.f == c.j + 1)
  {
    assert c.j < |s| && c.f == c.j ==> c.j == c.k && (c.j < c.e || s[c.j] == '\0');
    assert c.j < |s| ==> !IsGroupedDigit(s[c.j]);
    if c.i1 < c.j {
      SkipGroupedDigitsStopsAt(s, c.i1 + 1, c.j);
    }
  }

  /** The fraction ends at the trailing part or the NULs. */
  lemma NumberTextFraction(s: string, c: Cuts)
    requires NumberTextAt(s, c)
    ensures SkipDigits(s, c.f) == c.k
  {
    assert c.k < |s| ==> c.k < c.e || s[c.k] == '\0';
    SkipDigitsStopsAt(s, c.f, c.k);
  }

  /** How `ParseDecimal` reads a text once its scans are known to stop at `c`. */
  lemma ParseAtScans(s: string, c: Cuts, m: real, negative: bool)
    requires ScansStopAt(s, c)
    requires (c.i1 < c.j || c.f < c.k) && NulsFrom(s, c.e)
    requires m == GroupedValue(s[c.i1..c.j]) as real + FractionValue(s[c.f..c.k])
    requires negative == ((c.i1 > c.i0 && s[c.i0] == '-') || TrailScan(s, c.k, c.i1 == c.i0).sign == Some('-'))
    ensures ParseDecimal(Some(s)) == Some(if negative then -m else m)
  {
  }

  /** A number text parses to the value it spells. */
  lemma ParseNumberText(s: string, c: Cuts)
    requires NumberTextAt(s, c)
    ensures ParseDecimal(Some(s)) == Some(TextValue(s, c))
  {
    var negative := (c.i1 > c.i0 && s[c.i0] == '-') || '-' in s[c.k..c.e];
    var m := GroupedValue(s[c.i1..c.j]) as real + FractionValue(s[c.f..c.k]);
    ReadNumberText(s, c, m, negative);
    ValueOfNumberText(s, c, m, negative);
  }

  lemma ReadNumberText(s: string, c: Cuts, m: real, negative: bool)
    requires NumberTextAt(s, c)
    requires m == GroupedValue(s[c.i1..c.j]) as real + FractionValue(s[c.f..c.k])
    requires negative == ((c.i1 > c.i0 && s[c.i0] == '-') || '-' in s[c.k..c.e])
    ensures ParseDecimal(Some(s)) == Some(if negative then -m else m)
  {
    NumberTextScans(s, c);
    TrailScanShape(s, c.k, c.i1 == c.i0);
    ParseAtScans(s, c, m, negative);
  }

  lemma ValueOfNumberText(s: string, c: Cuts, m: real, negative: bool)
    requires NumberTextAt(s, c)
    requires m == GroupedValue(s[c.i1..c.j]) as real + FractionValue(s[c.f..c.k])
    requires negative == ((c.i1 > c.i0 && s[c.i0] == '-') || '-' in s[c.k..c.e])
    ensures TextValue(s, c) == if negative then -m else m
  {
    GroupedValueIsDigitsOnly(s[c.i1..c.j]);
    GroupedValueOfDigits(s[c.f..c.k]);
  }

  // ---------------------------------------------------------------------
  // Whatever parses is a number text

  /** The cut points of `ParseDecimal`'s own scans. */
  function ScanCuts(s: string): (c: Cuts)
    ensures ScansStopAt(s, c)
  {
    var i0 := SkipNumberWhite(s, 0);
    var leadSign := i0 < |s| && IsSign(s[i0]);
    var i1 := if leadSign then i0 + 1 else i0;
    var j := IntegerEnd(s, i1);
    var f := if j < |s| && s[j] == '.' then j + 1 else j;
    var k := SkipDigits(s, f);
    Cuts(i0, i1, j, f, k, TrailScan(s, k, !leadSign).end)
  }

  /** A text `ParseDecimal` accepts divides into the parts of a number where its scans stop. */
  lemma ParsedIsNumberText(s: string)
    requires ParseDecimal(Some(s)).Some?
    ensures NumberTextAt(s, ScanCuts(s))
  {
    ParsedAt(s);
    ScannedText(s, ScanCuts(s));
  }

  /** Where the scans stop, a text holding a digit and ending in NULs is a number text. */
  lemma ScannedText(s: string, c: Cuts)
    requires ScansStopAt(s, c)
    requires (c.i1 < c.j || c.f < c.k) && NulsFrom(s, c.e)
    ensures NumberTextAt(s, c)
  {
    SkipNumberWhiteSkips(s, 0);
    IntegerEndSkips(s, c.i1);
    SkipDigitsSkips(s, c.f);
    TrailScanShape(s, c.k, c.i1 == c.i0);
  }

  /** What the scan of the integer part passes over, and where it stops. */
  lemma IntegerEndSkips(s: string, i: nat)
    requires i <= |s|
    ensures var j := IntegerEnd(s, i);
            && (j == i || IsAsciiDigit(s[i]))
            && (forall m :: i <= m < j ==> IsGroupedDigit(s[m]))
            && (j < |s| ==> !IsAsciiDigit(s[j]))
  {
    if i < |s| && IsAsciiDigit(s[i]) {
      SkipGroupedDigitsSkips(s, i + 1);
    }
  }

  /** What the white-space scan passes over. */
  lemma {:induction false} SkipNumberWhiteSkips(s: string, i: nat)
    requires i <= |s|
    ensures forall m :: i <= m < SkipNumberWhite(s, i) ==> IsNumberWhite(s[m])
    decreases |s| - i
  {
    if i < |s| && IsNumberWhite(s[i]) {
      SkipNumberWhiteSkips(s, i + 1);
    }
  }

  /** What the digit scan passes over, and where it stops. */
  lemma {:induction false} SkipDigitsSkips(s: string, i: nat)
    requires i <= |s|
    ensures var j := SkipDigits(s, i);
            (forall m :: i <= m < j ==> IsAsciiDigit(s[m])) && (j < |s| ==> !IsAsciiDigit(s[j]))
    decreases |s| - i
  {
    if i < |s| && IsAsciiDigit(s[i]) {
      SkipDigitsSkips(s, i + 1);
    }
  }

  /** What the scan of the integer part passes over, and where it stops. */
  lemma {:induction false} SkipGroupedDigitsSkips(s: string, i: nat)
    requires i <= |s|
    ensures var j := SkipGroupedDigits(s, i);
            (forall m :: i <= m < j ==> IsGroupedDigit(s[m])) && (j < |s| ==> !IsGroupedDigit(s[j]))
    decreases |s| - i
  {
    if i < |s| && IsGroupedDigit(s[i]) {
      SkipGroupedDigitsSkips(s, i + 1);
    }
  }

  /** A text is accepted only when it holds a digit and only NULs follow the trailing part. */
  lemma ParsedAt(s: string)
    requires ParseDecimal(Some(s)).Some?
    ensures var c := ScanCuts(s);
            (c.i1 < c.j || c.f < c.k) && NulsFrom(s, c.e)
  {
  }

  // ---------------------------------------------------------------------
  // The canonical spelling and the round trip

  /** A number as the Treasury data spells it: an optional '-', the integer
      digits, and a '.' with the fraction digits when there are any. */
  function Render(negative: bool, intDigits: string, fracDigits: string): string {
    (if negative then "-" else "") + intDigits + (if fracDigits == [] then "" else "." + fracDigits)
  }

  function Magnitude(intDigits: string, fracDigits: string): real
    requires AllDigits(intDigits) && AllDigits(fracDigits)
  {
    DigitsValue(intDigits) as real + DigitsValue(fracDigits) as real / Pow10(|fracDigits|) as real
  }

  /** Parsing undoes rendering: white space around the rendered number is
      skipped and the value read back is the one the digits spell. */
  lemma ParseRendered(lead: string, negative: bool, intDigits: string, fracDigits: string, trail: string)
    requires AllNumberWhite(lead) && AllNumberWhite(trail)
    requires AllDigits(intDigits) && AllDigits(fracDigits)
    requires |intDigits| + |fracDigits| > 0
    ensures var m := Magnitude(intDigits, fracDigits);
            ParseDecimal(Some(lead + Render(negative, intDigits, fracDigits) + trail))
              == Some(if negative then -m else m)
  {
    var sign: string := if negative then "-" else "";
    var point: string := if fracDigits == [] then "" else ".";
    assert lead + Render(negative, intDigits, fracDigits) + trail
           == lead + sign + intDigits + point + fracDigits + trail;
    ParsePieces(lead + sign + intDigits + point + fracDigits + trail, lead, sign, intDigits, point, fracDigits, trail);
  }

  /** The pieces of a rendered number, with the white space around it. */
  predicate WellPieced(lead: string, sign: string, intDigits: string, point: string, fracDigits: string, trail: string) {
    && AllNumberWhite(lead) && AllNumberWhite(trail)
    && AllDigits(intDigits) && AllDigits(fracDigits)
    && |intDigits| + |fracDigits| > 0
    && (sign == "-" || sign == "")
    && point == (if fracDigits == [] then "" else ".")
  }

  /** `ParseRendered` on the text laid out piece by piece. */
  lemma ParsePieces(s: string, lead: string, sign: string, intDigits: string, point: string, fracDigits: string,
                    trail: string)
    requires WellPieced(lead, sign, intDigits, point, fracDigits, trail)
    requires s == lead + sign + intDigits + point + fracDigits + trail
    ensures var m := Magnitude(intDigits, fracDigits);
            ParseDecimal(Some(s)) == Some(if sign == "-" then -m else m)
  {
    var c := PiecesCuts(lead, sign, intDigits, point, fracDigits, trail);
    PiecesText(s, lead, sign, intDigits, point, fracDigits, trail);
    ParseNumberText(s, c);
    ValueOfPieces(s, c, intDigits, fracDigits, sign == "-");
  }

  /** The value of a number text whose digit parts are plain digit strings. */
  lemma ValueOfPieces(s: string, c: Cuts, intDigits: string, fracDigits: string, negative: bool)
    requires NumberTextAt(s, c)
    requires AllDigits(intDigits)
    requires s[c.i1..c.j] == intDigits && s[c.f..c.k] == fracDigits
    requires (c.i1 > c.i0 && s[c.i0] == '-') == negative
    requires '-' !in s[c.k..c.e]
    ensures var m := Magnitude(intDigits, fracDigits);
            TextValue(s, c) == if negative then -m else m
  {
    DigitsOnlyOfDigits(intDigits);
  }

  /** The cut points of a text laid out piece by piece. */
  function PiecesCuts(lead: string, sign: string, intDigits: string, point: string, fracDigits: string,
                      trail: string): Cuts
  {
    var i1 := |lead| + |sign|;
    var j := i1 + |intDigits|;
    var f := j + |point|;
    var k := f + |fracDigits|;
    Cuts(|lead|, i1, j, f, k, k + |trail|)
  }

  /** A rendered number with white space around it is a number text, cut at its pieces. */
  lemma PiecesText(s: string, lead: string, sign: string, intDigits: string, point: string, fracDigits: string,
                   trail: string)
    requires WellPieced(lead, sign, intDigits, point, fracDigits, trail)
    requires s == lead + sign + intDigits + point + fracDigits + trail
    ensures var c := PiecesCuts(lead, sign, intDigits, point, fracDigits, trail);
            && NumberTextAt(s, c)
            && s[c.i1..c.j] == intDigits && s[c.f..c.k] == fracDigits
            && (c.i1 > c.i0 && s[c.i0] == '-') == (sign == "-")
            && '-' !in s[c.k..c.e]
  {
    var c := PiecesCuts(lead, sign, intDigits, point, fracDigits, trail);
    PiecesLead(s, lead, sign, intDigits, point, fracDigits, trail);
    PiecesDigits(s, lead, sign, intDigits, point, fracDigits, trail);
    PiecesTrail(s, lead, sign, intDigits, point, fracDigits, trail);
    assert c.i1 < c.j || c.f < c.k;
  }

  lemma PiecesLead(s: string, lead: string, sign: string, intDigits: string, point: string, fracDigits: string,
                   trail: string)
    requires WellPieced(lead, sign, intDigits, point, fracDigits, trail)
    requires s == lead + sign + intDigits + point + fracDigits + trail
    ensures var c := PiecesCuts(lead, sign, intDigits, point, fracDigits, trail);
            && c.e == |s|
            && (forall m :: 0 <= m < c.i0 ==> IsNumberWhite(s[m]))
            && (c.i1 == c.i0 || (c.i1 == c.i0 + 1 && IsSign(s[c.i0])))
            && (c.i1 > c.i0 && s[c.i0] == '-') == (sign == "-")
  {
    assert forall m :: 0 <= m < |lead| ==> s[m] == lead[m];
    assert sign == "-" ==> s[|lead|] == '-';
  }

  lemma PiecesDigits(s: string, lead: string, sign: string, intDigits: string, point: string, fracDigits: string,
                     trail: string)
    requires WellPieced(lead, sign, intDigits, point, fracDigits, trail)
    requires s == lead + sign + intDigits + point + fracDigits + trail
    ensures var c := PiecesCuts(lead, sign, intDigits, point, fracDigits, trail);
            && c.e == |s|
            && (c.j == c.i1 || IsAsciiDigit(s[c.i1]))
            && (forall m :: c.i1 <= m < c.j ==> IsGroupedDigit(s[m]))
            && (c.f == c.j || (c.f == c.j + 1 && s[c.j] == '.'))
            && (forall m :: c.f <= m < c.k ==> IsAsciiDigit(s[m]))
            && (c.f == c.j ==> c.k == c.f)
            && s[c.i1..c.j] == intDigits && s[c.f..c.k] == fracDigits
  {
    var c := PiecesCuts(lead, sign, intDigits, point, fracDigits, trail);
    assert s[c.i1..c.j] == intDigits;
    assert s[c.f..c.k] == fracDigits;
    assert c.f == c.j + 1 ==> s[c.j..c.f] == point;
  }

  lemma PiecesTrail(s: string, lead: string, sign: string, intDigits: string, point: string, fracDigits: string,
                    trail: string)
    requires WellPieced(lead, sign, intDigits, point, fracDigits, trail)
    requires s == lead + sign + intDigits + point + fracDigits + trail
    ensures var c := PiecesCuts(lead, sign, intDigits, point, fracDigits, trail);
            && c.e == |s|
            && (forall m :: c.k <= m < c.e ==> IsNumberWhite(s[m]))
            && '-' !in s[c.k..c.e]
  {
    var k := |lead| + |sign| + |intDigits| + |point| + |fracDigits|;
    assert s[k..] == trail;
  }

  /** "0.92", as the Treasury data writes rates, reads as 0.92. */
  lemma ParseRateExample()
    ensures ParseDecimal(Some("0.92")) == Some(0.92)
  {
    assert Magnitude("0", "92") == 0.92 by {
      assert DigitsValue("0") == 0;
      assert DigitsValue("92") == 92 by { assert "92"[..1] == "9"; }
    }
    assert Render(false, "0", "92") == "0.92";
    ParsePlain("0", "92");
  }

  /** A plain unsigned number with nothing around it reads as its digits spell. */
  lemma ParsePlain(intDigits: string, fracDigits: string)
    requires AllDigits(intDigits) && AllDigits(fracDigits)
    requires |intDigits| + |fracDigits| > 0
    ensures ParseDecimal(Some(Render(false, intDigits, fracDigits))) == Some(Magnitude(intDigits, fracDigits))
  {
    assert "" + Render(false, intDigits, fracDigits) + "" == Render(false, intDigits, fracDigits);
    ParseRendered("", false, intDigits, fracDigits, "");
  }

  /** "1.10" reads as 1.1: trailing zeros of the fraction do not matter. */
  lemma ParseTrailingZeroExample()
    ensures ParseDecimal(Some("1.10")) == Some(1.1)
  {
    assert DigitsValue("1") == 1;
    assert DigitsValue("10") == 10 by { assert "10"[..1] == "1"; }
    assert "" + Render(false, "1", "10") + "" == "1.10";
    ParseRendered("", false, "1", "10", "");
  }

  /** "-1.5" reads as -1.5. */
  lemma ParseNegativeExample()
    ensures ParseDecimal(Some("-1.5")) == Some(-1.5)
  {
    assert DigitsValue("1") == 1 && DigitsValue("5") == 5;
    assert "" + Render(true, "1", "5") + "" == "-1.5";
    ParseRendered("", true, "1", "5", "");
  }

  /** " -7 " reads as -7: white space on both sides, a leading sign. */
  lemma ParseSignedExample()
    ensures ParseDecimal(Some(" -7 ")) == Some(-7.0)
  {
    assert DigitsValue("7") == 7;
    assert Magnitude("7", "") == 7.0;
    assert " " + Render(true, "7", "") + " " == " -7 ";
    ParseRendered(" ", true, "7", "", " ");
  }

  /** Group separators after the first digit are passed over. */
  lemma ParseGroupedExample()
    ensures ParseDecimal(Some("1,234")) == Some(1234.0)
  {
    assert GroupedValue("1,234") == 1234 by {
      assert "1,234"[..4] == "1,23";
      assert "1,23"[..3] == "1,2";
      assert "1,2"[..2] == "1,";
      assert "1,"[..1] == "1";
    }
    assert IntegerEnd("1,234", 0) == 5;
    assert "1,234"[0..5] == "1,234";
    assert FractionValue("1,234"[5..5]) == 0.0;
    assert NulsFrom("1,234", 5);
    ParseAtScans("1,234", Cuts(0, 0, 5, 5, 5, 5), 1234.0, false);
  }

  /** A sign may trail the digits instead. */
  lemma ParseTrailingSignExample()
    ensures ParseDecimal(Some("5-")) == Some(-5.0)
  {
    assert GroupedValue("5") == 5;
    assert "5-"[0..1] == "5";
  }

  /** NUL characters may follow the number. */
  lemma ParseTrailingNulExample()
    ensures ParseDecimal(Some("2\0\0")) == Some(2.0)
  {
    assert GroupedValue("2") == 2;
    assert "2\0\0"[0..1] == "2";
  }

  /** A sign followed by a space, two signs and a sign on both sides are refused. */
  lemma ParseDecimalRejects()
    ensures ParseDecimal(Some("- 5")) == None
    ensures ParseDecimal(Some("+-5")) == None
    ensures ParseDecimal(Some("-5-")) == None
  {
  }

  /** A bare point, a leading group separator, an exponent, the empty text and
      null are refused. */
  lemma ParseDecimalRejectsShape()
    ensures ParseDecimal(Some(".")) == None
    ensures ParseDecimal(Some(",5")) == None
    ensures ParseDecimal(Some("1e3")) == None
    ensures ParseDecimal(Some("")) == None
    ensures ParseDecimal(None) == None
  {
  }
}
