/** `System.DateOnly`: proleptic Gregorian calendar dates from 0001-01-01 to
    9999-12-31, with `AddMonths`, ordering and the exact `yyyy-MM-dd` format. */
module Calendar {
  import opened Results
  import opened Exceptions
  import opened Text

  datatype Date = Date(year: int, month: int, day: int)

  predicate IsLeapYear(y: int) {
    y % 4 == 0 && (y % 100 != 0 || y % 400 == 0)
  }

  function DaysInMonth(y: int, m: int): (n: int)
    requires 1 <= m <= 12
    ensures 28 <= n <= 31
  {
    if m == 2 then (if IsLeapYear(y) then 29 else 28)
    else if m == 4 || m == 6 || m == 9 || m == 11 then 30
    else 31
  }

  predicate ValidDate(d: Date) {
    && 1 <= d.year <= 9999
    && 1 <= d.month <= 12
    && 1 <= d.day <= DaysInMonth(d.year, d.month)
  }

  /** A representable calendar date. */
  type DateOnly = d: Date | ValidDate(d) witness Date(1, 1, 1)

  /** Chronological order: `a` is strictly earlier than `b`. */
  predicate Before(a: Date, b: Date) {
    || a.year < b.year
    || (a.year == b.year && a.month < b.month)
    || (a.year == b.year && a.month == b.month && a.day < b.day)
  }

  predicate OnOrBefore(a: Date, b: Date) {
    Before(a, b) || a == b
  }

  /** Months elapsed since January of year 0; `AddMonths` moves this index. */
  function MonthIndex(d: Date): int {
    d.year * 12 + d.month - 1
  }

  /** C#'s `/` and `%` on `int` truncate toward zero. */
  function DivT(a: int, b: int): int
    requires b > 0
  {
    if a >= 0 then a / b else -((-a) / b)
  }

  function RemT(a: int, b: int): int
    requires b > 0
  {
    a - DivT(a, b) * b
  }

  /** The message of the `ArgumentOutOfRangeException` thrown for a month
      shift that leaves the calendar: the resource text, then the parameter
      name as `ArgumentException.Message` appends it. */
  const DateArithmeticMessage: string :=
    "The added or subtracted value results in an un-representable DateTime. (Parameter 'months')"

  /** The message thrown for a shift of more than 120000 months either way. */
  const BadMonthsMessage: string := "Months value must be between +/-120000. (Parameter 'months')"

  /** `DateOnly.AddMonths`, following the runtime's branches: the month index is
      moved by `months`, an out-of-range year throws, and the day is clamped to
      the length of the resulting month. */
  function AddMonths(d: DateOnly, months: int): (r: Outcome<DateOnly>)
    ensures r.Ok? <==> -120000 <= months <= 120000 && 1 <= (MonthIndex(d) + months) / 12 <= 9999
    ensures !(-120000 <= months <= 120000) ==> r == Err(OutOfRange(BadMonthsMessage))
    ensures -120000 <= months <= 120000 && r.Err? ==> r.error == OutOfRange(DateArithmeticMessage)
    ensures r.Ok? ==> MonthIndex(r.value) == MonthIndex(d) + months
    ensures r.Ok? ==> r.value.day == if d.day <= DaysInMonth(r.value.year, r.value.month) then d.day
                                     else DaysInMonth(r.value.year, r.value.month)
  {
    if months < -120000 || months > 120000 then Err(OutOfRange(BadMonthsMessage))
    else
      var i := d.month - 1 + months;
      var m := if i >= 0 then RemT(i, 12) + 1 else 12 + RemT(i + 1, 12);
      var y := if i >= 0 then d.year + DivT(i, 12) else d.year + DivT(i - 11, 12);
      assert y == (MonthIndex(d) + months) / 12 && m == (MonthIndex(d) + months) % 12 + 1 by {
        TruncatedMonthArithmetic(d.year, i);
      }
      if y < 1 || y > 9999 then Err(OutOfRange(DateArithmeticMessage))
      else
        var days := DaysInMonth(y, m);
        Ok(Date(y, m, if d.day > days then days else d.day))
  }

  /** The runtime's truncating formulas compute the Euclidean year and month of
      the shifted month index. */
  lemma TruncatedMonthArithmetic(year: int, i: int)
    ensures i >= 0 ==> year + DivT(i, 12) == (year * 12 + i) / 12 && RemT(i, 12) + 1 == (year * 12 + i) % 12 + 1
    ensures i < 0 ==> year + DivT(i - 11, 12) == (year * 12 + i) / 12 && 12 + RemT(i + 1, 12) == (year * 12 + i) % 12 + 1
  {
    if i < 0 {
      var q := (-(i - 11)) / 12;
      assert DivT(i - 11, 12) == -q;
      var e := i / 12;
      assert e == -q;
    }
  }

  /** Going back a positive number of months always lands strictly earlier. */
  lemma AddMonthsBackIsEarlier(d: DateOnly, months: int)
    requires months < 0 && AddMonths(d, months).Ok?
    ensures Before(AddMonths(d, months).value, d)
  {
  }

  /** The day is clamped to the shorter month: 2024-08-31 minus six months is
      2024-02-29. */
  lemma AddMonthsClampsDay()
    ensures AddMonths(Date(2024, 8, 31), -6) == Ok(Date(2024, 2, 29))
  {
  }

  /** Outside a leap year the clamp is to the 28th: 2023-08-31 minus six months
      is 2023-02-28. */
  lemma AddMonthsClampsDayCommonYear()
    ensures AddMonths(Date(2023, 8, 31), -6) == Ok(Date(2023, 2, 28))
  {
  }

  /** A day that exists in the target month is kept, across a year boundary. */
  lemma AddMonthsKeepsDay()
    ensures AddMonths(Date(2024, 6, 15), -6) == Ok(Date(2023, 12, 15))
  {
  }

  /** Six months before 0001-03-01 lies before the first representable year. */
  lemma AddMonthsBeforeYearOne()
    ensures AddMonths(Date(1, 3, 1), -6) == Err(OutOfRange(DateArithmeticMessage))
  {
  }

  /** A shift of more than 120000 months is refused before the calendar is
      consulted, whatever the date. */
  lemma AddMonthsTooFar(d: DateOnly, months: int)
    requires months > 120000 || months < -120000
    ensures AddMonths(d, months) == Err(OutOfRange(BadMonthsMessage))
    ensures AddMonths(d, months) != Err(OutOfRange(DateArithmeticMessage))
  {
  }

  /** The day before `d`, if `d` is not 0001-01-01 (`AddDays(-1)`). */
  function PreviousDay(d: DateOnly): (r: Option<DateOnly>)
    ensures r.None? <==> d == Date(1, 1, 1)
    ensures r.Some? ==> Before(r.value, d)
    ensures r.Some? ==> forall e: Date :: ValidDate(e) && Before(e, d) ==> OnOrBefore(e, r.value)
  {
    if d.day > 1 then Some(Date(d.year, d.month, d.day - 1))
    else if d.month > 1 then Some(Date(d.year, d.month - 1, DaysInMonth(d.year, d.month - 1)))
    else if d.year > 1 then Some(Date(d.year - 1, 12, 31))
    else None
  }

  /** The day after `d`, if `d` is not 9999-12-31 (`AddDays(1)`). */
  function NextDay(d: DateOnly): (r: Option<DateOnly>)
    ensures r.None? <==> d == Date(9999, 12, 31)
    ensures r.Some? ==> Before(d, r.value)
    ensures r.Some? ==> forall e: Date :: ValidDate(e) && Before(d, e) ==> OnOrBefore(r.value, e)
  {
    if d.day < DaysInMonth(d.year, d.month) then Some(Date(d.year, d.month, d.day + 1))
    else if d.month < 12 then Some(Date(d.year, d.month + 1, 1))
    else if d.year < 9999 then Some(Date(d.year + 1, 1, 1))
    else None
  }

  // ---------------------------------------------------------------------
  // The invariant-culture "yyyy-MM-dd" format

  /** `d.ToString("yyyy-MM-dd")`: four-digit year, two-digit month and day. */
  function FormatDate(d: DateOnly): (s: string)
    ensures |s| == 10 && s[4] == '-' && s[7] == '-'
    ensures AllDigits(s[..4]) && AllDigits(s[5..7]) && AllDigits(s[8..])
  {
    var s := PadDigits(d.year, 4) + "-" + PadDigits(d.month, 2) + "-" + PadDigits(d.day, 2);
    assert s[..4] == PadDigits(d.year, 4);
    assert s[5..7] == PadDigits(d.month, 2);
    assert s[8..] == PadDigits(d.day, 2);
    s
  }

  /** `DateOnly.TryParseExact(value, "yyyy-MM-dd", InvariantCulture, None)`:
      exactly four, two and two ASCII digits separated by '-', no surrounding
      white space, and the date must exist. */
  function ParseExactDate(value: Option<string>): (r: Option<DateOnly>)
    ensures r.Some? ==> value.Some? && FormatDate(r.value) == value.value
  {
    if value.None? then None else
    var s := value.value;
    if |s| != 10 || s[4] != '-' || s[7] != '-' then None
    else if !AllDigits(s[..4]) || !AllDigits(s[5..7]) || !AllDigits(s[8..]) then None
    else
      var d := Date(DigitsValue(s[..4]), DigitsValue(s[5..7]), DigitsValue(s[8..]));
      if !ValidDate(d) then None
      else
        FormatOfParsed(s, d);
        Some(d)
  }

  lemma FormatOfParsed(s: string, d: DateOnly)
    requires |s| == 10 && s[4] == '-' && s[7] == '-'
    requires AllDigits(s[..4]) && AllDigits(s[5..7]) && AllDigits(s[8..])
    requires d == Date(DigitsValue(s[..4]), DigitsValue(s[5..7]), DigitsValue(s[8..]))
    ensures FormatDate(d) == s
  {
    calc {
      FormatDate(d);
      PadDigits(d.year, 4) + "-" + PadDigits(d.month, 2) + "-" + PadDigits(d.day, 2);
      { PadDigitsUnique(s[..4], 4); PadDigitsUnique(s[5..7], 2); PadDigitsUnique(s[8..], 2); }
      s[..4] + "-" + s[5..7] + "-" + s[8..];
      { assert s[..4] + "-" == s[..5]; assert s[..5] + s[5..7] == s[..7]; assert s[..7] + "-" == s[..8]; }
      s[..8] + s[8..];
      s;
    }
  }

  /** Formatting then parsing gives the date back, so the format is a faithful encoding. */
  lemma ParseFormatRoundTrip(d: DateOnly)
    ensures ParseExactDate(Some(FormatDate(d))) == Some(d)
  {
    var s := FormatDate(d);
    assert s[..4] == PadDigits(d.year, 4);
    assert s[5..7] == PadDigits(d.month, 2);
    assert s[8..] == PadDigits(d.day, 2);
  }

  /** 2024-06-15 is written with a zero-padded month. */
  lemma FormatDateExample()
    ensures FormatDate(Date(2024, 6, 15)) == "2024-06-15"
  {
    calc {
      FormatDate(Date(2024, 6, 15));
      PadDigits(2024, 4) + "-" + PadDigits(6, 2) + "-" + PadDigits(15, 2);
      { Pad2024(); PadMonthAndDay(); }
      "2024" + "-" + "06" + "-" + "15";
      "2024-06-15";
    }
  }

  lemma Pad2024()
    ensures PadDigits(2024, 4) == "2024"
  {
    assert PadDigits(2, 1) == "2";
    assert PadDigits(20, 2) == "20";
    assert PadDigits(202, 3) == "202";
  }

  lemma PadMonthAndDay()
    ensures PadDigits(6, 2) == "06"
    ensures PadDigits(15, 2) == "15"
  {
    assert PadDigits(0, 1) == "0";
    assert PadDigits(1, 1) == "1";
  }

  /** Strings of the wrong shape are rejected: a slash separator, a missing
      zero pad, trailing white space, and null. */
  lemma ParseExactDateRejectsShape()
    ensures ParseExactDate(Some("2024/01/15")) == None
    ensures ParseExactDate(Some("2024-1-15")) == None
    ensures ParseExactDate(Some("2024-01-15 ")) == None
    ensures ParseExactDate(None) == None
  {
  }

  /** A well-shaped string naming year zero is rejected. */
  lemma ParseExactDateRejectsYearZero()
    ensures ParseExactDate(Some("0000-01-15")) == None
  {
    var s := "0000-01-15";
    assert s[..4] == "0000";
    assert "0000"[..3] == "000" && "000"[..2] == "00" && "00"[..1] == "0" && "0"[..0] == "";
    assert DigitsValue("0000") == 0;
  }

  /** A well-shaped string naming 30 February is rejected. */
  lemma ParseExactDateRejectsFebruary30()
    ensures ParseExactDate(Some("2024-02-30")) == None
  {
    var t := "2024-02-30";
    assert t[..4] == "2024" && t[5..7] == "02" && t[8..] == "30";
    assert DigitsValue(t[5..7]) == 2;
  }
}
