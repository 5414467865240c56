/**
 The integer calendar the form's date rules are stated in: a proleptic
 Gregorian date as a (day, month, year) triple, a day count from
 0001-01-01, the day of the week, adding days with month and year rollover,
 and the two text forms the form uses — `dd/mm/yyyy` for the show date and
 `yyyy-mm-dd` for the derived end date and the date picker.
 */
module Calendar {
  import opened Text

  datatype Date = Date(day: int, month: int, year: int)

  predicate IsLeap(y: int)
  {
    y % 4 == 0 && (y % 100 != 0 || y % 400 == 0)
  }

  function DaysInMonth(m: int, y: int): (n: int)
    requires 1 <= m <= 12
    ensures 28 <= n <= 31
  {
    if m == 2 then (if IsLeap(y) then 29 else 28)
    else if m == 4 || m == 6 || m == 9 || m == 11 then 30
    else 31
  }

  function YearLength(y: int): int
  {
    if IsLeap(y) then 366 else 365
  }

  /** A date of the calendar from year 1 on (the day count starts at 0001-01-01). */
  predicate InCalendar(d: Date)
  {
    && d.year >= 1
    && 1 <= d.month <= 12
    && 1 <= d.day <= DaysInMonth(d.month, d.year)
  }

  /** A date the form accepts: years 1 to 9999, where `yyyy` has four digits. */
  predicate Valid(d: Date)
  {
    InCalendar(d) && d.year <= 9999
  }

  function DaysBeforeYear(y: int): int
    requires y >= 1
  {
    365 * (y - 1) + (y - 1) / 4 - (y - 1) / 100 + (y - 1) / 400
  }

  function DaysBeforeMonth(m: int, y: int): int
    requires 1 <= m <= 12
  {
    [0, 31, 59, 90, 120, 151, 181, 212, 243, 273, 304, 334][m - 1]
      + (if m > 2 && IsLeap(y) then 1 else 0)
  }

  /** Days elapsed since 0001-01-01. */
  function DayNumber(d: Date): int
    requires InCalendar(d)
  {
    DaysBeforeYear(d.year) + DaysBeforeMonth(d.month, d.year) + d.day - 1
  }

  /** Day of the week in a Sunday-first week: 0 is Sunday, 6 is Saturday. 0001-01-01 is a Monday. */
  function DayOfWeek(d: Date): (w: int)
    requires InCalendar(d)
    ensures 0 <= w < 7
  {
    (DayNumber(d) + 1) % 7
  }

  /** The calendar day after `d`. */
  function NextDay(d: Date): (r: Date)
    requires InCalendar(d)
    ensures InCalendar(r)
    ensures DayNumber(r) == DayNumber(d) + 1
    ensures d.year <= r.year <= d.year + 1
  {
    if d.day < DaysInMonth(d.month, d.year) then
      Date(d.day + 1, d.month, d.year)
    else if d.month < 12 then
      MonthStep(d.month, d.year);
      Date(1, d.month + 1, d.year)
    else
      YearStep(d.year);
      Date(1, 1, d.year + 1)
  }

  /** `n` calendar days after `d`, rolling over months and years. */
  function AddDays(d: Date, n: nat): (r: Date)
    requires InCalendar(d)
    ensures InCalendar(r)
    ensures DayNumber(r) == DayNumber(d) + n
    ensures d.year <= r.year <= d.year + n
    decreases n
  {
    if n == 0 then d else AddDays(NextDay(d), n - 1)
  }

  lemma MonthStep(m: int, y: int)
    requires 1 <= m < 12
    ensures DaysBeforeMonth(m + 1, y) == DaysBeforeMonth(m, y) + DaysInMonth(m, y)
  {
  }

  lemma DivStep4(y: int)
    requires y >= 1
    ensures y / 4 == (y - 1) / 4 + (if y % 4 == 0 then 1 else 0)
  {
  }

  lemma DivStep100(y: int)
    requires y >= 1
    ensures y / 100 == (y - 1) / 100 + (if y % 100 == 0 then 1 else 0)
  {
  }

  lemma DivStep400(y: int)
    requires y >= 1
    ensures y / 400 == (y - 1) / 400 + (if y % 400 == 0 then 1 else 0)
  {
  }

  lemma YearStep(y: int)
    requires y >= 1
    ensures DaysBeforeYear(y + 1) == DaysBeforeYear(y) + YearLength(y)
    ensures DaysBeforeMonth(12, y) + 31 == YearLength(y)
  {
    DivStep4(y);
    DivStep100(y);
    DivStep400(y);
    CenturyDivisibility(y);
  }

  lemma CenturyDivisibility(y: int)
    ensures y % 400 == 0 ==> y % 100 == 0
    ensures y % 100 == 0 ==> y % 4 == 0
  {
    if y % 400 == 0 { Multiple400(y, y / 400); }
    if y % 100 == 0 { Multiple100(y, y / 100); }
  }

  lemma Multiple400(y: int, q: int)
    requires y == 400 * q
    ensures y % 100 == 0
  {
    assert y == 100 * (4 * q);
  }

  lemma Multiple100(y: int, q: int)
    requires y == 100 * q
    ensures y % 4 == 0
  {
    assert y == 4 * (25 * q);
  }

  /** Writing x as 7q + r with 0 <= r < 7 fixes x % 7. */
  lemma Mod7(x: int, q: int, r: int)
    requires 0 <= r < 7 && x == 7 * q + r
    ensures x % 7 == r
  {
  }

  lemma ShiftMod7(x: int, k: int)
    ensures (x + k) % 7 == ((x % 7) + k) % 7
  {
    var q, r := x / 7, x % 7;
    assert x == 7 * q + r;
    var q2, r2 := (r + k) / 7, (r + k) % 7;
    assert r + k == 7 * q2 + r2;
    Mod7(x + k, q + q2, r2);
  }

  /** Dates k days apart are k weekdays apart. */
  lemma DayOfWeekShift(a: Date, b: Date, k: int)
    requires InCalendar(a) && InCalendar(b)
    requires DayNumber(b) == DayNumber(a) + k
    ensures DayOfWeek(b) == (DayOfWeek(a) + k) % 7
  {
    ShiftMod7(DayNumber(a) + 1, k);
  }

  // ---------------------------------------------------------------------
  // Order of dates

  /** Calendar order: by year, then month, then day. */
  predicate Before(a: Date, b: Date)
  {
    a.year < b.year
    || (a.year == b.year && a.month < b.month)
    || (a.year == b.year && a.month == b.month && a.day < b.day)
  }

  lemma DaysBeforeYearGap(a: int, b: int)
    requires 1 <= a < b
    ensures DaysBeforeYear(a) + YearLength(a) <= DaysBeforeYear(b)
    decreases b - a
  {
    YearStep(a);
    if a + 1 < b {
      DaysBeforeYearGap(a + 1, b);
    }
  }

  lemma DaysBeforeMonthGap(a: int, b: int, y: int)
    requires 1 <= a < b <= 12
    ensures DaysBeforeMonth(a, y) + DaysInMonth(a, y) <= DaysBeforeMonth(b, y)
    decreases b - a
  {
    MonthStep(a, y);
    if a + 1 < b {
      DaysBeforeMonthGap(a + 1, b, y);
    }
  }

  /** Where a date's day number falls inside its year. */
  lemma DayNumberInYear(d: Date)
    requires InCalendar(d)
    ensures DaysBeforeYear(d.year) <= DayNumber(d) < DaysBeforeYear(d.year) + YearLength(d.year)
  {
    YearStep(d.year);
    if d.month < 12 {
      DaysBeforeMonthGap(d.month, 12, d.year);
    }
  }

  /** The day count orders dates exactly as the calendar does. */
  lemma {:induction false} DayNumberOrder(a: Date, b: Date)
    requires InCalendar(a) && InCalendar(b)
    ensures Before(a, b) <==> DayNumber(a) < DayNumber(b)
  {
    if a.year < b.year {
      DayNumberInYear(a);
      DayNumberInYear(b);
      DaysBeforeYearGap(a.year, b.year);
    } else if b.year < a.year {
      DayNumberInYear(a);
      DayNumberInYear(b);
      DaysBeforeYearGap(b.year, a.year);
    } else if a.month < b.month {
      DaysBeforeMonthGap(a.month, b.month, a.year);
    } else if b.month < a.month {
      DaysBeforeMonthGap(b.month, a.month, a.year);
    }
  }

  /** Different dates have different day counts. */
  lemma DayNumberInjective(a: Date, b: Date)
    requires InCalendar(a) && InCalendar(b)
    requires DayNumber(a) == DayNumber(b)
    ensures a == b
  {
    DayNumberOrder(a, b);
    DayNumberOrder(b, a);
  }

  /** The weekday advances by one each day, and repeats after seven. */
  lemma {:induction false} WeekdayCycle(d: Date)
    requires InCalendar(d)
    ensures DayOfWeek(NextDay(d)) == (DayOfWeek(d) + 1) % 7
    ensures DayOfWeek(AddDays(d, 7)) == DayOfWeek(d)
  {
    DayOfWeekShift(d, NextDay(d), 1);
    DayOfWeekShift(d, AddDays(d, 7), 7);
    var w := DayOfWeek(d);
    Mod7(w + 7, 1, w);
  }

  // ---------------------------------------------------------------------
  // Text forms

  /** Reads three `/`- or `-`-separated parts as day, month and year of a valid date. */
  function DateFromParts(day: string, month: string, year: string): (r: Option<Date>)
    ensures r.Some? ==> Valid(r.value)
    ensures r.Some? <==>
      ParseNat(day).Some? && ParseNat(month).Some? && ParseNat(year).Some? &&
      Valid(Date(ParseNat(day).value, ParseNat(month).value, ParseNat(year).value))
    ensures r.Some? ==> r.value == Date(ParseNat(day).value, ParseNat(month).value, ParseNat(year).value)
  {
    match (ParseNat(day), ParseNat(month), ParseNat(year))
    case (Some(dd), Some(mm), Some(yy)) =>
      var d := Date(dd, mm, yy);
      if Valid(d) then Some(d) else None
    case _ => None
  }

  /** The show date `dd/mm/yyyy` as the form parses it; None when it is not three parts or not a valid date. */
  function ParseShowDate(s: string): (r: Option<Date>)
    ensures r.Some? ==> Valid(r.value) && |Split(s, '/')| == 3
  {
    var parts := Split(s, '/');
    if |parts| == 3 then DateFromParts(parts[0], parts[1], parts[2]) else None
  }

  /** The date picker's display form: zero-padded day and month, year in plain decimal. */
  function ShowDateText(d: Date): (s: string)
    requires Valid(d)
  {
    Pad2(d.day) + "/" + Pad2(d.month) + "/" + NatToString(d.year)
  }

  /** `toISOString().split('T')[0]`: `yyyy-mm-dd`, years beyond 9999 as `+yyyyyy`. */
  function IsoText(d: Date): (s: string)
    requires InCalendar(d) && d.year < 1000000
    ensures d.year <= 9999 ==> |s| == 10 && s[4] == '-' && AllDigits(s[..4]) && DigitsValue(s[..4]) == d.year
    ensures d.year > 9999 ==> |s| == 13 && s[0] == '+' && AllDigits(s[1..7]) && DigitsValue(s[1..7]) == d.year
    ensures s[|s| - 3] == '-' && AllDigits(s[|s| - 5..|s| - 3]) && DigitsValue(s[|s| - 5..|s| - 3]) == d.month
    ensures s[|s| - 6] == '-' && AllDigits(s[|s| - 2..]) && DigitsValue(s[|s| - 2..]) == d.day
  {
    var y := if d.year <= 9999 then Pad4(d.year) else "+" + Pad6(d.year);
    var m, dd := Pad2(d.month), Pad2(d.day);
    var s := y + "-" + m + "-" + dd;
    assert s[..|y|] == y && s[|y| + 1..|y| + 3] == m && s[|y| + 4..] == dd;
    assert d.year > 9999 ==> y[1..] == Pad6(d.year);
    s
  }

  /** Reads `yyyy-mm-dd` (or `+yyyyyy-mm-dd`) as a calendar date. */
  function ParseIsoDate(s: string): (r: Option<Date>)
    ensures r.Some? ==> InCalendar(r.value)
  {
    var parts := Split(s, '-');
    if |parts| != 3 then None
    else
      var yearText := if |parts[0]| > 0 && parts[0][0] == '+' then parts[0][1..] else parts[0];
      match (ParseNat(parts[2]), ParseNat(parts[1]), ParseNat(yearText))
      case (Some(dd), Some(mm), Some(yy)) =>
        var d := Date(dd, mm, yy);
        if InCalendar(d) then Some(d) else None
      case _ => None
  }

  /**
   The date input's `onChange` handler: a non-empty `yyyy-mm-dd` value
   becomes the `dd/mm/yyyy` text of the same date; anything else leaves the
   show date as it was (None).
   */
  function PickerToShowDate(v: string): (r: Option<string>)
    ensures r.Some? ==> exists d :: Valid(d) && r.value == ShowDateText(d) && ParseIsoDate(v) == Some(d)
  {
    if v == "" then None
    else
      match ParseIsoDate(v)
      case Some(d) => if d.year <= 9999 then Some(ShowDateText(d)) else None
      case None => None
  }

  lemma SplitThree(a: string, b: string, c: string, sep: char)
    requires sep !in a && sep !in b && sep !in c
    ensures Split(a + [sep] + b + [sep] + c, sep) == [a, b, c]
  {
    SplitPeel(a, sep, b + [sep] + c);
    SplitPeel(b, sep, c);
    SplitWhole(c, sep);
    assert a + [sep] + b + [sep] + c == a + [sep] + (b + [sep] + c);
  }

  lemma DigitsHaveNoSeparator(s: string, sep: char)
    requires AllDigits(s) && !IsDigit(sep)
    ensures sep !in s
  {
  }

  /** The picker's text for a date parses back to that date. */
  lemma {:induction false} ShowDateRoundTrip(d: Date)
    requires Valid(d)
    ensures Split(ShowDateText(d), '/') == [Pad2(d.day), Pad2(d.month), NatToString(d.year)]
    ensures ParseShowDate(ShowDateText(d)) == Some(d)
  {
    var a, b, c := Pad2(d.day), Pad2(d.month), NatToString(d.year);
    DigitsHaveNoSeparator(a, '/');
    DigitsHaveNoSeparator(b, '/');
    DigitsHaveNoSeparator(c, '/');
    assert ShowDateText(d) == a + ['/'] + b + ['/'] + c;
    SplitThree(a, b, c, '/');
  }

  /** The end-date text parses back to the date it was made from. */
  lemma {:induction false} IsoRoundTrip(d: Date)
    requires InCalendar(d) && d.year < 1000000
    ensures ParseIsoDate(IsoText(d)) == Some(d)
  {
    var y := if d.year <= 9999 then Pad4(d.year) else "+" + Pad6(d.year);
    var m, dd := Pad2(d.month), Pad2(d.day);
    assert '-' !in y;
    DigitsHaveNoSeparator(m, '-');
    DigitsHaveNoSeparator(dd, '-');
    assert IsoText(d) == y + ['-'] + m + ['-'] + dd;
    SplitThree(y, m, dd, '-');
    if d.year > 9999 {
      assert ("+" + Pad6(d.year))[1..] == Pad6(d.year);
    }
  }

  /** Picking a date in the picker fills the show date with text that parses back to the picked date. */
  lemma {:induction false} PickerRoundTrip(d: Date)
    requires Valid(d)
    ensures PickerToShowDate(IsoText(d)) == Some(ShowDateText(d))
    ensures ParseShowDate(PickerToShowDate(IsoText(d)).value) == Some(d)
  {
    IsoRoundTrip(d);
    ShowDateRoundTrip(d);
  }
}
