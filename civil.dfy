/**
 * The proleptic Gregorian calendar in UTC: the day arithmetic behind PHP's
 * gmdate('Y-m-d', ts), which the plugin uses to turn a Unix timestamp into the
 * civil date it stores. Day numbers count days from 1970-01-01.
 */
module Civil {

  const SecondsPerDay := 86400

  datatype Date = Date(year: int, month: int, day: int)

  predicate IsLeapYear(y: int) {
    y % 4 == 0 && (y % 100 != 0 || y % 400 == 0)
  }

  function YearLength(y: int): int {
    if IsLeapYear(y) then 366 else 365
  }

  function DaysInMonth(y: int, m: int): int {
    if m == 2 then (if IsLeapYear(y) then 29 else 28)
    else if m == 4 || m == 6 || m == 9 || m == 11 then 30
    else 31
  }

  predicate ValidDate(d: Date) {
    1 <= d.month <= 12 && 1 <= d.day <= DaysInMonth(d.year, d.month)
  }

  /** Years 1000 to 9999, the span of a MySQL DATE column. */
  predicate InDateRange(d: Date) {
    1000 <= d.year <= 9999
  }

  /** Chronological order on dates: by year, then month, then day. */
  predicate Before(a: Date, b: Date) {
    a.year < b.year
    || (a.year == b.year && a.month < b.month)
    || (a.year == b.year && a.month == b.month && a.day < b.day)
  }

  lemma BeforeTransitive(a: Date, b: Date, c: Date)
    requires Before(a, b) && Before(b, c)
    ensures Before(a, c)
  {
  }

  /** Two different dates are ordered one way or the other. */
  lemma BeforeTotal(a: Date, b: Date)
    requires a != b
    ensures Before(a, b) || Before(b, a)
  {
  }

  /** Days of year `y` that come before the first day of month `m`; m = 13 stands for the year's end. */
  function DaysBeforeMonth(y: int, m: int): int
    requires 1 <= m <= 13
  {
    var common :=
      if m == 1 then 0 else if m == 2 then 31 else if m == 3 then 59
      else if m == 4 then 90 else if m == 5 then 120 else if m == 6 then 151
      else if m == 7 then 181 else if m == 8 then 212 else if m == 9 then 243
      else if m == 10 then 273 else if m == 11 then 304 else if m == 12 then 334
      else 365;
    if m > 2 && IsLeapYear(y) then common + 1 else common
  }

  lemma MonthStep(y: int, m: int)
    requires 1 <= m <= 12
    ensures DaysBeforeMonth(y, m + 1) == DaysBeforeMonth(y, m) + DaysInMonth(y, m)
    ensures DaysBeforeMonth(y, 13) == YearLength(y)
  {
  }

  lemma DaysBeforeMonthMonotone(y: int, m1: int, m2: int)
    requires 1 <= m1 <= m2 <= 13
    ensures DaysBeforeMonth(y, m1) <= DaysBeforeMonth(y, m2)
  {
  }

  /** Leap years among the years before `y` (counted from year 1, negative below it). */
  function LeapYearsBefore(y: int): int {
    (y - 1) / 4 - (y - 1) / 100 + (y - 1) / 400
  }

  /** The day number of January 1 of year `y`: year lengths added up from 1970. */
  function YearStart(y: int): int
    decreases if y >= 1970 then y - 1970 else 1970 - y
  {
    if y == 1970 then 0
    else if y > 1970 then YearStart(y - 1) + YearLength(y - 1)
    else YearStart(y + 1) - YearLength(y)
  }

  lemma YearStartStep(y: int)
    ensures YearStart(y + 1) == YearStart(y) + YearLength(y)
  {
  }

  /** The closed form: 365 days a year plus one per leap year in between. */
  lemma {:induction false} YearStartClosedForm(y: int)
    ensures YearStart(y) == 365 * (y - 1970) + LeapYearsBefore(y) - LeapYearsBefore(1970)
    decreases if y >= 1970 then y - 1970 else 1970 - y
  {
    if y > 1970 {
      YearStartClosedForm(y - 1);
      LeapYearsStep(y - 1);
    } else if y < 1970 {
      YearStartClosedForm(y + 1);
      LeapYearsStep(y);
    }
  }

  lemma LeapYearsStep(y: int)
    ensures LeapYearsBefore(y + 1) == LeapYearsBefore(y) + (if IsLeapYear(y) then 1 else 0)
  {
    DivStep(y, 4);
    DivStep(y, 100);
    DivStep(y, 400);
  }

  /** Going from y - 1 to y, the quotient by k grows by one exactly when k divides y. */
  lemma DivStep(y: int, k: int)
    requires k == 4 || k == 100 || k == 400
    ensures y / k - (y - 1) / k == if y % k == 0 then 1 else 0
  {
    if k == 4 {
      assert y / 4 - (y - 1) / 4 == if y % 4 == 0 then 1 else 0;
    } else if k == 100 {
      assert y / 100 - (y - 1) / 100 == if y % 100 == 0 then 1 else 0;
    } else {
      assert y / 400 - (y - 1) / 400 == if y % 400 == 0 then 1 else 0;
    }
  }

  lemma {:induction false} YearStartMonotone(a: int, b: int)
    requires a <= b
    ensures YearStart(a) <= YearStart(b)
    decreases b - a
  {
    if a < b {
      YearStartStep(a);
      YearStartMonotone(a + 1, b);
    }
  }

  /** The day number of a date: the number of days from 1970-01-01 to it. */
  function DayNumber(d: Date): int
    requires ValidDate(d)
  {
    YearStart(d.year) + DaysBeforeMonth(d.year, d.month) + d.day - 1
  }

  /** A date's day number lies inside its own year. */
  lemma DayNumberInYear(d: Date)
    requires ValidDate(d)
    ensures YearStart(d.year) <= DayNumber(d) < YearStart(d.year + 1)
  {
    MonthStep(d.year, d.month);
    DaysBeforeMonthMonotone(d.year, d.month + 1, 13);
    YearStartStep(d.year);
  }

  /**
   * The date `doy` days after the first of month `m` of year `y` (before it
   * when `doy` is negative), found by stepping a month at a time.
   */
  function DateFrom(y: int, m: int, doy: int): (d: Date)
    requires 1 <= m <= 12
    ensures ValidDate(d) && DayNumber(d) == YearStart(y) + DaysBeforeMonth(y, m) + doy
    decreases if doy < 0 then 31 - doy else doy
  {
    MonthStep(y, m);
    if doy < 0 then
      if m == 1 then
        YearStartStep(y - 1);
        MonthStep(y - 1, 12);
        DateFrom(y - 1, 12, doy + 31)
      else
        MonthStep(y, m - 1);
        DateFrom(y, m - 1, doy + DaysInMonth(y, m - 1))
    else if doy < DaysInMonth(y, m) then Date(y, m, doy + 1)
    else if m == 12 then
      YearStartStep(y);
      DateFrom(y + 1, 1, doy - 31)
    else DateFrom(y, m + 1, doy - DaysInMonth(y, m))
  }

  /** The civil date of day number `n` (days since 1970-01-01, negative before). */
  function CivilFromDays(n: int): (d: Date)
    ensures ValidDate(d) && DayNumber(d) == n
  {
    DateFrom(1970, 1, n)
  }

  /** Calendar order and day-number order agree on valid dates. */
  lemma BeforeIsEarlier(a: Date, b: Date)
    requires ValidDate(a) && ValidDate(b)
    ensures Before(a, b) <==> DayNumber(a) < DayNumber(b)
  {
    if a.year != b.year {
      var (p, q) := if a.year < b.year then (a, b) else (b, a);
      DayNumberInYear(p);
      DayNumberInYear(q);
      YearStartMonotone(p.year + 1, q.year);
    } else if a.month != b.month {
      var (p, q) := if a.month < b.month then (a, b) else (b, a);
      MonthStep(p.year, p.month);
      DaysBeforeMonthMonotone(p.year, p.month + 1, q.month);
    }
  }

  /** Distinct valid dates have distinct day numbers. */
  lemma DayNumberInjective(a: Date, b: Date)
    requires ValidDate(a) && ValidDate(b) && DayNumber(a) == DayNumber(b)
    ensures a == b
  {
    BeforeIsEarlier(a, b);
    BeforeIsEarlier(b, a);
  }

  /** Converting a valid date to its day number and back gives the date. */
  lemma CivilFromDayNumber(d: Date)
    requires ValidDate(d)
    ensures CivilFromDays(DayNumber(d)) == d
  {
    DayNumberInjective(CivilFromDays(DayNumber(d)), d);
  }

  /** The UTC day of timestamp 1741132800 (2025-03-05T00:00:00Z) is 2025-03-05. */
  lemma TimestampExample()
    ensures CivilFromDays(1741132800 / SecondsPerDay) == Date(2025, 3, 5)
  {
    YearStartClosedForm(2025);
    assert DayNumber(Date(2025, 3, 5)) == 1741132800 / SecondsPerDay;
    CivilFromDayNumber(Date(2025, 3, 5));
  }

  function DigitChar(k: int): (c: char)
    requires 0 <= k <= 9
    ensures c as int - '0' as int == k
  {
    ('0' as int + k) as char
  }

  /** The decimal digits of `n`, without leading zeros. */
  function Digits(n: nat): (s: string)
    ensures |s| >= 1
  {
    if n < 10 then [DigitChar(n)] else Digits(n / 10) + [DigitChar(n % 10)]
  }

  /** `s` with zeros added on the left up to width `w`. */
  function PadLeft(s: string, w: nat): (r: string)
    ensures |r| == if |s| >= w then |s| else w
    decreases w - |s|
  {
    if |s| >= w then s else PadLeft(['0'] + s, w)
  }

  /**
   * The `Y-m-d` text of a date, as gmdate('Y-m-d') writes it: a year of at
   * least four digits (after a dash before year 0), month and day of two.
   */
  function Format(d: Date): (s: string)
    requires ValidDate(d)
    ensures |s| >= 10
  {
    YearText(d.year) + "-" + PadLeft(Digits(d.month), 2) + "-" + PadLeft(Digits(d.day), 2)
  }

  /** The `Y` part: at least four digits, after a dash for years before 0. */
  function YearText(year: int): (s: string)
    ensures |s| >= 4
  {
    (if year < 0 then "-" else "") + PadLeft(Digits(if year < 0 then -year else year), 4)
  }

  predicate AllDigits(s: string) {
    forall i :: 0 <= i < |s| ==> '0' <= s[i] <= '9'
  }

  /** Text made of digits and dashes only. */
  predicate DateChars(s: string) {
    forall i :: 0 <= i < |s| ==> s[i] == '-' || '0' <= s[i] <= '9'
  }

  lemma {:induction false} DigitsAreDigits(n: nat)
    ensures AllDigits(Digits(n))
  {
    if n >= 10 {
      DigitsAreDigits(n / 10);
      var s := Digits(n / 10) + [DigitChar(n % 10)];
      assert forall i :: 0 <= i < |s| - 1 ==> s[i] == Digits(n / 10)[i];
    }
  }

  lemma {:induction false} PadLeftDigits(s: string, w: nat)
    requires AllDigits(s)
    ensures AllDigits(PadLeft(s, w))
    decreases w - |s|
  {
    if |s| < w {
      var t := ['0'] + s;
      assert forall i :: 1 <= i < |t| ==> t[i] == s[i - 1];
      PadLeftDigits(t, w);
    }
  }

  lemma DateCharsConcat(a: string, b: string)
    requires DateChars(a) && DateChars(b)
    ensures DateChars(a + b)
  {
    forall i | 0 <= i < |a + b|
      ensures (a + b)[i] == '-' || '0' <= (a + b)[i] <= '9'
    {
      if i < |a| { assert (a + b)[i] == a[i]; } else { assert (a + b)[i] == b[i - |a|]; }
    }
  }

  /** The text of a date is made of digits and dashes and ends in a digit. */
  lemma FormatShape(d: Date)
    requires ValidDate(d)
    ensures DateChars(Format(d))
    ensures '0' <= Format(d)[|Format(d)| - 1] <= '9'
  {
    var n: nat := if d.year < 0 then -d.year else d.year;
    var sign := if d.year < 0 then "-" else "";
    var y := PadLeft(Digits(n), 4);
    var m := PadLeft(Digits(d.month), 2);
    var dd := PadLeft(Digits(d.day), 2);
    DigitsAreDigits(n);
    DigitsAreDigits(d.month);
    DigitsAreDigits(d.day);
    PadLeftDigits(Digits(n), 4);
    PadLeftDigits(Digits(d.month), 2);
    PadLeftDigits(Digits(d.day), 2);
    DateCharsConcat(sign, y);
    assert YearText(d.year) == sign + y;
    DateCharsConcat(sign + y, "-");
    DateCharsConcat(sign + y + "-", m);
    DateCharsConcat(sign + y + "-" + m, "-");
    DateCharsConcat(sign + y + "-" + m + "-", dd);
    assert Format(d) == sign + y + "-" + m + "-" + dd;
  }

  /** The value of a text of decimal digits, most significant first. */
  function DigitsValue(s: string): int {
    if s == [] then 0 else DigitsValue(s[..|s| - 1]) * 10 + (s[|s| - 1] as int - '0' as int)
  }

  lemma {:induction false} DigitsRoundTrip(n: nat)
    ensures DigitsValue(Digits(n)) == n
  {
    if n >= 10 {
      DigitsRoundTrip(n / 10);
      var s := Digits(n / 10) + [DigitChar(n % 10)];
      assert s[..|s| - 1] == Digits(n / 10);
    }
  }

  /** Numbers below 100 take at most two digits. */
  lemma ShortDigits(n: nat)
    requires n < 100
    ensures |Digits(n)| <= 2
  {
    if n >= 10 {
      assert |Digits(n / 10)| == 1;
    }
  }

  lemma {:induction false} LeadingZero(s: string)
    ensures DigitsValue(['0'] + s) == DigitsValue(s)
    decreases |s|
  {
    var t := ['0'] + s;
    if s == [] {
      assert t[..|t| - 1] == [];
    } else {
      assert t[..|t| - 1] == ['0'] + s[..|s| - 1];
      LeadingZero(s[..|s| - 1]);
    }
  }

  lemma {:induction false} PadValue(s: string, w: nat)
    ensures DigitsValue(PadLeft(s, w)) == DigitsValue(s)
    decreases w - |s|
  {
    if |s| < w {
      LeadingZero(s);
      PadValue(['0'] + s, w);
    }
  }

  /**
   * Reads a `Y-m-d` text back: the last two characters are the day, the two
   * between the last two dashes the month, and what precedes them the year,
   * negative when it starts with a dash.
   */
  function ParseDate(s: string): Date
    requires |s| >= 6
  {
    var yearText := s[..|s| - 6];
    var year :=
      if yearText != [] && yearText[0] == '-' then -DigitsValue(yearText[1..]) else DigitsValue(yearText);
    Date(year, DigitsValue(s[|s| - 5..|s| - 3]), DigitsValue(s[|s| - 2..]))
  }

  /** Where ParseDate finds the three fields of a text of that shape. */
  lemma ParseFields(yt: string, m: string, dd: string)
    requires |m| == 2 && |dd| == 2
    ensures ParseDate(yt + "-" + m + "-" + dd) == ParseDate(yt + "-00-00").(month := DigitsValue(m), day := DigitsValue(dd))
  {
    var s := yt + "-" + m + "-" + dd;
    var z := yt + "-00-00";
    assert s[..|s| - 6] == yt == z[..|z| - 6];
    assert s[|s| - 5..|s| - 3] == m;
    assert s[|s| - 2..] == dd;
  }

  /** The year text of Format: a dash before the digits of a negative year. */
  lemma ParseYear(year: int)
    ensures ParseDate(YearText(year) + "-00-00").year == year
  {
    var n: nat := if year < 0 then -year else year;
    var y := PadLeft(Digits(n), 4);
    var z := YearText(year) + "-00-00";
    assert z[..|z| - 6] == YearText(year);
    DigitsRoundTrip(n);
    PadValue(Digits(n), 4);
    if year < 0 {
      assert YearText(year)[1..] == y;
    } else {
      assert YearText(year) == y;
      DigitsAreDigits(n);
      PadLeftDigits(Digits(n), 4);
    }
  }

  /** The text gmdate('Y-m-d') writes determines the date: parsing it gives the date back. */
  lemma FormatRoundTrip(d: Date)
    requires ValidDate(d)
    ensures ParseDate(Format(d)) == d
  {
    var m := PadLeft(Digits(d.month), 2);
    var dd := PadLeft(Digits(d.day), 2);
    ShortDigits(d.month);
    ShortDigits(d.day);
    ParseFields(YearText(d.year), m, dd);
    ParseYear(d.year);
    DigitsRoundTrip(d.month);
    DigitsRoundTrip(d.day);
    PadValue(Digits(d.month), 2);
    PadValue(Digits(d.day), 2);
  }

  /** Different dates have different `Y-m-d` texts. */
  lemma FormatInjective(a: Date, b: Date)
    requires ValidDate(a) && ValidDate(b) && Format(a) == Format(b)
    ensures a == b
  {
    FormatRoundTrip(a);
    FormatRoundTrip(b);
  }

  lemma FormatExample()
    ensures Format(Date(2025, 3, 5)) == "2025-03-05"
  {
  }
}
