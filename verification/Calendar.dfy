/** Dates and day counts (jiutai/jf_date.c): day 1 is 1 January 1970. */
module Calendar {
  import opened Bits

  predicate IsLeapYear(year: int) {
    (year % 4 == 0 && year % 100 != 0) || year % 400 == 0
  }

  /** jf_date_getDaysOfMonth */
  function DaysOfMonth(year: int, mon: int): int {
    if mon in {1, 3, 5, 7, 8, 10, 12} then 31 else if mon == 2 then if IsLeapYear(year) then 29 else 28 else 30
  }

  /** jf_date_getDaysOfYear */
  function DaysOfYear(year: int): int {
    if IsLeapYear(year) then 366 else 365
  }

  datatype Date = Date(year: int, mon: int, day: int)

  predicate ValidDate(d: Date) {
    d.year >= 1970 && 1 <= d.mon <= 12 && 1 <= d.day <= DaysOfMonth(d.year, d.mon)
  }

  // ----- day counts

  /** Days in the years from 1970 up to but not including year. */
  function DaysBeforeYear(year: int): (r: int)
    requires year >= 1970
    ensures r >= 0
    decreases year
  {
    if year == 1970 then 0 else DaysBeforeYear(year - 1) + DaysOfYear(year - 1)
  }

  /** Days in the months of the year before mon. */
  function DaysBeforeMonth(year: int, mon: int): (r: int)
    requires 1 <= mon <= 13
    ensures r >= 0
    decreases mon
  {
    if mon == 1 then 0 else DaysBeforeMonth(year, mon - 1) + DaysOfMonth(year, mon - 1)
  }

  function DayCount(d: Date): int
    requires d.year >= 1970 && 1 <= d.mon <= 13
  {
    DaysBeforeYear(d.year) + DaysBeforeMonth(d.year, d.mon) + d.day
  }

  /** jf_date_convertDateToDaysFrom1970 */
  method DateToDays(year: int, mon: int, day: int) returns (ret: int)
    requires year >= 1970 && 1 <= mon <= 12
    ensures ret == DayCount(Date(year, mon, day))
  {
    ret := day;
    var a := new int[12][0, 31, 28, 31, 30, 31, 30, 31, 31, 30, 31, 30];
    if IsLeapYear(year) { a[2] := 29; }
    assert forall i :: 1 <= i < 12 ==> a[i] == DaysOfMonth(year, i);
    for i := 0 to mon
      invariant ret == day + if i == 0 then 0 else DaysBeforeMonth(year, i)
      invariant a[0] == 0 && forall j :: 1 <= j < 12 ==> a[j] == DaysOfMonth(year, j)
    {
      ret := ret + a[i];
    }
    var startYear := 1970;
    while startYear < year
      invariant 1970 <= startYear <= year && ret == DaysBeforeYear(startYear) + DaysBeforeMonth(year, mon) + day
    {
      ret := ret + DaysOfYear(startYear);
      startYear := startYear + 1;
    }
  }

  lemma {:induction false} MonthsMono(year: int, m: int, n: int)
    requires 1 <= m <= n <= 13
    ensures DaysBeforeMonth(year, m) <= DaysBeforeMonth(year, n)
    ensures m < n ==> DaysBeforeMonth(year, m) + DaysOfMonth(year, m) <= DaysBeforeMonth(year, n)
    decreases n
  {
    hide DaysOfMonth;
    MonthPositive(year, n - 1);
    if m < n { MonthsMono(year, m, n - 1); }
  }

  lemma MonthPositive(year: int, mon: int)
    ensures DaysOfMonth(year, mon) > 0
  {
  }

  lemma YearIsItsMonths(year: int)
    ensures DaysBeforeMonth(year, 13) == DaysOfYear(year)
  {
    assert DaysBeforeMonth(year, 3) == DaysOfMonth(year, 1) + DaysOfMonth(year, 2);
    assert DaysBeforeMonth(year, 5) == DaysBeforeMonth(year, 3) + 61;
    assert DaysBeforeMonth(year, 7) == DaysBeforeMonth(year, 5) + 61;
    assert DaysBeforeMonth(year, 9) == DaysBeforeMonth(year, 7) + 62;
    assert DaysBeforeMonth(year, 11) == DaysBeforeMonth(year, 9) + 61;
  }

  lemma {:induction false} YearsMono(y: int, z: int)
    requires 1970 <= y <= z
    ensures DaysBeforeYear(y) <= DaysBeforeYear(z)
    ensures y < z ==> DaysBeforeYear(y) + DaysOfYear(y) <= DaysBeforeYear(z)
    decreases z
  {
    if y < z { YearsMono(y, z - 1); }
  }

  /** The day of a valid date lies within its year. */
  lemma CountWithinYear(d: Date)
    requires ValidDate(d)
    ensures DaysBeforeYear(d.year) < DayCount(d) <= DaysBeforeYear(d.year) + DaysOfYear(d.year)
  {
    MonthsMono(d.year, d.mon, 13);
    YearIsItsMonths(d.year);
  }

  /** Different valid dates have different day counts. */
  lemma DayCountInjective(d: Date, e: Date)
    requires ValidDate(d) && ValidDate(e) && DayCount(d) == DayCount(e)
    ensures d == e
  {
    CountWithinYear(d);
    CountWithinYear(e);
    if d.year < e.year { YearsMono(d.year, e.year); } else if e.year < d.year { YearsMono(e.year, d.year); }
    if d.mon < e.mon { MonthsMono(d.year, d.mon, e.mon); } else if e.mon < d.mon { MonthsMono(d.year, e.mon, d.mon); }
  }

  /** jf_date_convertDaysFrom1970ToDate: the one valid date with that day count. */
  method DaysToDate(days: int) returns (d: Date)
    requires days >= 1
    ensures ValidDate(d) && DayCount(d) == days
    ensures forall e :: ValidDate(e) && DayCount(e) == days ==> e == d
  {
    hide IsLeapYear;
    var ret := days;
    var a := new int[13][0, 31, 28, 31, 30, 31, 30, 31, 31, 30, 31, 30, 31];
    var startYear := 1970;
    while ret > 0
      invariant startYear >= 1970
      invariant ret > 0 ==> ret == days - DaysBeforeYear(startYear)
      invariant ret <= 0 ==> ret == days - DaysBeforeYear(startYear) - DaysOfYear(startYear) && days > DaysBeforeYear(startYear)
      decreases ret
    {
      ret := ret - DaysOfYear(startYear);
      if ret > 0 { startYear := startYear + 1; }
    }
    ret := ret + DaysOfYear(startYear);
    YearIsItsMonths(startYear);
    if IsLeapYear(startYear) { a[2] := 29; }
    var mon, day, i, s := 0, 0, 0, 0;
    assert forall j :: 1 <= j < 13 ==> a[j] == DaysOfMonth(startYear, j);
    while i < 12
      invariant 0 <= i <= 12 && a[0] == 0 && forall j :: 1 <= j < 13 ==> a[j] == DaysOfMonth(startYear, j)
      invariant s == if i == 0 then 0 else DaysBeforeMonth(startYear, i)
      invariant ret > if i == 0 then 0 else DaysBeforeMonth(startYear, i + 1)
      invariant mon == 0
    {
      s := s + a[i];
      if s < ret <= s + a[i + 1] {
        mon, day := i + 1, ret - s;
        break;
      }
      i := i + 1;
    }
    d := Date(startYear, mon, day);
    forall e | ValidDate(e) && DayCount(e) == days ensures e == d { DayCountInjective(d, e); }
  }

  // ----- the day of the week

  /** The remainder as C computes it: with the sign of the dividend. */
  function CRemainder(a: int, b: nat): int
    requires b > 0
  {
    if a >= 0 then a % b else -((-a) % b)
  }

  /** jf_date_getDayOfWeekFromDate, by Zeller's formula; 0 is Sunday. */
  function DayOfWeek(year: int, mon: int, day: int): int
    requires year >= 1 && mon >= 1
  {
    var m := if mon <= 2 then mon + 12 else mon;
    var y := if mon <= 2 then year - 1 else year;
    var w := y / 100 / 4 - 2 * (y / 100) + y % 100 + y % 100 / 4 + 13 * (m + 1) / 5 + day - 1;
    var r := CRemainder(w, 7);
    if r < 0 then r + 7 else r
  }

  /** Leap days in the years 1 to n. */
  function LeapDays(n: int): int {
    n / 4 - n / 100 + n / 400
  }

  lemma LeapDaysStep(n: int)
    requires n >= 1
    ensures LeapDays(n) == LeapDays(n - 1) + if IsLeapYear(n) then 1 else 0
  {
    QuotientStep(n, 4);
    QuotientStep(n, 100);
    QuotientStep(n, 400);
    FourHundred(n);
  }

  lemma QuotientStep(n: int, m: int)
    requires n >= 1 && m > 1
    ensures n / m == (n - 1) / m + if n % m == 0 then 1 else 0
  {
    DivModDefinition(n, m);
    if n % m == 0 {
      DivModUnique(n - 1, m, n / m - 1, m - 1);
    } else {
      DivModUnique(n - 1, m, n / m, n % m - 1);
    }
  }

  lemma FourHundred(n: int)
    ensures n % 400 == 0 ==> n % 100 == 0
    ensures n % 100 == 0 ==> n % 4 == 0
  {
  }

  lemma {:induction false} DaysBeforeYearClosed(year: int)
    requires year >= 1970
    ensures DaysBeforeYear(year) == 365 * (year - 1970) + LeapDays(year - 1) - 477
    decreases year
  {
    if year > 1970 {
      DaysBeforeYearClosed(year - 1);
      LeapDaysStep(year - 1);
    }
  }

  /** Splitting a year into centuries and years changes nothing modulo 7. */
  lemma CenturyForm(y: int)
    requires y >= 0
    ensures 365 * y + LeapDays(y) == 7 * (52 * y + 18 * (y / 100)) + y / 100 / 4 - 2 * (y / 100) + y % 100 + y % 100 / 4
  {
    assert y == 100 * (y / 100) + y % 100;
    assert y / 4 == 25 * (y / 100) + y % 100 / 4;
    assert y / 400 == y / 100 / 4;
  }

  /** With January and February counted as months 13 and 14 of the year before, the months grow by a closed formula. */
  lemma MonthForm(year: int, mon: int)
    requires 1 <= mon <= 12
    ensures var m := if mon <= 2 then mon + 12 else mon;
            DaysBeforeMonth(year, mon) ==
              13 * (m + 1) / 5 + 28 * m - 35 - (if mon <= 2 then 365 else 0) + (if mon > 2 && IsLeapYear(year) then 1 else 0)
  {
    assert DaysBeforeMonth(year, 3) == DaysOfMonth(year, 1) + DaysOfMonth(year, 2);
    assert DaysBeforeMonth(year, 5) == DaysBeforeMonth(year, 3) + 61;
    assert DaysBeforeMonth(year, 7) == DaysBeforeMonth(year, 5) + 61;
    assert DaysBeforeMonth(year, 9) == DaysBeforeMonth(year, 7) + 62;
    assert DaysBeforeMonth(year, 11) == DaysBeforeMonth(year, 9) + 61;
  }

  lemma RemainderFixed(w: int)
    ensures var r := CRemainder(w, 7); (if r < 0 then r + 7 else r) == w % 7
  {
  }

  lemma SameModulo7(k: int, w: int)
    ensures (7 * k + w) % 7 == w % 7
  {
  }

  /** Zeller's formula gives the day of the week that counting days gives: day 1 of the count is a Thursday. */
  lemma ZellerCountsDays(d: Date)
    requires ValidDate(d)
    ensures DayOfWeek(d.year, d.mon, d.day) == (DayCount(d) + 3) % 7
  {
    hide IsLeapYear, LeapDays, DaysBeforeYear, DaysBeforeMonth, DaysOfMonth;
    var m := if d.mon <= 2 then d.mon + 12 else d.mon;
    var y := if d.mon <= 2 then d.year - 1 else d.year;
    var w := y / 100 / 4 - 2 * (y / 100) + y % 100 + y % 100 / 4 + 13 * (m + 1) / 5 + d.day - 1;
    DaysBeforeYearClosed(d.year);
    LeapDaysStep(d.year);
    MonthForm(d.year, d.mon);
    CenturyForm(y);
    var k := 52 * y + 18 * (y / 100) + 4 * m - 102794;
    assert DayCount(d) + 3 == 7 * k + w;
    SameModulo7(k, w);
    RemainderFixed(w);
  }

  /** jf_date_getNextDayOfWeek */
  function NextDayOfWeek(dayOfWeek: int): int {
    if dayOfWeek == 6 then 0 else dayOfWeek + 1
  }

  /** The day after any date, also across months and years, falls on the next day of the week. */
  lemma NextDayIsNext(d: Date, e: Date)
    requires ValidDate(d) && ValidDate(e) && DayCount(e) == DayCount(d) + 1
    ensures DayOfWeek(e.year, e.mon, e.day) == NextDayOfWeek(DayOfWeek(d.year, d.mon, d.day))
  {
    hide DayOfWeek, DayCount;
    ZellerCountsDays(d);
    ZellerCountsDays(e);
  }
}
