/** The proleptic Gregorian calendar on day numbers, as section 21.4.1 of ECMA-262 defines it:
    day 0 is the first of January 1970, months count from 0 and dates from 1. */
module Calendar {

  const MS_PER_DAY: int := 86_400_000

  function Day(t: int): int { t / MS_PER_DAY }

  function TimeWithinDay(t: int): int { t % MS_PER_DAY }

  function DayFromYear(y: int): int {
    365 * (y - 1970) + (y - 1969) / 4 - (y - 1901) / 100 + (y - 1601) / 400
  }

  predicate IsLeap(y: int) {
    y % 4 == 0 && (y % 100 != 0 || y % 400 == 0)
  }

  lemma EveryFourthYear(y: int)
    ensures (y + 1 - 1969) / 4 == (y - 1969) / 4 + if y % 4 == 0 then 1 else 0
  {}

  lemma EveryHundredthYear(y: int)
    ensures (y + 1 - 1901) / 100 == (y - 1901) / 100 + if y % 100 == 0 then 1 else 0
  {}

  lemma EveryFourHundredthYear(y: int)
    ensures (y + 1 - 1601) / 400 == (y - 1601) / 400 + if y % 400 == 0 then 1 else 0
  {}

  lemma LeapRulesNest(y: int)
    ensures y % 400 == 0 ==> y % 100 == 0
    ensures y % 100 == 0 ==> y % 4 == 0
  {}

  /** Years are 365 or 366 days long: the formula counts the leap years. */
  lemma YearLength(y: int)
    ensures DayFromYear(y + 1) == DayFromYear(y) + if IsLeap(y) then 366 else 365
  {
    EveryFourthYear(y);
    EveryHundredthYear(y);
    EveryFourHundredthYear(y);
    LeapRulesNest(y);
  }

  function Distance(day: int, y: int): nat {
    if DayFromYear(y) > day then DayFromYear(y) - day
    else if DayFromYear(y + 1) <= day then day - DayFromYear(y) else 0
  }

  lemma StepsCloser(day: int, y: int)
    ensures DayFromYear(y) > day ==> Distance(day, y - 1) < Distance(day, y)
    ensures DayFromYear(y + 1) <= day ==> Distance(day, y + 1) < Distance(day, y)
  {
    YearLength(y - 1);
    YearLength(y);
  }

  /** The year a day falls in, looked for from year y. */
  function YearFrom(day: int, y: int): (r: int)
    ensures DayFromYear(r) <= day < DayFromYear(r + 1)
    decreases Distance(day, y)
  {
    StepsCloser(day, y);
    if DayFromYear(y) > day then YearFrom(day, y - 1)
    else if DayFromYear(y + 1) <= day then YearFrom(day, y + 1)
    else y
  }

  function YearOf(day: int): int { YearFrom(day, 1970) }

  lemma {:induction false} YearsAreOrdered(a: int, b: int)
    requires a < b
    ensures DayFromYear(a + 1) <= DayFromYear(b)
    decreases b - a
  {
    YearLength(a + 1);
    if a + 1 < b { YearsAreOrdered(a + 1, b); }
  }

  /** The year of a day is the largest that begins no later. */
  lemma YearIsUnique(day: int, y: int)
    ensures DayFromYear(y) <= day < DayFromYear(y + 1) <==> YearOf(day) == y
    ensures DayFromYear(y) <= day <==> y <= YearOf(day)
  {
    var r := YearOf(day);
    if r < y { YearsAreOrdered(r, y); }
    if y < r {
      YearsAreOrdered(y, r);
      YearLength(y);
    }
  }

  /** Days of the year before month m. */
  function MonthStart(m: int, leap: bool): int
    requires 0 <= m <= 12
  {
    [0, 31, 59, 90, 120, 151, 181, 212, 243, 273, 304, 334, 365][m] + if leap && m >= 2 then 1 else 0
  }

  function MonthFrom(dayInYear: int, leap: bool, m: nat): (r: int)
    requires m < 12 && MonthStart(m, leap) <= dayInYear < MonthStart(12, leap)
    ensures m <= r < 12 && MonthStart(r, leap) <= dayInYear < MonthStart(r + 1, leap)
    decreases 12 - m
  {
    if dayInYear < MonthStart(m + 1, leap) then m else MonthFrom(dayInYear, leap, m + 1)
  }

  function DayInYear(day: int): (d: int)
    ensures 0 <= d < MonthStart(12, IsLeap(YearOf(day)))
  {
    YearLength(YearOf(day));
    day - DayFromYear(YearOf(day))
  }

  function MonthOf(day: int): (m: int)
    ensures 0 <= m < 12
  {
    MonthFrom(DayInYear(day), IsLeap(YearOf(day)), 0)
  }

  function DateOf(day: int): int {
    DayInYear(day) - MonthStart(MonthOf(day), IsLeap(YearOf(day))) + 1
  }

  function DaysInMonth(y: int, m: int): int
    requires 0 <= m < 12
  {
    MonthStart(m + 1, IsLeap(y)) - MonthStart(m, IsLeap(y))
  }

  function DayFrom(year: int, month: int, date: int): int
    requires 0 <= month < 12
  {
    DayFromYear(year) + MonthStart(month, IsLeap(year)) + date - 1
  }

  /** A month outside 0..11 carries into the year, a date outside its month into the days. */
  function MakeDay(y: int, m: int, date: int): int {
    DayFrom(y + m / 12, m % 12, date)
  }

  function MakeDate(day: int, time: int): int { day * MS_PER_DAY + time }

  lemma DateInMonth(day: int)
    ensures 1 <= DateOf(day) <= DaysInMonth(YearOf(day), MonthOf(day))
  {}

  /** Year, month and date name the day. */
  lemma DayFromUndoesSplit(day: int)
    ensures DayFrom(YearOf(day), MonthOf(day), DateOf(day)) == day
  {}

  lemma FirstDay()
    ensures DayFrom(1970, 0, 1) == 0 && DaysInMonth(1970, 0) == 31
  {}

  /** Day 0 is the first of January 1970. */
  lemma Epoch()
    ensures DayFrom(1970, 0, 1) == 0
    ensures YearOf(0) == 1970 && MonthOf(0) == 0 && DateOf(0) == 1
  {
    FirstDay();
    IsDateExactlyWhen(0, 1970, 0, 1);
  }

  /** The lengths of the months. */
  lemma MonthLengths(y: int)
    ensures DaysInMonth(y, 0) == 31 && DaysInMonth(y, 1) == if IsLeap(y) then 29 else 28
    ensures DaysInMonth(y, 2) == 31 && DaysInMonth(y, 3) == 30 && DaysInMonth(y, 4) == 31 && DaysInMonth(y, 5) == 30
    ensures DaysInMonth(y, 6) == 31 && DaysInMonth(y, 7) == 31 && DaysInMonth(y, 8) == 30 && DaysInMonth(y, 9) == 31
    ensures DaysInMonth(y, 10) == 30 && DaysInMonth(y, 11) == 31
  {}

  lemma {:induction false} MonthsAreOrdered(a: int, b: int, leap: bool)
    requires 0 <= a < b <= 12
    ensures MonthStart(a, leap) < MonthStart(a + 1, leap) <= MonthStart(b, leap)
    decreases b - a
  {
    if a + 1 < b { MonthsAreOrdered(a + 1, b, leap); }
  }

  lemma YearHasMonths(year: int)
    ensures DayFromYear(year + 1) == DayFromYear(year) + MonthStart(12, IsLeap(year))
  {
    YearLength(year);
  }

  lemma MonthInYear(year: int, month: int)
    requires 0 <= month < 12
    ensures 0 <= MonthStart(month, IsLeap(year)) < MonthStart(month + 1, IsLeap(year)) <= MonthStart(12, IsLeap(year))
  {
    var leap := IsLeap(year);
    assert MonthStart(0, leap) == 0;
    if month > 0 { MonthsAreOrdered(0, month, leap); }
    MonthsAreOrdered(month, 12, leap);
  }

  lemma MonthIsUnique(dayInYear: int, leap: bool, month: int)
    requires 0 <= month < 12 && MonthStart(0, leap) <= dayInYear < MonthStart(12, leap)
    requires MonthStart(month, leap) <= dayInYear < MonthStart(month + 1, leap)
    ensures MonthFrom(dayInYear, leap, 0) == month
  {
    var found := MonthFrom(dayInYear, leap, 0);
    if found < month { MonthsAreOrdered(found, month, leap); }
    if month < found { MonthsAreOrdered(month, found, leap); }
  }

  /** Every date of the calendar is the split of its day. */
  lemma SplitUndoesDayFrom(year: int, month: int, date: int)
    requires 0 <= month < 12 && 1 <= date <= DaysInMonth(year, month)
    ensures var day := DayFrom(year, month, date);
            YearOf(day) == year && MonthOf(day) == month && DateOf(day) == date
  {
    var day := DayFrom(year, month, date);
    MonthInYear(year, month);
    YearHasMonths(year);
    YearIsUnique(day, year);
    MonthIsUnique(DayInYear(day), IsLeap(year), month);
  }

  /** A day has one date: year, month and date stand for the day exactly when they are its split. */
  lemma IsDateExactlyWhen(day: int, year: int, month: int, date: int)
    requires 0 <= month < 12
    ensures DayFrom(year, month, date) == day && 1 <= date <= DaysInMonth(year, month) <==>
            YearOf(day) == year && MonthOf(day) == month && DateOf(day) == date
  {
    DateInMonth(day);
    DayFromUndoesSplit(day);
    if DayFrom(year, month, date) == day && 1 <= date <= DaysInMonth(year, month) {
      SplitUndoesDayFrom(year, month, date);
    }
  }

  lemma FirstOfMonth(year: int, month: int, first: int)
    requires 0 <= month < 12
    ensures YearOf(first) == year && MonthOf(first) == month && DateOf(first) == 1 <==> first == DayFrom(year, month, 1)
  {
    MonthInYear(year, month);
    IsDateExactlyWhen(first, year, month, 1);
  }

  /** The day MakeDay counts from is the only one the standard's definition allows: the first of
      the month, in the year, that the carried arguments name. */
  lemma MakeDayCountsFrom(y: int, m: int, first: int)
    ensures YearOf(first) == y + m / 12 && MonthOf(first) == m % 12 && DateOf(first) == 1
            <==> first == MakeDay(y, m, 1)
  {
    FirstOfMonth(y + m / 12, m % 12, first);
  }

  /** Moving the date by whole days moves the day by as many, across months, leap days and years. */
  lemma MoveDate(day: int, days: int)
    ensures MakeDay(YearOf(day), MonthOf(day), DateOf(day) + days) == day + days
  {
    DayFromUndoesSplit(day);
    assert MonthOf(day) / 12 == 0 && MonthOf(day) % 12 == MonthOf(day);
  }

  /** The same time of day on another date of the same month. */
  function MoveToDate(t: int, date: int): int {
    MakeDate(MakeDay(YearOf(Day(t)), MonthOf(Day(t)), date), TimeWithinDay(t))
  }

  lemma MoveByDays(t: int, days: int)
    ensures MoveToDate(t, DateOf(Day(t)) + days) == t + days * MS_PER_DAY
  {
    MoveDate(Day(t), days);
    assert MakeDate(Day(t), TimeWithinDay(t)) == t;
  }
}
