/** ISO 8601 week years and week numbers, from a year, the day in it and the day of the week. */
module IsoWeek {
  const DAYS_PER_WEEK: int := 7

  // ---------------------------------------------------------------- the functions of tm_writer

  /** Division and remainder truncate toward zero. */
  function Quotient(a: int, b: int): int
    requires b > 0
  {
    if a >= 0 then a / b else -(-a / b)
  }

  function Remainder(a: int, b: int): int
    requires b > 0
  {
    a - Quotient(a, b) * b
  }

  function YearPhase(year: int): int {
    Remainder(year + Quotient(year, 4) - Quotient(year, 100) + Quotient(year, 400), DAYS_PER_WEEK)
  }

  /** iso_year_weeks */
  function IsoYearWeeks(year: int): int {
    52 + (if YearPhase(year) == 4 || YearPhase(year - 1) == 3 then 1 else 0)
  }

  /** iso_week_num; Sunday is day 0 of the week. */
  function IsoWeekNum(yday: int, wday: int): int {
    Quotient(yday + 11 - (if wday == 0 then DAYS_PER_WEEK else wday), DAYS_PER_WEEK)
  }

  /** tm_iso_week_year */
  function IsoWeekYear(year: int, yday: int, wday: int): int {
    var w := IsoWeekNum(yday, wday);
    if w < 1 then year - 1 else if w > IsoYearWeeks(year) then year + 1 else year
  }

  /** tm_iso_week_of_year */
  function IsoWeekOfYear(year: int, yday: int, wday: int): int {
    var w := IsoWeekNum(yday, wday);
    if w < 1 then IsoYearWeeks(year - 1) else if w > IsoYearWeeks(year) then 1 else w
  }

  // ---------------------------------------------------------------- the calendar

  /**
    The days from the first of January of year 1, a Monday, to that of a year, negative before.
    Year 0 precedes year 1. Dividing an int by a positive one rounds down here.
  */
  function DaysBefore(year: int): int {
    var y := year - 1;
    365 * y + y / 4 - y / 100 + y / 400
  }

  predicate IsLeap(year: int) {
    year % 4 == 0 && (year % 100 != 0 || year % 400 == 0)
  }

  function DaysIn(year: int): nat {
    if IsLeap(year) then 366 else 365
  }

  lemma YearLength(year: int)
    ensures DaysBefore(year + 1) == DaysBefore(year) + DaysIn(year)
  {
    OneMore(year - 1, 4);
    OneMore(year - 1, 100);
    OneMore(year - 1, 400);
    Divisors(year);
  }

  lemma OneMore(y: int, k: nat)
    requires k == 4 || k == 100 || k == 400
    ensures (y + 1) / k == y / k + (if (y + 1) % k == 0 then 1 else 0)
  {
  }

  lemma Divisors(year: int)
    ensures year % 400 == 0 ==> year % 100 == 0
    ensures year % 100 == 0 ==> year % 4 == 0
  {
    DivisorOf(year, 4, 100);
    DivisorOf(year, 25, 4);
  }

  lemma DivisorOf(n: int, a: nat, b: nat)
    requires (a == 4 && b == 100) || (a == 25 && b == 4)
    ensures n % (a * b) == 0 ==> n % b == 0
  {
    var q := n / (a * b);
    if n % (a * b) == 0 {
      assert n == b * (a * q);
    }
  }

  predicate IsDate(year: int, yday: nat) {
    yday < DaysIn(year)
  }

  function DayNumber(year: int, yday: nat): int
    requires IsDate(year, yday)
  {
    DaysBefore(year) + yday
  }

  /** The day of the week, 0 for Sunday. */
  function DayOfWeek(day: int): nat {
    (day + 1) % 7
  }

  /** The Thursday of the week, from Monday to Sunday, that a day lies in. */
  function Thursday(day: int): int {
    day - day % 7 + 3
  }

  predicate InYear(day: int, year: int) {
    DaysBefore(year) <= day < DaysBefore(year + 1)
  }

  lemma {:induction false} YearsGrow(m: int, n: int)
    requires m <= n
    ensures DaysBefore(m) <= DaysBefore(n)
    decreases n - m
  {
    if m < n {
      YearsGrow(m, n - 1);
      YearLength(n - 1);
    }
  }

  lemma OneYear(day: int, m: int, n: int)
    requires InYear(day, m) && InYear(day, n)
    ensures m == n
  {
    hide DaysBefore;
    BeforeLaterYears(day, m, n);
    BeforeLaterYears(day, n, m);
  }

  lemma BeforeLaterYears(day: int, m: int, n: int)
    requires InYear(day, m)
    ensures m < n ==> day < DaysBefore(n)
  {
    if m < n { YearsGrow(m + 1, n); }
  }

  /** A year has 53 Thursdays, and so 53 weeks, if it begins or ends with one. */
  function WeeksIn(year: int): int {
    if DaysBefore(year) % 7 == 3 || DaysBefore(year + 1) % 7 == 4 then 53 else 52
  }

  /** The week of a day in the year that its Thursday lies in. */
  function TrueWeek(day: int, year: int): int {
    (Thursday(day) - DaysBefore(year)) / 7 + 1
  }

  // ---------------------------------------------------------------- the length of a year in weeks

  /**
    The number of weeks is right exactly from year 0 on, and before for years of 52 weeks: the
    truncating remainder of a negative number is never 3 or 4.
  */
  lemma LongYears(year: int)
    ensures IsoYearWeeks(year) == WeeksIn(year) <==> year >= 0 || WeeksIn(year) == 52
    ensures year < 0 ==> IsoYearWeeks(year) == 52
  {
    if year >= 1 {
      Phase(year);
      Phase(year - 1);
    } else if year < 0 {
      NegativePhase(year);
      NegativePhase(year - 1);
    } else {
      YearZero();
    }
  }

  lemma YearZero()
    ensures IsoYearWeeks(0) == 52 == WeeksIn(0)
  {
    assert DaysBefore(0) == -366 && DaysBefore(1) == 0;
    ZeroPhase();
    NegativePhase(-1);
    hide DaysBefore, YearPhase;
  }

  lemma ZeroPhase()
    ensures YearPhase(0) == 0
  {
  }

  lemma Phase(year: nat)
    ensures YearPhase(year) == DaysBefore(year + 1) % 7
  {
    var days := year + year / 4 - year / 100 + year / 400;
    assert days >= 0;
    TruncatedPhase(year, days);
    SameWeekday(year, days);
  }

  lemma NegativePhase(year: int)
    requires year < 0
    ensures YearPhase(year) <= 0
  {
    var n := -year;
    assert Quotient(year, 4) == -(n / 4) && Quotient(year, 100) == -(n / 100) && Quotient(year, 400) == -(n / 400);
    var days := n + n / 4 - n / 100 + n / 400;
    assert days >= 0;
    assert YearPhase(year) == Remainder(-days, 7);
    NegativeRemainder(days);
  }

  lemma NegativeRemainder(days: int)
    requires days >= 0
    ensures Remainder(-days, 7) == -(days % 7)
  {
  }

  lemma TruncatedPhase(year: nat, days: nat)
    requires days == year + year / 4 - year / 100 + year / 400
    ensures YearPhase(year) == days % 7
  {
  }

  lemma SameWeekday(year: nat, days: nat)
    ensures (364 * year + days) % 7 == days % 7
  {
    assert 364 * year == 7 * (52 * year);
  }

  // ---------------------------------------------------------------- the week of a date

  /** The Thursday's position in the year of the date decides. */
  lemma WeekFromThursday(start: int, yday: nat)
    ensures var u := Thursday(start + yday) - start;
            && IsoWeekNum(yday, DayOfWeek(start + yday)) == (u + 7) / 7
            && u >= -3 && (start + u) % 7 == 3 && yday - 3 <= u <= yday + 3
  {
    var n := start + yday;
    var wday := DayOfWeek(n);
    assert n % 7 + 1 == if wday == 0 then 7 else wday;
  }

  lemma PreviousYearWeek(start: int, length: nat, u: int)
    requires (length == 365 || length == 366) && -3 <= u < 0 && (start + u) % 7 == 3
    ensures (u + length) / 7 + 1 == if (start - length) % 7 == 3 || start % 7 == 4 then 53 else 52
  {
  }

  lemma NextYearWeek(start: int, length: nat, u: int)
    requires (length == 365 || length == 366) && 0 <= u < length + 3 && (start + u) % 7 == 3
    ensures (u + 7) / 7 > (if start % 7 == 3 || (start + length) % 7 == 4 then 53 else 52) <==> u >= length
    ensures u >= length ==> (u - length) / 7 == 0
    ensures u < length ==> u / 7 + 1 <= 53
  {
  }

  lemma WeekCount(u: int)
    requires u >= -3
    ensures (u + 7) / 7 < 1 <==> u < 0
    ensures u >= 0 ==> (u + 7) / 7 == u / 7 + 1
  {
  }

  /** What the code makes of a Thursday before the year. */
  lemma WeekOfPreviousYear(year: int, yday: nat, u: int)
    requires IsDate(year, yday) && u == Thursday(DayNumber(year, yday)) - DaysBefore(year) < 0
    ensures var wday := DayOfWeek(DayNumber(year, yday));
            && IsoWeekYear(year, yday, wday) == year - 1
            && IsoWeekOfYear(year, yday, wday) == IsoYearWeeks(year - 1)
    ensures InYear(DaysBefore(year) + u, year - 1)
    ensures TrueWeek(DayNumber(year, yday), year - 1) == WeeksIn(year - 1)
  {
    var start := DaysBefore(year);
    hide DaysBefore, IsoYearWeeks, IsoWeekNum, IsLeap, DayOfWeek, Thursday;
    WeekFromThursday(start, yday);
    WeekCount(u);
    YearLength(year - 1);
    PreviousYearWeek(start, DaysIn(year - 1), u);
  }

  /** What it makes of a Thursday in the year or behind it. */
  lemma WeekOfYearOrNext(year: int, yday: nat, u: int)
    requires IsDate(year, yday) && u == Thursday(DayNumber(year, yday)) - DaysBefore(year) >= 0
    ensures var wday, week := DayOfWeek(DayNumber(year, yday)), u / 7 + 1;
            && IsoWeekYear(year, yday, wday) == (if week > IsoYearWeeks(year) then year + 1 else year)
            && IsoWeekOfYear(year, yday, wday) == (if week > IsoYearWeeks(year) then 1 else week)
    ensures u < DaysIn(year) + 3
    ensures u / 7 + 1 > WeeksIn(year) <==> u >= DaysIn(year)
    ensures u >= DaysIn(year) ==> (u - DaysIn(year)) / 7 == 0
    ensures u < DaysIn(year) ==> u / 7 + 1 <= 53
  {
    var start, length := DaysBefore(year), DaysIn(year);
    hide DaysBefore, IsoYearWeeks, IsoWeekNum, IsLeap, DayOfWeek, Thursday;
    WeekFromThursday(start, yday);
    WeekCount(u);
    YearLength(year);
    NextYearWeek(start, length, u);
  }

  /**
    The week year is the year of the week's Thursday, and the week number the ordinal of that
    Thursday among the Thursdays of its year (section 4.1.4 of ISO 8601:2004), if and only if
    that year is not negative or the week is not its 53rd.
  */
  lemma WeekOfThursday(year: int, yday: nat) returns (y: int)
    requires IsDate(year, yday)
    ensures InYear(Thursday(DayNumber(year, yday)), y)
    ensures RightWeek(year, yday, y) <==> y >= 0 || TrueWeek(DayNumber(year, yday), y) != 53
    ensures !RightWeek(year, yday, y) ==> WrongWeek(year, yday, y)
  {
    hide DaysBefore, IsoWeekYear, IsoWeekOfYear, IsoYearWeeks, DayOfWeek, Thursday;
    var day := DayNumber(year, yday);
    var u := Thursday(day) - DaysBefore(year);
    YearLength(year);
    YearLength(year + 1);
    if u < 0 {
      y := year - 1;
      WeekOfPreviousYear(year, yday, u);
      LongYears(year - 1);
    } else {
      y := if u < DaysIn(year) then year else year + 1;
      WeekOfYearOrNext(year, yday, u);
      LongYears(year);
    }
  }

  ghost predicate RightWeek(year: int, yday: nat, y: int)
    requires IsDate(year, yday)
  {
    var day := DayNumber(year, yday);
    IsoWeekYear(year, yday, DayOfWeek(day)) == y && IsoWeekOfYear(year, yday, DayOfWeek(day)) == TrueWeek(day, y)
  }

  /** What a date of week 53 of the year y becomes instead. */
  ghost predicate WrongWeek(year: int, yday: nat, y: int)
    requires IsDate(year, yday)
  {
    var wday := DayOfWeek(DayNumber(year, yday));
    if year == y then IsoWeekYear(year, yday, wday) == y + 1 && IsoWeekOfYear(year, yday, wday) == 1
    else year == y + 1 && IsoWeekYear(year, yday, wday) == y && IsoWeekOfYear(year, yday, wday) == 52
  }

  /** The first of January of year -1, a Friday: it is in week 53 of year -2, and week 52 is reported. */
  lemma FirstFailure()
    ensures IsDate(-1, 0) && InYear(Thursday(DayNumber(-1, 0)), -2) && TrueWeek(DayNumber(-1, 0), -2) == 53
    ensures var wday := DayOfWeek(DayNumber(-1, 0));
            wday == 5 && IsoWeekYear(-1, 0, wday) == -2 && IsoWeekOfYear(-1, 0, wday) == 52
  {
    assert DaysBefore(-1) == -731 && DaysBefore(-2) == -1096;
    assert DayNumber(-1, 0) == -731 && Thursday(-731) == -732;
    LongYears(-2);
  }

  /** The days of one week, Monday to Sunday, agree, except for two years meeting in a missed week 53. */
  lemma WholeWeeksAgree(year1: int, yday1: nat, year2: int, yday2: nat) returns (y: int)
    requires IsDate(year1, yday1) && IsDate(year2, yday2)
    requires DayNumber(year1, yday1) / 7 == DayNumber(year2, yday2) / 7
    ensures InYear(Thursday(DayNumber(year1, yday1)), y)
    ensures var wday1, wday2 := DayOfWeek(DayNumber(year1, yday1)), DayOfWeek(DayNumber(year2, yday2));
            && IsoWeekYear(year1, yday1, wday1) == IsoWeekYear(year2, yday2, wday2)
            && IsoWeekOfYear(year1, yday1, wday1) == IsoWeekOfYear(year2, yday2, wday2)
            <==> year1 == year2 || y >= 0 || TrueWeek(DayNumber(year1, yday1), y) != 53
  {
    y := WeekOfThursday(year1, yday1);
    var y2 := WeekOfThursday(year2, yday2);
    var day1, day2 := DayNumber(year1, yday1), DayNumber(year2, yday2);
    assert Thursday(day1) == Thursday(day2);
    hide DayNumber, IsoWeekYear, IsoWeekOfYear, InYear, DaysBefore;
    OneYear(Thursday(day1), y, y2);
  }
}
