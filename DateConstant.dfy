/**
 * The calendar tables behind the date picker: the window of 200 years around the current year,
 * the month-name wheel, and the twelve months of a year with their lengths and the weekday of
 * their first day. The current year and the locale's month names are parameters.
 */
module DateConstant {
  import Arith
  import opened Decimal
  import opened Flatten
  import opened Days

  const REPEAT_COUNT: int := 200

  /** `days`: the header of the day grid, Sunday first. */
  function WeekHeader(): (days: seq<Day>)
    ensures |days| == 7
    ensures forall i :: 0 <= i < 7 ==> days[i].Number() == i + 1
  {
    [SUNDAY, MONDAY, TUESDAY, WEDNESDAY, THURSDAY, FRIDAY, SATURDAY]
  }

  /** `years`: the window of years around `currentYear`. */
  function Years(currentYear: int): (years: seq<int>)
    ensures |years| == REPEAT_COUNT
  {
    seq(REPEAT_COUNT, i => i + currentYear - REPEAT_COUNT / 2)
  }

  /**
   * The window holds 200 consecutive years, ascending, with the current year at index 100 and
   * the window's ends 100 years before and 99 years after it.
   */
  lemma YearsWindow(currentYear: int)
    ensures forall i :: 0 <= i < |Years(currentYear)| ==> Years(currentYear)[i] == currentYear - 100 + i
    ensures Years(currentYear)[100] == currentYear
    ensures Years(currentYear)[0] == currentYear - 100 && Years(currentYear)[199] == currentYear + 99
    ensures forall i, j :: 0 <= i < j < |Years(currentYear)| ==> Years(currentYear)[i] < Years(currentYear)[j]
  {
  }

  /** Kotlin's `List.indexOf`: the first index of `x` in `xs`, or -1 when `x` is absent. */
  function IndexOf<T(==)>(xs: seq<T>, x: T): (r: int)
    ensures r == -1 <==> x !in xs
    ensures r != -1 ==> 0 <= r < |xs| && xs[r] == x && x !in xs[..r]
  {
    if |xs| == 0 then -1
    else if xs[0] == x then 0
    else
      var r := IndexOf(xs[1..], x);
      assert xs == [xs[0]] + xs[1..];
      if r == -1 then -1 else (assert xs[..r + 1] == [xs[0]] + xs[1..][..r]; r + 1)
  }

  /** A year of the window sits at its distance from the window's first year. */
  lemma IndexOfYear(currentYear: int, year: int)
    requires currentYear - 100 <= year <= currentYear + 99
    ensures IndexOf(Years(currentYear), year) == year - currentYear + 100
  {
    YearsWindow(currentYear);
    assert Years(currentYear)[year - currentYear + 100] == year;
    var r := IndexOf(Years(currentYear), year);
    assert Years(currentYear)[r] == year;
  }

  /** `getMonthNames`: the locale's twelve month names, repeated for the month wheel. */
  function GetMonthNames(names: seq<string>): seq<string> {
    Repeat(names, REPEAT_COUNT)
  }

  /** The month wheel holds 2400 names and entry `i` is the name of month `i mod 12`. */
  lemma MonthNamesAt(names: seq<string>, i: int)
    requires |names| == 12 && 0 <= i < 2400
    ensures |GetMonthNames(names)| == 2400
    ensures GetMonthNames(names)[i] == names[i % 12]
  {
    RepeatAt(names, REPEAT_COUNT, i);
  }

  /** `getMiddleOfMonth`: the start of the middle copy of the month wheel, a January. */
  function GetMiddleOfMonth(): (r: int)
    ensures r == 1200 && r % 12 == 0
  {
    12 * (REPEAT_COUNT / 2)
  }

  /** The Gregorian leap-year rule. */
  predicate IsLeapYear(year: int) {
    year % 4 == 0 && (year % 100 != 0 || year % 400 == 0)
  }

  /** The number of days of month `month` (0 = January) of `year`. */
  function MonthLength(year: int, month: int): (n: int)
    requires 0 <= month < 12
    ensures 28 <= n <= 31
    ensures month == 1 ==> (n == 29 <==> IsLeapYear(year))
    ensures month != 1 ==> (n == 30 <==> month in {3, 5, 8, 10})
  {
    if month == 1 then (if IsLeapYear(year) then 29 else 28)
    else if month in {3, 5, 8, 10} then 30
    else 31
  }

  /** A month shorter than 31 days is followed, in the same year, by a month of 31 days. */
  lemma ShortMonthThenLong(year: int, month: int)
    requires 0 <= month < 12 && MonthLength(year, month) < 31
    ensures month < 11 && MonthLength(year, month + 1) == 31
  {
  }

  /** The days in the months of `year` before month `month`: the common-year total, plus the leap day from March on. */
  function DaysBeforeMonth(year: int, month: int): (n: int)
    requires 0 <= month <= 12
    ensures 28 * month <= n <= 31 * month
  {
    [0, 31, 59, 90, 120, 151, 181, 212, 243, 273, 304, 334, 365][month]
      + (if month >= 2 && IsLeapYear(year) then 1 else 0)
  }

  /** Each month adds its own length to the days before it. */
  lemma DaysBeforeMonthStep(year: int, month: int)
    requires 0 <= month < 12
    ensures DaysBeforeMonth(year, month + 1) == DaysBeforeMonth(year, month) + MonthLength(year, month)
  {
  }

  /**
   * The days from 1 January of year 0 to 1 January of `year` in the proleptic Gregorian
   * calendar: 365 a year plus one for each leap year in between.
   */
  function DaysBeforeYear(year: int): int {
    365 * year + (year + 3) / 4 - (year + 99) / 100 + (year + 399) / 400
  }

  /** `(x + 1) / k` exceeds `x / k` by one exactly when `k` divides `x + 1`. */
  lemma DivStep(x: int, k: int)
    requires k > 0
    ensures (x + 1) / k - x / k == if (x + 1) % k == 0 then 1 else 0
  {
    Arith.DivModUnique(x, k, x / k, x % k);
    if x % k == k - 1 {
      Arith.DivModUnique(x + 1, k, x / k + 1, 0);
    } else {
      Arith.DivModUnique(x + 1, k, x / k, x % k + 1);
    }
  }

  /** Divisibility by 100 and by 400 each imply divisibility by 4. */
  lemma CenturyFacts(year: int)
    ensures year % 100 == 0 ==> year % 4 == 0
    ensures year % 400 == 0 ==> year % 100 == 0
  {
    if year % 100 == 0 {
      Arith.DivModUnique(year, 4, (year / 100) * 25, 0);
    }
    if year % 400 == 0 {
      Arith.DivModUnique(year, 100, (year / 400) * 4, 0);
    }
  }

  /** A year lasts 366 days when it is a leap year and 365 days otherwise. */
  lemma YearLength(year: int)
    ensures DaysBeforeYear(year + 1) - DaysBeforeYear(year) == if IsLeapYear(year) then 366 else 365
  {
    DivStep(year + 3, 4);
    DivStep(year + 99, 100);
    DivStep(year + 399, 400);
    Arith.ModAddMultiple(year, 1, 4);
    Arith.ModAddMultiple(year, 1, 100);
    Arith.ModAddMultiple(year, 1, 400);
    CenturyFacts(year);
  }

  /** The twelve month lengths add up to the length of the year. */
  lemma MonthsFillYear(year: int)
    ensures DaysBeforeMonth(year, 12) == DaysBeforeYear(year + 1) - DaysBeforeYear(year)
  {
    YearLength(year);
  }

  /** The day of the proleptic Gregorian calendar, counted from 1 January of year 0. */
  function DayNumber(year: int, month: int, day: int): int
    requires 0 <= month <= 11
  {
    DaysBeforeYear(year) + DaysBeforeMonth(year, month) + day - 1
  }

  /**
   * The `Calendar.DAY_OF_WEEK` of the day numbered `n`: 1 January of year 0 was a Saturday (7),
   * and the week repeats every seven days.
   */
  function DayOfWeek(n: int): (w: int)
    ensures 1 <= w <= 7
  {
    (n + 6) % 7 + 1
  }

  /** `k` days later, the week has moved on by `k mod 7` days. */
  lemma DayOfWeekAdvance(n: int, k: int)
    ensures DayOfWeek(n + k) == (DayOfWeek(n) - 1 + k) % 7 + 1
  {
    var r := (n + 6) % 7;
    assert n + 6 == ((n + 6) / 7) * 7 + r;
    assert n + k + 6 == (r + k) + ((n + 6) / 7) * 7;
    Arith.ModAddMultiple(r + k, (n + 6) / 7, 7);
  }

  /** `getFirstDayOfMonth`: the weekday of day 1 of `month` in `year`. */
  function FirstDayOfMonth(month: int, year: int): Day
    requires 0 <= month <= 11
  {
    Get(DayOfWeek(DayNumber(year, month, 1)))
  }

  /** The number of the weekday of day 1 is the day of the week of its day number. */
  lemma FirstDayNumber(month: int, year: int)
    requires 0 <= month <= 11
    ensures FirstDayOfMonth(month, year).Number() == DayOfWeek(DayNumber(year, month, 1))
  {
    NumberGet(DayOfWeek(DayNumber(year, month, 1)));
  }

  /**
   * The count agrees with the calendar on known dates: 1 January 2000 was a Saturday,
   * 1 January 1970 a Thursday, and 15 October 1582, the first Gregorian day, a Friday.
   */
  lemma CalendarAnchors()
    ensures FirstDayOfMonth(0, 2000) == SATURDAY
    ensures FirstDayOfMonth(0, 1970) == THURSDAY
    ensures DayOfWeek(DayNumber(1582, 9, 15)) == FRIDAY.Number()
  {
    assert DaysBeforeYear(2000) == 730485;
    assert DayOfWeek(730485) == 7;
    assert DaysBeforeYear(1970) == 719528;
    assert DayOfWeek(719528) == 5;
    assert DaysBeforeYear(1582) == 577814;
    assert DaysBeforeMonth(1582, 9) == 273;
    assert DayOfWeek(578101) == 6;
  }

  /**
   * A month starts on the weekday after the days of the month before it: within the year, and
   * from December into January of the next year.
   */
  lemma FirstDayRecurrence(month: int, year: int)
    requires 0 <= month <= 11
    ensures month < 11 ==> (FirstDayOfMonth(month + 1, year).Number() ==
      (FirstDayOfMonth(month, year).Number() - 1 + MonthLength(year, month)) % 7 + 1)
    ensures month == 11 ==> (FirstDayOfMonth(0, year + 1).Number() ==
      (FirstDayOfMonth(11, year).Number() - 1 + MonthLength(year, 11)) % 7 + 1)
  {
    FirstDayNumber(month, year);
    var n := DayNumber(year, month, 1);
    if month < 11 {
      FirstDayNumber(month + 1, year);
      DaysBeforeMonthStep(year, month);
      assert DayNumber(year, month + 1, 1) == n + MonthLength(year, month);
      DayOfWeekAdvance(n, MonthLength(year, month));
    } else {
      FirstDayNumber(0, year + 1);
      MonthsFillYear(year);
      DaysBeforeMonthStep(year, 11);
      assert DayNumber(year + 1, 0, 1) == n + MonthLength(year, 11);
      DayOfWeekAdvance(n, MonthLength(year, 11));
    }
  }

  /** `Month`: a month of a given year with its name, length, first weekday and number (0..11). */
  datatype Month = Month(name: string, numberOfDays: int, firstDayOfMonth: Day, number: int)

  /** The month `month` of `year` as `getMonths` builds it. */
  function MonthOf(year: int, month: int, names: seq<string>): Month
    requires 0 <= month < 12 && |names| == 12
  {
    Month(names[month], MonthLength(year, month), FirstDayOfMonth(month, year), month)
  }

  /** `getMonths`: the twelve months of `year`, named after the locale's month names. */
  function GetMonths(year: int, names: seq<string>): (months: seq<Month>)
    requires |names| == 12
    ensures |months| == 12
  {
    seq(12, m requires 0 <= m < 12 => MonthOf(year, m, names))
  }

  /**
   * The months of a year come in calendar order: month `m` has number `m`, the locale's `m`-th
   * name, its length in that year, and the weekday of its day 1.
   */
  lemma MonthsTable(year: int, names: seq<string>, m: int)
    requires |names| == 12 && 0 <= m < 12
    ensures var month := GetMonths(year, names)[m];
      && month.number == m && month.name == names[m]
      && month.numberOfDays == MonthLength(year, m)
      && month.firstDayOfMonth.Number() == DayOfWeek(DayNumber(year, m, 1))
  {
    FirstDayNumber(m, year);
  }
}
