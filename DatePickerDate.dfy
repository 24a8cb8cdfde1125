/**
 * A calendar date as the date picker passes it around: a year, a month 0..11 and a day of the
 * month. Dates compare in calendar order, which on valid dates is the order of their day numbers.
 */
module DatePickerDate {
  import opened DateConstant

  datatype DatePickerDate = DatePickerDate(year: int, month: int, day: int)

  /** A date a calendar has: month 0..11 and day 1..the month's length. */
  predicate IsValid(d: DatePickerDate) {
    0 <= d.month <= 11 && 1 <= d.day <= MonthLength(d.year, d.month)
  }

  /** `a` comes before `b`: compared on year, then month, then day. */
  predicate Before(a: DatePickerDate, b: DatePickerDate) {
    a.year < b.year || (a.year == b.year && (a.month < b.month || (a.month == b.month && a.day < b.day)))
  }

  /** Exactly one of "before", "equal" and "after" holds for two dates. */
  lemma Trichotomy(a: DatePickerDate, b: DatePickerDate)
    ensures Before(a, b) || a == b || Before(b, a)
    ensures !(Before(a, b) && Before(b, a)) && !Before(a, a)
  {
  }

  lemma BeforeTransitive(a: DatePickerDate, b: DatePickerDate, c: DatePickerDate)
    requires Before(a, b) && Before(b, c)
    ensures Before(a, c)
  {
  }

  /** A later year starts no earlier. */
  lemma {:induction false} DaysBeforeYearMonotone(y1: int, y2: int)
    requires y1 <= y2
    ensures DaysBeforeYear(y1) + 365 * (y2 - y1) <= DaysBeforeYear(y2)
    decreases y2 - y1
  {
    if y1 < y2 {
      DaysBeforeYearMonotone(y1, y2 - 1);
      YearLength(y2 - 1);
    }
  }

  /** A later month of the same year starts no earlier. */
  lemma {:induction false} DaysBeforeMonthMonotone(year: int, m1: int, m2: int)
    requires 0 <= m1 <= m2 <= 12
    ensures DaysBeforeMonth(year, m1) + 28 * (m2 - m1) <= DaysBeforeMonth(year, m2)
    decreases m2 - m1
  {
    if m1 < m2 {
      DaysBeforeMonthMonotone(year, m1, m2 - 1);
      DaysBeforeMonthStep(year, m2 - 1);
    }
  }

  /** The day number of a valid date lies in its month and in its year. */
  lemma DayNumberBounds(d: DatePickerDate)
    requires IsValid(d)
    ensures DaysBeforeYear(d.year) + DaysBeforeMonth(d.year, d.month) <= DayNumber(d.year, d.month, d.day)
    ensures DayNumber(d.year, d.month, d.day) < DaysBeforeYear(d.year) + DaysBeforeMonth(d.year, d.month + 1)
    ensures DayNumber(d.year, d.month, d.day) < DaysBeforeYear(d.year + 1)
  {
    DaysBeforeMonthMonotone(d.year, d.month + 1, 12);
    MonthsFillYear(d.year);
    WithinYear(DaysBeforeYear(d.year), DaysBeforeMonth(d.year, d.month + 1),
      DaysBeforeMonth(d.year, 12), DaysBeforeYear(d.year + 1));
  }

  lemma WithinYear(start: int, beforeNext: int, inYear: int, nextYear: int)
    requires beforeNext <= inYear && inYear == nextYear - start
    ensures start + beforeNext <= nextYear
  {
  }

  /** A valid date of an earlier year has a smaller day number. */
  lemma EarlierYear(a: DatePickerDate, b: DatePickerDate)
    requires IsValid(a) && IsValid(b) && a.year < b.year
    ensures DayNumber(a.year, a.month, a.day) < DayNumber(b.year, b.month, b.day)
  {
    DayNumberBounds(a);
    DaysBeforeYearMonotone(a.year + 1, b.year);
  }

  /** A valid date of an earlier month of the same year has a smaller day number. */
  lemma EarlierMonth(a: DatePickerDate, b: DatePickerDate)
    requires IsValid(a) && IsValid(b) && a.year == b.year && a.month < b.month
    ensures DayNumber(a.year, a.month, a.day) < DayNumber(b.year, b.month, b.day)
  {
    DayNumberBounds(a);
    DaysBeforeMonthMonotone(a.year, a.month + 1, b.month);
  }

  /** A valid date before another has a smaller day number. */
  lemma BeforeSmaller(a: DatePickerDate, b: DatePickerDate)
    requires IsValid(a) && IsValid(b) && Before(a, b)
    ensures DayNumber(a.year, a.month, a.day) < DayNumber(b.year, b.month, b.day)
  {
    if a.year < b.year {
      EarlierYear(a, b);
    } else if a.month < b.month {
      EarlierMonth(a, b);
    }
  }

  /** On valid dates, calendar order is the order of the day numbers. */
  lemma BeforeIsDayOrder(a: DatePickerDate, b: DatePickerDate)
    requires IsValid(a) && IsValid(b)
    ensures Before(a, b) <==> DayNumber(a.year, a.month, a.day) < DayNumber(b.year, b.month, b.day)
    ensures a == b <==> DayNumber(a.year, a.month, a.day) == DayNumber(b.year, b.month, b.day)
  {
    Trichotomy(a, b);
    if Before(a, b) {
      BeforeSmaller(a, b);
    } else if Before(b, a) {
      BeforeSmaller(b, a);
    }
  }
}
