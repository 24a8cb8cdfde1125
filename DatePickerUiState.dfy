/**
 * The state behind the date picker: the month and year shown, the selected day and month, the
 * positions of the month and year wheels, and whether the month/year wheels are open.
 */
module DatePickerUiState {
  import opened Decimal
  import opened DateConstant
  import opened DatePickerDate

  /**
   * `monthNames` stands for the locale: its twelve month names. `selectedYear` is the year shown,
   * `currentVisibleMonth` the month shown, `selectedMonth` the month of the selected day.
   */
  datatype DatePickerUiState = DatePickerUiState(
    monthNames: seq<string>,
    selectedYear: int,
    selectedYearIndex: int,
    selectedMonth: Month,
    selectedMonthIndex: int,
    currentVisibleMonth: Month,
    selectedDayOfMonth: int,
    years: seq<string>,
    months: seq<string>,
    isMonthYearViewVisible: bool)

  /** The year wheel: each year of the window written as a decimal. */
  function YearLabels(currentYear: int): (labels: seq<string>)
    ensures |labels| == REPEAT_COUNT
  {
    seq(REPEAT_COUNT, i requires 0 <= i < REPEAT_COUNT => IntToString(Years(currentYear)[i]))
  }

  /** Each year label reads back as its year. */
  lemma YearLabelReads(currentYear: int, i: int)
    requires 0 <= i < REPEAT_COUNT
    ensures IsDecimal(YearLabels(currentYear)[i])
    ensures ParseInt(YearLabels(currentYear)[i]) == currentYear - 100 + i
  {
    YearsWindow(currentYear);
    ParseIntToString(Years(currentYear)[i]);
  }

  /**
   * The invariants every transition keeps: the wheels hold the window's years and the locale's
   * month names, the year index points at the year shown, the month shown is that year's month
   * of its number, and the month wheel index is at a copy of the month shown.
   */
  predicate ValidState(s: DatePickerUiState, currentYear: int) {
    && |s.monthNames| == 12
    && s.years == YearLabels(currentYear)
    && s.months == GetMonthNames(s.monthNames)
    && 0 <= s.selectedYearIndex < REPEAT_COUNT
    && Years(currentYear)[s.selectedYearIndex] == s.selectedYear
    && 0 <= s.currentVisibleMonth.number < 12
    && s.currentVisibleMonth == GetMonths(s.selectedYear, s.monthNames)[s.currentVisibleMonth.number]
    && s.selectedMonthIndex >= 0
    && s.selectedMonthIndex % 12 == s.currentVisibleMonth.number
    && 0 <= s.selectedMonth.number < 12
  }

  /**
   * The initial state, `today` being the clock's date: this year, the middle of the year wheel,
   * this month at the middle copy of the month wheel, shown and selected, today's day, and the
   * month/year wheels closed.
   */
  function DefaultState(today: DatePickerDate, names: seq<string>): (s: DatePickerUiState)
    requires 0 <= today.month <= 11 && |names| == 12
    ensures ValidState(s, today.year)
  {
    YearsWindow(today.year);
    MonthsTable(today.year, names, today.month);
    var month := GetMonths(today.year, names)[today.month];
    DatePickerUiState(
      names,
      today.year, REPEAT_COUNT / 2,
      month, GetMiddleOfMonth() + month.number,
      month,
      today.day,
      YearLabels(today.year),
      GetMonthNames(names),
      false)
  }

  /** What the initial state shows and selects. */
  lemma DefaultStateShows(today: DatePickerDate, names: seq<string>)
    requires 0 <= today.month <= 11 && |names| == 12
    ensures var s := DefaultState(today, names);
      && s.selectedYearIndex == 100 && s.years[s.selectedYearIndex] == IntToString(today.year)
      && s.selectedMonthIndex == 1200 + today.month
      && s.selectedMonth.number == today.month && s.currentVisibleMonth == s.selectedMonth
      && s.selectedMonth.numberOfDays == MonthLength(today.year, today.month)
      && s.selectedDayOfMonth == today.day
      && !s.isMonthYearViewVisible
      && |s.months| == 2400
  {
    YearsWindow(today.year);
    MonthsTable(today.year, names, today.month);
    MonthNamesAt(names, 0);
  }
}
