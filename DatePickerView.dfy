/**
 * The integer formulas of the date picker's composables: the day grid of the month shown, the
 * centre-focused month and year wheels, the day highlight, which days can be clicked, and the
 * first and last day reported when the month page changes.
 */
module DatePickerView {
  import opened Wrappers
  import opened Days
  import opened DateConstant
  import opened DatePickerDate
  import opened SelectionLimiter
  import opened DatePickerUiState
  import DateViewModel

  // The day grid, seven columns under the Sunday-first header.

  /** The cells of the grid: a blank cell for each weekday before day 1, then one per day. */
  function CellCount(m: Month): int {
    m.numberOfDays + m.firstDayOfMonth.Number() - 1
  }

  /** The leading cells that stay empty. */
  predicate IsBlankCell(m: Month, cell: int) {
    cell < m.firstDayOfMonth.Number() - 1
  }

  /** The day a cell shows. */
  function DayOfCell(m: Month, cell: int): int {
    cell - m.firstDayOfMonth.Number() + 2
  }

  /** The cell that shows day `day`. */
  function CellOfDay(m: Month, day: int): int {
    day + m.firstDayOfMonth.Number() - 2
  }

  /** Fewer than seven cells are blank, so day 1 falls in the first row. */
  lemma BlankCellsInFirstRow(m: Month, cell: int)
    ensures IsBlankCell(m, cell) ==> cell < 6
    ensures 0 <= CellOfDay(m, 1) < 7
  {
  }

  /**
   * Every cell that is not blank shows a day of the month, and every day of the month is shown by
   * exactly one cell, the one `CellOfDay` names.
   */
  lemma GridShowsEachDayOnce(m: Month, cell: int, day: int)
    requires m.numberOfDays >= 1
    ensures 0 <= cell < CellCount(m) && !IsBlankCell(m, cell) ==> 1 <= DayOfCell(m, cell) <= m.numberOfDays
    ensures 1 <= day <= m.numberOfDays ==>
      && 0 <= CellOfDay(m, day) < CellCount(m) && !IsBlankCell(m, CellOfDay(m, day))
      && DayOfCell(m, CellOfDay(m, day)) == day
    ensures 0 <= cell < CellCount(m) && !IsBlankCell(m, cell) ==> (DayOfCell(m, cell) == day <==> cell == CellOfDay(m, day))
  {
  }

  /** The days the grid shows. */
  function ShownDays(m: Month): set<int> {
    set cell | 0 <= cell < CellCount(m) && !IsBlankCell(m, cell) :: DayOfCell(m, cell)
  }

  /** The grid shows exactly the days 1 to the month's length. */
  lemma ShownDaysAreTheMonth(m: Month)
    requires m.numberOfDays >= 1
    ensures forall day :: day in ShownDays(m) <==> 1 <= day <= m.numberOfDays
  {
    forall day | 1 <= day <= m.numberOfDays
      ensures day in ShownDays(m)
    {
      GridShowsEachDayOnce(m, CellOfDay(m, day), day);
    }
    forall day | day in ShownDays(m)
      ensures 1 <= day <= m.numberOfDays
    {
      var cell :| 0 <= cell < CellCount(m) && !IsBlankCell(m, cell) && DayOfCell(m, cell) == day;
      GridShowsEachDayOnce(m, cell, day);
    }
  }

  /** The cells of the first column, under Sunday, take the Sunday colour. */
  predicate IsSundayColumn(cell: int)
    requires cell >= 0
  {
    cell % 7 == 0
  }

  /**
   * For a month of the calendar table, every day stands under the header of its own weekday: the
   * weekday of the day a cell shows is the header entry of its column. In particular the Sunday
   * colour falls on Sundays exactly.
   */
  lemma CellWeekday(year: int, names: seq<string>, month: int, cell: int)
    requires |names| == 12 && 0 <= month < 12
    requires var m := GetMonths(year, names)[month]; 0 <= cell < CellCount(m) && !IsBlankCell(m, cell)
    ensures var m := GetMonths(year, names)[month];
      && 1 <= DayOfCell(m, cell) <= MonthLength(year, month)
      && DayOfWeek(DayNumber(year, month, DayOfCell(m, cell))) == WeekHeader()[cell % 7].Number()
      && (IsSundayColumn(cell) <==> DayOfWeek(DayNumber(year, month, DayOfCell(m, cell))) == SUNDAY.Number())
  {
    var m := GetMonths(year, names)[month];
    MonthsTable(year, names, month);
    var first := DayNumber(year, month, 1);
    var day := DayOfCell(m, cell);
    assert DayNumber(year, month, day) == first + (day - 1);
    DayOfWeekAdvance(first, day - 1);
    assert DayOfWeek(first) - 1 + day - 1 == cell;
  }

  // The highlight and the clickable days.

  /**
   * `DateViewBodyItem`'s highlight as written: the day and the month record match the selected
   * ones, and the year shown matches `currentYear`.
   */
  predicate IsSelectedCellAsWritten(selectedDay: int, selectedMonth: Month, visibleMonth: Month,
                                    selectedYear: int, currentYear: int, day: int) {
    selectedDay == day && selectedMonth == visibleMonth && selectedYear == currentYear
  }

  /** The highlight at its call site, which passes the year shown both as `selectedYear` and as `currentYear`. */
  predicate IsHighlighted(s: DatePickerUiState, day: int) {
    IsSelectedCellAsWritten(s.selectedDayOfMonth, s.selectedMonth, s.currentVisibleMonth,
      s.selectedYear, s.selectedYear, day)
  }

  /** At the call site the year plays no part: the highlight depends on the day and the month record only. */
  lemma HighlightIgnoresYear(s: DatePickerUiState, day: int)
    ensures IsHighlighted(s, day) <==> day == s.selectedDayOfMonth && s.selectedMonth == s.currentVisibleMonth
  {
  }

  /**
   * March 2024 and March 2030 have the same name, length and first weekday: with 5 March 2024
   * selected, the grid of March 2030 highlights its 5th.
   */
  lemma HighlightInAnotherYear(names: seq<string>)
    requires |names| == 12
    ensures GetMonths(2024, names)[2] == GetMonths(2030, names)[2]
    ensures var s := DatePickerUiState(names, 2030, 0, GetMonths(2024, names)[2], 0,
                                       GetMonths(2030, names)[2], 5, [], [], false);
      IsHighlighted(s, 5)
  {
    MarchFirstsAgree();
    assert GetMonths(2024, names)[2] == MonthOf(2024, 2, names);
    assert GetMonths(2030, names)[2] == MonthOf(2030, 2, names);
  }

  /** 1 March 2024 and 1 March 2030 are both Fridays, and both Marches have 31 days. */
  lemma MarchFirstsAgree()
    ensures FirstDayOfMonth(2, 2024) == FirstDayOfMonth(2, 2030)
    ensures MonthLength(2024, 2) == MonthLength(2030, 2) == 31
  {
    assert DaysBeforeYear(2024) == 739251;
    assert DayNumber(2024, 2, 1) == 739311;
    assert DayOfWeek(739311) == 6;
    assert DaysBeforeYear(2030) == 741443;
    assert DayNumber(2030, 2, 1) == 741502;
    assert DayOfWeek(741502) == 6;
  }

  /** The highlight as intended: the cell's full date is the selected date. */
  predicate IsSelectedCell(selection: DatePickerDate, shownYear: int, visibleMonth: Month, day: int) {
    selection.day == day && selection.month == visibleMonth.number && selection.year == shownYear
  }

  /** As intended, a cell is highlighted exactly when it shows the selected date, so in one year only. */
  lemma SelectedCellIsTheSelection(selection: DatePickerDate, shownYear: int, visibleMonth: Month, day: int)
    ensures IsSelectedCell(selection, shownYear, visibleMonth, day) <==>
      DatePickerDate(shownYear, visibleMonth.number, day) == selection
    ensures shownYear != selection.year ==> !IsSelectedCell(selection, shownYear, visibleMonth, day)
  {
  }

  /**
   * `DatePicker` calls `setLocale` in its body, so on every recomposition, and that rebuilds the
   * selected month for the year shown. After it the highlight checks only the day and the month
   * number: the selected day is highlighted in that month of every year, whatever its length and
   * first weekday.
   */
  lemma LocaleHighlightsEveryYear(s: DatePickerUiState, currentYear: int, names: seq<string>, day: int)
    requires ValidState(s, currentYear) && |names| == 12
    ensures IsHighlighted(DateViewModel.WithLocale(s, names), day) <==>
      day == s.selectedDayOfMonth && s.selectedMonth.number == s.currentVisibleMonth.number
  {
    MonthsTable(s.selectedYear, names, s.selectedMonth.number);
    MonthsTable(s.selectedYear, names, s.currentVisibleMonth.number);
  }

  /** A day can be clicked when the limiter accepts it in the year and month shown. */
  predicate IsClickable(l: SelectionLimiter, s: DatePickerUiState, day: int) {
    IsWithinRange(l, DatePickerDate(s.selectedYear, s.currentVisibleMonth.number, day))
  }

  /**
   * Without a limiter every day is clickable; with only a first date, exactly the days from it on;
   * with only a last date, exactly the days up to it. In a valid state, each day of the grid is a
   * valid date of the month shown.
   */
  lemma ClickableDays(s: DatePickerUiState, currentYear: int, from: DatePickerDate, to: DatePickerDate, day: int)
    requires ValidState(s, currentYear) && 1 <= day <= s.currentVisibleMonth.numberOfDays
    ensures IsClickable(Unlimited(), s, day)
    ensures IsClickable(SelectionLimiter(Some(from), None), s, day) <==>
      !Before(DatePickerDate(s.selectedYear, s.currentVisibleMonth.number, day), from)
    ensures IsClickable(SelectionLimiter(None, Some(to)), s, day) <==>
      !Before(to, DatePickerDate(s.selectedYear, s.currentVisibleMonth.number, day))
    ensures IsValid(DatePickerDate(s.selectedYear, s.currentVisibleMonth.number, day))
  {
    var date := DatePickerDate(s.selectedYear, s.currentVisibleMonth.number, day);
    FromOnly(from, date);
    ToOnly(to, date);
    MonthsTable(s.selectedYear, s.monthNames, s.currentVisibleMonth.number);
  }

  // The month page callback.

  /** The first and the last day of the month shown, as `onMonthPageChange` reports them. */
  function MonthPage(s: DatePickerUiState): (DatePickerDate, DatePickerDate) {
    (DatePickerDate(s.selectedYear, s.currentVisibleMonth.number, 1),
     DatePickerDate(s.selectedYear, s.currentVisibleMonth.number, s.currentVisibleMonth.numberOfDays))
  }

  /**
   * Both reported days are valid dates, and the valid dates a limiter between them accepts are
   * exactly the days of the month shown.
   */
  lemma MonthPageBounds(s: DatePickerUiState, currentYear: int, d: DatePickerDate)
    requires ValidState(s, currentYear) && IsValid(d)
    ensures IsValid(MonthPage(s).0) && IsValid(MonthPage(s).1)
    ensures IsWithinRange(SelectionLimiter(Some(MonthPage(s).0), Some(MonthPage(s).1)), d) <==>
      d.year == s.selectedYear && d.month == s.currentVisibleMonth.number
  {
    MonthsTable(s.selectedYear, s.monthNames, s.currentVisibleMonth.number);
  }

  // The centre-focused month and year wheels.

  /** Kotlin's `/` by 2 on an `Int`, which truncates towards zero. */
  function Gap(rows: int): int {
    if rows >= 0 then rows / 2 else -((-rows) / 2)
  }

  /** The rows of a wheel: the items, with blank rows before and after them for centring. */
  function RowCount(size: int, rows: int): int {
    size + rows - 1
  }

  /** A row shows an item when it is past the leading blank rows and before the trailing ones. */
  predicate ShowsItem(value: int, size: int, rows: int) {
    Gap(rows) <= value < size + Gap(rows)
  }

  /** The item a row shows, and the index a click on it reports. */
  function RowItem(value: int, rows: int): int {
    value - Gap(rows)
  }

  /** The row drawn as selected. */
  predicate IsSelectedRow(value: int, selectedIndex: int, rows: int) {
    value == selectedIndex + Gap(rows)
  }

  /**
   * On a wheel of at least one row, each item is shown by exactly one row of the list, a row that
   * shows an item reports an index of the list when clicked, and the selected row shows the
   * selected item.
   */
  lemma WheelRows(size: int, rows: int, value: int, index: int)
    requires rows >= 1
    ensures ShowsItem(value, size, rows) ==> 0 <= value < RowCount(size, rows) && 0 <= RowItem(value, rows) < size
    ensures 0 <= index < size ==>
      && ShowsItem(index + Gap(rows), size, rows) && 0 <= index + Gap(rows) < RowCount(size, rows)
      && RowItem(index + Gap(rows), rows) == index
    ensures ShowsItem(value, size, rows) ==> (RowItem(value, rows) == index <==> value == index + Gap(rows))
    ensures 0 <= index < size && IsSelectedRow(value, index, rows) ==> ShowsItem(value, size, rows) && RowItem(value, rows) == index
  {
  }
}
