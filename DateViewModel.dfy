/**
 * The transitions of the date picker: each one as a function on the state, with the lemmas that
 * say what it does and which invariants it keeps, and the view model class whose methods update
 * the state (and the cached months of the year shown) the way the functions say.
 */
module DateViewModel {
  import opened Wrappers
  import opened Decimal
  import KotlinInt
  import Arith
  import opened DateConstant
  import opened DatePickerDate
  import opened DatePickerUiState

  /** Why `setDate` refuses a date. */
  datatype DateError = InvalidYear | InvalidMonth | InvalidDay

  /** `getAdjustedSelectedMonthIndex`: the month wheel index moved to the middle copy. */
  function AdjustedSelectedMonthIndex(index: int): int {
    GetMiddleOfMonth() + KotlinInt.Rem(index, 12)
  }

  /**
   * The adjusted index shows the same month, lies in the middle copy for any index from -1 on,
   * and adjusting it again changes nothing.
   */
  lemma AdjustedIndexProperties(index: int)
    ensures AdjustedSelectedMonthIndex(index) % 12 == index % 12
    ensures index >= 0 ==> 1200 <= AdjustedSelectedMonthIndex(index) <= 1211
    ensures index == -1 ==> AdjustedSelectedMonthIndex(index) == 1199
    ensures index >= 0 ==> AdjustedSelectedMonthIndex(AdjustedSelectedMonthIndex(index)) == AdjustedSelectedMonthIndex(index)
  {
    KotlinInt.RemCongruent(index, 12, 1200);
    Arith.ModAddMultiple(index, 100, 12);
    var r := AdjustedSelectedMonthIndex(index);
    if index >= 0 {
      KotlinInt.RemCongruent(r, 12, 1200);
      Arith.ModAddMultiple(r, 100, 12);
    }
  }

  /** `setLocale`: the month names of another locale, everything else kept. */
  function WithLocale(s: DatePickerUiState, names: seq<string>): DatePickerUiState
    requires |names| == 12 && 0 <= s.currentVisibleMonth.number < 12 && 0 <= s.selectedMonth.number < 12
  {
    s.(monthNames := names,
       months := GetMonthNames(names),
       currentVisibleMonth := GetMonths(s.selectedYear, names)[s.currentVisibleMonth.number],
       selectedMonth := GetMonths(s.selectedYear, names)[s.selectedMonth.number])
  }

  /**
   * A change of locale keeps the state valid and every index. The month shown keeps its number,
   * length and first weekday and takes its new name. The selected month keeps its number but is
   * rebuilt for the year shown, so its length and first weekday become those of that year.
   */
  lemma LocaleKeepsSelection(s: DatePickerUiState, currentYear: int, names: seq<string>)
    requires ValidState(s, currentYear) && |names| == 12
    ensures var r := WithLocale(s, names);
      && ValidState(r, currentYear)
      && r.selectedYearIndex == s.selectedYearIndex && r.selectedYear == s.selectedYear
      && r.selectedMonthIndex == s.selectedMonthIndex && r.selectedDayOfMonth == s.selectedDayOfMonth
      && r.currentVisibleMonth.number == s.currentVisibleMonth.number
      && r.currentVisibleMonth.numberOfDays == s.currentVisibleMonth.numberOfDays
      && r.currentVisibleMonth.firstDayOfMonth == s.currentVisibleMonth.firstDayOfMonth
      && r.currentVisibleMonth.name == names[s.currentVisibleMonth.number]
      && r.selectedMonth.number == s.selectedMonth.number
      && r.selectedMonth.name == names[s.selectedMonth.number]
      && r.selectedMonth.numberOfDays == MonthLength(s.selectedYear, s.selectedMonth.number)
      && r.selectedMonth.firstDayOfMonth == FirstDayOfMonth(s.selectedMonth.number, s.selectedYear)
  {
    MonthsTable(s.selectedYear, names, s.currentVisibleMonth.number);
    MonthsTable(s.selectedYear, s.monthNames, s.currentVisibleMonth.number);
    MonthsTable(s.selectedYear, names, s.selectedMonth.number);
  }

  /** `updateCurrentVisibleMonth`: show month `month` of the year shown, at the middle copy. */
  function WithVisibleMonth(s: DatePickerUiState, month: int): DatePickerUiState
    requires |s.monthNames| == 12 && 0 <= month < 12
  {
    s.(currentVisibleMonth := GetMonths(s.selectedYear, s.monthNames)[month],
       selectedMonthIndex := AdjustedSelectedMonthIndex(month))
  }

  lemma VisibleMonthShows(s: DatePickerUiState, currentYear: int, month: int)
    requires ValidState(s, currentYear) && 0 <= month < 12
    ensures var r := WithVisibleMonth(s, month);
      && ValidState(r, currentYear)
      && r.currentVisibleMonth.number == month
      && r.selectedMonthIndex == 1200 + month
  {
    MonthsTable(s.selectedYear, s.monthNames, month);
    AdjustedIndexProperties(month);
  }

  /** `updateSelectedMonthIndex`: the month wheel moved to `index`; show that month. */
  function WithMonthIndex(s: DatePickerUiState, index: int): DatePickerUiState
    requires |s.monthNames| == 12 && index >= 0
  {
    s.(selectedMonthIndex := index,
       currentVisibleMonth := GetMonths(s.selectedYear, s.monthNames)[index % 12])
  }

  lemma MonthIndexShows(s: DatePickerUiState, currentYear: int, index: int)
    requires ValidState(s, currentYear) && index >= 0
    ensures var r := WithMonthIndex(s, index);
      && ValidState(r, currentYear)
      && r.selectedMonthIndex == index
      && r.currentVisibleMonth.number == index % 12
      && r.selectedYear == s.selectedYear
  {
    MonthsTable(s.selectedYear, s.monthNames, index % 12);
  }

  /** `updateSelectedDayAndMonth`: select day `day` of the month shown. */
  function WithSelectedDay(s: DatePickerUiState, day: int): DatePickerUiState {
    s.(selectedDayOfMonth := day, selectedMonth := s.currentVisibleMonth)
  }

  /** Selecting a day checks nothing against the month or any limiter, and keeps the state valid. */
  lemma SelectedDayKeeps(s: DatePickerUiState, currentYear: int, day: int)
    requires ValidState(s, currentYear)
    ensures var r := WithSelectedDay(s, day);
      && ValidState(r, currentYear)
      && r.selectedDayOfMonth == day && r.selectedMonth == s.currentVisibleMonth
      && r.(selectedDayOfMonth := s.selectedDayOfMonth, selectedMonth := s.selectedMonth) == s
  {
  }

  /** What the month steps need of a state: twelve month names and a month shown numbered 0..11. */
  predicate Shaped(s: DatePickerUiState) {
    |s.monthNames| == 12 && 0 <= s.currentVisibleMonth.number < 12
  }

  /** `moveToNextMonth`: the next month, into January of the next year, or nothing at the window's end. */
  function NextMonth(s: DatePickerUiState): (r: DatePickerUiState)
    requires Shaped(s)
    ensures Shaped(r)
  {
    var names := s.monthNames;
    if s.currentVisibleMonth.number == 11 then
      if s.selectedYearIndex + 1 == REPEAT_COUNT then s
      else
        var year := s.selectedYear + 1;
        s.(selectedYear := year,
           selectedYearIndex := s.selectedYearIndex + 1,
           selectedMonthIndex := AdjustedSelectedMonthIndex(s.selectedMonthIndex + 1),
           currentVisibleMonth := GetMonths(year, names)[0])
    else
      s.(currentVisibleMonth := GetMonths(s.selectedYear, names)[s.currentVisibleMonth.number + 1],
         selectedMonthIndex := AdjustedSelectedMonthIndex(s.selectedMonthIndex + 1))
  }

  /** One month on in the wheel is one month on in the year, December going to January. */
  lemma StepMonth(index: int, month: int)
    requires 0 <= month < 12 && index % 12 == month
    ensures (index + 1) % 12 == if month == 11 then 0 else month + 1
    ensures (index - 1) % 12 == if month == 0 then 11 else month - 1
  {
    Arith.DivModUnique(index, 12, index / 12, month);
    Arith.DivModUnique(index + 1, 12, index / 12 + (if month == 11 then 1 else 0), if month == 11 then 0 else month + 1);
    Arith.DivModUnique(index - 1, 12, index / 12 - (if month == 0 then 1 else 0), if month == 0 then 11 else month - 1);
  }

  /**
   * In December of the window's last year nothing changes; in any other December the picker
   * shows January of the next year; in any other month it shows the next month of the same year.
   * The selected day and month stay as they are.
   */
  lemma NextMonthSteps(s: DatePickerUiState)
    requires Shaped(s)
    ensures var r := NextMonth(s);
      var m := s.currentVisibleMonth.number;
      && (m == 11 && s.selectedYearIndex == 199 ==> r == s)
      && (m == 11 && s.selectedYearIndex != 199 ==>
            r.currentVisibleMonth.number == 0 && r.selectedYear == s.selectedYear + 1
            && r.selectedYearIndex == s.selectedYearIndex + 1)
      && (m < 11 ==>
            r.currentVisibleMonth.number == m + 1 && r.selectedYear == s.selectedYear
            && r.selectedYearIndex == s.selectedYearIndex)
      && r.selectedDayOfMonth == s.selectedDayOfMonth && r.selectedMonth == s.selectedMonth
  {
    var m := s.currentVisibleMonth.number;
    if m == 11 && s.selectedYearIndex != 199 {
    } else if m < 11 {
    }
  }

  /** One month on and back in the wheel is one month on and back in the month shown. */
  lemma StepIndex(index: int, month: int, delta: int, next: int)
    requires 0 <= month < 12 && index >= 0 && index % 12 == month && (delta == 1 || delta == -1)
    requires next == (if delta == 1 then (if month == 11 then 0 else month + 1) else (if month == 0 then 11 else month - 1))
    ensures AdjustedSelectedMonthIndex(index + delta) >= 0
    ensures AdjustedSelectedMonthIndex(index + delta) % 12 == next
    ensures delta == 1 ==> 1200 <= AdjustedSelectedMonthIndex(index + delta) <= 1211
  {
    AdjustedIndexProperties(index + delta);
    StepMonth(index, month);
  }

  /** From December of a year before the window's last, the step into January keeps the state valid. */
  lemma IntoJanuaryValid(s: DatePickerUiState, currentYear: int)
    requires ValidState(s, currentYear) && s.currentVisibleMonth.number == 11 && s.selectedYearIndex != 199
    ensures ValidState(NextMonth(s), currentYear)
    ensures 1200 <= NextMonth(s).selectedMonthIndex <= 1211
  {
    var year := s.selectedYear + 1;
    StepIndex(s.selectedMonthIndex, 11, 1, 0);
  }

  /** Before December, the step to the next month keeps the state valid. */
  lemma NextWithinYearValid(s: DatePickerUiState, currentYear: int)
    requires ValidState(s, currentYear) && s.currentVisibleMonth.number < 11
    ensures ValidState(NextMonth(s), currentYear)
    ensures 1200 <= NextMonth(s).selectedMonthIndex <= 1211
  {
    var m := s.currentVisibleMonth.number;
    StepIndex(s.selectedMonthIndex, m, 1, m + 1);
  }

  /** Going a month forward keeps the state valid and leaves the month wheel in its middle copy. */
  lemma NextMonthKeepsValid(s: DatePickerUiState, currentYear: int)
    requires ValidState(s, currentYear)
    ensures ValidState(NextMonth(s), currentYear)
    ensures NextMonth(s) != s ==> 1200 <= NextMonth(s).selectedMonthIndex <= 1211
  {
    if s.currentVisibleMonth.number < 11 {
      NextWithinYearValid(s, currentYear);
    } else if s.selectedYearIndex != 199 {
      IntoJanuaryValid(s, currentYear);
    }
  }

  /** `moveToPreviousMonth`: the previous month, into December of the year before, or nothing at the window's start. */
  function PreviousMonth(s: DatePickerUiState): (r: DatePickerUiState)
    requires Shaped(s)
    ensures Shaped(r)
  {
    var names := s.monthNames;
    if s.currentVisibleMonth.number == 0 then
      if s.selectedYearIndex - 1 == -1 then s
      else
        var year := s.selectedYear - 1;
        s.(selectedYear := year,
           selectedYearIndex := s.selectedYearIndex - 1,
           selectedMonthIndex := AdjustedSelectedMonthIndex(s.selectedMonthIndex - 1),
           currentVisibleMonth := GetMonths(year, names)[11])
    else
      s.(currentVisibleMonth := GetMonths(s.selectedYear, names)[s.currentVisibleMonth.number - 1],
         selectedMonthIndex := AdjustedSelectedMonthIndex(s.selectedMonthIndex - 1))
  }

  /**
   * In January of the window's first year nothing changes; in any other January the picker shows
   * December of the year before; in any other month it shows the month before in the same year.
   */
  lemma PreviousMonthSteps(s: DatePickerUiState)
    requires Shaped(s)
    ensures var r := PreviousMonth(s);
      var m := s.currentVisibleMonth.number;
      && (m == 0 && s.selectedYearIndex == 0 ==> r == s)
      && (m == 0 && s.selectedYearIndex != 0 ==>
            r.currentVisibleMonth.number == 11 && r.selectedYear == s.selectedYear - 1
            && r.selectedYearIndex == s.selectedYearIndex - 1)
      && (m > 0 ==>
            r.currentVisibleMonth.number == m - 1 && r.selectedYear == s.selectedYear
            && r.selectedYearIndex == s.selectedYearIndex)
      && r.selectedDayOfMonth == s.selectedDayOfMonth && r.selectedMonth == s.selectedMonth
  {
    var m := s.currentVisibleMonth.number;
    if m == 0 && s.selectedYearIndex != 0 {
    } else if m > 0 {
    }
  }

  /** From January of a year after the window's first, the step into December keeps the state valid. */
  lemma IntoDecemberValid(s: DatePickerUiState, currentYear: int)
    requires ValidState(s, currentYear) && s.currentVisibleMonth.number == 0 && s.selectedYearIndex != 0
    ensures ValidState(PreviousMonth(s), currentYear)
  {
    var year := s.selectedYear - 1;
    StepIndex(s.selectedMonthIndex, 0, -1, 11);
  }

  /** After January, the step to the month before keeps the state valid. */
  lemma PreviousWithinYearValid(s: DatePickerUiState, currentYear: int)
    requires ValidState(s, currentYear) && s.currentVisibleMonth.number > 0
    ensures ValidState(PreviousMonth(s), currentYear)
  {
    var m := s.currentVisibleMonth.number;
    StepIndex(s.selectedMonthIndex, m, -1, m - 1);
  }

  /** Going a month back keeps the state valid. */
  lemma PreviousMonthKeepsValid(s: DatePickerUiState, currentYear: int)
    requires ValidState(s, currentYear)
    ensures ValidState(PreviousMonth(s), currentYear)
  {
    if s.currentVisibleMonth.number > 0 {
      PreviousWithinYearValid(s, currentYear);
    } else if s.selectedYearIndex != 0 {
      IntoDecemberValid(s, currentYear);
    }
  }

  /** The month wheel index moved back to the middle copy, as the closing of the month/year wheels schedules it. */
  function Recentred(s: DatePickerUiState): DatePickerUiState {
    s.(selectedMonthIndex := AdjustedSelectedMonthIndex(s.selectedMonthIndex))
  }

  /** Re-centring keeps the state valid, lands in the middle copy and is idempotent. */
  lemma RecentredKeeps(s: DatePickerUiState, currentYear: int)
    requires ValidState(s, currentYear)
    ensures ValidState(Recentred(s), currentYear)
    ensures 1200 <= Recentred(s).selectedMonthIndex <= 1211
    ensures Recentred(Recentred(s)) == Recentred(s)
  {
    AdjustedIndexProperties(s.selectedMonthIndex);
  }

  lemma AdjustedBack(index: int)
    requires index >= 0
    ensures AdjustedSelectedMonthIndex(AdjustedSelectedMonthIndex(index + 1) - 1) == AdjustedSelectedMonthIndex(index)
  {
    StepMonth(index, index % 12);
    StepMonth(AdjustedSelectedMonthIndex(index + 1), (index + 1) % 12);
    AdjustedIndexProperties(index + 1);
  }

  lemma AdjustedForth(index: int)
    requires index >= 0
    ensures AdjustedSelectedMonthIndex(AdjustedSelectedMonthIndex(index - 1) + 1) == AdjustedSelectedMonthIndex(index)
  {
    StepMonth(index, index % 12);
    if index > 0 {
      StepMonth(AdjustedSelectedMonthIndex(index - 1), (index - 1) % 12);
      AdjustedIndexProperties(index - 1);
    }
  }

  /** Going back a month undoes going forward one, up to re-centring the month wheel. */
  lemma PreviousUndoesNext(s: DatePickerUiState, currentYear: int)
    requires ValidState(s, currentYear) && NextMonth(s) != s
    ensures PreviousMonth(NextMonth(s)) == Recentred(s)
  {
    if s.currentVisibleMonth.number < 11 {
      BackWithinYear(s, currentYear);
    } else {
      BackAcrossYear(s, currentYear);
    }
  }

  lemma BackWithinYear(s: DatePickerUiState, currentYear: int)
    requires ValidState(s, currentYear) && s.currentVisibleMonth.number < 11
    ensures PreviousMonth(NextMonth(s)) == Recentred(s)
  {
    var m, y, names := s.currentVisibleMonth.number, s.selectedYear, s.monthNames;
    var r := NextMonth(s);
    assert GetMonths(y, names)[m + 1] == MonthOf(y, m + 1, names);
    assert r == s.(currentVisibleMonth := MonthOf(y, m + 1, names),
                   selectedMonthIndex := AdjustedSelectedMonthIndex(s.selectedMonthIndex + 1));
    AdjustedBack(s.selectedMonthIndex);
    assert PreviousMonth(r) == r.(currentVisibleMonth := GetMonths(y, names)[m],
                                  selectedMonthIndex := AdjustedSelectedMonthIndex(s.selectedMonthIndex));
  }

  lemma BackAcrossYear(s: DatePickerUiState, currentYear: int)
    requires ValidState(s, currentYear) && s.currentVisibleMonth.number == 11 && s.selectedYearIndex != 199
    ensures PreviousMonth(NextMonth(s)) == Recentred(s)
  {
    var y, names := s.selectedYear, s.monthNames;
    var r := NextMonth(s);
    assert GetMonths(y + 1, names)[0] == MonthOf(y + 1, 0, names);
    assert r == s.(selectedYear := y + 1, selectedYearIndex := s.selectedYearIndex + 1,
                   selectedMonthIndex := AdjustedSelectedMonthIndex(s.selectedMonthIndex + 1),
                   currentVisibleMonth := MonthOf(y + 1, 0, names));
    AdjustedBack(s.selectedMonthIndex);
    assert PreviousMonth(r) == r.(selectedYear := y, selectedYearIndex := s.selectedYearIndex,
                                  selectedMonthIndex := AdjustedSelectedMonthIndex(s.selectedMonthIndex),
                                  currentVisibleMonth := GetMonths(y, names)[11]);
  }

  /** Going forward a month undoes going back one, up to re-centring the month wheel. */
  lemma NextUndoesPrevious(s: DatePickerUiState, currentYear: int)
    requires ValidState(s, currentYear) && PreviousMonth(s) != s
    ensures NextMonth(PreviousMonth(s)) == Recentred(s)
  {
    if s.currentVisibleMonth.number > 0 {
      ForthWithinYear(s, currentYear);
    } else {
      ForthAcrossYear(s, currentYear);
    }
  }

  lemma ForthWithinYear(s: DatePickerUiState, currentYear: int)
    requires ValidState(s, currentYear) && s.currentVisibleMonth.number > 0
    ensures NextMonth(PreviousMonth(s)) == Recentred(s)
  {
    var m, y, names := s.currentVisibleMonth.number, s.selectedYear, s.monthNames;
    var r := PreviousMonth(s);
    assert GetMonths(y, names)[m - 1] == MonthOf(y, m - 1, names);
    assert r == s.(currentVisibleMonth := MonthOf(y, m - 1, names),
                   selectedMonthIndex := AdjustedSelectedMonthIndex(s.selectedMonthIndex - 1));
    AdjustedForth(s.selectedMonthIndex);
    assert NextMonth(r) == r.(currentVisibleMonth := GetMonths(y, names)[m],
                              selectedMonthIndex := AdjustedSelectedMonthIndex(s.selectedMonthIndex));
  }

  lemma ForthAcrossYear(s: DatePickerUiState, currentYear: int)
    requires ValidState(s, currentYear) && s.currentVisibleMonth.number == 0 && s.selectedYearIndex != 0
    ensures NextMonth(PreviousMonth(s)) == Recentred(s)
  {
    var y, names := s.selectedYear, s.monthNames;
    var r := PreviousMonth(s);
    assert GetMonths(y - 1, names)[11] == MonthOf(y - 1, 11, names);
    assert r == s.(selectedYear := y - 1, selectedYearIndex := s.selectedYearIndex - 1,
                   selectedMonthIndex := AdjustedSelectedMonthIndex(s.selectedMonthIndex - 1),
                   currentVisibleMonth := MonthOf(y - 1, 11, names));
    AdjustedForth(s.selectedMonthIndex);
    assert NextMonth(r) == r.(selectedYear := y, selectedYearIndex := s.selectedYearIndex,
                              selectedMonthIndex := AdjustedSelectedMonthIndex(s.selectedMonthIndex),
                              currentVisibleMonth := GetMonths(y, names)[0]);
  }

  /** `k` presses of the next-month arrow. */
  function NextMonths(s: DatePickerUiState, k: nat): (r: DatePickerUiState)
    requires Shaped(s)
    ensures Shaped(r)
    decreases k
  {
    if k == 0 then s else NextMonth(NextMonths(s, k - 1))
  }

  /** The months of the window before the one shown: twelve for each year before it. */
  function WindowMonth(s: DatePickerUiState): int {
    12 * s.selectedYearIndex + s.currentVisibleMonth.number
  }

  /**
   * `k` presses of the next-month arrow, while the window lasts, move the month shown `k` months
   * on through the window, the year shown keeping step with the year wheel.
   */
  lemma {:induction false} NextMonthsAdvance(s: DatePickerUiState, k: nat)
    requires Shaped(s) && 0 <= s.selectedYearIndex && WindowMonth(s) + k < 12 * REPEAT_COUNT
    ensures var r := NextMonths(s, k);
      && WindowMonth(r) == WindowMonth(s) + k
      && 0 <= r.selectedYearIndex
      && r.selectedYear - r.selectedYearIndex == s.selectedYear - s.selectedYearIndex
    decreases k
  {
    if k > 0 {
      var p := NextMonths(s, k - 1);
      NextMonthsAdvance(s, k - 1);
      NextMonthSteps(p);
      assert NextMonths(s, k) == NextMonth(p);
    }
  }

  /** Twelve presses of the next-month arrow, or any multiple of twelve, show the same month whole years later. */
  lemma YearsOfNextMonths(s: DatePickerUiState, years: nat)
    requires Shaped(s) && 0 <= s.selectedYearIndex && s.selectedYearIndex + years < REPEAT_COUNT
    ensures var r := NextMonths(s, 12 * years);
      && r.currentVisibleMonth.number == s.currentVisibleMonth.number
      && r.selectedYear == s.selectedYear + years
      && r.selectedYearIndex == s.selectedYearIndex + years
  {
    NextMonthsAdvance(s, 12 * years);
  }

  /** `updateSelectedYearIndex`: the year wheel moved to `index`; show the same month of that year. */
  function WithYearIndex(s: DatePickerUiState, currentYear: int, index: int): DatePickerUiState
    requires |s.monthNames| == 12 && 0 <= s.currentVisibleMonth.number < 12 && 0 <= index < REPEAT_COUNT
  {
    var year := Years(currentYear)[index];
    s.(selectedYearIndex := index,
       selectedYear := year,
       currentVisibleMonth := GetMonths(year, s.monthNames)[s.currentVisibleMonth.number])
  }

  lemma YearIndexShows(s: DatePickerUiState, currentYear: int, index: int)
    requires ValidState(s, currentYear) && 0 <= index < REPEAT_COUNT
    ensures var r := WithYearIndex(s, currentYear, index);
      && ValidState(r, currentYear)
      && r.selectedYear == currentYear - 100 + index
      && r.currentVisibleMonth.number == s.currentVisibleMonth.number
      && r.currentVisibleMonth.numberOfDays == MonthLength(r.selectedYear, s.currentVisibleMonth.number)
      && r.selectedMonthIndex == s.selectedMonthIndex
  {
    YearsWindow(currentYear);
    MonthsTable(Years(currentYear)[index], s.monthNames, s.currentVisibleMonth.number);
  }

  /** The checks `setDate` makes, in its order, given the length it takes the month to have. */
  function CheckDateWith(date: DatePickerDate, currentYear: int, maxDays: int): Option<DateError> {
    if date.year < currentYear - 100 || date.year > currentYear + 99 then Some(InvalidYear)
    else if date.month < 0 || date.month > 11 then Some(InvalidMonth)
    else if date.day < 1 then Some(InvalidDay)
    else if date.day > maxDays then Some(InvalidDay)
    else None
  }

  /** The checks of `setDate` against the month's real length. */
  function CheckDate(date: DatePickerDate, currentYear: int): Option<DateError> {
    if 0 <= date.month <= 11 then CheckDateWith(date, currentYear, MonthLength(date.year, date.month))
    else CheckDateWith(date, currentYear, 0)
  }

  /**
   * `setDate` accepts exactly the valid dates of the window; otherwise it names the first condition
   * that fails: the year, then the month, then the day.
   */
  lemma CheckDateIff(date: DatePickerDate, currentYear: int)
    ensures CheckDate(date, currentYear).None? <==>
      currentYear - 100 <= date.year <= currentYear + 99 && IsValid(date)
    ensures CheckDate(date, currentYear) == Some(InvalidYear) <==>
      date.year < currentYear - 100 || date.year > currentYear + 99
    ensures CheckDate(date, currentYear) == Some(InvalidMonth) <==>
      currentYear - 100 <= date.year <= currentYear + 99 && (date.month < 0 || date.month > 11)
  {
  }

  /**
   * The length `setDate` as written takes the month to have: `Calendar.getActualMaximum` on a
   * calendar that still holds today's day of the month `today`. When `today` is past the end of
   * the month, the lenient calendar first rolls into the next month and gives its length.
   */
  function MaxDaysAsWritten(year: int, month: int, today: int): int
    requires 0 <= month <= 11 && 1 <= today <= 31
  {
    if today <= MonthLength(year, month) then MonthLength(year, month)
    else if month < 11 then MonthLength(year, month + 1)
    else MonthLength(year + 1, 0)
  }

  /** The checks of `setDate` as written. */
  function CheckDateAsWritten(date: DatePickerDate, currentYear: int, today: int): Option<DateError>
    requires 1 <= today <= 31
  {
    if 0 <= date.month <= 11 then CheckDateWith(date, currentYear, MaxDaysAsWritten(date.year, date.month, today))
    else CheckDateWith(date, currentYear, 0)
  }

  /** As written, the length is 31 whenever today's day is past the end of the month. */
  lemma MaxDaysAsWrittenIs31(year: int, month: int, today: int)
    requires 0 <= month <= 11 && 1 <= today <= 31
    ensures MaxDaysAsWritten(year, month, today) ==
      if today <= MonthLength(year, month) then MonthLength(year, month) else 31
  {
    if today > MonthLength(year, month) {
      ShortMonthThenLong(year, month);
    }
  }

  /**
   * The checks as written and as intended disagree exactly when today's day and the requested
   * day both lie past the end of the requested month, the day being at most 31: such a date is
   * accepted.
   */
  lemma AsWrittenDiffers(date: DatePickerDate, currentYear: int, today: int)
    requires 1 <= today <= 31
    ensures CheckDateAsWritten(date, currentYear, today) != CheckDate(date, currentYear) <==>
      && currentYear - 100 <= date.year <= currentYear + 99
      && 0 <= date.month <= 11
      && MonthLength(date.year, date.month) < date.day <= 31
      && today > MonthLength(date.year, date.month)
    ensures CheckDateAsWritten(date, currentYear, today) != CheckDate(date, currentYear) ==>
      CheckDateAsWritten(date, currentYear, today).None? && !IsValid(date)
  {
    if 0 <= date.month <= 11 {
      MaxDaysAsWrittenIs31(date.year, date.month, today);
    }
  }

  /** On the 31st, `setDate` as written accepts 30 February of this year. */
  lemma AsWrittenAcceptsThirtiethOfFebruary(currentYear: int)
    ensures CheckDateAsWritten(DatePickerDate(currentYear, 1, 30), currentYear, 31).None?
    ensures CheckDate(DatePickerDate(currentYear, 1, 30), currentYear) == Some(InvalidDay)
  {
    MaxDaysAsWrittenIs31(currentYear, 1, 31);
  }

  /** `setDate` after its checks: select the year, show the month, select the day. */
  function WithDate(s: DatePickerUiState, currentYear: int, date: DatePickerDate): (r: DatePickerUiState)
    requires ValidState(s, currentYear) && CheckDate(date, currentYear).None?
    ensures ValidState(r, currentYear)
  {
    IndexOfYear(currentYear, date.year);
    var index := IndexOf(Years(currentYear), date.year);
    YearIndexShows(s, currentYear, index);
    var s1 := WithYearIndex(s, currentYear, index);
    VisibleMonthShows(s1, currentYear, date.month);
    var s2 := WithVisibleMonth(s1, date.month);
    SelectedDayKeeps(s2, currentYear, date.day);
    WithSelectedDay(s2, date.day)
  }

  /**
   * After a date is set, the year wheel points at its year, the picker shows and selects its
   * month at the middle copy of the month wheel, and its day is selected.
   */
  lemma SetDateSelects(s: DatePickerUiState, currentYear: int, date: DatePickerDate)
    requires ValidState(s, currentYear) && CheckDate(date, currentYear).None?
    ensures var r := WithDate(s, currentYear, date);
      && Years(currentYear)[r.selectedYearIndex] == date.year && r.selectedYear == date.year
      && IsDecimal(r.years[r.selectedYearIndex]) && ParseInt(r.years[r.selectedYearIndex]) == date.year
      && r.currentVisibleMonth.number == date.month
      && r.selectedMonth == r.currentVisibleMonth
      && r.selectedMonth.numberOfDays == MonthLength(date.year, date.month)
      && r.selectedDayOfMonth == date.day
      && r.selectedMonthIndex == 1200 + date.month
      && r.isMonthYearViewVisible == s.isMonthYearViewVisible
  {
    IndexOfYear(currentYear, date.year);
    var index := IndexOf(Years(currentYear), date.year);
    YearIndexShows(s, currentYear, index);
    var s1 := WithYearIndex(s, currentYear, index);
    VisibleMonthShows(s1, currentYear, date.month);
    MonthsTable(date.year, s.monthNames, date.month);
    YearLabelReads(currentYear, index);
  }

  /** Entry `i` of the year wheel reads as the year `i - selectedYearIndex` years from the one shown. */
  lemma YearLabelAt(s: DatePickerUiState, currentYear: int, i: int)
    requires ValidState(s, currentYear) && 0 <= i < REPEAT_COUNT
    ensures 0 <= i < |s.years| && ParseInt(s.years[i]) == s.selectedYear + (i - s.selectedYearIndex)
  {
    YearLabelReads(currentYear, i);
    YearsWindow(currentYear);
  }

  /**
   * The date picker's view model. `currentYear` is the year the window of years is built around;
   * `availableMonths` caches the months of the year shown.
   */
  class DatePickerViewModel {
    const currentYear: int
    var uiState: DatePickerUiState
    var availableMonths: seq<Month>

    ghost predicate Valid()
      reads this
    {
      ValidState(uiState, currentYear) && availableMonths == GetMonths(uiState.selectedYear, uiState.monthNames)
    }

    /** The view model starts from the default state for the clock's date `today`. */
    constructor(today: DatePickerDate, names: seq<string>)
      requires 0 <= today.month <= 11 && |names| == 12
      ensures Valid() && currentYear == today.year && uiState == DefaultState(today, names)
    {
      currentYear := today.year;
      uiState := DefaultState(today, names);
      availableMonths := GetMonths(today.year, names);
    }

    method SetLocale(names: seq<string>)
      requires Valid() && |names| == 12
      modifies this
      ensures Valid() && uiState == WithLocale(old(uiState), names)
    {
      LocaleKeepsSelection(uiState, currentYear, names);
      availableMonths := GetMonths(uiState.selectedYear, names);
      uiState := uiState.(
        monthNames := names,
        months := GetMonthNames(names),
        currentVisibleMonth := availableMonths[uiState.currentVisibleMonth.number],
        selectedMonth := GetMonths(uiState.selectedYear, names)[uiState.selectedMonth.number]);
    }

    method UpdateCurrentVisibleMonth(month: int)
      requires Valid() && 0 <= month < 12
      modifies this
      ensures Valid() && uiState == WithVisibleMonth(old(uiState), month)
    {
      VisibleMonthShows(uiState, currentYear, month);
      uiState := uiState.(
        currentVisibleMonth := availableMonths[month],
        selectedMonthIndex := AdjustedSelectedMonthIndex(month));
    }

    method UpdateSelectedMonthIndex(index: int)
      requires Valid() && index >= 0
      modifies this
      ensures Valid() && uiState == WithMonthIndex(old(uiState), index)
    {
      MonthIndexShows(uiState, currentYear, index);
      uiState := uiState.(
        selectedMonthIndex := index,
        currentVisibleMonth := availableMonths[KotlinInt.Rem(index, 12)]);
    }

    method UpdateSelectedDayAndMonth(day: int)
      requires Valid()
      modifies this
      ensures Valid() && uiState == WithSelectedDay(old(uiState), day)
    {
      uiState := uiState.(selectedDayOfMonth := day, selectedMonth := uiState.currentVisibleMonth);
    }

    method MoveToNextMonth()
      requires Valid()
      modifies this
      ensures Valid() && uiState == NextMonth(old(uiState))
    {
      var state := uiState;
      NextMonthKeepsValid(state, currentYear);
      if state.currentVisibleMonth.number == 11 {
        var nextYearIndex := state.selectedYearIndex + 1;
        if nextYearIndex == |state.years| {
          return;
        }
        YearLabelAt(state, currentYear, nextYearIndex);
        var nextYear := ParseInt(state.years[nextYearIndex]);
        var months := GetMonths(nextYear, state.monthNames);
        var next := state.(
          selectedYear := nextYear,
          selectedYearIndex := nextYearIndex,
          selectedMonthIndex := AdjustedSelectedMonthIndex(state.selectedMonthIndex + 1),
          currentVisibleMonth := months[0]);
        assert next == NextMonth(state);
        availableMonths := months;
        uiState := next;
      } else {
        var next := state.(
          currentVisibleMonth := availableMonths[state.currentVisibleMonth.number + 1],
          selectedMonthIndex := AdjustedSelectedMonthIndex(state.selectedMonthIndex + 1));
        assert next == NextMonth(state);
        uiState := next;
      }
    }

    method MoveToPreviousMonth()
      requires Valid()
      modifies this
      ensures Valid() && uiState == PreviousMonth(old(uiState))
    {
      var state := uiState;
      PreviousMonthKeepsValid(state, currentYear);
      if state.currentVisibleMonth.number == 0 {
        var previousYearIndex := state.selectedYearIndex - 1;
        if previousYearIndex == -1 {
          return;
        }
        YearLabelAt(state, currentYear, previousYearIndex);
        var previousYear := ParseInt(state.years[previousYearIndex]);
        var months := GetMonths(previousYear, state.monthNames);
        var previous := state.(
          selectedYear := previousYear,
          selectedYearIndex := previousYearIndex,
          selectedMonthIndex := AdjustedSelectedMonthIndex(state.selectedMonthIndex - 1),
          currentVisibleMonth := months[11]);
        assert previous == PreviousMonth(state);
        availableMonths := months;
        uiState := previous;
      } else {
        var previous := state.(
          currentVisibleMonth := availableMonths[state.currentVisibleMonth.number - 1],
          selectedMonthIndex := AdjustedSelectedMonthIndex(state.selectedMonthIndex - 1));
        assert previous == PreviousMonth(state);
        uiState := previous;
      }
    }

    method UpdateSelectedYearIndex(index: int)
      requires Valid() && 0 <= index < REPEAT_COUNT
      modifies this
      ensures Valid() && uiState == WithYearIndex(old(uiState), currentYear, index)
    {
      YearIndexShows(uiState, currentYear, index);
      availableMonths := GetMonths(Years(currentYear)[index], uiState.monthNames);
      uiState := uiState.(
        selectedYearIndex := index,
        selectedYear := Years(currentYear)[index],
        currentVisibleMonth := availableMonths[uiState.currentVisibleMonth.number]);
    }

    /**
     * Flip the month/year wheels; when they close, a re-centring of the month wheel is scheduled
     * (`RecentreMonthIndex`, carried out after a short delay).
     */
    method ToggleIsMonthYearViewVisible() returns (recentreScheduled: bool)
      requires Valid()
      modifies this
      ensures Valid() && recentreScheduled == old(uiState.isMonthYearViewVisible)
      ensures uiState == old(uiState).(isMonthYearViewVisible := !old(uiState.isMonthYearViewVisible))
    {
      recentreScheduled := uiState.isMonthYearViewVisible;
      uiState := uiState.(isMonthYearViewVisible := !uiState.isMonthYearViewVisible);
    }

    /** The delayed step of closing the month/year wheels. */
    method RecentreMonthIndex()
      requires Valid()
      modifies this
      ensures Valid() && uiState == Recentred(old(uiState))
    {
      RecentredKeeps(uiState, currentYear);
      uiState := uiState.(selectedMonthIndex := AdjustedSelectedMonthIndex(uiState.selectedMonthIndex));
    }

    /** `updateUiState`: replace the state; the cached months are left as they are. */
    method UpdateUiState(s: DatePickerUiState)
      modifies this
      ensures uiState == s && availableMonths == old(availableMonths)
    {
      uiState := s;
    }

    /** `setDate`: validate the date, then select it; a refused date changes nothing. */
    method SetDate(date: DatePickerDate) returns (error: Option<DateError>)
      requires Valid()
      modifies this
      ensures Valid() && error == CheckDate(date, currentYear)
      ensures error.None? ==> uiState == WithDate(old(uiState), currentYear, date)
      ensures error.Some? ==> uiState == old(uiState) && availableMonths == old(availableMonths)
    {
      var years := Years(currentYear);
      YearsWindow(currentYear);
      var yearMin := years[0];
      var yearMax := years[|years| - 1];
      if date.year < yearMin || date.year > yearMax {
        return Some(InvalidYear);
      }
      if date.month < 0 || date.month > 11 {
        return Some(InvalidMonth);
      }
      var maxDays := MonthLength(date.year, date.month);
      if date.day < 1 {
        return Some(InvalidDay);
      }
      if date.day > maxDays {
        return Some(InvalidDay);
      }
      IndexOfYear(currentYear, date.year);
      var index := IndexOf(years, date.year);
      UpdateSelectedYearIndex(index);
      UpdateCurrentVisibleMonth(date.month);
      UpdateSelectedDayAndMonth(date.day);
      return None;
    }
  }
}
