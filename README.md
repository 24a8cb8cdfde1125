# ComposeDatePicker selection logic in Dafny

A model of the selection logic behind the Jetpack Compose date and time pickers of
ComposeDatePicker. The widgets draw centre-focused wheels and a day grid. Underneath them is a
small amount of integer bookkeeping, which this project models and proves things about:

- **Time wheels.** Hour and minute label tables repeated 200 times so that the wheels look
  circular, the fixed "middle" indices into them, and the rounding of a minute up to the chosen
  `MinuteGap`.
- **Time selection state.** The state built for a given time: the minute rounded, the hour carried,
  the AM/PM (meridiem) index derived. Also the reading of a time back out of the wheel indices, and
  the view model whose hidden `hour` offset moves by 12 on every manual AM/PM choice and locale change.
- **Calendar tables.** The window of 200 years around the current year, the month-name wheel, the
  twelve months of a year with their lengths and the weekday of their first day, and the
  Sunday-first days of the week.
- **Selection limiter.** The inclusive first and last selectable dates.
- **Date selection state machine.** The visible month, the selected day and month, the month wheel
  index kept at `1200 + month`, and the year wheel index. Transitions: next and previous month with
  roll-over and window-edge no-ops, wheel updates, the month/year toggle, and the validated `setDate`.
- **Composable formulas.** The integer formulas inside the date picker composables: day-grid cells
  to days, the highlight, clickable days, the month-page callback, and the wheel rows
  (`gap = rows / 2`).

Modules follow the Kotlin files:

| module | file |
|---|---|
| `MinuteGap` | `timepicker/enums/MinuteGap.kt` |
| `TimeConstant` | `timepicker/data/Constant.kt` |
| `TimePickerUiState` | `timepicker/ui/model/TimePickerUiState.kt`, plus the state layout of `getUiStateTimeProvided` |
| `TimeViewModel` | `timepicker/ui/viewmodel/TimePickerViewModel.kt` |
| `Days` | `datepicker/data/Days.kt` |
| `DateConstant` | `datepicker/data/Constant.kt` |
| `DatePickerDate` | the date record and calendar order behind `SelectionLimiter` |
| `SelectionLimiter` | `datepicker/data/model/SelectionLimiter.kt` |
| `DatePickerUiState` | `datepicker/ui/model/DatePickerUiState.kt` |
| `DateViewModel` | `datepicker/ui/viewmodel/DatePickerViewModel.kt` |
| `DatePickerView` | the integer formulas of `datepicker/DatePicker.kt` |

`Common.dfy` holds `Option` and `Result`, integer lemmas, Kotlin's truncating remainder
(`KotlinInt.Rem`), decimal labels (`toString`, `padStart` and `toInt`, with their round trips), and
`List(n) { xs }.flatten()` as `Flatten.Repeat`.

The model follows three conventions:

- **Clock reads, locale tables and delays.**
  - The clock reads (`Calendar.getInstance()`) become parameters: `today`, `now`, `currentYear`.
  - The locale's month names and AM/PM names become `seq<string>` parameters.
  - A coroutine launched after a delay becomes a separate method, which the caller runs later:
    `TimePickerViewModel.SettleTimeOfDay` for the meridiem settling after an hour update, and
    `DatePickerViewModel.RecentreMonthIndex` for the re-centring after the month/year wheels close.
- **Data classes and view models.**
  - Each Kotlin data class is a Dafny datatype, and each transition is a function on it, with the
    lemmas stating what it does.
  - Each view model is a class whose methods update its fields. Each method's `ensures` ties the new
    state to the function of the old state.
  - Every view model keeps a `Valid()` invariant: the selection invariants, and the months cached
    for the year shown.
- **Exceptions.** `IllegalArgumentException` becomes a `Result` or an `Option` error.

## Model

| member | source | states |
|---|---|---|
| MinuteGap.MinuteGap.Gap | composeDatePicker/src/main/kotlin/io/github/rexmtorres/android/composedatepicker/timepicker/enums/MinuteGap.kt:14-34 | every gap is positive, at most 30 and divides 60 |
| MinuteGap.MinuteGap.IntervalCount | composeDatePicker/src/main/kotlin/io/github/rexmtorres/android/composedatepicker/timepicker/enums/MinuteGap.kt:14-34 | every variant has at least two labels per hour |
| MinuteGap.GapTimesIntervalCount | composeDatePicker/src/main/kotlin/io/github/rexmtorres/android/composedatepicker/timepicker/enums/MinuteGap.kt:14-34 | gap times interval count is 60 for every variant, so the count is 60 / gap |
| TimeConstant.HourLabel | composeDatePicker/src/main/kotlin/io/github/rexmtorres/android/composedatepicker/timepicker/data/Constant.kt:10-16 | the base hour labels are the decimals 0..23 on a 24-hour clock and 1..12 on a 12-hour clock |
| TimeConstant.GetHoursAt | composeDatePicker/src/main/kotlin/io/github/rexmtorres/android/composedatepicker/timepicker/data/Constant.kt:18-21 | the hour table holds 200 copies of the base labels and entry i is base entry i mod the base length |
| TimeConstant.HourLabelAt | composeDatePicker/src/main/kotlin/io/github/rexmtorres/android/composedatepicker/timepicker/data/Constant.kt:10-21 | entry i of the hour table reads back as i mod 24, or as i mod 12 + 1 on a 12-hour clock |
| TimeConstant.MiddleOfHour | composeDatePicker/src/main/kotlin/io/github/rexmtorres/android/composedatepicker/timepicker/data/Constant.kt:23-29 | the middle hour index is 2400 on a 24-hour clock and 1199 on a 12-hour clock, with a full day of entries after it |
| TimeConstant.MiddleHourIsTwelve | composeDatePicker/src/main/kotlin/io/github/rexmtorres/android/composedatepicker/timepicker/data/Constant.kt:23-29 | on a 12-hour clock the label at the middle index is "12" |
| TimeConstant.MiddleHourLabel | composeDatePicker/src/main/kotlin/io/github/rexmtorres/android/composedatepicker/timepicker/data/Constant.kt:10-29 | entry h after the middle index is the label of hour h on the dial, for h in 0..24 |
| TimeConstant.FindMinutes | composeDatePicker/src/main/kotlin/io/github/rexmtorres/android/composedatepicker/timepicker/data/Constant.kt:31-43 | the loop builds exactly the labels k * gap for k below 60 / gap, each padded to two digits |
| TimeConstant.MinuteLabelOf | composeDatePicker/src/main/kotlin/io/github/rexmtorres/android/composedatepicker/timepicker/data/Constant.kt:37 | a minute label below 100 has two characters and reads back as its minute |
| TimeConstant.MinuteLabelInjective | composeDatePicker/src/main/kotlin/io/github/rexmtorres/android/composedatepicker/timepicker/data/Constant.kt:37 | distinct minutes below 100 get distinct labels |
| TimeConstant.MinuteLabelValue | composeDatePicker/src/main/kotlin/io/github/rexmtorres/android/composedatepicker/timepicker/data/Constant.kt:31-43 | the base minute list has interval-count entries and entry k reads back as k * gap, below 60 |
| TimeConstant.DisplaysIff | composeDatePicker/src/main/kotlin/io/github/rexmtorres/android/composedatepicker/timepicker/data/Constant.kt:31-43 | a minute is shown by the wheel exactly when it is below 60 and a multiple of the gap |
| TimeConstant.DisplayedIsMultiple | composeDatePicker/src/main/kotlin/io/github/rexmtorres/android/composedatepicker/timepicker/data/Constant.kt:31-43 | every label of the base list is a multiple of the gap below 60 |
| TimeConstant.MultipleIsDisplayed | composeDatePicker/src/main/kotlin/io/github/rexmtorres/android/composedatepicker/timepicker/data/Constant.kt:31-43 | every multiple of the gap below 60 has a label in the base list |
| TimeConstant.OneDisplaysEveryMinute | composeDatePicker/src/main/kotlin/io/github/rexmtorres/android/composedatepicker/timepicker/enums/MinuteGap.kt:11-14 | gap ONE shows exactly the minutes 0..59 |
| TimeConstant.FiveDisplays | composeDatePicker/src/main/kotlin/io/github/rexmtorres/android/composedatepicker/timepicker/enums/MinuteGap.kt:16-19 | gap FIVE shows exactly the multiples of 5 from 0 to 55 |
| TimeConstant.TenDisplays | composeDatePicker/src/main/kotlin/io/github/rexmtorres/android/composedatepicker/timepicker/enums/MinuteGap.kt:21-24 | gap TEN shows exactly 0, 10, 20, 30, 40 and 50 |
| TimeConstant.FifteenDisplays | composeDatePicker/src/main/kotlin/io/github/rexmtorres/android/composedatepicker/timepicker/enums/MinuteGap.kt:26-29 | gap FIFTEEN shows exactly 0, 15, 30 and 45 |
| TimeConstant.ThirtyDisplays | composeDatePicker/src/main/kotlin/io/github/rexmtorres/android/composedatepicker/timepicker/enums/MinuteGap.kt:31-34 | gap THIRTY shows exactly 0 and 30 |
| TimeConstant.GetMinutesAt | composeDatePicker/src/main/kotlin/io/github/rexmtorres/android/composedatepicker/timepicker/data/Constant.kt:45-48 | the minute table holds 200 copies of the base list and entry i is base entry i mod the interval count |
| TimeConstant.MinuteLabelAt | composeDatePicker/src/main/kotlin/io/github/rexmtorres/android/composedatepicker/timepicker/data/Constant.kt:31-48 | entry i of the minute table reads back as (i mod interval count) * gap |
| TimeConstant.GetMiddleOfMinute | composeDatePicker/src/main/kotlin/io/github/rexmtorres/android/composedatepicker/timepicker/data/Constant.kt:50-52 | the middle minute index is a multiple of the interval count, so label "00", with a whole copy of the labels after it |
| TimeConstant.RoundUpToGap | composeDatePicker/src/main/kotlin/io/github/rexmtorres/android/composedatepicker/timepicker/data/Constant.kt:59-63 | the counting loop stops at the least multiple of the gap that is at least the minute (0 for a minute that is not positive) |
| TimeConstant.GetNearestNextMinute | composeDatePicker/src/main/kotlin/io/github/rexmtorres/android/composedatepicker/timepicker/data/Constant.kt:54-70 | the method returns the minute unchanged for gap 1, and otherwise the rounded-up multiple, with 60 or more giving 0 |
| TimeConstant.NearestNextMinuteOfGapOne | composeDatePicker/src/main/kotlin/io/github/rexmtorres/android/composedatepicker/timepicker/data/Constant.kt:55-57 | with gap 1 the minute is returned unchanged |
| TimeConstant.NearestNextMinuteRoundsUp | composeDatePicker/src/main/kotlin/io/github/rexmtorres/android/composedatepicker/timepicker/data/Constant.kt:59-69 | with a gap above 1, a minute 0..59 goes to the least multiple of the gap at least as large, or to 0 when that multiple is 60 |
| TimeConstant.NearestNextMinuteInRange | composeDatePicker/src/main/kotlin/io/github/rexmtorres/android/composedatepicker/timepicker/data/Constant.kt:54-70 | for a minute 0..59 the result is a multiple of the gap in 0..59 |
| TimeConstant.NearestNextMinuteIdempotent | composeDatePicker/src/main/kotlin/io/github/rexmtorres/android/composedatepicker/timepicker/data/Constant.kt:54-70 | rounding a rounded minute gives it back |
| TimePickerUiState.CarryIff | composeDatePicker/src/main/kotlin/io/github/rexmtorres/android/composedatepicker/timepicker/ui/viewmodel/TimePickerViewModel.kt:107-108 | the hour is carried by one exactly when the minute lies past the last step of the hour (60 - gap) |
| TimePickerUiState.MultipleBeyondLastStep | composeDatePicker/src/main/kotlin/io/github/rexmtorres/android/composedatepicker/timepicker/ui/viewmodel/TimePickerViewModel.kt:107-108 | a multiple of the gap past the last step of the hour is at least 60, so it wraps to 0 |
| TimePickerUiState.MinuteIndexOfLabel | composeDatePicker/src/main/kotlin/io/github/rexmtorres/android/composedatepicker/timepicker/ui/viewmodel/TimePickerViewModel.kt:117 | the middle index plus minute / gap lies in the middle copy of the minute table, at a label that reads back as the minute |
| TimePickerUiState.StateAt | composeDatePicker/src/main/kotlin/io/github/rexmtorres/android/composedatepicker/timepicker/ui/viewmodel/TimePickerViewModel.kt:107-120 | the state laid out for a clock time is well formed: tables for its mode and gap, indices inside them, meridiem 0 or 1 |
| TimePickerUiState.StateAtIndices | composeDatePicker/src/main/kotlin/io/github/rexmtorres/android/composedatepicker/timepicker/ui/viewmodel/TimePickerViewModel.kt:115-119 | hour index = middle + carried hour, minute index = middle + rounded minute / gap, inside the middle copy of the minute table, PM exactly for a carried hour in 12..23 |
| TimePickerUiState.DefaultStateAsWritten | composeDatePicker/src/main/kotlin/io/github/rexmtorres/android/composedatepicker/timepicker/ui/model/TimePickerUiState.kt:8-46 | the default state as written is well formed |
| TimePickerUiState.DefaultState | composeDatePicker/src/main/kotlin/io/github/rexmtorres/android/composedatepicker/timepicker/ui/model/TimePickerUiState.kt:8-30 | the default state as intended is the state laid out for the clock time, with PM exactly for a carried hour in 12..23 |
| TimePickerUiState.DefaultTimeOfDayAsWrittenDial | composeDatePicker/src/main/kotlin/io/github/rexmtorres/android/composedatepicker/timepicker/ui/model/TimePickerUiState.kt:32-46 | the as-written meridiem tests the dial hour of the label plus 12 for a PM clock against 12..23 |
| TimePickerUiState.MeridiemDiffers | composeDatePicker/src/main/kotlin/io/github/rexmtorres/android/composedatepicker/timepicker/ui/model/TimePickerUiState.kt:32-46 | that comparison disagrees with the carried hour exactly on a 12-hour clock at hour 0 or 12 with no carry |
| TimePickerUiState.DefaultTimeOfDayDiffers | composeDatePicker/src/main/kotlin/io/github/rexmtorres/android/composedatepicker/timepicker/ui/model/TimePickerUiState.kt:32-46 | the as-written and intended default meridiem differ exactly at 0:xx and 12:xx without carry on a 12-hour clock |
| TimePickerUiState.MidnightStartsAsPm | composeDatePicker/src/main/kotlin/io/github/rexmtorres/android/composedatepicker/timepicker/ui/model/TimePickerUiState.kt:32-46 | at 00:00 on a 12-hour clock the default as written selects PM and the intended default AM, for every gap |
| TimeViewModel.GetUiStateTimeProvided | composeDatePicker/src/main/kotlin/io/github/rexmtorres/android/composedatepicker/timepicker/ui/viewmodel/TimePickerViewModel.kt:93-121 | succeeds exactly for a clock time; an hour outside 0..23 is reported first, then a minute outside 0..59; success gives a well-formed state with the given mode, gap and names |
| TimeViewModel.TwelveHourLabelRem | composeDatePicker/src/main/kotlin/io/github/rexmtorres/android/composedatepicker/timepicker/ui/viewmodel/TimePickerViewModel.kt:69 | on a 12-hour dial the label of entry i, taken with Kotlin's remainder by 12, is (i + 1) mod 12 |
| TimeViewModel.HourLabelReading | composeDatePicker/src/main/kotlin/io/github/rexmtorres/android/composedatepicker/timepicker/ui/viewmodel/TimePickerViewModel.kt:67-70 | the hour label read back is i mod 24 on a 24-hour clock, and (i + 1) mod 12 after the remainder on a 12-hour clock |
| TimeViewModel.MinuteLabelReading | composeDatePicker/src/main/kotlin/io/github/rexmtorres/android/composedatepicker/timepicker/ui/viewmodel/TimePickerViewModel.kt:73 | the minute label read back is (j mod interval count) * gap, a multiple of the gap below 60 |
| TimeViewModel.SelectedHour | composeDatePicker/src/main/kotlin/io/github/rexmtorres/android/composedatepicker/timepicker/ui/viewmodel/TimePickerViewModel.kt:67-70 | the hour read from the wheels is in 0..23: index mod 24, or (index + 1) mod 12 plus 12 for PM |
| TimeViewModel.SelectedMinute | composeDatePicker/src/main/kotlin/io/github/rexmtorres/android/composedatepicker/timepicker/ui/viewmodel/TimePickerViewModel.kt:73 | the minute read from the wheels is a multiple of the gap in 0..59 given by the minute index |
| TimeViewModel.SelectedTime | composeDatePicker/src/main/kotlin/io/github/rexmtorres/android/composedatepicker/timepicker/ui/viewmodel/TimePickerViewModel.kt:65-77 | the time read back is always a clock time whose minute is a step of the gap |
| TimeViewModel.ReadingAt12 | composeDatePicker/src/main/kotlin/io/github/rexmtorres/android/composedatepicker/timepicker/ui/viewmodel/TimePickerViewModel.kt:67-70 | on a 12-hour clock, hour index 1199 + h with PM exactly for h in 12..23 reads back h mod 24 |
| TimeViewModel.ReadingAt24 | composeDatePicker/src/main/kotlin/io/github/rexmtorres/android/composedatepicker/timepicker/ui/viewmodel/TimePickerViewModel.kt:67-70 | on a 24-hour clock, hour index 2400 + h reads back h mod 24 |
| TimeViewModel.ReadingAt | composeDatePicker/src/main/kotlin/io/github/rexmtorres/android/composedatepicker/timepicker/ui/viewmodel/TimePickerViewModel.kt:65-77 | a state h hours past the middle, at the step of minute m, with PM for h in 12..23, reads back (h mod 24, m) |
| TimeViewModel.RoundTrip | composeDatePicker/src/main/kotlin/io/github/rexmtorres/android/composedatepicker/timepicker/ui/viewmodel/TimePickerViewModel.kt:65-121 | the time read back from the state built for a clock time is (carried hour mod 24, rounded minute) |
| TimeViewModel.RoundTripExamples | composeDatePicker/src/main/kotlin/io/github/rexmtorres/android/composedatepicker/timepicker/ui/viewmodel/TimePickerViewModel.kt:65-121 | with a gap of 5 (or 10): 05:07 reads back 05:10, 05:58 reads back 06:00, 23:58 reads back 00:00, on either clock |
| TimeViewModel.RoundingExamples | composeDatePicker/src/main/kotlin/io/github/rexmtorres/android/composedatepicker/timepicker/ui/viewmodel/TimePickerViewModel.kt:107-108 | minute 7 rounds to 10 and 58 wraps to 0 with a carry |
| TimeViewModel.MidnightDefaultReadsAsNoon | composeDatePicker/src/main/kotlin/io/github/rexmtorres/android/composedatepicker/timepicker/ui/model/TimePickerUiState.kt:32-46 | at midnight on a 12-hour clock the default as written reads back 12:00, the intended default 00:00 |
| TimeViewModel.SettledTimeOfDay | composeDatePicker/src/main/kotlin/io/github/rexmtorres/android/composedatepicker/timepicker/ui/viewmodel/TimePickerViewModel.kt:47 | PM exactly when (index + 1 + offset) with Kotlin's remainder by 24 is at least 12; a negative sum gives AM |
| TimeViewModel.SettledHourArith | composeDatePicker/src/main/kotlin/io/github/rexmtorres/android/composedatepicker/timepicker/ui/viewmodel/TimePickerViewModel.kt:47 | with an offset that is a multiple of 12, the dial hour plus 12 for the settled PM is (index + 1 + offset) mod 24 |
| TimeViewModel.SettledMeridiemTracksWheel | composeDatePicker/src/main/kotlin/io/github/rexmtorres/android/composedatepicker/timepicker/ui/viewmodel/TimePickerViewModel.kt:39-52 | once the meridiem settles for the selected entry, the hour read back is (index + 1 + offset) mod 24 |
| TimeViewModel.MeridiemReading | composeDatePicker/src/main/kotlin/io/github/rexmtorres/android/composedatepicker/timepicker/ui/viewmodel/TimePickerViewModel.kt:65-70 | on a 12-hour clock, either meridiem keeps the state well formed, and the hour read back is the dial hour plus 12 for PM |
| TimeViewModel.SettleAtMiddle | composeDatePicker/src/main/kotlin/io/github/rexmtorres/android/composedatepicker/timepicker/ui/viewmodel/TimePickerViewModel.kt:39-52 | with no offset, entry h past the middle settles to hour h of the day |
| TimeViewModel.OffsetFlipsSettledTimeOfDay | composeDatePicker/src/main/kotlin/io/github/rexmtorres/android/composedatepicker/timepicker/ui/viewmodel/TimePickerViewModel.kt:47 | moving the offset by 12 flips the settled meridiem and by 24 leaves it |
| TimeViewModel.PmIsTwelveHoursLater | composeDatePicker/src/main/kotlin/io/github/rexmtorres/android/composedatepicker/timepicker/ui/viewmodel/TimePickerViewModel.kt:69 | on a 12-hour clock PM reads back exactly 12 hours after AM |
| TimeViewModel.MeridiemIgnoredOn24HourClock | composeDatePicker/src/main/kotlin/io/github/rexmtorres/android/composedatepicker/timepicker/ui/viewmodel/TimePickerViewModel.kt:67-70 | on a 24-hour clock the meridiem index does not change the time read back |
| TimeViewModel.TimePickerViewModel.constructor | composeDatePicker/src/main/kotlin/io/github/rexmtorres/android/composedatepicker/timepicker/ui/viewmodel/TimePickerViewModel.kt:16-20 | a new view model holds the default state for the clock time, gap FIVE, 12-hour clock, and offset 0 |
| TimeViewModel.TimePickerViewModel.SetLocale | composeDatePicker/src/main/kotlin/io/github/rexmtorres/android/composedatepicker/timepicker/ui/viewmodel/TimePickerViewModel.kt:22-37 | only the AM/PM names change; the offset moves by +12 on PM and -12 on AM |
| TimeViewModel.TimePickerViewModel.UpdateSelectedHourIndex | composeDatePicker/src/main/kotlin/io/github/rexmtorres/android/composedatepicker/timepicker/ui/viewmodel/TimePickerViewModel.kt:39-52 | only the hour index changes at once; a meridiem settling is scheduled exactly on a 12-hour clock |
| TimeViewModel.TimePickerViewModel.SettleTimeOfDay | composeDatePicker/src/main/kotlin/io/github/rexmtorres/android/composedatepicker/timepicker/ui/viewmodel/TimePickerViewModel.kt:44-49 | the delayed step: only the meridiem changes, to the one settled for the index and the current offset |
| TimeViewModel.TimePickerViewModel.UpdateSelectedMinuteIndex | composeDatePicker/src/main/kotlin/io/github/rexmtorres/android/composedatepicker/timepicker/ui/viewmodel/TimePickerViewModel.kt:54-56 | only the minute index changes |
| TimeViewModel.TimePickerViewModel.UpdateSelectedTimeOfDayIndex | composeDatePicker/src/main/kotlin/io/github/rexmtorres/android/composedatepicker/timepicker/ui/viewmodel/TimePickerViewModel.kt:58-63 | the current meridiem changes nothing; another one is taken and moves the offset by +12 to PM or -12 to AM |
| TimeViewModel.TimePickerViewModel.UpdateUiState | composeDatePicker/src/main/kotlin/io/github/rexmtorres/android/composedatepicker/timepicker/ui/viewmodel/TimePickerViewModel.kt:79-91 | the state becomes the one built for the time; a refused time is reported and changes nothing; the offset is kept |
| TimeViewModel.PmThenAmRestores | composeDatePicker/src/main/kotlin/io/github/rexmtorres/android/composedatepicker/timepicker/ui/viewmodel/TimePickerViewModel.kt:58-63 | choosing PM and then AM again restores both the state and the offset |
| TimeViewModel.SetLocaleFlipsSettling | composeDatePicker/src/main/kotlin/io/github/rexmtorres/android/composedatepicker/timepicker/ui/viewmodel/TimePickerViewModel.kt:22-52 | a locale change between two settlings of the same entry flips the meridiem they settle on |
| Days.Day.Number | composeDatePicker/src/main/kotlin/io/github/rexmtorres/android/composedatepicker/datepicker/data/Days.kt:35-61 | every day has a number in 1..7 |
| Days.Get | composeDatePicker/src/main/kotlin/io/github/rexmtorres/android/composedatepicker/datepicker/data/Days.kt:8-18 | 1..6 give the day with that number (SUNDAY..FRIDAY); every other number gives SATURDAY |
| Days.GetNumber | composeDatePicker/src/main/kotlin/io/github/rexmtorres/android/composedatepicker/datepicker/data/Days.kt:8-18 | get of a day's number is that day |
| Days.NumberGet | composeDatePicker/src/main/kotlin/io/github/rexmtorres/android/composedatepicker/datepicker/data/Days.kt:8-18 | for n in 1..7, the number of get(n) is n |
| Days.NumbersDistinct | composeDatePicker/src/main/kotlin/io/github/rexmtorres/android/composedatepicker/datepicker/data/Days.kt:35-61 | two days have the same number exactly when they are the same day |
| DateConstant.WeekHeader | composeDatePicker/src/main/kotlin/io/github/rexmtorres/android/composedatepicker/datepicker/data/Constant.kt:18-26 | the header has seven days, Sunday first, position i having number i + 1 |
| DateConstant.Years | composeDatePicker/src/main/kotlin/io/github/rexmtorres/android/composedatepicker/datepicker/data/Constant.kt:28-30 | the window holds 200 years |
| DateConstant.YearsWindow | composeDatePicker/src/main/kotlin/io/github/rexmtorres/android/composedatepicker/datepicker/data/Constant.kt:28-30 | entry i is currentYear - 100 + i, ascending, with the current year at index 100 |
| DateConstant.IndexOf | composeDatePicker/src/main/kotlin/io/github/rexmtorres/android/composedatepicker/datepicker/ui/viewmodel/DatePickerViewModel.kt:184 | Kotlin's indexOf: -1 exactly when absent, otherwise the first index holding the value |
| DateConstant.IndexOfYear | composeDatePicker/src/main/kotlin/io/github/rexmtorres/android/composedatepicker/datepicker/ui/viewmodel/DatePickerViewModel.kt:184 | a year of the window is found at its distance from the window's first year |
| DateConstant.MonthNamesAt | composeDatePicker/src/main/kotlin/io/github/rexmtorres/android/composedatepicker/datepicker/data/Constant.kt:32-38 | the month wheel holds 2400 names and entry i is the name of month i mod 12 |
| DateConstant.GetMiddleOfMonth | composeDatePicker/src/main/kotlin/io/github/rexmtorres/android/composedatepicker/datepicker/data/Constant.kt:40-42 | the middle month index is 1200, a multiple of 12 |
| DateConstant.MonthLength | composeDatePicker/src/main/kotlin/io/github/rexmtorres/android/composedatepicker/datepicker/data/Constant.kt:50-123 | months have 28..31 days; February has 29 exactly in leap years; among the others exactly April, June, September and November have 30 |
| DateConstant.ShortMonthThenLong | composeDatePicker/src/main/kotlin/io/github/rexmtorres/android/composedatepicker/datepicker/data/Constant.kt:50-123 | a month shorter than 31 days is not December and is followed by a month of 31 days |
| DateConstant.DaysBeforeMonthStep | composeDatePicker/src/main/kotlin/io/github/rexmtorres/android/composedatepicker/datepicker/data/Constant.kt:50-123 | each month adds its own length to the days before it |
| DateConstant.YearLength | composeDatePicker/src/main/kotlin/io/github/rexmtorres/android/composedatepicker/datepicker/data/Constant.kt:57-62 | a year lasts 366 days when it is a leap year and 365 otherwise |
| DateConstant.MonthsFillYear | composeDatePicker/src/main/kotlin/io/github/rexmtorres/android/composedatepicker/datepicker/data/Constant.kt:50-123 | the twelve month lengths add up to the length of the year |
| DateConstant.DayOfWeek | composeDatePicker/src/main/kotlin/io/github/rexmtorres/android/composedatepicker/datepicker/data/Constant.kt:126-130 | the weekday number of a day is in 1..7 |
| DateConstant.DayOfWeekAdvance | composeDatePicker/src/main/kotlin/io/github/rexmtorres/android/composedatepicker/datepicker/data/Constant.kt:126-130 | k days later the weekday has advanced by k mod 7 |
| DateConstant.CalendarAnchors | composeDatePicker/src/main/kotlin/io/github/rexmtorres/android/composedatepicker/datepicker/data/Constant.kt:126-130 | the day count agrees with the calendar: 1 January 2000 is a Saturday, 1 January 1970 a Thursday, 15 October 1582 a Friday |
| DateConstant.FirstDayNumber | composeDatePicker/src/main/kotlin/io/github/rexmtorres/android/composedatepicker/datepicker/data/Constant.kt:126-130 | the weekday of day 1 has the weekday number of that day |
| DateConstant.FirstDayRecurrence | composeDatePicker/src/main/kotlin/io/github/rexmtorres/android/composedatepicker/datepicker/data/Constant.kt:126-130 | a month starts on the previous month's first weekday advanced by that month's length mod 7, December into January included |
| DateConstant.GetMonths | composeDatePicker/src/main/kotlin/io/github/rexmtorres/android/composedatepicker/datepicker/data/Constant.kt:44-124 | a year has twelve months |
| DateConstant.MonthsTable | composeDatePicker/src/main/kotlin/io/github/rexmtorres/android/composedatepicker/datepicker/data/Constant.kt:44-124 | month m has number m, the m-th name, its length in that year and the weekday of its day 1 |
| DatePickerDate.Trichotomy | composeDatePicker/src/main/kotlin/io/github/rexmtorres/android/composedatepicker/datepicker/data/model/SelectionLimiter.kt:22-33 | exactly one of before, equal and after holds for two dates |
| DatePickerDate.BeforeTransitive | composeDatePicker/src/main/kotlin/io/github/rexmtorres/android/composedatepicker/datepicker/data/model/SelectionLimiter.kt:22-25 | before is transitive |
| DatePickerDate.BeforeSmaller | composeDatePicker/src/main/kotlin/io/github/rexmtorres/android/composedatepicker/datepicker/data/model/SelectionLimiter.kt:13-15 | a valid date before another has a smaller day number |
| DatePickerDate.BeforeIsDayOrder | composeDatePicker/src/main/kotlin/io/github/rexmtorres/android/composedatepicker/datepicker/data/model/SelectionLimiter.kt:13-15 | on valid dates, field order is the order of the calendar days, and equality is equality of days |
| SelectionLimiter.UnlimitedAcceptsAll | composeDatePicker/src/main/kotlin/io/github/rexmtorres/android/composedatepicker/datepicker/data/model/SelectionLimiter.kt:18-20 | without bounds every date is accepted |
| SelectionLimiter.FromOnly | composeDatePicker/src/main/kotlin/io/github/rexmtorres/android/composedatepicker/datepicker/data/model/SelectionLimiter.kt:27-29 | with only a first date, a date is accepted exactly when it does not come before it |
| SelectionLimiter.ToOnly | composeDatePicker/src/main/kotlin/io/github/rexmtorres/android/composedatepicker/datepicker/data/model/SelectionLimiter.kt:31-33 | with only a last date, a date is accepted exactly when it does not come after it |
| SelectionLimiter.BothBounds | composeDatePicker/src/main/kotlin/io/github/rexmtorres/android/composedatepicker/datepicker/data/model/SelectionLimiter.kt:22-25 | with ordered bounds, a date is accepted exactly when both one-sided limits accept it |
| SelectionLimiter.BoundsInclusive | composeDatePicker/src/main/kotlin/io/github/rexmtorres/android/composedatepicker/datepicker/data/model/SelectionLimiter.kt:22-33 | a bound that is set is itself accepted |
| SelectionLimiter.InvertedBounds | composeDatePicker/src/main/kotlin/io/github/rexmtorres/android/composedatepicker/datepicker/data/model/SelectionLimiter.kt:22-25 | with the bounds the wrong way round only the two bound dates are accepted |
| SelectionLimiter.FromExample | composeDatePicker/src/main/kotlin/io/github/rexmtorres/android/composedatepicker/datepicker/data/model/SelectionLimiter.kt:27-29 | with first date 10 January 2024, the 9th is refused and the 10th and 11th accepted |
| DatePickerUiState.YearLabels | composeDatePicker/src/main/kotlin/io/github/rexmtorres/android/composedatepicker/datepicker/ui/model/DatePickerUiState.kt:14 | the year wheel has 200 labels |
| DatePickerUiState.YearLabelReads | composeDatePicker/src/main/kotlin/io/github/rexmtorres/android/composedatepicker/datepicker/ui/model/DatePickerUiState.kt:14 | year label i is a decimal that reads back as currentYear - 100 + i |
| DatePickerUiState.DefaultState | composeDatePicker/src/main/kotlin/io/github/rexmtorres/android/composedatepicker/datepicker/ui/model/DatePickerUiState.kt:7-17 | the default state satisfies the invariants every transition keeps |
| DatePickerUiState.DefaultStateShows | composeDatePicker/src/main/kotlin/io/github/rexmtorres/android/composedatepicker/datepicker/ui/model/DatePickerUiState.kt:8-16 | year index 100 showing this year, month index 1200 + month, shown month = selected month, today's day, wheels closed, 2400 month names |
| DatePickerView.BlankCellsInFirstRow | composeDatePicker/src/main/kotlin/io/github/rexmtorres/android/composedatepicker/datepicker/DatePicker.kt:426-428 | fewer than seven cells are blank, so day 1 is in the first row |
| DatePickerView.GridShowsEachDayOnce | composeDatePicker/src/main/kotlin/io/github/rexmtorres/android/composedatepicker/datepicker/DatePicker.kt:415-470 | every non-blank cell shows a day of the month, and every day is shown by exactly one cell |
| DatePickerView.ShownDaysAreTheMonth | composeDatePicker/src/main/kotlin/io/github/rexmtorres/android/composedatepicker/datepicker/DatePicker.kt:415-470 | the days the grid shows are exactly 1..numberOfDays |
| DatePickerView.CellWeekday | composeDatePicker/src/main/kotlin/io/github/rexmtorres/android/composedatepicker/datepicker/DatePicker.kt:504-505 | each day stands under the header of its own weekday, so the Sunday colour falls exactly on Sundays |
| DatePickerView.HighlightIgnoresYear | composeDatePicker/src/main/kotlin/io/github/rexmtorres/android/composedatepicker/datepicker/DatePicker.kt:472-474 | at its call site the highlight depends only on the day and the month record |
| DatePickerView.HighlightInAnotherYear | composeDatePicker/src/main/kotlin/io/github/rexmtorres/android/composedatepicker/datepicker/DatePicker.kt:472-474 | with 5 March 2024 selected, the grid of March 2030 highlights its 5th |
| DatePickerView.LocaleHighlightsEveryYear | composeDatePicker/src/main/kotlin/io/github/rexmtorres/android/composedatepicker/datepicker/ui/viewmodel/DatePickerViewModel.kt:40-45 | after a locale change the selected day is highlighted exactly when the month shown has the selected month's number, in any year |
| DatePickerView.MarchFirstsAgree | composeDatePicker/src/main/kotlin/io/github/rexmtorres/android/composedatepicker/datepicker/data/Constant.kt:126-130 | March 2024 and March 2030 both start on a Friday and have 31 days |
| DatePickerView.SelectedCellIsTheSelection | composeDatePicker/src/main/kotlin/io/github/rexmtorres/android/composedatepicker/datepicker/DatePicker.kt:472-474 | as intended, a cell is highlighted exactly when its full date is the selection |
| DatePickerView.ClickableDays | composeDatePicker/src/main/kotlin/io/github/rexmtorres/android/composedatepicker/datepicker/DatePicker.kt:475-481 | no limiter: every day clickable; first date only: exactly the days from it; last date only: exactly the days up to it; each grid day is a valid date |
| DatePickerView.MonthPageBounds | composeDatePicker/src/main/kotlin/io/github/rexmtorres/android/composedatepicker/datepicker/DatePicker.kt:112-128 | the reported first and last day are valid dates, and a limiter between them accepts exactly the days of the month shown |
| DatePickerView.WheelRows | composeDatePicker/src/main/kotlin/io/github/rexmtorres/android/composedatepicker/datepicker/DatePicker.kt:305-360 | each item is shown by exactly one row, a click reports an index in range, and the selected row shows the selected item |
| DateViewModel.AdjustedIndexProperties | composeDatePicker/src/main/kotlin/io/github/rexmtorres/android/composedatepicker/datepicker/ui/viewmodel/DatePickerViewModel.kt:120 | the adjusted index keeps index mod 12, lies in 1200..1211 from index 0 on (1199 at -1), and adjusting twice changes nothing |
| DateViewModel.LocaleKeepsSelection | composeDatePicker/src/main/kotlin/io/github/rexmtorres/android/composedatepicker/datepicker/ui/viewmodel/DatePickerViewModel.kt:33-47 | a locale change keeps the state valid and every index; the month shown keeps its number, length and weekday; the selected month keeps its number and is rebuilt for the year shown, with that year's length and first weekday |
| DateViewModel.VisibleMonthShows | composeDatePicker/src/main/kotlin/io/github/rexmtorres/android/composedatepicker/datepicker/ui/viewmodel/DatePickerViewModel.kt:49-56 | showing month m keeps the state valid and sets the month index to 1200 + m |
| DateViewModel.MonthIndexShows | composeDatePicker/src/main/kotlin/io/github/rexmtorres/android/composedatepicker/datepicker/ui/viewmodel/DatePickerViewModel.kt:58-65 | moving the month wheel to index i keeps the state valid and shows month i mod 12 of the same year |
| DateViewModel.SelectedDayKeeps | composeDatePicker/src/main/kotlin/io/github/rexmtorres/android/composedatepicker/datepicker/ui/viewmodel/DatePickerViewModel.kt:67-74 | selecting a day sets only the day and the selected month (to the one shown), without any validation |
| DateViewModel.NextMonthSteps | composeDatePicker/src/main/kotlin/io/github/rexmtorres/android/composedatepicker/datepicker/ui/viewmodel/DatePickerViewModel.kt:76-96 | December of the last window year: no change; other Decembers: January of the next year; otherwise the next month; the selection is kept |
| DateViewModel.IntoJanuaryValid | composeDatePicker/src/main/kotlin/io/github/rexmtorres/android/composedatepicker/datepicker/ui/viewmodel/DatePickerViewModel.kt:78-88 | the step from December into January keeps the state valid, with the month index in the middle copy |
| DateViewModel.NextWithinYearValid | composeDatePicker/src/main/kotlin/io/github/rexmtorres/android/composedatepicker/datepicker/ui/viewmodel/DatePickerViewModel.kt:89-93 | the step to the next month of the year keeps the state valid, with the month index in the middle copy |
| DateViewModel.NextMonthKeepsValid | composeDatePicker/src/main/kotlin/io/github/rexmtorres/android/composedatepicker/datepicker/ui/viewmodel/DatePickerViewModel.kt:76-96 | going a month forward keeps the state valid |
| DateViewModel.PreviousMonthSteps | composeDatePicker/src/main/kotlin/io/github/rexmtorres/android/composedatepicker/datepicker/ui/viewmodel/DatePickerViewModel.kt:98-118 | January of the first window year: no change; other Januaries: December of the year before; otherwise the month before |
| DateViewModel.IntoDecemberValid | composeDatePicker/src/main/kotlin/io/github/rexmtorres/android/composedatepicker/datepicker/ui/viewmodel/DatePickerViewModel.kt:100-110 | the step from January into December keeps the state valid |
| DateViewModel.PreviousWithinYearValid | composeDatePicker/src/main/kotlin/io/github/rexmtorres/android/composedatepicker/datepicker/ui/viewmodel/DatePickerViewModel.kt:111-116 | the step to the month before in the year keeps the state valid |
| DateViewModel.PreviousMonthKeepsValid | composeDatePicker/src/main/kotlin/io/github/rexmtorres/android/composedatepicker/datepicker/ui/viewmodel/DatePickerViewModel.kt:98-118 | going a month back keeps the state valid |
| DateViewModel.RecentredKeeps | composeDatePicker/src/main/kotlin/io/github/rexmtorres/android/composedatepicker/datepicker/ui/viewmodel/DatePickerViewModel.kt:134-144 | moving the month index back to the middle copy keeps the state valid, lands in 1200..1211 and is idempotent |
| DateViewModel.AdjustedBack | composeDatePicker/src/main/kotlin/io/github/rexmtorres/android/composedatepicker/datepicker/ui/viewmodel/DatePickerViewModel.kt:120 | adjusting index + 1 and then one back is the adjusted index |
| DateViewModel.AdjustedForth | composeDatePicker/src/main/kotlin/io/github/rexmtorres/android/composedatepicker/datepicker/ui/viewmodel/DatePickerViewModel.kt:120 | adjusting index - 1 and then one forward is the adjusted index |
| DateViewModel.PreviousUndoesNext | composeDatePicker/src/main/kotlin/io/github/rexmtorres/android/composedatepicker/datepicker/ui/viewmodel/DatePickerViewModel.kt:76-118 | a month back after a month forward gives the state back, up to re-centring the month wheel |
| DateViewModel.BackWithinYear | composeDatePicker/src/main/kotlin/io/github/rexmtorres/android/composedatepicker/datepicker/ui/viewmodel/DatePickerViewModel.kt:89-116 | the same, within a year |
| DateViewModel.BackAcrossYear | composeDatePicker/src/main/kotlin/io/github/rexmtorres/android/composedatepicker/datepicker/ui/viewmodel/DatePickerViewModel.kt:78-110 | the same, across a new year |
| DateViewModel.NextUndoesPrevious | composeDatePicker/src/main/kotlin/io/github/rexmtorres/android/composedatepicker/datepicker/ui/viewmodel/DatePickerViewModel.kt:76-118 | a month forward after a month back gives the state back, up to re-centring the month wheel |
| DateViewModel.ForthWithinYear | composeDatePicker/src/main/kotlin/io/github/rexmtorres/android/composedatepicker/datepicker/ui/viewmodel/DatePickerViewModel.kt:89-116 | the same, within a year |
| DateViewModel.ForthAcrossYear | composeDatePicker/src/main/kotlin/io/github/rexmtorres/android/composedatepicker/datepicker/ui/viewmodel/DatePickerViewModel.kt:78-110 | the same, across a new year |
| DateViewModel.NextMonthsAdvance | composeDatePicker/src/main/kotlin/io/github/rexmtorres/android/composedatepicker/datepicker/ui/viewmodel/DatePickerViewModel.kt:76-96 | k presses forward, while the window lasts, move k months on, with the year index keeping step with the year |
| DateViewModel.YearsOfNextMonths | composeDatePicker/src/main/kotlin/io/github/rexmtorres/android/composedatepicker/datepicker/ui/viewmodel/DatePickerViewModel.kt:76-96 | 12 * n presses forward show the same month n years later |
| DateViewModel.YearIndexShows | composeDatePicker/src/main/kotlin/io/github/rexmtorres/android/composedatepicker/datepicker/ui/viewmodel/DatePickerViewModel.kt:122-132 | moving the year wheel keeps the state valid and shows the same month of the year at that index |
| DateViewModel.CheckDateIff | composeDatePicker/src/main/kotlin/io/github/rexmtorres/android/composedatepicker/datepicker/ui/viewmodel/DatePickerViewModel.kt:164-182 | a date is accepted exactly when it is a valid date of the window; the year is checked first, then the month |
| DateViewModel.MaxDaysAsWrittenIs31 | composeDatePicker/src/main/kotlin/io/github/rexmtorres/android/composedatepicker/datepicker/ui/viewmodel/DatePickerViewModel.kt:171-174 | the length as written is the real length, or 31 when today's day is past the month's end |
| DateViewModel.AsWrittenDiffers | composeDatePicker/src/main/kotlin/io/github/rexmtorres/android/composedatepicker/datepicker/ui/viewmodel/DatePickerViewModel.kt:171-182 | the validation as written differs from the intended one exactly when today's day and the day asked for are both past the month's end (day at most 31), and then it accepts an invalid date |
| DateViewModel.AsWrittenAcceptsThirtiethOfFebruary | composeDatePicker/src/main/kotlin/io/github/rexmtorres/android/composedatepicker/datepicker/ui/viewmodel/DatePickerViewModel.kt:171-182 | on the 31st, the validation as written accepts 30 February and the intended one refuses it |
| DateViewModel.WithDate | composeDatePicker/src/main/kotlin/io/github/rexmtorres/android/composedatepicker/datepicker/ui/viewmodel/DatePickerViewModel.kt:184-187 | selecting an accepted date keeps the state valid |
| DateViewModel.SetDateSelects | composeDatePicker/src/main/kotlin/io/github/rexmtorres/android/composedatepicker/datepicker/ui/viewmodel/DatePickerViewModel.kt:184-187 | after a date is set, the year wheel points at its year, its month is shown and selected at 1200 + month, its day is selected, the wheels flag is kept |
| DateViewModel.YearLabelAt | composeDatePicker/src/main/kotlin/io/github/rexmtorres/android/composedatepicker/datepicker/ui/viewmodel/DatePickerViewModel.kt:79-81 | year label i reads back as the year i - yearIndex years from the one shown |
| DateViewModel.DatePickerViewModel.constructor | composeDatePicker/src/main/kotlin/io/github/rexmtorres/android/composedatepicker/datepicker/ui/viewmodel/DatePickerViewModel.kt:24-31 | starts from the default state for today, with the months of this year cached |
| DateViewModel.DatePickerViewModel.SetLocale | composeDatePicker/src/main/kotlin/io/github/rexmtorres/android/composedatepicker/datepicker/ui/viewmodel/DatePickerViewModel.kt:33-47 | the state becomes the locale change of the old one, and the cache holds the new names |
| DateViewModel.DatePickerViewModel.UpdateCurrentVisibleMonth | composeDatePicker/src/main/kotlin/io/github/rexmtorres/android/composedatepicker/datepicker/ui/viewmodel/DatePickerViewModel.kt:49-56 | the state becomes the old one showing that month, index re-centred |
| DateViewModel.DatePickerViewModel.UpdateSelectedMonthIndex | composeDatePicker/src/main/kotlin/io/github/rexmtorres/android/composedatepicker/datepicker/ui/viewmodel/DatePickerViewModel.kt:58-65 | the state becomes the old one with that month index and month index mod 12 shown |
| DateViewModel.DatePickerViewModel.UpdateSelectedDayAndMonth | composeDatePicker/src/main/kotlin/io/github/rexmtorres/android/composedatepicker/datepicker/ui/viewmodel/DatePickerViewModel.kt:67-74 | the state becomes the old one with that day selected in the month shown |
| DateViewModel.DatePickerViewModel.MoveToNextMonth | composeDatePicker/src/main/kotlin/io/github/rexmtorres/android/composedatepicker/datepicker/ui/viewmodel/DatePickerViewModel.kt:76-96 | the state becomes NextMonth of the old one, the cache following a change of year |
| DateViewModel.DatePickerViewModel.MoveToPreviousMonth | composeDatePicker/src/main/kotlin/io/github/rexmtorres/android/composedatepicker/datepicker/ui/viewmodel/DatePickerViewModel.kt:98-118 | the state becomes PreviousMonth of the old one, the cache following a change of year |
| DateViewModel.DatePickerViewModel.UpdateSelectedYearIndex | composeDatePicker/src/main/kotlin/io/github/rexmtorres/android/composedatepicker/datepicker/ui/viewmodel/DatePickerViewModel.kt:122-132 | the state becomes the old one at that year index, showing the same month |
| DateViewModel.DatePickerViewModel.ToggleIsMonthYearViewVisible | composeDatePicker/src/main/kotlin/io/github/rexmtorres/android/composedatepicker/datepicker/ui/viewmodel/DatePickerViewModel.kt:134-151 | the flag flips; a re-centring is scheduled exactly when the wheels were open |
| DateViewModel.DatePickerViewModel.RecentreMonthIndex | composeDatePicker/src/main/kotlin/io/github/rexmtorres/android/composedatepicker/datepicker/ui/viewmodel/DatePickerViewModel.kt:136-143 | the delayed step: the month index moves back to the middle copy |
| DateViewModel.DatePickerViewModel.UpdateUiState | composeDatePicker/src/main/kotlin/io/github/rexmtorres/android/composedatepicker/datepicker/ui/viewmodel/DatePickerViewModel.kt:153-155 | the state is replaced; the cached months stay |
| DateViewModel.DatePickerViewModel.SetDate | composeDatePicker/src/main/kotlin/io/github/rexmtorres/android/composedatepicker/datepicker/ui/viewmodel/DatePickerViewModel.kt:157-188 | the error returned is the validation of the date; an accepted date is selected as WithDate says, a refused one changes nothing |

## Left out

- Rendering: Compose layout, animation, colours and sizing, including `getTopPaddingForItem`, which computes with doubles. Also the configuration builders, and the `TimePicker.kt` wheel, which repeats the `DatePicker.kt` wheel arithmetic modelled in `DatePickerView.WheelRows`.
- Locale lookups: `getMonthNameMap`, `getTimesOfDay` and the day display names call `java.util.Calendar`. The names they return are parameters. A locale that yields other than twelve month names is excluded by `requires`.
- Clock reads: the current year, date and time are parameters.
- Timing of the coroutines: the model puts the delayed steps after the caller's updates. The model does not capture overlapping delays, or a second hour update before the first settling.
- `java.util.Calendar` itself:
  - The weekday of day 1 uses the proleptic Gregorian calendar. The Julian calendar before October 1582, which `GregorianCalendar` uses, is not modelled.
  - The `isLeapYear` extension is not part of this model; the Gregorian rule is assumed.
  - `SelectionLimiter.IsWithinRange` compares dates on (year, month, day). It does not model the times of day that `toCalendar` carries, or the lenient normalisation of invalid dates.
- Integer width: the hidden `hour` offset of the time picker and all indices are unbounded integers. The 32-bit overflow of the offset after about 179 million AM/PM choices is not modelled.
- `DatePickerUiState.kt` has no `locale` field, although `DatePickerViewModel.kt` reads `locale` from the state. The model holds the locale as the state's `monthNames`.
- `LiveData.value` being `null` does not happen after construction, so the null-safe `?.` paths are not modelled.
- `TimeViewModel.TimePickerViewModel.constructor`: the view model starts from `DefaultState`, the corrected default state of the findings below, and not from `DefaultStateAsWritten`.
- `TimeViewModel.TimePickerViewModel.SettleTimeOfDay`: its contract states only the new state. The hour the wheels then show is stated by `TimeViewModel.SettledMeridiemTracksWheel`.
- `TimeViewModel.TimePickerViewModel.UpdateSelectedHourIndex`, `UpdateSelectedMinuteIndex` and `DateViewModel.DatePickerViewModel.UpdateSelectedYearIndex` require an index inside the wheel's table. The wheels only report such indices (`DatePickerView.WheelRows`). `UpdateSelectedMonthIndex` requires a non-negative index for the same reason.
- `TimeViewModel.TimePickerViewModel.UpdateSelectedTimeOfDayIndex` requires the index 0 or 1. The AM/PM wheel has two entries, and a wheel of two entries reports only those two indices (`DatePickerView.WheelRows`).
- `DateViewModel.DatePickerViewModel.SetDate`: it validates with `CheckDate`, the corrected validation of the findings below, and not with `CheckDateAsWritten`. So on the 31st of a month it refuses 30 February of the current year, which the code as written accepts; `DateViewModel.AsWrittenAcceptsThirtiethOfFebruary` states that case.
- `DateViewModel.DatePickerViewModel.UpdateUiState` replaces the state with whatever the caller passes, so it does not keep `Valid()` and does not promise it.
- The `onDateSelected` callback of `DatePicker.kt` and the `observeAsState` plumbing are not modelled. Neither is any other UI wiring.
- The legacy `com.vsnappy1` view model duplicates the date view model, and is not part of this model.
- Excluded dates: there is no exclusion set in `SelectionLimiter.kt`. The code has only the two bounds, and the model follows the code.

## Findings

| source | as written | input that shows it | evidently intended | confidence | as-written member | corrected member |
|---|---|---|---|---|---|---|
| composeDatePicker/src/main/kotlin/io/github/rexmtorres/android/composedatepicker/timepicker/ui/model/TimePickerUiState.kt:32-46 | On a 12-hour clock, the default meridiem adds `12 * AM_PM` to the hour label ("12" at midnight and at noon), then tests the sum for 12..23 | A view model created at 00:00 starts from a default state with PM selected, because 12 + 0 = 12; `getSelectedTime` on that state reads 12:00. At 12:00, 12 + 12 = 24 gives AM, and the state reads 00:00. On screen, the first frame's AM/PM wheel shows the wrong meridiem, and `setLocale` (`timepicker/TimePicker.kt:75`) adds 12 instead of subtracting 12 from the hidden offset (or the reverse at noon). `updateUiState` (`timepicker/TimePicker.kt:82-84`) then replaces the state, but not the offset | PM exactly when the hour of the day is in 12..23, as `getUiStateTimeProvided` does | high, not executed | TimePickerUiState.DefaultStateAsWritten, TimePickerUiState.DefaultTimeOfDayDiffers, TimePickerUiState.MidnightStartsAsPm, TimeViewModel.MidnightDefaultReadsAsNoon | TimePickerUiState.DefaultState |
| composeDatePicker/src/main/kotlin/io/github/rexmtorres/android/composedatepicker/datepicker/ui/viewmodel/DatePickerViewModel.kt:171-182 | `maxDays` is read from a calendar that still holds today's day of the month; a lenient calendar rolls past the end of a short month first | on the 31st of any month, `setDate` accepts 30 February of the current year, because the maximum is read from March (31 days) | the length of the requested month (the calendar's day set to 1 first) | medium, not executed (relies on the lenient `GregorianCalendar`) | DateViewModel.CheckDateAsWritten, DateViewModel.AsWrittenDiffers, DateViewModel.AsWrittenAcceptsThirtiethOfFebruary | DateViewModel.CheckDate, DateViewModel.CheckDateIff |
| composeDatePicker/src/main/kotlin/io/github/rexmtorres/android/composedatepicker/datepicker/DatePicker.kt:472-474 | The highlight compares `selectedYear` with `currentYear`, but the call at lines 166-172 passes the year shown as both, and `selectedMonth` equals any month record with the same name, length and first weekday | with 5 March 2024 selected, paging to March 2030 highlights 5 March 2030. Worse, `DatePicker` calls `setLocale` in its body (`datepicker/DatePicker.kt:99`), so on every recomposition, and `setLocale` rebuilds the selected month for the year shown: after that, the 5th of March is highlighted in every year, and 5 February 2024 selected shows as 5 February 2025 | highlight only the selected date in its own year | high, not executed | DatePickerView.IsSelectedCellAsWritten, DatePickerView.HighlightIgnoresYear, DatePickerView.HighlightInAnotherYear, DatePickerView.LocaleHighlightsEveryYear | DatePickerView.IsSelectedCell, DatePickerView.SelectedCellIsTheSelection |

The time picker calls `setLocale` in its body in the same way (`timepicker/TimePicker.kt:75`). Each recomposition therefore moves the hidden hour offset by 12, and by `TimeViewModel.SetLocaleFlipsSettling` that flips the meridiem that the next hour scroll settles on.
