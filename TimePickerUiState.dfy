/**
 * The state behind the three wheels of the time picker: the hour and minute tables with their
 * selected indices, and the AM/PM (meridiem) wheel with its selected index.
 */
module TimePickerUiState {
  import opened Decimal
  import opened MinuteGap
  import opened TimeConstant

  /** A time of day as the picker reports it. */
  datatype TimePickerTime = TimePickerTime(hour: int, minute: int)

  /** A time a clock can show: hour 0..23, minute 0..59. */
  predicate IsClockTime(t: TimePickerTime) {
    0 <= t.hour <= 23 && 0 <= t.minute <= 59
  }

  /** The locale is left out; `timesOfDay` holds the locale's AM/PM names. */
  datatype TimePickerUiState = TimePickerUiState(
    is24Hour: bool,
    minuteGap: MinuteGap,
    hours: seq<string>,
    selectedHourIndex: int,
    minutes: seq<string>,
    selectedMinuteIndex: int,
    timesOfDay: seq<string>,
    selectedTimeOfDayIndex: int)

  /**
   * The tables are the ones for the state's clock mode and gap, both selected indices point into
   * their tables and the meridiem index is AM (0) or PM (1).
   */
  predicate WellFormed(s: TimePickerUiState) {
    && s.hours == GetHours(s.is24Hour)
    && s.minutes == GetMinutes(s.minuteGap)
    && 0 <= s.selectedHourIndex < |s.hours|
    && 0 <= s.selectedMinuteIndex < |s.minutes|
    && (s.selectedTimeOfDayIndex == 0 || s.selectedTimeOfDayIndex == 1)
  }

  /**
   * The hour a time is shown at once its minute is rounded up to the gap: one more than the
   * time's hour when the rounding wraps the minute to 0 (possibly 24).
   */
  function CarriedHour(t: TimePickerTime, g: MinuteGap): int {
    var minute := NearestNextMinute(t.minute, g);
    t.hour + if minute == 0 && t.minute != 0 then 1 else 0
  }

  /** A multiple of the gap beyond the last step of the hour is at least 60. */
  lemma MultipleBeyondLastStep(v: int, g: MinuteGap)
    requires v % g.Gap() == 0 && v > 60 - g.Gap()
    ensures v >= 60
  {
    var gap, n := g.Gap(), g.IntervalCount();
    GapTimesIntervalCount(g);
    var q := v / gap;
    assert v == q * gap;
    assert (n - 1) * gap == 60 - gap;
    Arith.MulCancel(n - 1, q, gap);
    Arith.MulMonotone(n, q, gap);
  }

  /** The hour is carried exactly when the minute lies after the last step of the hour. */
  lemma CarryIff(t: TimePickerTime, g: MinuteGap)
    requires IsClockTime(t)
    ensures CarriedHour(t, g) == if t.minute > 60 - g.Gap() then t.hour + 1 else t.hour
  {
    if g != ONE {
      NearestNextMinuteRoundsUp(t.minute, g);
      var v := RoundUpToGap(t.minute, g.Gap());
      if t.minute > 60 - g.Gap() {
        MultipleBeyondLastStep(v, g);
      }
    }
  }

  /** The minute wheel index that shows minute `minute` of the middle copy. */
  function MinuteIndexOf(minute: int, g: MinuteGap): int {
    GetMiddleOfMinute(g) + minute / g.Gap()
  }

  /**
   * A multiple of the gap below 60 sits in the middle copy of the minute table, at an entry
   * whose label reads back as the minute.
   */
  lemma MinuteIndexOfLabel(minute: int, g: MinuteGap)
    requires 0 <= minute < 60 && minute % g.Gap() == 0
    ensures var i := MinuteIndexOf(minute, g);
      && GetMiddleOfMinute(g) <= i < GetMiddleOfMinute(g) + g.IntervalCount()
      && 0 <= i < |GetMinutes(g)|
      && (i % g.IntervalCount()) * g.Gap() == minute
      && IsDecimal(GetMinutes(g)[i]) && ParseInt(GetMinutes(g)[i]) == minute
  {
    var gap, n := g.Gap(), g.IntervalCount();
    GapTimesIntervalCount(g);
    var k := minute / gap;
    assert minute == k * gap;
    if k >= n {
      Arith.MulMonotone(n, k, gap);
    }
    var i := MinuteIndexOf(minute, g);
    var m := GetMiddleOfMinute(g);
    assert m == (m / n) * n;
    Arith.DivModUnique(i, n, m / n, k);
    MinuteLabelAt(g, i);
  }

  /**
   * The state that starts at clock time `t` as `getUiStateTimeProvided` lays it out: the minute
   * rounded up to the gap, the hour carried, and PM exactly when the carried hour is 12..23.
   */
  function StateAt(t: TimePickerTime, g: MinuteGap, is24Hour: bool, timesOfDay: seq<string>): (s: TimePickerUiState)
    requires IsClockTime(t)
    ensures WellFormed(s)
  {
    var minute := NearestNextMinute(t.minute, g);
    var hour := CarriedHour(t, g);
    NearestNextMinuteInRange(t.minute, g);
    MinuteIndexOfLabel(minute, g);
    MiddleOfHour(is24Hour);
    TimePickerUiState(
      is24Hour, g,
      GetHours(is24Hour), GetMiddleOfHour(is24Hour) + hour,
      GetMinutes(g), MinuteIndexOf(minute, g),
      timesOfDay,
      if 12 <= hour <= 23 then 1 else 0)
  }

  /**
   * Where `StateAt` puts the wheels: the hour index the carried hour past the middle, the minute
   * index the rounded minute's step past the middle, inside the middle copy, and PM exactly when
   * the carried hour is 12..23.
   */
  lemma StateAtIndices(t: TimePickerTime, g: MinuteGap, is24Hour: bool, timesOfDay: seq<string>)
    requires IsClockTime(t)
    ensures var s := StateAt(t, g, is24Hour, timesOfDay);
      var h := CarriedHour(t, g);
      && 0 <= h <= 24
      && s.selectedHourIndex == GetMiddleOfHour(is24Hour) + h
      && s.selectedMinuteIndex == GetMiddleOfMinute(g) + NearestNextMinute(t.minute, g) / g.Gap()
      && GetMiddleOfMinute(g) <= s.selectedMinuteIndex < GetMiddleOfMinute(g) + g.IntervalCount()
      && (s.selectedMinuteIndex % g.IntervalCount()) * g.Gap() == NearestNextMinute(t.minute, g)
      && s.selectedTimeOfDayIndex == if 12 <= h <= 23 then 1 else 0
  {
    CarryIff(t, g);
    NearestNextMinuteInRange(t.minute, g);
    MinuteIndexOfLabel(NearestNextMinute(t.minute, g), g);
  }

  /**
   * The meridiem index of the default state as written: the hour label read back, plus 12 when
   * the clock says PM in 12-hour mode, compared with 12..23.
   */
  function DefaultTimeOfDayAsWritten(t: TimePickerTime, g: MinuteGap, is24Hour: bool): int
    requires IsClockTime(t)
  {
    var index := GetMiddleOfHour(is24Hour) + CarriedHour(t, g);
    var amPm := if t.hour >= 12 then 1 else 0;
    CarryIff(t, g);
    MiddleHourLabel(is24Hour, CarriedHour(t, g));
    var shown := ParseInt(GetHours(is24Hour)[index]);
    if 12 <= shown + (if is24Hour then 0 else 12 * amPm) <= 23 then 1 else 0
  }

  /** The default state as written: the layout of `StateAt` with the meridiem above. */
  function DefaultStateAsWritten(t: TimePickerTime, g: MinuteGap, is24Hour: bool, timesOfDay: seq<string>): (s: TimePickerUiState)
    requires IsClockTime(t)
    ensures WellFormed(s)
  {
    StateAt(t, g, is24Hour, timesOfDay).(selectedTimeOfDayIndex := DefaultTimeOfDayAsWritten(t, g, is24Hour))
  }

  /**
   * The default state as evidently intended, read from the clock time `t`: the same state that an
   * explicit start at `t` builds.
   */
  function DefaultState(t: TimePickerTime, g: MinuteGap, is24Hour: bool, timesOfDay: seq<string>): (s: TimePickerUiState)
    requires IsClockTime(t)
    ensures WellFormed(s)
    ensures s.selectedTimeOfDayIndex == if 12 <= CarriedHour(t, g) <= 23 then 1 else 0
  {
    StateAt(t, g, is24Hour, timesOfDay)
  }

  /**
   * The as-written meridiem disagrees with the intended one exactly on a 12-hour clock at hour 0
   * or 12 with no carry: midnight starts as PM and noon as AM.
   */
  lemma DefaultTimeOfDayDiffers(t: TimePickerTime, g: MinuteGap, is24Hour: bool)
    requires IsClockTime(t)
    ensures DefaultTimeOfDayAsWritten(t, g, is24Hour) != (if 12 <= CarriedHour(t, g) <= 23 then 1 else 0)
      <==> !is24Hour && (t.hour == 0 || t.hour == 12) && CarriedHour(t, g) == t.hour
  {
    DefaultTimeOfDayAsWrittenDial(t, g, is24Hour);
    CarryIff(t, g);
    MeridiemDiffers(is24Hour, t.hour, CarriedHour(t, g));
  }

  /** The as-written meridiem, with the hour label read back as the dial hour. */
  lemma DefaultTimeOfDayAsWrittenDial(t: TimePickerTime, g: MinuteGap, is24Hour: bool)
    requires IsClockTime(t)
    ensures var amPm := if t.hour >= 12 then 1 else 0;
      DefaultTimeOfDayAsWritten(t, g, is24Hour) ==
      if 12 <= DialHour(is24Hour, CarriedHour(t, g)) + (if is24Hour then 0 else 12 * amPm) <= 23 then 1 else 0
  {
    CarryIff(t, g);
    MiddleHourLabel(is24Hour, CarriedHour(t, g));
  }

  lemma MeridiemDiffers(is24Hour: bool, clockHour: int, h: int)
    requires 0 <= clockHour <= 23 && (h == clockHour || h == clockHour + 1)
    ensures var amPm := if clockHour >= 12 then 1 else 0;
      (12 <= DialHour(is24Hour, h) + (if is24Hour then 0 else 12 * amPm) <= 23) != (12 <= h <= 23)
      <==> !is24Hour && (clockHour == 0 || clockHour == 12) && h == clockHour
  {
  }

  /** At midnight on a 12-hour clock the default state as written selects PM, whatever the gap. */
  lemma MidnightStartsAsPm(g: MinuteGap, timesOfDay: seq<string>)
    ensures DefaultStateAsWritten(TimePickerTime(0, 0), g, false, timesOfDay).selectedTimeOfDayIndex == 1
    ensures DefaultState(TimePickerTime(0, 0), g, false, timesOfDay).selectedTimeOfDayIndex == 0
  {
    assert NearestNextMinute(0, g) == 0;
    assert CarriedHour(TimePickerTime(0, 0), g) == 0;
    DefaultTimeOfDayDiffers(TimePickerTime(0, 0), g, false);
  }
}
