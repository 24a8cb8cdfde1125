/**
 * The time picker's view model: the state it starts from, the reading of a time back out of the
 * wheel indices, and the wheel updates, with the hidden hour offset that a manual AM/PM choice
 * moves by 12.
 */
module TimeViewModel {
  import opened Wrappers
  import opened Decimal
  import opened MinuteGap
  import opened TimeConstant
  import opened TimePickerUiState
  import KotlinInt
  import Arith
  import Flatten

  /** Why a time given to the picker is refused. */
  datatype TimeError = InvalidHour(hour: int) | InvalidMinute(minute: int)

  /**
   * The state for a time given to the picker. The hour is checked first, then the minute; a time
   * a clock can show is laid out by `StateAt` (minute rounded up, hour carried).
   */
  function GetUiStateTimeProvided(time: TimePickerTime, g: MinuteGap, is24: bool, timesOfDay: seq<string>)
    : (r: Result<TimePickerUiState, TimeError>)
    ensures r.Success? <==> IsClockTime(time)
    ensures r.Success? ==> WellFormed(r.value)
    ensures r.Success? ==> r.value.is24Hour == is24 && r.value.minuteGap == g && r.value.timesOfDay == timesOfDay
    ensures r.Failure? && (time.hour < 0 || time.hour > 23) ==> r.error == InvalidHour(time.hour)
    ensures r.Failure? && 0 <= time.hour <= 23 ==> r.error == InvalidMinute(time.minute)
  {
    if time.hour < 0 || time.hour > 23 then Failure(InvalidHour(time.hour))
    else if time.minute < 0 || time.minute > 59 then Failure(InvalidMinute(time.minute))
    else Success(StateAt(time, g, is24, timesOfDay))
  }

  /** On a 12-hour dial the label of entry `i`, taken modulo 12, is `(i + 1) mod 12`. */
  lemma TwelveHourLabelRem(i: int)
    requires i >= 0
    ensures KotlinInt.Rem(i % 12 + 1, 12) == (i + 1) % 12
  {
  }

  /** What `getSelectedTime` reads from entry `i` of the hour table, before adding 12 for PM. */
  lemma HourLabelReading(is24Hour: bool, i: int)
    requires 0 <= i < |GetHours(is24Hour)|
    ensures IsDecimal(GetHours(is24Hour)[i])
    ensures is24Hour ==> ParseInt(GetHours(is24Hour)[i]) == i % 24
    ensures !is24Hour ==> KotlinInt.Rem(ParseInt(GetHours(is24Hour)[i]), 12) == (i + 1) % 12
  {
    MiddleOfHour(is24Hour);
    HourLabelAt(is24Hour, i);
    TwelveHourLabelRem(i);
  }

  /** What `getSelectedTime` reads from entry `j` of the minute table. */
  lemma MinuteLabelReading(g: MinuteGap, j: int)
    requires 0 <= j < |GetMinutes(g)|
    ensures IsDecimal(GetMinutes(g)[j])
    ensures ParseInt(GetMinutes(g)[j]) == (j % g.IntervalCount()) * g.Gap()
    ensures 0 <= ParseInt(GetMinutes(g)[j]) < 60 && ParseInt(GetMinutes(g)[j]) % g.Gap() == 0
  {
    var n := g.IntervalCount();
    var k := j % n;
    assert 0 <= k < n;
    Flatten.RepeatLength(MinuteLabels(g), REPEAT_COUNT);
    MinuteLabelAt(g, j);
    StepBelow60(g, k);
    Arith.MultipleMod(k, g.Gap());
  }

  /**
   * The hour the wheels show: the hour label read back, on a 12-hour clock taken modulo 12 and
   * plus 12 for PM.
   */
  function SelectedHour(s: TimePickerUiState): (hour: int)
    requires WellFormed(s)
    ensures 0 <= hour <= 23
    ensures hour == if s.is24Hour then s.selectedHourIndex % 24
      else (s.selectedHourIndex + 1) % 12 + (if s.selectedTimeOfDayIndex == 1 then 12 else 0)
  {
    HourLabelReading(s.is24Hour, s.selectedHourIndex);
    var shown := ParseInt(s.hours[s.selectedHourIndex]);
    if s.is24Hour then shown
    else KotlinInt.Rem(shown, 12) + if s.selectedTimeOfDayIndex == 1 then 12 else 0
  }

  /** The minute the wheels show: the minute label read back, a step of the gap. */
  function SelectedMinute(s: TimePickerUiState): (minute: int)
    requires WellFormed(s)
    ensures 0 <= minute <= 59 && minute % s.minuteGap.Gap() == 0
    ensures minute == (s.selectedMinuteIndex % s.minuteGap.IntervalCount()) * s.minuteGap.Gap()
  {
    MinuteLabelReading(s.minuteGap, s.selectedMinuteIndex);
    ParseInt(s.minutes[s.selectedMinuteIndex])
  }

  /** `getSelectedTime`: the time the wheels show, always a clock time on a step of the gap. */
  function SelectedTime(s: TimePickerUiState): (t: TimePickerTime)
    requires WellFormed(s)
    ensures IsClockTime(t) && t.minute % s.minuteGap.Gap() == 0
  {
    TimePickerTime(SelectedHour(s), SelectedMinute(s))
  }

  /** Hours `h` and `h + 24 k` agree on both dials. */
  lemma MiddleIndexMod(h: int)
    requires 0 <= h <= 24
    ensures (2400 + h) % 24 == h % 24
    ensures (1199 + h + 1) % 12 == h % 12
    ensures h <= 23 ==> (1199 + h + 1) % 24 == h
  {
  }

  /** Hour `h` of the day is its hour on the 12-hour dial plus 12 for PM. */
  lemma HalfDayOf(h: int)
    requires 0 <= h <= 24
    ensures h % 12 + (if 12 <= h <= 23 then 12 else 0) == h % 24
  {
  }

  /** On the 12-hour dial, the hour index `h` past the middle with PM for 12..23 reads back `h mod 24`. */
  lemma ReadingAt12(s: TimePickerUiState, h: int)
    requires WellFormed(s) && !s.is24Hour && 0 <= h <= 24
    requires s.selectedHourIndex == 1199 + h
    requires s.selectedTimeOfDayIndex == if 12 <= h <= 23 then 1 else 0
    ensures SelectedHour(s) == h % 24
  {
    MiddleIndexMod(h);
    HalfDayOf(h);
  }

  /** On the 24-hour dial, the hour index `h` past the middle reads back `h mod 24`. */
  lemma ReadingAt24(s: TimePickerUiState, h: int)
    requires WellFormed(s) && s.is24Hour && 0 <= h <= 24
    requires s.selectedHourIndex == 2400 + h
    ensures SelectedHour(s) == h % 24
  {
    MiddleIndexMod(h);
  }

  /**
   * A well-formed state whose hour index is `h` past the middle, whose meridiem is PM exactly for
   * `h` in 12..23 and whose minute index is at the step of `m` reads back as `(h mod 24, m)`.
   */
  lemma ReadingAt(s: TimePickerUiState, h: int, m: int)
    requires WellFormed(s) && 0 <= h <= 24
    requires s.selectedHourIndex == GetMiddleOfHour(s.is24Hour) + h
    requires (s.selectedMinuteIndex % s.minuteGap.IntervalCount()) * s.minuteGap.Gap() == m
    requires s.selectedTimeOfDayIndex == if 12 <= h <= 23 then 1 else 0
    ensures SelectedTime(s) == TimePickerTime(h % 24, m)
  {
    if s.is24Hour {
      ReadingAt24(s, h);
    } else {
      ReadingAt12(s, h);
    }
  }

  /**
   * Round trip: the time read back from the state built for a clock time is that time with its
   * minute rounded up to the gap and the hour carried, modulo 24.
   */
  lemma RoundTrip(time: TimePickerTime, g: MinuteGap, is24: bool, timesOfDay: seq<string>)
    requires IsClockTime(time)
    ensures var r := GetUiStateTimeProvided(time, g, is24, timesOfDay);
      r.Success? && SelectedTime(r.value) == TimePickerTime(CarriedHour(time, g) % 24, NearestNextMinute(time.minute, g))
  {
    var s := StateAt(time, g, is24, timesOfDay);
    assert GetUiStateTimeProvided(time, g, is24, timesOfDay) == Success(s);
    StateAtIndices(time, g, is24, timesOfDay);
    ReadingAt(s, CarriedHour(time, g), NearestNextMinute(time.minute, g));
  }

  /** The round trip on three times with a five-minute gap, on either clock. */
  lemma RoundTripExamples(g: MinuteGap, is24: bool)
    requires g == FIVE || g == TEN
    ensures SelectedTime(GetUiStateTimeProvided(TimePickerTime(5, 7), g, is24, []).value) == TimePickerTime(5, 10)
    ensures SelectedTime(GetUiStateTimeProvided(TimePickerTime(5, 58), g, is24, []).value) == TimePickerTime(6, 0)
    ensures SelectedTime(GetUiStateTimeProvided(TimePickerTime(23, 58), g, is24, []).value) == TimePickerTime(0, 0)
  {
    RoundingExamples(g);
    RoundTrip(TimePickerTime(5, 7), g, is24, []);
    RoundTrip(TimePickerTime(5, 58), g, is24, []);
    RoundTrip(TimePickerTime(23, 58), g, is24, []);
  }

  /** With a gap of five or ten minutes, minute 7 rounds up to 10 and minute 58 wraps to 0. */
  lemma RoundingExamples(g: MinuteGap)
    requires g == FIVE || g == TEN
    ensures NearestNextMinute(7, g) == 10 && NearestNextMinute(58, g) == 0
    ensures CarriedHour(TimePickerTime(5, 7), g) == 5
    ensures CarriedHour(TimePickerTime(5, 58), g) == 6
    ensures CarriedHour(TimePickerTime(23, 58), g) == 24
  {
  }

  /**
   * The default state as written, at midnight on a 12-hour clock, reads back as noon; the intended
   * default reads back as midnight. This holds for every gap.
   */
  lemma MidnightDefaultReadsAsNoon(g: MinuteGap, timesOfDay: seq<string>)
    ensures SelectedTime(DefaultStateAsWritten(TimePickerTime(0, 0), g, false, timesOfDay)) == TimePickerTime(12, 0)
    ensures SelectedTime(DefaultState(TimePickerTime(0, 0), g, false, timesOfDay)) == TimePickerTime(0, 0)
  {
    var t := TimePickerTime(0, 0);
    MidnightStartsAsPm(g, timesOfDay);
    assert NearestNextMinute(0, g) == 0 && CarriedHour(t, g) == 0;
    RoundTrip(t, g, false, timesOfDay);
    var s := StateAt(t, g, false, timesOfDay);
    assert GetUiStateTimeProvided(t, g, false, timesOfDay).value == s;
    assert s.selectedTimeOfDayIndex == 0;
    var w := DefaultStateAsWritten(t, g, false, timesOfDay);
    assert w == s.(selectedTimeOfDayIndex := 1);
    PmIsTwelveHoursLater(s);
    assert s.(selectedTimeOfDayIndex := 0) == s;
    assert SelectedMinute(w) == SelectedMinute(s);
  }

  /**
   * The meridiem that the hour wheel settles on, `offset` being the hidden hour offset: PM exactly
   * when `(index + 1 + offset) % 24`, with Kotlin's truncating remainder, is at least 12.
   */
  function SettledTimeOfDay(index: int, offset: int): (tod: int)
    ensures tod == 0 || tod == 1
    ensures index + 1 + offset >= 0 ==> (tod == 1 <==> (index + 1 + offset) % 24 >= 12)
    ensures index + 1 + offset < 0 ==> tod == 0
  {
    if KotlinInt.Rem(index + 1 + offset, 24) >= 12 then 1 else 0
  }

  /**
   * The hour arithmetic of settling: with an offset that is a multiple of 12, the dial hour of
   * entry `index` plus 12 for the settled PM is `(index + 1 + offset) mod 24`.
   */
  lemma SettledHourArith(index: int, offset: int, tod: int)
    requires offset % 12 == 0 && index + 1 + offset >= 0
    requires tod == if (index + 1 + offset) % 24 >= 12 then 1 else 0
    ensures (index + 1) % 12 + (if tod == 1 then 12 else 0) == (index + 1 + offset) % 24
  {
    var x := index + 1 + offset;
    OffsetCongruent(index + 1, offset);
    HalfDays(x);
  }

  lemma HalfDays(x: int)
    requires x >= 0
    ensures x % 12 + (if x % 24 >= 12 then 12 else 0) == x % 24
  {
    var r := x % 24;
    assert x == r + (2 * (x / 24)) * 12;
    Arith.ModAddMultiple(r, 2 * (x / 24), 12);
    if r >= 12 {
      Arith.DivModUnique(r, 12, 1, r - 12);
    } else {
      Arith.DivModUnique(r, 12, 0, r);
    }
  }

  /**
   * On a 12-hour clock, once the meridiem has settled for the selected hour index with an offset
   * that is a multiple of 12, the time read back has hour `(index + 1 + offset) mod 24`: scrolling
   * the hour wheel walks through the whole day.
   */
  lemma SettledMeridiemTracksWheel(s: TimePickerUiState, index: int, offset: int)
    requires WellFormed(s) && !s.is24Hour && index == s.selectedHourIndex
    requires offset % 12 == 0 && index + 1 + offset >= 0
    ensures var s' := s.(selectedTimeOfDayIndex := SettledTimeOfDay(index, offset));
      WellFormed(s') && SelectedHour(s') == (index + 1 + offset) % 24
  {
    var tod := SettledTimeOfDay(index, offset);
    var s' := s.(selectedTimeOfDayIndex := tod);
    SettledHour(index, offset);
    MeridiemReading(s, tod);
    assert WellFormed(s');
    assert SelectedHour(s') == (index + 1 + offset) % 24;
  }

  lemma SettledHour(index: int, offset: int)
    requires offset % 12 == 0 && index + 1 + offset >= 0
    ensures (index + 1) % 12 + (if SettledTimeOfDay(index, offset) == 1 then 12 else 0) == (index + 1 + offset) % 24
  {
    var tod := SettledTimeOfDay(index, offset);
    assert tod == if (index + 1 + offset) % 24 >= 12 then 1 else 0;
    SettledHourArith(index, offset, tod);
  }

  /** On a 12-hour clock, choosing meridiem `tod` keeps the state well formed and reads back the dial hour plus 12 for PM. */
  lemma MeridiemReading(s: TimePickerUiState, tod: int)
    requires WellFormed(s) && !s.is24Hour && (tod == 0 || tod == 1)
    ensures WellFormed(s.(selectedTimeOfDayIndex := tod))
    ensures SelectedHour(s.(selectedTimeOfDayIndex := tod)) == (s.selectedHourIndex + 1) % 12 + (if tod == 1 then 12 else 0)
  {
  }

  lemma OffsetCongruent(x: int, offset: int)
    requires offset % 12 == 0
    ensures (x + offset) % 12 == x % 12
  {
    assert offset == (offset / 12) * 12;
    Arith.ModAddMultiple(x, offset / 12, 12);
  }

  /** With no offset, the hour `h` places after the middle hour index settles to hour `h` of the day. */
  lemma SettleAtMiddle(s: TimePickerUiState, h: int)
    requires WellFormed(s) && !s.is24Hour && 0 <= h <= 23
    requires s.selectedHourIndex == GetMiddleOfHour(s.is24Hour) + h
    ensures var s' := s.(selectedTimeOfDayIndex := SettledTimeOfDay(s.selectedHourIndex, 0));
      WellFormed(s') && SelectedHour(s') == h
  {
    MiddleOfHour(s.is24Hour);
    MiddleHourWraps(s.selectedHourIndex, h);
    SettledMeridiemTracksWheel(s, s.selectedHourIndex, 0);
  }

  lemma MiddleHourWraps(index: int, h: int)
    requires 0 <= h <= 23 && index == 1199 + h
    ensures (index + 1 + 0) % 24 == h
  {
  }

  /** Moving the offset by 12 flips the settled meridiem; moving it by 24 changes nothing. */
  lemma OffsetFlipsSettledTimeOfDay(index: int, offset: int)
    requires index + 1 + offset >= 0
    ensures SettledTimeOfDay(index, offset + 12) == 1 - SettledTimeOfDay(index, offset)
    ensures SettledTimeOfDay(index, offset + 24) == SettledTimeOfDay(index, offset)
  {
  }

  /** On a 12-hour clock, PM reads back 12 hours later than AM. */
  lemma PmIsTwelveHoursLater(s: TimePickerUiState)
    requires WellFormed(s) && !s.is24Hour
    ensures WellFormed(s.(selectedTimeOfDayIndex := 0)) && WellFormed(s.(selectedTimeOfDayIndex := 1))
    ensures SelectedHour(s.(selectedTimeOfDayIndex := 1)) == SelectedHour(s.(selectedTimeOfDayIndex := 0)) + 12
  {
  }

  /** On a 24-hour clock the meridiem index does not change the time read back. */
  lemma MeridiemIgnoredOn24HourClock(s: TimePickerUiState, tod: int)
    requires WellFormed(s) && s.is24Hour && (tod == 0 || tod == 1)
    ensures WellFormed(s.(selectedTimeOfDayIndex := tod))
    ensures SelectedTime(s.(selectedTimeOfDayIndex := tod)) == SelectedTime(s)
  {
  }

  /**
   * The view model: the state the wheels show and `hour`, the offset that a manual AM/PM choice
   * (and every locale change) moves by 12 and that the hour wheel's meridiem settling adds in.
   */
  class TimePickerViewModel {
    var uiState: TimePickerUiState
    var hour: int

    /** The state is well formed and the offset has only ever moved in steps of 12. */
    ghost predicate Valid()
      reads this
    {
      WellFormed(uiState) && hour % 12 == 0
    }

    /** A fresh view model holds the default state for the clock time `now`, with no offset. */
    constructor(timesOfDay: seq<string>, now: TimePickerTime)
      requires IsClockTime(now)
      ensures Valid()
      ensures uiState == DefaultState(now, FIVE, false, timesOfDay) && hour == 0
    {
      uiState := DefaultState(now, FIVE, false, timesOfDay);
      hour := 0;
    }

    /** Takes the AM/PM names of a new locale; the offset moves by 12 towards the current meridiem. */
    method SetLocale(timesOfDay: seq<string>)
      requires Valid()
      modifies this
      ensures Valid()
      ensures uiState == old(uiState).(timesOfDay := timesOfDay)
      ensures hour == old(hour) + if old(uiState).selectedTimeOfDayIndex == 1 then 12 else -12
    {
      uiState := uiState.(timesOfDay := timesOfDay);
      hour := hour + if uiState.selectedTimeOfDayIndex == 1 then 12 else -12;
    }

    /**
     * Selects hour entry `index` at once. On a 12-hour clock it also schedules the meridiem to
     * settle for `index` (`SettleTimeOfDay`), and says so.
     */
    method UpdateSelectedHourIndex(index: int) returns (settleScheduled: bool)
      requires Valid() && 0 <= index < |uiState.hours|
      modifies this
      ensures Valid()
      ensures uiState == old(uiState).(selectedHourIndex := index) && hour == old(hour)
      ensures settleScheduled == !uiState.is24Hour
    {
      uiState := uiState.(selectedHourIndex := index);
      settleScheduled := !uiState.is24Hour;
    }

    /**
     * The deferred step of `UpdateSelectedHourIndex`: the meridiem settles for `index` and the
     * current offset. When `index` is still the selected entry, `SettledMeridiemTracksWheel` gives
     * the hour the wheels then show.
     */
    method SettleTimeOfDay(index: int)
      requires Valid()
      modifies this
      ensures Valid()
      ensures uiState == old(uiState).(selectedTimeOfDayIndex := SettledTimeOfDay(index, hour)) && hour == old(hour)
    {
      uiState := uiState.(selectedTimeOfDayIndex := SettledTimeOfDay(index, hour));
    }

    /** Selects minute entry `index`; nothing else changes. */
    method UpdateSelectedMinuteIndex(index: int)
      requires Valid() && 0 <= index < |uiState.minutes|
      modifies this
      ensures Valid()
      ensures uiState == old(uiState).(selectedMinuteIndex := index) && hour == old(hour)
    {
      uiState := uiState.(selectedMinuteIndex := index);
    }

    /**
     * A manual AM/PM choice: when it differs from the current one it is taken and the offset moves
     * by +12 (to PM) or -12 (to AM); choosing the current meridiem changes nothing.
     */
    method UpdateSelectedTimeOfDayIndex(index: int)
      requires Valid() && (index == 0 || index == 1)
      modifies this
      ensures Valid()
      ensures index == old(uiState).selectedTimeOfDayIndex ==> uiState == old(uiState) && hour == old(hour)
      ensures index != old(uiState).selectedTimeOfDayIndex ==>
        uiState == old(uiState).(selectedTimeOfDayIndex := index) &&
        hour == old(hour) + if index == 1 then 12 else -12
    {
      if index != uiState.selectedTimeOfDayIndex {
        uiState := uiState.(selectedTimeOfDayIndex := index);
        hour := hour + if index == 1 then 12 else -12;
      }
    }

    /**
     * Replaces the state by the one for the given time; a refused time leaves everything as it
     * was and is reported. The offset is kept either way.
     */
    method UpdateUiState(time: TimePickerTime, g: MinuteGap, is24: bool, timesOfDay: seq<string>)
      returns (error: Option<TimeError>)
      requires Valid()
      modifies this
      ensures Valid() && hour == old(hour)
      ensures var r := GetUiStateTimeProvided(time, g, is24, timesOfDay);
        if r.Success? then error == None && uiState == r.value
        else error == Some(r.error) && uiState == old(uiState)
    {
      var r := GetUiStateTimeProvided(time, g, is24, timesOfDay);
      if r.Success? {
        uiState := r.value;
        error := None;
      } else {
        error := Some(r.error);
      }
    }
  }

  /** Choosing PM and then AM again restores both the state and the offset. */
  method PmThenAmRestores(vm: TimePickerViewModel)
    requires vm.Valid() && vm.uiState.selectedTimeOfDayIndex == 0
    modifies vm
    ensures vm.Valid() && vm.uiState == old(vm.uiState) && vm.hour == old(vm.hour)
  {
    vm.UpdateSelectedTimeOfDayIndex(1);
    vm.UpdateSelectedTimeOfDayIndex(0);
  }

  /**
   * A locale change between two settlings of the same hour entry flips the meridiem they settle
   * on: the offset has moved by 12.
   */
  method SetLocaleFlipsSettling(vm: TimePickerViewModel, timesOfDay: seq<string>, index: int)
    returns (before: int, after: int)
    requires vm.Valid() && 0 <= index < |vm.uiState.hours| && index + 1 + vm.hour >= 12
    modifies vm
    ensures before == 0 || before == 1
    ensures after == 1 - before
  {
    vm.SettleTimeOfDay(index);
    before := vm.uiState.selectedTimeOfDayIndex;
    vm.SetLocale(timesOfDay);
    vm.SettleTimeOfDay(index);
    after := vm.uiState.selectedTimeOfDayIndex;
    OffsetFlipsSettledTimeOfDay(index, old(vm.hour) - 12);
  }
}
