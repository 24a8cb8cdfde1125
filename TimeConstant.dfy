/**
 * The label tables behind the hour and minute wheels of the time picker and the rounding of a
 * minute to the chosen step. Each table is a base list repeated `REPEAT_COUNT` times, so that
 * the wheel looks circular; the selection starts near the middle copy.
 */
module TimeConstant {
  import opened Decimal
  import opened Flatten
  import opened MinuteGap
  import Arith

  const REPEAT_COUNT: nat := 200

  /** Number of labels in one copy of the hour table. */
  function HourCount(is24Hour: bool): nat {
    if is24Hour then 24 else 12
  }

  /** One copy of the hour labels: "0".."23" on a 24-hour clock, "1".."12" on a 12-hour clock. */
  function FindHours(is24Hour: bool): seq<string> {
    if is24Hour then seq(24, i requires 0 <= i => NatToString(i))
    else seq(12, i requires 0 <= i => NatToString(i + 1))
  }

  /** Hour label `i` of one copy reads back as `i` (24-hour) or `i + 1` (12-hour). */
  lemma HourLabel(is24Hour: bool, i: int)
    requires 0 <= i < HourCount(is24Hour)
    ensures |FindHours(is24Hour)| == HourCount(is24Hour)
    ensures IsDecimal(FindHours(is24Hour)[i])
    ensures ParseInt(FindHours(is24Hour)[i]) == if is24Hour then i else i + 1
  {
    var n: nat := if is24Hour then i else i + 1;
    assert FindHours(is24Hour)[i] == NatToString(n);
    ParseNatToString(n);
  }

  function GetHours(is24Hour: bool): seq<string> {
    Repeat(FindHours(is24Hour), REPEAT_COUNT)
  }

  /** Entry `i` of the hour table repeats entry `i mod HourCount` of one copy. */
  lemma GetHoursAt(is24Hour: bool, i: int)
    requires 0 <= i < REPEAT_COUNT * HourCount(is24Hour)
    ensures |GetHours(is24Hour)| == REPEAT_COUNT * HourCount(is24Hour)
    ensures GetHours(is24Hour)[i] == FindHours(is24Hour)[i % HourCount(is24Hour)]
  {
    RepeatAt(FindHours(is24Hour), REPEAT_COUNT, i);
  }

  /** What `toInt()` reads from entry `i` of the hour table. */
  lemma HourLabelAt(is24Hour: bool, i: int)
    requires 0 <= i < REPEAT_COUNT * HourCount(is24Hour)
    ensures |GetHours(is24Hour)| == REPEAT_COUNT * HourCount(is24Hour)
    ensures IsDecimal(GetHours(is24Hour)[i])
    ensures ParseInt(GetHours(is24Hour)[i]) == if is24Hour then i % 24 else i % 12 + 1
  {
    GetHoursAt(is24Hour, i);
    HourLabel(is24Hour, i % HourCount(is24Hour));
  }

  function GetMiddleOfHour(is24Hour: bool): int {
    if is24Hour then 24 * (REPEAT_COUNT / 2) else 12 * (REPEAT_COUNT / 2) - 1
  }

  /**
   * The middle hour index is the start of the middle copy on a 24-hour clock and the last entry
   * of the copy before it on a 12-hour clock; both lie inside the table and leave room for every
   * hour 0..24 after them.
   */
  lemma MiddleOfHour(is24Hour: bool)
    ensures GetMiddleOfHour(is24Hour) == if is24Hour then 2400 else 1199
    ensures |GetHours(is24Hour)| == REPEAT_COUNT * HourCount(is24Hour)
    ensures GetMiddleOfHour(is24Hour) + 24 < |GetHours(is24Hour)|
  {
    GetHoursAt(is24Hour, 0);
  }

  /** On a 12-hour clock the middle hour index shows "12". */
  lemma MiddleHourIsTwelve(is24Hour: bool)
    requires !is24Hour
    ensures 0 <= GetMiddleOfHour(is24Hour) < |GetHours(is24Hour)|
    ensures GetHours(is24Hour)[GetMiddleOfHour(is24Hour)] == "12"
  {
    MiddleOfHour(is24Hour);
    GetHoursAt(is24Hour, 1199);
    assert FindHours(is24Hour)[11] == NatToString(12);
    assert NatToString(12) == NatToString(1) + [DigitChar(2)];
  }

  /** The hour `h` hours after midnight shows on the dial: 0..23, or 1..12 with 12 for 0, 12 and 24. */
  function DialHour(is24Hour: bool, h: int): int {
    if is24Hour then (if h == 24 then 0 else h)
    else if h == 0 || h == 24 then 12 else if h <= 12 then h else h - 12
  }

  lemma DialHourMod(h: int)
    requires 0 <= h <= 24
    ensures (1199 + h) % 12 + 1 == DialHour(false, h)
    ensures (2400 + h) % 24 == DialHour(true, h)
  {
  }

  /** Entry `h` places after the middle hour index reads back as hour `h` on the dial. */
  lemma MiddleHourLabel(is24Hour: bool, h: int)
    requires 0 <= h <= 24
    ensures var i := GetMiddleOfHour(is24Hour) + h;
      && 0 <= i < |GetHours(is24Hour)|
      && IsDecimal(GetHours(is24Hour)[i])
      && ParseInt(GetHours(is24Hour)[i]) == DialHour(is24Hour, h)
  {
    MiddleOfHour(is24Hour);
    HourLabelAt(is24Hour, GetMiddleOfHour(is24Hour) + h);
    if is24Hour {
      MiddleDialHour24(is24Hour, h);
    } else {
      MiddleDialHour12(is24Hour, h);
    }
  }

  lemma MiddleDialHour24(is24Hour: bool, h: int)
    requires is24Hour && 0 <= h <= 24
    ensures (GetMiddleOfHour(is24Hour) + h) % 24 == DialHour(is24Hour, h)
  {
    DialHourMod(h);
    assert GetMiddleOfHour(is24Hour) + h == 2400 + h;
  }

  lemma MiddleDialHour12(is24Hour: bool, h: int)
    requires !is24Hour && 0 <= h <= 24
    ensures (GetMiddleOfHour(is24Hour) + h) % 12 + 1 == DialHour(is24Hour, h)
  {
    DialHourMod(h);
    assert GetMiddleOfHour(is24Hour) + h == 1199 + h;
  }

  /** The label of a minute value: at least two characters, padded with '0'. */
  function MinuteLabel(value: nat): string {
    PadStart(NatToString(value), 2, '0')
  }

  /** The first `count` minute labels for step `gap`: entry `k` shows minute `k * gap`. */
  function LabelsUpTo(gap: int, count: nat): seq<string>
    requires gap > 0
  {
    seq(count, k requires 0 <= k => MinuteLabel(k * gap))
  }

  /** One copy of the minute labels for gap `g`: entry `k` shows minute `k * g.Gap()`. */
  function MinuteLabels(g: MinuteGap): seq<string> {
    LabelsUpTo(g.Gap(), g.IntervalCount())
  }

  lemma LabelsUpToNext(gap: int, count: nat)
    requires gap > 0
    ensures LabelsUpTo(gap, count + 1) == LabelsUpTo(gap, count) + [MinuteLabel(count * gap)]
  {
  }

  /** Builds one copy of the minute labels by counting up from 0 in steps of the gap. */
  method FindMinutes(g: MinuteGap) returns (list: seq<string>)
    ensures list == MinuteLabels(g)
  {
    var gap, n := g.Gap(), g.IntervalCount();
    GapTimesIntervalCount(g);
    var value := 0;
    list := [];
    while value < 60
      invariant 0 <= |list| <= n && value == |list| * gap
      invariant list == LabelsUpTo(gap, |list|)
      decreases 60 - value
    {
      StepWithinHour(gap, n, |list|);
      LabelsUpToNext(gap, |list|);
      list := list + [MinuteLabel(value)];
      value := value + gap;
    }
    StepsFillHour(gap, n, |list|);
  }

  /** Below 60, another step of the gap still fits in the hour. */
  lemma StepWithinHour(gap: int, n: int, count: int)
    requires gap > 0 && n * gap == 60 && 0 <= count <= n && count * gap < 60
    ensures count + 1 <= n && (count + 1) * gap == count * gap + gap
  {
    if count >= n {
      Arith.MulMonotone(n, count, gap);
    }
  }

  /** Counting up reaches 60 after exactly `n` steps. */
  lemma StepsFillHour(gap: int, n: int, count: int)
    requires gap > 0 && n * gap == 60 && 0 <= count <= n && count * gap >= 60
    ensures count == n
  {
    if count < n {
      assert (n - 1) * gap == 60 - gap;
      Arith.MulMonotone(count, n - 1, gap);
    }
  }

  /** The label of a minute of the clock is two characters long and reads back as the minute. */
  lemma MinuteLabelOf(v: nat)
    requires v < 60
    ensures |MinuteLabel(v)| == 2
    ensures IsDecimal(MinuteLabel(v)) && ParseInt(MinuteLabel(v)) == v
  {
    ParsePaddedNat(v, 2);
    if v >= 10 {
      assert NatToString(v) == NatToString(v / 10) + [DigitChar(v % 10)];
    }
  }

  /** Minute label `k` of one copy is two characters long and reads back as `k * g.Gap()`. */
  lemma MinuteLabelValue(g: MinuteGap, k: int)
    requires 0 <= k < g.IntervalCount()
    ensures |MinuteLabels(g)| == g.IntervalCount()
    ensures 0 <= k * g.Gap() < 60
    ensures MinuteLabels(g)[k] == MinuteLabel(k * g.Gap())
    ensures |MinuteLabels(g)[k]| == 2
    ensures IsDecimal(MinuteLabels(g)[k]) && ParseInt(MinuteLabels(g)[k]) == k * g.Gap()
  {
    StepBelow60(g, k);
    LabelsUpToAt(g.Gap(), g.IntervalCount(), k);
  }

  lemma LabelsUpToAt(gap: int, n: nat, k: int)
    requires gap > 0 && 0 <= k < n && 0 <= k * gap < 60
    ensures |LabelsUpTo(gap, n)| == n
    ensures LabelsUpTo(gap, n)[k] == MinuteLabel(k * gap)
    ensures |LabelsUpTo(gap, n)[k]| == 2
    ensures IsDecimal(LabelsUpTo(gap, n)[k]) && ParseInt(LabelsUpTo(gap, n)[k]) == k * gap
  {
    assert LabelsUpTo(gap, n)[k] == MinuteLabel(k * gap);
    MinuteLabelOf(k * gap);
  }

  /** Step `k` of one copy lies in the hour, at least one gap before its end. */
  lemma StepBelow60(g: MinuteGap, k: int)
    requires 0 <= k < g.IntervalCount()
    ensures 0 <= k * g.Gap() <= 60 - g.Gap()
  {
    var gap, n := g.Gap(), g.IntervalCount();
    GapTimesIntervalCount(g);
    Arith.MulMonotone(0, k, gap);
    Arith.MulMonotone(k, n - 1, gap);
    assert (n - 1) * gap == 60 - gap;
  }

  /** Two minute values with the same label are the same value. */
  lemma MinuteLabelInjective(v: nat, w: nat)
    requires MinuteLabel(v) == MinuteLabel(w)
    ensures v == w
  {
    ParsePaddedNat(v, 2);
    ParsePaddedNat(w, 2);
  }

  /** Does one copy of the minute table for gap `g` show minute `v`? */
  predicate Displays(g: MinuteGap, v: nat) {
    exists k :: 0 <= k < g.IntervalCount() && MinuteLabels(g)[k] == MinuteLabel(v)
  }

  /** The minute table for gap `g` shows exactly the multiples of the gap below 60. */
  lemma DisplaysIff(g: MinuteGap, v: nat)
    ensures Displays(g, v) <==> v < 60 && v % g.Gap() == 0
  {
    if Displays(g, v) {
      DisplayedIsMultiple(g, v);
    }
    if v < 60 && v % g.Gap() == 0 {
      MultipleIsDisplayed(g, v);
    }
  }

  lemma SameLabelMultiple(gap: int, k: int, v: nat)
    requires gap > 0 && 0 <= k * gap < 60 && MinuteLabel(k * gap) == MinuteLabel(v)
    ensures v < 60 && v % gap == 0
  {
    MinuteLabelInjective(v, k * gap);
    Arith.ModAddMultiple(0, k, gap);
  }

  lemma DisplayedIsMultiple(g: MinuteGap, v: nat)
    requires Displays(g, v)
    ensures v < 60 && v % g.Gap() == 0
  {
    var k :| 0 <= k < g.IntervalCount() && MinuteLabels(g)[k] == MinuteLabel(v);
    StepBelow60(g, k);
    LabelsUpToAt(g.Gap(), g.IntervalCount(), k);
    SameLabelMultiple(g.Gap(), k, v);
  }

  lemma MultipleIsDisplayed(g: MinuteGap, v: nat)
    requires v < 60 && v % g.Gap() == 0
    ensures Displays(g, v)
  {
    GapTimesIntervalCount(g);
    var k := v / g.Gap();
    assert v == k * g.Gap();
    if k >= g.IntervalCount() {
      Arith.MulMonotone(g.IntervalCount(), k, g.Gap());
    }
    MinuteLabelValue(g, k);
  }

  /** ONE displays every minute 0..59. */
  lemma OneDisplaysEveryMinute(v: nat)
    ensures Displays(ONE, v) <==> v < 60
  {
    DisplaysIff(ONE, v);
  }

  /** FIVE displays 0, 5, ..., 55. */
  lemma FiveDisplays(v: nat)
    ensures Displays(FIVE, v) <==> v < 60 && v % 5 == 0
  {
    DisplaysIff(FIVE, v);
  }

  lemma MultiplesBelow60(v: nat, d: int)
    requires d == 10 || d == 15
    ensures v < 60 && v % d == 0 <==> v == 0 || v == d || v == 2 * d || v == 3 * d || (d == 10 && (v == 40 || v == 50))
  {
    if v < 60 && v % d == 0 {
      var q := v / d;
      assert v == d * q;
      assert q < 60 / d;
    }
  }

  /** TEN displays 0, 10, ..., 50. */
  lemma TenDisplays(v: nat)
    ensures Displays(TEN, v) <==> v == 0 || v == 10 || v == 20 || v == 30 || v == 40 || v == 50
  {
    DisplaysIff(TEN, v);
    MultiplesBelow60(v, 10);
  }

  /** FIFTEEN displays 0, 15, 30 and 45. */
  lemma FifteenDisplays(v: nat)
    ensures Displays(FIFTEEN, v) <==> v == 0 || v == 15 || v == 30 || v == 45
  {
    DisplaysIff(FIFTEEN, v);
    MultiplesBelow60(v, 15);
  }

  /** THIRTY displays exactly 0 and 30. */
  lemma ThirtyDisplays(v: nat)
    ensures Displays(THIRTY, v) <==> v == 0 || v == 30
  {
    DisplaysIff(THIRTY, v);
    if v < 60 && v % 30 == 0 {
      var q := v / 30;
      assert v == 30 * q && q < 2;
    }
  }

  function GetMinutes(g: MinuteGap): seq<string> {
    Repeat(MinuteLabels(g), REPEAT_COUNT)
  }

  /** Entry `i` of the minute table repeats entry `i mod IntervalCount` of one copy. */
  lemma GetMinutesAt(g: MinuteGap, i: int)
    requires 0 <= i < REPEAT_COUNT * g.IntervalCount()
    ensures |GetMinutes(g)| == REPEAT_COUNT * g.IntervalCount()
    ensures GetMinutes(g)[i] == MinuteLabels(g)[i % g.IntervalCount()]
  {
    RepeatAt(MinuteLabels(g), REPEAT_COUNT, i);
  }

  /** What `toInt()` reads from entry `i` of the minute table. */
  lemma MinuteLabelAt(g: MinuteGap, i: int)
    requires 0 <= i < REPEAT_COUNT * g.IntervalCount()
    ensures |GetMinutes(g)| == REPEAT_COUNT * g.IntervalCount()
    ensures IsDecimal(GetMinutes(g)[i])
    ensures ParseInt(GetMinutes(g)[i]) == (i % g.IntervalCount()) * g.Gap()
  {
    GetMinutesAt(g, i);
    MinuteLabelValue(g, i % g.IntervalCount());
  }

  /** The middle minute index is the first label, "00", of the middle copy. */
  function GetMiddleOfMinute(g: MinuteGap): (r: int)
    ensures r % g.IntervalCount() == 0
    ensures 0 < r && r + g.IntervalCount() <= |GetMinutes(g)|
  {
    RepeatLength(MinuteLabels(g), REPEAT_COUNT);
    g.IntervalCount() * (REPEAT_COUNT / 2)
  }

  /**
   * The least multiple of `gap` that is at least `minute`; counting up from 0 gives 0 for a
   * minute that is not positive.
   */
  function RoundUpToGap(minute: int, gap: int): (v: int)
    requires gap > 0
    ensures v >= 0 && v % gap == 0 && v >= minute
    ensures v == 0 || v - gap < minute
  {
    if minute <= 0 then 0
    else
      var q := (minute + gap - 1) / gap;
      assert minute + gap - 1 == q * gap + (minute + gap - 1) % gap;
      Arith.ModAddMultiple(0, q, gap);
      q * gap
  }

  /** The minute that the time picker shows for `minute`: rounded up to the gap, 60 wrapping to 0. */
  function NearestNextMinute(minute: int, g: MinuteGap): int {
    if g.Gap() == 1 then minute
    else
      var v := RoundUpToGap(minute, g.Gap());
      if v >= 60 then 0 else v
  }

  method GetNearestNextMinute(minute: int, g: MinuteGap) returns (r: int)
    ensures r == NearestNextMinute(minute, g)
  {
    if g.Gap() == 1 {
      return minute;
    }
    var gap := g.Gap();
    var value := 0;
    ghost var k := 0;
    while value < minute
      invariant value == k * gap && k >= 0
      invariant value == 0 || value - gap < minute
      decreases minute - value
    {
      value := value + gap;
      k := k + 1;
    }
    assert value == RoundUpToGap(minute, gap) by {
      if minute > 0 {
        var rem := minute - 1 - (k - 1) * gap;
        assert minute + gap - 1 == k * gap + rem;
        Arith.DivModUnique(minute + gap - 1, gap, k, rem);
      }
    }
    r := if value >= 60 then 0 else value;
  }

  /** With gap 1 the minute is kept as it is. */
  lemma NearestNextMinuteOfGapOne(minute: int)
    ensures NearestNextMinute(minute, ONE) == minute
  {
  }

  /** A multiple of the gap is already rounded. */
  lemma RoundUpOfMultiple(r: int, gap: int)
    requires gap > 0 && r >= 0 && r % gap == 0
    ensures RoundUpToGap(r, gap) == r
  {
    var v := RoundUpToGap(r, gap);
    if r > 0 {
      var q, q' := r / gap, v / gap;
      assert r == q * gap && v == q' * gap;
      Arith.MulCancelLe(q, q', gap);
      assert (q' - 1) * gap == v - gap;
      Arith.MulCancel(q' - 1, q, gap);
    }
  }

  /** Rounding a minute of the clock up never passes 60, which is itself a multiple of the gap. */
  lemma RoundUpAtMost60(minute: int, g: MinuteGap)
    requires 0 <= minute <= 60
    ensures RoundUpToGap(minute, g.Gap()) <= 60
  {
    GapTimesIntervalCount(g);
    MultipleAtMost60(RoundUpToGap(minute, g.Gap()), g.Gap(), g.IntervalCount());
  }

  /** A multiple of the gap less than one gap past 60 is at most 60. */
  lemma MultipleAtMost60(v: int, gap: int, n: int)
    requires gap > 0 && n * gap == 60 && v >= 0 && v % gap == 0 && v - gap < 60
    ensures v <= 60
  {
    var q := v / gap;
    Arith.DivModUnique(v, gap, q, 0);
    assert (q - 1) * gap == v - gap;
    Arith.MulCancel(q - 1, n, gap);
    Arith.MulMonotone(q, n, gap);
  }

  /**
   * With a gap above 1, a minute of the clock is rounded to the least multiple of the gap that is
   * at least the minute, or to 0 when that multiple is 60.
   */
  lemma NearestNextMinuteRoundsUp(minute: int, g: MinuteGap)
    requires 0 <= minute <= 59 && g != ONE
    ensures var r := NearestNextMinute(minute, g);
      0 <= r < 60 && r % g.Gap() == 0 &&
      (r != 0 ==> minute <= r && r - g.Gap() < minute) &&
      (r == 0 && minute != 0 ==> 60 - g.Gap() < minute)
  {
    RoundUpAtMost60(minute, g);
  }

  /** For every minute of the clock the result is a multiple of the gap in [0, 60). */
  lemma NearestNextMinuteInRange(minute: int, g: MinuteGap)
    requires 0 <= minute <= 59
    ensures var r := NearestNextMinute(minute, g); 0 <= r < 60 && r % g.Gap() == 0
  {
    if g != ONE {
      NearestNextMinuteRoundsUp(minute, g);
    }
  }

  /** Rounding a rounded minute changes nothing. */
  lemma NearestNextMinuteIdempotent(minute: int, g: MinuteGap)
    requires 0 <= minute <= 59
    ensures NearestNextMinute(NearestNextMinute(minute, g), g) == NearestNextMinute(minute, g)
  {
    if g != ONE {
      var r := NearestNextMinute(minute, g);
      NearestNextMinuteRoundsUp(minute, g);
      RoundUpOfMultiple(r, g.Gap());
    }
  }
}
