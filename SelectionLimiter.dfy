/**
 * The range of dates a user may pick: an optional first and an optional last selectable date,
 * both inclusive.
 */
module SelectionLimiter {
  import opened Wrappers
  import opened DatePickerDate

  datatype SelectionLimiter = SelectionLimiter(fromDate: Option<DatePickerDate>, toDate: Option<DatePickerDate>)

  /** `SelectionLimiter.unlimited()`: no bounds. */
  function Unlimited(): SelectionLimiter {
    SelectionLimiter(None, None)
  }

  /** `isWithinRange`: the date lies strictly between the bounds that are set, or is one of them. */
  predicate IsWithinRange(l: SelectionLimiter, date: DatePickerDate) {
    match (l.fromDate, l.toDate)
    case (None, None) => true
    case (Some(from), Some(to)) => (Before(date, to) && Before(from, date)) || date == to || date == from
    case (Some(from), None) => Before(from, date) || date == from
    case (None, Some(to)) => Before(date, to) || date == to
  }

  /** Without bounds every date is accepted. */
  lemma UnlimitedAcceptsAll(date: DatePickerDate)
    ensures IsWithinRange(Unlimited(), date)
  {
  }

  /** With only a first date, a date is accepted exactly when it does not come before it. */
  lemma FromOnly(from: DatePickerDate, date: DatePickerDate)
    ensures IsWithinRange(SelectionLimiter(Some(from), None), date) <==> !Before(date, from)
  {
    Trichotomy(from, date);
  }

  /** With only a last date, a date is accepted exactly when it does not come after it. */
  lemma ToOnly(to: DatePickerDate, date: DatePickerDate)
    ensures IsWithinRange(SelectionLimiter(None, Some(to)), date) <==> !Before(to, date)
  {
    Trichotomy(date, to);
  }

  /**
   * With both bounds in order, a date is accepted exactly when both one-sided limits accept it:
   * the range is the closed interval between the bounds.
   */
  lemma BothBounds(from: DatePickerDate, to: DatePickerDate, date: DatePickerDate)
    requires !Before(to, from)
    ensures IsWithinRange(SelectionLimiter(Some(from), Some(to)), date) <==>
      IsWithinRange(SelectionLimiter(Some(from), None), date) && IsWithinRange(SelectionLimiter(None, Some(to)), date)
  {
    Trichotomy(from, date);
    Trichotomy(date, to);
    Trichotomy(from, to);
    if Before(from, date) && date == to {
      assert Before(from, to);
    }
  }

  /** A bound that is set is itself accepted. */
  lemma BoundsInclusive(l: SelectionLimiter)
    ensures l.fromDate.Some? ==> IsWithinRange(l, l.fromDate.value)
    ensures l.toDate.Some? ==> IsWithinRange(l, l.toDate.value)
  {
  }

  /** With the bounds the wrong way round, only the two bound dates are accepted. */
  lemma InvertedBounds(from: DatePickerDate, to: DatePickerDate, date: DatePickerDate)
    requires Before(to, from)
    ensures IsWithinRange(SelectionLimiter(Some(from), Some(to)), date) <==> date == from || date == to
  {
    if Before(date, to) && Before(from, date) {
      BeforeTransitive(from, date, to);
      Trichotomy(from, to);
    }
  }

  /** With the first selectable date 10 January 2024 and no last one, 9 January is refused. */
  lemma FromExample()
    ensures !IsWithinRange(SelectionLimiter(Some(DatePickerDate(2024, 0, 10)), None), DatePickerDate(2024, 0, 9))
    ensures IsWithinRange(SelectionLimiter(Some(DatePickerDate(2024, 0, 10)), None), DatePickerDate(2024, 0, 10))
    ensures IsWithinRange(SelectionLimiter(Some(DatePickerDate(2024, 0, 10)), None), DatePickerDate(2024, 0, 11))
  {
  }
}
