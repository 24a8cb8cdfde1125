/** The minute granularity of the time picker: the step between two minute labels. */
module MinuteGap {

  datatype MinuteGap = ONE | FIVE | TEN | FIFTEEN | THIRTY {

    /** The step, in minutes, between two consecutive minute labels. */
    function Gap(): (g: int)
      ensures 0 < g <= 30 && 60 % g == 0
    {
      match this
      case ONE => 1
      case FIVE => 5
      case TEN => 10
      case FIFTEEN => 15
      case THIRTY => 30
    }

    /** How many minute labels one hour holds. */
    function IntervalCount(): (n: int)
      ensures n >= 2
    {
      match this
      case ONE => 60
      case FIVE => 12
      case TEN => 6
      case FIFTEEN => 4
      case THIRTY => 2
    }
  }

  /** The steps of one hour cover it exactly. */
  lemma GapTimesIntervalCount(g: MinuteGap)
    ensures g.Gap() * g.IntervalCount() == 60
    ensures g.IntervalCount() == 60 / g.Gap()
  {
  }
}
