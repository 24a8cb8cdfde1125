/**
 * The days of the week as the date picker names them, with the numbers `java.util.Calendar`
 * gives them: SUNDAY is 1 and SATURDAY is 7.
 */
module Days {

  datatype Day = SUNDAY | MONDAY | TUESDAY | WEDNESDAY | THURSDAY | FRIDAY | SATURDAY {

    /** The `Calendar.DAY_OF_WEEK` value of the day. */
    function Number(): (n: int)
      ensures 1 <= n <= 7
    {
      match this
      case SUNDAY => 1
      case MONDAY => 2
      case TUESDAY => 3
      case WEDNESDAY => 4
      case THURSDAY => 5
      case FRIDAY => 6
      case SATURDAY => 7
    }
  }

  /** `Days.get`: the day with number `number`; every number outside 1..6 gives SATURDAY. */
  function Get(number: int): (d: Day)
    ensures 1 <= number <= 6 ==> d.Number() == number
    ensures number < 1 || number > 6 ==> d == SATURDAY
  {
    match number
    case 1 => SUNDAY
    case 2 => MONDAY
    case 3 => TUESDAY
    case 4 => WEDNESDAY
    case 5 => THURSDAY
    case 6 => FRIDAY
    case _ => SATURDAY
  }

  /** `get` undoes `number`. */
  lemma GetNumber(d: Day)
    ensures Get(d.Number()) == d
  {
  }

  /** `number` undoes `get` on 1..7, so `get` maps 1..7 onto the seven days. */
  lemma NumberGet(n: int)
    requires 1 <= n <= 7
    ensures Get(n).Number() == n
  {
  }

  /** No two days share a number. */
  lemma NumbersDistinct(d: Day, e: Day)
    ensures d.Number() == e.Number() <==> d == e
  {
    GetNumber(d);
    GetNumber(e);
  }
}
