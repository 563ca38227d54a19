/**
 * Local wall-clock time as the timer sees it.
 *
 * An instant is a whole number of milliseconds on the local wall clock,
 * counted from a local midnight. Every day is exactly 86,400,000 ms long:
 * calendar months, leap seconds and daylight-saving days of 23 or 25 hours
 * are abstracted away. Under that assumption the calendar day of an
 * instant and its time of day are its floor quotient and remainder by the
 * length of a day (Dafny's Euclidean `/` and `%` are exactly that for a
 * positive divisor, also for instants before the origin).
 */
module Clock {

  const MsPerSecond: int := 1000
  const MsPerMinute: int := 60000
  const MsPerHour: int := 3600000
  const MsPerDay: int := 86400000

  /** The calendar day an instant falls on. */
  function Day(t: int): (d: int)
  {
    t / MsPerDay
  }

  /** Milliseconds elapsed since the local midnight that starts the day of `t`. */
  function TimeOfDay(t: int): (r: int)
    ensures 0 <= r < MsPerDay
    ensures t == Day(t) * MsPerDay + r
  {
    t % MsPerDay
  }

  /** The day and time of day of an instant are the unique such pair. */
  lemma {:induction false} SplitUnique(t: int, day: int, tod: int)
    requires 0 <= tod < MsPerDay
    requires t == day * MsPerDay + tod
    ensures Day(t) == day && TimeOfDay(t) == tod
  {
  }

  /**
   * Moving an instant by whole days moves its calendar day by that many
   * days and leaves its time of day alone.
   */
  lemma {:induction false} ShiftByDays(t: int, k: int)
    ensures Day(t + k * MsPerDay) == Day(t) + k
    ensures TimeOfDay(t + k * MsPerDay) == TimeOfDay(t)
  {
    SplitUnique(t + k * MsPerDay, Day(t) + k, TimeOfDay(t));
  }

  /**
   * A JavaScript `Date` object: a mutable cell holding one instant, with the
   * two setters the timer uses.
   */
  class LocalDate {
    var time: int

    /** `new Date(t)`: a copy of the instant `t`. */
    constructor (t: int)
      ensures time == t
    {
      time := t;
    }

    /**
     * `d.setDate(d.getDate() + 1)`: the same time of day on the following
     * calendar day.
     */
    method AdvanceOneDay()
      modifies this
      ensures Day(time) == Day(old(time)) + 1
      ensures TimeOfDay(time) == TimeOfDay(old(time))
      ensures time == old(time) + MsPerDay
    {
      time := time + MsPerDay;
      ShiftByDays(old(time), 1);
    }

    /**
     * `d.setHours(hour, minute, second, ms)`: the same calendar day at the
     * given wall-clock time. Like the JavaScript setter, components outside
     * their usual ranges carry over into neighbouring units.
     */
    method SetHours(hour: int, minute: int, second: int, ms: int)
      modifies this
      ensures time == Day(old(time)) * MsPerDay
                      + hour * MsPerHour + minute * MsPerMinute + second * MsPerSecond + ms
      ensures 0 <= hour < 24 && 0 <= minute < 60 && 0 <= second < 60 && 0 <= ms < MsPerSecond ==>
                Day(time) == Day(old(time)) &&
                TimeOfDay(time) == hour * MsPerHour + minute * MsPerMinute + second * MsPerSecond + ms
    {
      var day := Day(time);
      var within := hour * MsPerHour + minute * MsPerMinute + second * MsPerSecond + ms;
      time := day * MsPerDay + within;
      if 0 <= hour < 24 && 0 <= minute < 60 && 0 <= second < 60 && 0 <= ms < MsPerSecond {
        SplitUnique(time, day, within);
      }
    }
  }
}
