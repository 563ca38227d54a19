/**
 * The delay-timer calculation: how long to set the rice cooker's delay so
 * that cooking finishes at a chosen wall-clock time on the next calendar
 * day. All quantities are whole milliseconds or whole minutes.
 */
module Timer {
  import opened Clock

  /** A wall-clock target time as the hour and minute selectors produce it. */
  predicate ValidTarget(hour: int, minute: int)
  {
    0 <= hour < 24 && 0 <= minute < 60
  }

  /** The delay shown to the user: whole hours, leftover minutes, and the total. */
  datatype Duration = Duration(hours: int, minutes: int, totalMinutes: int)
  {
    /** The total splits exactly into hours and a minute remainder below 60. */
    predicate Decomposes()
    {
      hours >= 0 && 0 <= minutes < 60 && totalMinutes == hours * 60 + minutes
    }
  }

  /**
   * `Math.ceil(a / b)` for whole numbers: the least whole `q` with
   * `a <= q * b`.
   */
  function CeilDiv(a: int, b: int): (q: int)
    requires b > 0
    ensures (q - 1) * b < a <= q * b
  {
    (a + b - 1) / b
  }

  /** Only one whole number satisfies the ceiling condition. */
  lemma {:induction false} CeilDivUnique(a: int, b: int, q: int)
    requires b > 0
    requires (q - 1) * b < a <= q * b
    ensures q == CeilDiv(a, b)
  {
  }

  /**
   * The instant the timer aims at: the calendar day after `now`'s, at
   * `hour:minute:00.000`.
   */
  function NextDayTarget(now: int, hour: int, minute: int): (t: int)
    requires ValidTarget(hour, minute)
    ensures Day(t) == Day(now) + 1
    ensures TimeOfDay(t) == hour * MsPerHour + minute * MsPerMinute
  {
    var t := (Day(now) + 1) * MsPerDay + hour * MsPerHour + minute * MsPerMinute;
    SplitUnique(t, Day(now) + 1, hour * MsPerHour + minute * MsPerMinute);
    t
  }

  /** Splits a whole number of minutes into hours and leftover minutes. */
  function FromTotalMinutes(totalMins: int): (d: Duration)
    requires totalMins >= 0
    ensures d.totalMinutes == totalMins && d.Decomposes()
  {
    Duration(totalMins / 60, totalMins % 60, totalMins)
  }

  /**
   * The split is unique: any decomposition of a total is the floor quotient
   * and remainder by 60.
   */
  lemma DecompositionUnique(d: Duration)
    requires d.Decomposes()
    ensures d.hours == d.totalMinutes / 60 && d.minutes == d.totalMinutes % 60
  {
  }

  /**
   * The duration the calculator reports at instant `now` for the target
   * `hour:minute`: the millisecond difference to the next-day target,
   * rounded up to whole minutes, then split into hours and minutes.
   * The difference is always positive, so the floor division and the
   * remainder used for the split behave as JavaScript's `Math.floor` and
   * `%` do.
   */
  function TimerDuration(now: int, hour: int, minute: int): (d: Duration)
    requires ValidTarget(hour, minute)
    ensures d.Decomposes()
    ensures (d.totalMinutes - 1) * MsPerMinute < NextDayTarget(now, hour, minute) - now
                                                <= d.totalMinutes * MsPerMinute
  {
    var diffMs := NextDayTarget(now, hour, minute) - now;
    DiffPositive(now, hour, minute);
    FromTotalMinutes(CeilDiv(diffMs, MsPerMinute))
  }

  /** The target is strictly ahead of now, and by less than two days. */
  lemma DiffPositive(now: int, hour: int, minute: int)
    requires ValidTarget(hour, minute)
    ensures 0 < NextDayTarget(now, hour, minute) - now < 2 * MsPerDay
  {
    var t := NextDayTarget(now, hour, minute);
    assert now == Day(now) * MsPerDay + TimeOfDay(now);
    assert t == (Day(now) + 1) * MsPerDay + TimeOfDay(t);
  }

  /**
   * The millisecond difference depends on `now` only through its time of
   * day: it is the rest of today plus the target's offset into tomorrow.
   */
  lemma DiffClosedForm(now: int, hour: int, minute: int)
    requires ValidTarget(hour, minute)
    ensures NextDayTarget(now, hour, minute) - now
            == MsPerDay - TimeOfDay(now) + hour * MsPerHour + minute * MsPerMinute
  {
    assert now == Day(now) * MsPerDay + TimeOfDay(now);
  }

  /**
   * The whole-minute total is the rounded-up rest of today plus the target's
   * minute of the day.
   */
  lemma {:induction false} TotalMinutesClosedForm(now: int, hour: int, minute: int)
    requires ValidTarget(hour, minute)
    ensures TimerDuration(now, hour, minute).totalMinutes
            == CeilDiv(MsPerDay - TimeOfDay(now), MsPerMinute) + hour * 60 + minute
  {
    var rest := CeilDiv(MsPerDay - TimeOfDay(now), MsPerMinute);
    var q := rest + hour * 60 + minute;
    var diffMs := NextDayTarget(now, hour, minute) - now;
    DiffClosedForm(now, hour, minute);
    assert (q - 1) * MsPerMinute < diffMs <= q * MsPerMinute;
    CeilDivUnique(diffMs, MsPerMinute, q);
  }

  /**
   * The timer is never short and never a full minute late: started now, it
   * ends at the target or less than one minute after it.
   */
  lemma NeverEarlyNeverAMinuteLate(now: int, hour: int, minute: int)
    requires ValidTarget(hour, minute)
    ensures var end := now + TimerDuration(now, hour, minute).totalMinutes * MsPerMinute;
            NextDayTarget(now, hour, minute) <= end < NextDayTarget(now, hour, minute) + MsPerMinute
  {
  }

  /**
   * Bounds: at least one minute and at most 47 h 59 min (2879 minutes);
   * the hour count can exceed 23.
   */
  lemma {:induction false} TotalMinutesBounds(now: int, hour: int, minute: int)
    requires ValidTarget(hour, minute)
    ensures var d := TimerDuration(now, hour, minute);
            1 <= d.totalMinutes <= 2879 && 0 <= d.hours <= 47
  {
    TotalMinutesClosedForm(now, hour, minute);
    var rest := CeilDiv(MsPerDay - TimeOfDay(now), MsPerMinute);
    assert 1 <= rest <= 1440;
  }

  /**
   * Changing the target time shifts the total by exactly the difference of
   * the two targets' minutes of the day.
   */
  lemma {:induction false} TargetShift(now: int, h1: int, m1: int, h2: int, m2: int)
    requires ValidTarget(h1, m1) && ValidTarget(h2, m2)
    ensures TimerDuration(now, h1, m1).totalMinutes - TimerDuration(now, h2, m2).totalMinutes
            == (h1 * 60 + m1) - (h2 * 60 + m2)
  {
    TotalMinutesClosedForm(now, h1, m1);
    TotalMinutesClosedForm(now, h2, m2);
  }

  /** A later target time of day always means a strictly longer delay, and only then. */
  lemma {:induction false} StrictlyIncreasing(now: int, h1: int, m1: int, h2: int, m2: int)
    requires ValidTarget(h1, m1) && ValidTarget(h2, m2)
    ensures TimerDuration(now, h1, m1).totalMinutes < TimerDuration(now, h2, m2).totalMinutes
            <==> h1 * 60 + m1 < h2 * 60 + m2
  {
    TargetShift(now, h1, m1, h2, m2);
  }

  /** Two instants with the same time of day get the same duration, whatever their dates. */
  lemma {:induction false} OnlyTimeOfDayMatters(now1: int, now2: int, hour: int, minute: int)
    requires ValidTarget(hour, minute)
    requires TimeOfDay(now1) == TimeOfDay(now2)
    ensures TimerDuration(now1, hour, minute) == TimerDuration(now2, hour, minute)
  {
    DiffClosedForm(now1, hour, minute);
    DiffClosedForm(now2, hour, minute);
  }

  /** In particular, the same moment on any other day gives the same duration. */
  lemma {:induction false} SameOnEveryDay(now: int, k: int, hour: int, minute: int)
    requires ValidTarget(hour, minute)
    ensures TimerDuration(now + k * MsPerDay, hour, minute) == TimerDuration(now, hour, minute)
  {
    ShiftByDays(now, k);
    OnlyTimeOfDayMatters(now + k * MsPerDay, now, hour, minute);
  }

  /** A total under an hour is shown as zero hours and that many minutes. */
  lemma UnderAnHour(d: Duration)
    requires d.Decomposes() && d.totalMinutes < 60
    ensures d.hours == 0 && d.minutes == d.totalMinutes
  {
    DecompositionUnique(d);
  }

  /** Ten in the evening, target seven in the morning: 9 h 0 min. */
  lemma ExampleEvening(day: int)
    ensures TimerDuration(day * MsPerDay + 22 * MsPerHour, 7, 0) == Duration(9, 0, 540)
  {
    SplitUnique(day * MsPerDay + 22 * MsPerHour, day, 22 * MsPerHour);
    TotalMinutesClosedForm(day * MsPerDay + 22 * MsPerHour, 7, 0);
    DecompositionUnique(TimerDuration(day * MsPerDay + 22 * MsPerHour, 7, 0));
  }

  /** Half past six in the morning, target seven: tomorrow's 07:00, 24 h 30 min away. */
  lemma ExampleEarlyMorning(day: int)
    ensures TimerDuration(day * MsPerDay + 6 * MsPerHour + 30 * MsPerMinute, 7, 0)
            == Duration(24, 30, 1470)
  {
    var now := day * MsPerDay + 6 * MsPerHour + 30 * MsPerMinute;
    SplitUnique(now, day, 6 * MsPerHour + 30 * MsPerMinute);
    TotalMinutesClosedForm(now, 7, 0);
    DecompositionUnique(TimerDuration(now, 7, 0));
  }

  /** 23:59:30, target midnight: 30 seconds away, rounded up to one minute. */
  lemma ExampleRoundsUp(day: int)
    ensures TimerDuration(day * MsPerDay + 23 * MsPerHour + 59 * MsPerMinute + 30 * MsPerSecond, 0, 0)
            == Duration(0, 1, 1)
  {
    var now := day * MsPerDay + 23 * MsPerHour + 59 * MsPerMinute + 30 * MsPerSecond;
    SplitUnique(now, day, 23 * MsPerHour + 59 * MsPerMinute + 30 * MsPerSecond);
    TotalMinutesClosedForm(now, 0, 0);
    DecompositionUnique(TimerDuration(now, 0, 0));
  }

  /** 23:59:00, target midnight: exactly one minute. */
  lemma ExampleOneMinuteBefore(day: int)
    ensures TimerDuration(day * MsPerDay + 23 * MsPerHour + 59 * MsPerMinute, 0, 0)
            == Duration(0, 1, 1)
  {
    var now := day * MsPerDay + 23 * MsPerHour + 59 * MsPerMinute;
    SplitUnique(now, day, 23 * MsPerHour + 59 * MsPerMinute);
    TotalMinutesClosedForm(now, 0, 0);
    UnderAnHour(TimerDuration(now, 0, 0));
  }

  /** Exactly midnight, target 23:59: the longest delay, 47 h 59 min. */
  lemma ExampleLongest(day: int)
    ensures TimerDuration(day * MsPerDay, 23, 59) == Duration(47, 59, 2879)
  {
    SplitUnique(day * MsPerDay, day, 0);
    TotalMinutesClosedForm(day * MsPerDay, 23, 59);
    DecompositionUnique(TimerDuration(day * MsPerDay, 23, 59));
  }

  /** One millisecond before midnight, target midnight: the shortest delay, one minute. */
  lemma ExampleShortest(day: int)
    ensures TimerDuration(day * MsPerDay + MsPerDay - 1, 0, 0) == Duration(0, 1, 1)
  {
    var now := day * MsPerDay + MsPerDay - 1;
    SplitUnique(now, day, MsPerDay - 1);
    TotalMinutesClosedForm(now, 0, 0);
    assert CeilDiv(1, MsPerMinute) == 1;
    UnderAnHour(TimerDuration(now, 0, 0));
  }
}
