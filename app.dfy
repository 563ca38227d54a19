/**
 * The page's session state: the chosen target hour and minute, the input
 * handlers that overwrite them, and the duration calculation that reads
 * them together with the current instant.
 */
module App {
  import opened Clock
  import opened Timer

  /** The module-level `targetHour` / `targetMinute` pair. */
  class TimerState {
    var targetHour: int
    var targetMinute: int

    /** Both values lie in the ranges the hour and minute sliders allow. */
    ghost predicate Valid()
      reads this
    {
      ValidTarget(targetHour, targetMinute)
    }

    /** The page starts with the target set to 07:00. */
    constructor ()
      ensures Valid()
      ensures targetHour == 7 && targetMinute == 0
    {
      targetHour := 7;
      targetMinute := 0;
    }

    /** The hour slider moved: only the hour changes. */
    method OnHourSliderChange(hour: int)
      requires Valid()
      requires 0 <= hour < 24
      modifies this
      ensures Valid()
      ensures targetHour == hour
      ensures targetMinute == old(targetMinute)
    {
      targetHour := hour;
    }

    /** The minute slider moved: only the minute changes. */
    method OnMinuteSliderChange(minute: int)
      requires Valid()
      requires 0 <= minute < 60
      modifies this
      ensures Valid()
      ensures targetMinute == minute
      ensures targetHour == old(targetHour)
    {
      targetMinute := minute;
    }

    /** A preset button was clicked: both values are replaced by the preset's. */
    method OnQuickBtnClick(hour: int, minute: int)
      requires Valid()
      requires ValidTarget(hour, minute)
      modifies this
      ensures Valid()
      ensures targetHour == hour && targetMinute == minute
    {
      targetHour := hour;
      targetMinute := minute;
    }

    /**
     * `calculateTimerDuration()` at instant `now`: copy `now` into a date,
     * move it to the next calendar day, set its clock to the target time,
     * then round the difference up to minutes and split it.
     */
    method CalculateTimerDuration(now: int) returns (d: Duration)
      requires Valid()
      ensures d == TimerDuration(now, targetHour, targetMinute)
      ensures d.Decomposes() && 1 <= d.totalMinutes <= 2879
      ensures now <= now + (d.totalMinutes - 1) * MsPerMinute < NextDayTarget(now, targetHour, targetMinute)
                  <= now + d.totalMinutes * MsPerMinute
    {
      var target := new LocalDate(now);
      target.AdvanceOneDay();
      target.SetHours(targetHour, targetMinute, 0, 0);
      var diffMs := target.time - now;
      var totalMins := CeilDiv(diffMs, MsPerMinute);
      var hours := totalMins / 60;
      var mins := totalMins % 60;
      d := Duration(hours, mins, totalMins);
      TotalMinutesBounds(now, targetHour, targetMinute);
    }
  }

  /**
   * One session from page load: a preset click, then both sliders moved.
   * The last write to each field decides the target the calculation uses.
   */
  method SessionExample(now: int) returns (d: Duration)
    ensures d == TimerDuration(now, 6, 30)
  {
    var state := new TimerState();
    state.OnQuickBtnClick(8, 15);
    state.OnHourSliderChange(6);
    state.OnMinuteSliderChange(30);
    d := state.CalculateTimerDuration(now);
  }
}
