# Rice-cooker delay timer — Dafny model

The widget tells the user how long to set a rice cooker's delay timer so
that cooking finishes at a chosen wall-clock time **tomorrow**. It has
three parts. The session state is a target hour and minute, 07:00 at
start, changed by two sliders and a row of preset buttons. The delay
calculation always aims at the next calendar day: it takes the
millisecond difference, rounds it up to whole minutes, and splits it into
hours and leftover minutes. `padZero` shows numbers in two digits.

The model has four modules:

- `Clock` (clock.dfy): local instants as whole milliseconds with fixed
  86,400,000 ms days; their calendar day and time of day. It also has
  `LocalDate`, a small class for the mutable JavaScript `Date` the
  calculation builds. Its two setters are modelled: next day, and set the
  clock time.
- `Timer` (timer.dfy): the pure part of the calculation. `CeilDiv` is
  `Math.ceil` on whole numbers. `NextDayTarget` is the target instant.
  `TimerDuration` is the reported `{hours, minutes, totalMinutes}`. The
  lemmas state the properties of these functions.
- `Format` (format.dfy): `padZero` as `toString` followed by `padStart(2, '0')`,
  with a digit-string reader as its inverse.
- `App` (app.dfy): the `targetHour`/`targetMinute` state as a class. The
  three event handlers are methods that change it. The imperative
  `calculateTimerDuration` is a method that reads it, mutates a local date
  and is proved equal to `TimerDuration`.

The clock is a parameter: `now` is passed in rather than read from the
system. `Clock.Day` (the calendar day behind `getDate()`, app.js:68) and
the datatype `Timer.Duration` (the object returned at app.js:81-85) are
the model's vocabulary; the members below state what holds of them.

### The range of the delay

The progress bar in app.js:106 treats 24 hours as the longest delay
(`maxMinutes = 24 * 60`). The calculation itself always aims at the next
calendar day, so the delay runs from 1 minute (now 23:59:59.999, target
00:00) to 2879 minutes (now exactly midnight, target 23:59).
`Timer.TotalMinutesBounds` proves the range [1, 2879] with hours in
[0, 47]. `Timer.ExampleShortest` and `Timer.ExampleLongest` show that
both ends are reached. The bar's percentage is capped at 100 (app.js:107)
and the width drawn is 100 minus it (app.js:108), so every delay of 24
hours or more draws the bar at zero width.

## Model

| member | source | states |
|---|---|---|
| `Clock.TimeOfDay` | app.js:67-69 | the time of day of an instant lies in [0, 86400000) and, with the day, recomposes the instant |
| `Clock.ShiftByDays` | app.js:68 | moving an instant by k whole days moves its calendar day by k and keeps its time of day |
| `Clock.LocalDate.constructor` | app.js:67 | `new Date(now)` holds a copy of `now` |
| `Clock.LocalDate.AdvanceOneDay` | app.js:68 | `setDate(getDate() + 1)` gives the next calendar day at the same time of day |
| `Clock.LocalDate.SetHours` | app.js:69 | `setHours(h, m, s, ms)` keeps the calendar day and, for in-range components, sets the time of day to exactly h:m:s.ms |
| `Timer.CeilDiv` | app.js:75 | the result q is the ceiling of a/b: (q-1)*b < a <= q*b |
| `Timer.CeilDivUnique` | app.js:75 | only one whole number meets the ceiling condition, so any q meeting it is the rounded-up value |
| `Timer.NextDayTarget` | app.js:66-69 | the target lies on the calendar day after now's, at exactly hour:minute:00.000 |
| `Timer.FromTotalMinutes` | app.js:78-84 | the split keeps the total and gives hours >= 0, minutes in [0, 60) with total == hours*60 + minutes |
| `Timer.DecompositionUnique` | app.js:78-79 | any such split is the floor quotient and remainder by 60 |
| `Timer.UnderAnHour` | app.js:78-79 | a total below 60 minutes is shown as 0 hours and that many minutes |
| `Timer.TimerDuration` | app.js:63-86 | the reported duration decomposes exactly and its total is the ceiling of the ms difference to the next-day target |
| `Timer.DiffPositive` | app.js:66-72 | the target is strictly after now and less than two days ahead |
| `Timer.DiffClosedForm` | app.js:67-72 | the difference is the rest of today plus the target's offset into tomorrow |
| `Timer.TotalMinutesClosedForm` | app.js:67-75 | the total is the rounded-up minutes left today plus the target's minute of the day |
| `Timer.NeverEarlyNeverAMinuteLate` | app.js:75 | a timer of totalMinutes started now ends at the target or less than one minute after it |
| `Timer.TotalMinutesBounds` | app.js:66-79 | 1 <= totalMinutes <= 2879 and 0 <= hours <= 47 for every now and valid target |
| `Timer.TargetShift` | app.js:69-75 | for fixed now, changing the target changes the total by exactly the difference in the two targets' minutes of the day |
| `Timer.StrictlyIncreasing` | app.js:69-75 | a later target time of day gives a strictly larger total, and a strictly larger total means a later target |
| `Timer.OnlyTimeOfDayMatters` | app.js:67-69 | two instants with the same time of day give the same duration |
| `Timer.SameOnEveryDay` | app.js:67-69 | the same moment on any other day gives the same duration |
| `Timer.ExampleEvening` | app.js:63-86 | now 22:00:00.000 and target 07:00 give 9 h 0 min, 540 minutes |
| `Timer.ExampleEarlyMorning` | app.js:63-86 | now 06:30:00.000 and target 07:00 give 24 h 30 min, 1470 minutes |
| `Timer.ExampleRoundsUp` | app.js:75 | now 23:59:30.000 and target 00:00 is 30 s away and gives 1 minute, not 0 |
| `Timer.ExampleOneMinuteBefore` | app.js:63-86 | now 23:59:00.000 and target 00:00 give exactly 1 minute |
| `Timer.ExampleLongest` | app.js:63-86 | now exactly midnight and target 23:59 give the maximum, 47 h 59 min |
| `Timer.ExampleShortest` | app.js:63-86 | now 23:59:59.999 and target 00:00 give the minimum, 1 minute |
| `Format.NatToString` | app.js:32 | `toString` of a natural number is a non-empty digit string, starting with '0' only for 0, and one character long only below 10 |
| `Format.IntToString` | app.js:32 | `toString` of n >= 0 is a non-empty digit string that reads back as n starts with '0' only for n == 0, and is one character long exactly below 10; of n < 0 it is '-' followed by such a string for -n |
| `Format.Repeat` | app.js:32 | the fill is k copies of the pad character |
| `Format.PadStart` | app.js:32 | `padStart` returns a string as long as the larger of s and the target length, ends with s unchanged and fills only the front with the pad character |
| `Format.PadZero` | app.js:31-33 | the result is always at least two characters long |
| `Format.NatToStringRoundTrip` | app.js:32 | reading back the decimal string of n gives n |
| `Format.LeadingZero` | app.js:32 | a leading '0' does not change the value of a digit string |
| `Format.PadZeroSingleDigit` | app.js:31-33 | 0..9 become '0' followed by the digit |
| `Format.PadZeroManyDigits` | app.js:31-33 | from 10 on the result is the plain decimal string, never truncated |
| `Format.PadZeroNegative` | app.js:31-33 | a negative number keeps its sign and gets no zero |
| `Format.PadZeroTwoDigits` | app.js:31-33 | every number 0..99 is shown in exactly two digits |
| `Format.PadZeroRoundTrip` | app.js:31-33 | the padded string of n >= 0 is all digits and reads back as n |
| `App.TimerState.constructor` | app.js:23-24 | the session starts with the target 07:00 |
| `App.TimerState.OnHourSliderChange` | app.js:136-138 | the hour slider sets targetHour and leaves targetMinute unchanged |
| `App.TimerState.OnMinuteSliderChange` | app.js:150-152 | the minute slider sets targetMinute and leaves targetHour unchanged |
| `App.TimerState.OnQuickBtnClick` | app.js:165-168 | a preset sets both targetHour and targetMinute to the preset's values |
| `App.TimerState.CalculateTimerDuration` | app.js:63-86 | the mutate-a-date computation equals `TimerDuration` of the current state; its result decomposes, lies in [1, 2879], and its total is the ceiling of the difference to tomorrow's target |
| `App.SessionExample` | app.js:136-168 | after a preset click and two slider moves, the calculation uses the last value written to each field |

## Left out

- Calendar and time-zone rules of JavaScript `Date`: every day is taken
  to be exactly 86,400,000 ms long. Month and year rollover in `setDate`
  are absorbed into "next day". Daylight-saving days of 23 or 25 hours
  are not modelled; on such a day the real delay differs by an hour.
- Floating point: `Math.ceil(diffMs / 60000)` is modelled as exact
  integer ceiling division. That is exact for the differences that occur
  (below 2 × 86,400,000 ms). A quotient that is not whole is at least
  1/60000 away from the next integer, far more than the rounding error
  of a double at that size. `padZero` is modelled on whole numbers only,
  not on fractional or non-finite numbers.
- `parseInt` of slider values and of the preset buttons' `data-hour` /
  `data-minute` attributes (app.js:120-121, 137, 151, 167-168): the
  handlers take the parsed integers. Their requires clauses state the
  ranges the sliders and presets provide (hour in [0, 23], minute in
  [0, 59]). A NaN from a malformed attribute is not modelled.
- The system clock: `new Date()` (app.js:64) becomes the parameter `now`.
- DOM and rendering: element lookups (app.js:7-20), `updateCurrentTime`
  (app.js:38-57), the summary and timeline text of `updateResult`
  (app.js:91-109), the progress-bar width (app.js:106-108, a
  floating-point percentage), the `active` class on preset buttons and
  the slider echo in `updateSliderDisplay` (app.js:114-131), and the
  slider positions set in `onQuickBtnClick` and `init` (app.js:171-172,
  188-189). These only present the state and the result.
- Timers and animation: the one-second `setInterval` refresh
  (app.js:205-208) and the `setTimeout` scale effects (app.js:141-144,
  155-158, 177-180). They are event-loop plumbing and change none of the
  modelled state.
- Format.NatToString / Format.IntToString: JavaScript prints whole
  numbers of magnitude 10^21 and above in exponent form (`"1e+21"`), and
  not every whole number above 2^53 is a JavaScript number; the model
  prints plain digits for every integer. No call of `padZero` reaches
  this: every call site (app.js:42-44, 95-96, 100, 103, 115-116) passes
  a clock field, a slider value or a duration part, all below 100.
