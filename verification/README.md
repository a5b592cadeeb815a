# Schedule screen of shift-sculpt, modelled in Dafny

shift-sculpt's schedule screen edits one working-day schedule. A schedule has a
work start and end, a break start and length, two grace periods and remarks.
The screen shows the schedule in two components:

- a preview card, with the total work time and whether the schedule is active
  right now;
- a daily timeline, with a padded window of the day, three coloured segments,
  hour gridlines and a "now" marker.

This project models the logic behind those components in six modules:

- `JsNumber` (`jsnumber.dfy`): the JavaScript built-ins the components rely on,
  over unbounded integers:
  - `Number#toString` for integers;
  - `String#padStart(2, '0')`;
  - the global `parseInt` without a radix, as in section 19.2.5 of ECMA-262,
    with NaN as `None`;
  - the truncating `%` operator.
- `Schedule` (`schedule.dfy`): the seven-field schedule record, its default
  value and field-wise update.
- `TimeOfDay` (`timeofday.dfy`): the conversion between "HH:MM" text and
  minutes since midnight, in both directions.
- `Timeline` (`timeline.dfy`): the timeline's layout:
  - the visible window;
  - positions and widths, as exact rationals (`real`);
  - the three segments and the 15% label rule;
  - the hour-marker loop, as a method with loop invariants;
  - the position of the current time.
- `Preview` (`preview.dfy`):
  - the "{hours}h {minutes}m" text, with JavaScript's `Math.floor` and
    truncating `%` written out;
  - the active-status test, which compares "HH:MM" strings in string order.
- `Setup` (`setup.dfy`): the form as a class. Its fields are the record and the
  editing flag, changed by the five handlers.

The current time enters the model as a parameter: the hour and minute the
clock would give.

## Model

| member | source | states |
|---|---|---|
| JsNumber.NatToString | src/components/schedule/ScheduleTimeline.tsx:27 | `toString` of a natural is a non-empty string of decimal digits. It has one digit exactly when the number is below 10, and a leading '0' only for 0 itself |
| JsNumber.NatToStringValue | src/components/schedule/ScheduleTimeline.tsx:27 | reading the digits of `toString(n)` back gives n |
| JsNumber.IntToString | src/components/schedule/SchedulePreview.tsx:29 | `toString` of an integer starts with '-' exactly when the integer is negative. The digits after the sign have no leading '0' (except for 0 itself) and read back as the integer's magnitude |
| JsNumber.PadStart2 | src/components/schedule/ScheduleTimeline.tsx:27 | `padStart(2, '0')` gives text of length 2, or the original length when that is longer |
| JsNumber.PadStart2KeepsText | src/components/schedule/ScheduleTimeline.tsx:27 | the padded text ends with the original text and has only '0's before it |
| JsNumber.TwoDigits | src/components/schedule/ScheduleTimeline.tsx:27 | the padded text of n is all digits and at least two long. It is exactly two long when n is below 100 |
| JsNumber.TwoDigitsBelow100 | src/components/schedule/ScheduleTimeline.tsx:27 | below 100, the padded text is the tens digit followed by the units digit |
| JsNumber.JsRem | src/components/schedule/SchedulePreview.tsx:27 | JavaScript `%` agrees with the Euclidean remainder on non-negative dividends. On negative dividends it lies in (-divisor, 0] |
| JsNumber.JsRemOdd | src/components/schedule/SchedulePreview.tsx:27 | negating the dividend negates the JavaScript remainder |
| JsNumber.ParseInt | src/components/schedule/ScheduleTimeline.tsx:33 | after leading white space, text that starts with neither a digit nor a sign is NaN, and only a leading '-' gives a negative result |
| JsNumber.ParseIntOrZero | src/components/schedule/ScheduleTimeline.tsx:33 | `parseInt(s) \|\| 0` of an empty field is 0. ParseIntOrZeroReadsIntegers and ParseIntOrZeroNoNumber state its value on integer text and on text with no number |
| JsNumber.ParseIntOrZeroReadsIntegers | src/components/schedule/ScheduleTimeline.tsx:33 | `parseInt(s) \|\| 0` reads the text of every integer back as that integer |
| JsNumber.ParseIntOrZeroNoNumber | src/components/schedule/ScheduleTimeline.tsx:33 | `parseInt(s) \|\| 0` is 0 for an empty field or one that starts with a letter |
| JsNumber.ParseIntNatToString | src/components/schedule/SchedulePreview.tsx:23 | parseInt reads the decimal text of a natural back as that natural. It stops at any following character that is not a digit, 'x' or 'X' |
| JsNumber.ParseIntIntToString | src/components/schedule/ScheduleTimeline.tsx:33 | parseInt inverts `toString` on every integer, negative ones included |
| JsNumber.DecimalText | src/components/schedule/SchedulePreview.tsx:23 | parseInt reads a two-digit decimal text as its value |
| Schedule.With | src/components/schedule/ScheduleSetup.tsx:36-41 | `{...prev, [field]: value}`: the named field takes the value and every other field keeps its value |
| TimeOfDay.HourOf | src/components/schedule/ScheduleTimeline.tsx:20 | `Number` of the text before the colon is 10 times the first digit plus the second |
| TimeOfDay.MinuteOf | src/components/schedule/ScheduleTimeline.tsx:20 | `Number` of the text after the colon is 10 times the first digit plus the second |
| TimeOfDay.TimeToMinutes | src/components/schedule/ScheduleTimeline.tsx:19-22 | with minutes below 60, dividing the result by 60 gives back the hour and the remainder gives back the minute. A 24-hour clock time lands in [0, 1439] |
| TimeOfDay.MinutesToTime | src/components/schedule/ScheduleTimeline.tsx:24-28 | below 6000 minutes the text is well formed and reads back as the same number of minutes. Below 1440 it is a 24-hour clock time |
| TimeOfDay.MinutesToTimeParts | src/components/schedule/ScheduleTimeline.tsx:24-28 | the text for h*60+m (with m < 60) is the padded h, a colon and the padded m |
| TimeOfDay.TwoDigitsOfDigits | src/components/schedule/ScheduleTimeline.tsx:27 | padding the value of two digits gives back those two digits |
| TimeOfDay.PaddedParts | src/components/schedule/ScheduleTimeline.tsx:20-27 | padding the hour and the minute read from a well-formed time gives back its text |
| TimeOfDay.TimeRoundTrip | src/components/schedule/ScheduleTimeline.tsx:19-28 | `minutesToTime(timeToMinutes(t)) == t` for every well-formed t with minutes below 60 |
| TimeOfDay.MinutesRoundTrip | src/components/schedule/ScheduleTimeline.tsx:19-28 | `timeToMinutes(minutesToTime(m)) == m` for every m below 6000 |
| TimeOfDay.ClockTimeValue | src/components/schedule/ScheduleTimeline.tsx:19-22 | the padded text of hour h < 24 and minute m < 60 is a clock time worth h*60+m minutes |
| TimeOfDay.ClockTimes | src/components/schedule/ScheduleTimeline.tsx:19-22 | the digits of h < 24 and m < 60, written "HH:MM", are a clock time worth h*60+m minutes |
| Timeline.VisibleWindow | src/components/schedule/ScheduleTimeline.tsx:36-39 | the window starts at most 60 minutes before the work start and ends at most 60 minutes after the work end. It stays inside [0, 1440] and contains the work hours. It is padded by exactly 60 minutes unless clipped. Its span is positive when 0 <= start < end <= 1440 |
| Timeline.GetPosition | src/components/schedule/ScheduleTimeline.tsx:41-43 | the window start is at 0% and its end at 100%. The position is negative exactly before the window and above 100 exactly after it |
| Timeline.GetWidth | src/components/schedule/ScheduleTimeline.tsx:45-47 | the width has the sign of the duration, and the window's own span is 100% |
| Timeline.PercentOfSpan | src/components/schedule/ScheduleTimeline.tsx:41-47 | a quantity as a percentage of a positive span keeps its sign, and exceeds 100 exactly when the quantity exceeds the span |
| Timeline.PositionStrictlyIncreasing | src/components/schedule/ScheduleTimeline.tsx:41-43 | a later minute has a strictly larger position |
| Timeline.PositionPlusWidth | src/components/schedule/ScheduleTimeline.tsx:41-47 | `getPosition(a) + getWidth(b - a) == getPosition(b)` |
| Timeline.WidthAdditive | src/components/schedule/ScheduleTimeline.tsx:45-47 | the width of the sum of two durations is the sum of their widths |
| Timeline.TimelineEvents | src/components/schedule/ScheduleTimeline.tsx:49-74 | three segments, in the order morning work, break, afternoon work. The first starts at the work start and the last ends at the work end. Each ends where the next begins, and the break lasts exactly the break duration. Nothing is clamped |
| Timeline.SegmentText | src/components/schedule/ScheduleTimeline.tsx:125 | the text inside a segment is non-empty exactly when 100 times its length exceeds 15 times the window span. When non-empty, it is the segment's label |
| Timeline.ShowsLabel | src/components/schedule/ScheduleTimeline.tsx:125 | a segment's label is shown exactly when 100 times its length exceeds 15 times the window span, that is when its width exceeds 15% |
| Timeline.SegmentsCoverWorkHours | src/components/schedule/ScheduleTimeline.tsx:116-123 | the three widths add up to `getWidth(workEnd - workStart)`. Each segment drawn at its position with its width ends where the next is drawn, and the last ends at the work end |
| Timeline.SegmentsInsideWindow | src/components/schedule/ScheduleTimeline.tsx:30-74 | with the break inside the work hours, every segment has non-negative width and is drawn within 0% to 100% |
| Timeline.ScheduleWindow | src/components/schedule/ScheduleTimeline.tsx:30-39 | a record's window contains its work hours, and has a positive span when work ends after it starts |
| Timeline.ScheduleEvents | src/components/schedule/ScheduleTimeline.tsx:30-34 | a record's segments start at the work start, place the break at its start time and end at the work end. The break lasts the parsed duration, or nothing when the field does not parse |
| Timeline.FirstHour | src/components/schedule/ScheduleTimeline.tsx:83 | `Math.ceil(start / 60) * 60` is the smallest multiple of 60 at or after the start |
| Timeline.MarkerFor | src/components/schedule/ScheduleTimeline.tsx:85-88 | a marker records its minute, and its position is within 0% to 100% when the minute is inside the window |
| Timeline.HourMarkers | src/components/schedule/ScheduleTimeline.tsx:82-90 | the k-th marker is the first full hour plus 60k, lies inside the window and sits at that minute's position. The next full hour lies past the window. A window ending at 1440 ends with the 1440 marker |
| Timeline.LastHourOfDay | src/components/schedule/ScheduleTimeline.tsx:83 | full hours stepped by 60 from a multiple of 60 up to 1440 inclusive end exactly at 1440 |
| Timeline.MarkersEndAtMidnight | src/components/schedule/ScheduleTimeline.tsx:82-90 | when the window reaches the end of the day, the last marker is labelled "24:00" |
| Timeline.MidnightLabel | src/components/schedule/ScheduleTimeline.tsx:24-28 | `minutesToTime(1440) == "24:00"` |
| Timeline.MarkersCoverEveryHour | src/components/schedule/ScheduleTimeline.tsx:82-90 | every multiple of 60 inside the window has a marker |
| Timeline.CurrentTimePosition | src/components/schedule/ScheduleTimeline.tsx:76-80 | the "now" position is not clamped. It is below 0 exactly when now is before the window, above 100 exactly when now is after it, and within [0, 100] inside it |
| Timeline.DefaultTimeline | src/components/schedule/ScheduleTimeline.tsx:30-74 | the default record gets the window 07:00-18:00 and the segments 08:00-12:00, 12:00-13:00 and 13:00-17:00 |
| Timeline.DefaultLayout | src/components/schedule/ScheduleTimeline.tsx:116-133 | on that window, 12:00 sits at 500/11 percent. Both work segments show their labels and the break, 60 of 660 minutes, does not. "Now" at 12:00 sits where the break starts |
| Preview.TotalWorkMinutes | src/components/schedule/SchedulePreview.tsx:21-25 | the total is the end minus the start in minutes, less the parsed break, or less nothing when the break does not parse. It equals the combined length of the timeline's morning and afternoon segments for the same record, so it is non-negative when neither segment is negative |
| Preview.SplitHours | src/components/schedule/SchedulePreview.tsx:26-27 | the hours are the floor of total/60. For a non-negative total the minutes lie in [0, 60) and hours*60+minutes equals the total. For a negative total the minutes lie in (-60, 0] |
| Preview.SplitRecombines | src/components/schedule/SchedulePreview.tsx:25-27 | hours*60+minutes equals the total exactly when the total is non-negative or a whole number of hours |
| Preview.FormatWorkHours | src/components/schedule/SchedulePreview.tsx:29 | the text starts with the hours and "h ". Anything follows exactly when the minutes are positive, and then it is the minutes and "m" |
| Preview.CalculateWorkHours | src/components/schedule/SchedulePreview.tsx:20-30 | for a non-negative total the text is the whole hours, "h ", and then the leftover minutes followed by "m", or nothing when no minutes are left over. For a negative total it is the floored hours and "h " only, since the truncating remainder is never positive |
| Preview.WorkHoursReadBack | src/components/schedule/SchedulePreview.tsx:29 | parseInt of the text gives the whole hours, which are followed by "h ". parseInt of what follows gives the leftover minutes, and nothing follows when there are none |
| Preview.HoursTextReadBack | src/components/schedule/SchedulePreview.tsx:29 | the same read-back, stated for the text of any natural total |
| Preview.NineHourDayWithHourBreak | src/components/schedule/SchedulePreview.tsx:20-30 | 08:00 to 17:00 with a "60" break gives "8h ", with its trailing space |
| Preview.LongDayWithShortBreak | src/components/schedule/SchedulePreview.tsx:20-30 | 08:00 to 17:30 with a "45" break gives "8h 45m" |
| Preview.ShortDayLongBreak | src/components/schedule/SchedulePreview.tsx:20-30 | 08:00 to 09:00 with a "90" break (a total of -30 minutes) gives "-1h " |
| Preview.LexLess | src/components/schedule/SchedulePreview.tsx:46 | in string `<`, a proper prefix comes before the longer string |
| Preview.LexLe | src/components/schedule/SchedulePreview.tsx:46 | string `<=` holds exactly when the first string is below the second or equal to it |
| Preview.LexTotal | src/components/schedule/SchedulePreview.tsx:46 | of two different strings, one is below the other in string order |
| Preview.LexLessAsymmetric | src/components/schedule/SchedulePreview.tsx:46 | no two strings are each below the other in string order |
| Preview.IsActive | src/components/schedule/SchedulePreview.tsx:40-50 | for clock-time work hours, the string-order test holds exactly when the current minute lies in [start, end], ends included |
| Preview.LexLessCommonPrefix | src/components/schedule/SchedulePreview.tsx:46 | strings sharing a prefix compare as their remainders do |
| Preview.LexLessTwoDigits | src/components/schedule/SchedulePreview.tsx:46 | two differing leading digit pairs compare in string order as their two-digit numbers do |
| Preview.LexOrderAgrees | src/components/schedule/SchedulePreview.tsx:42-46 | on well-formed "HH:MM" strings, string `<` and `<=` agree with `<` and `<=` on their minute counts |
| Preview.LexLessAgrees | src/components/schedule/SchedulePreview.tsx:42-46 | on well-formed "HH:MM" strings, string `<` agrees with `<` on minute counts |
| Preview.LexLessIrreflexive | src/components/schedule/SchedulePreview.tsx:46 | no string is below itself in string order |
| Setup.ScheduleForm.constructor | src/components/schedule/ScheduleSetup.tsx:24-34 | the form starts in view mode on the default record (08:00, 17:00, 12:00, "60", "5", "5", "") |
| Setup.ScheduleForm.UpdateState | src/components/schedule/ScheduleSetup.tsx:36-41 | only while editing: the named field takes the value, every other field and the mode are unchanged |
| Setup.ScheduleForm.HandleEdit | src/components/schedule/ScheduleSetup.tsx:49-51 | from view mode, editing mode is entered and the record is unchanged |
| Setup.ScheduleForm.HandleSave | src/components/schedule/ScheduleSetup.tsx:43-47 | from editing mode, editing mode is left and the record is kept as edited |
| Setup.ScheduleForm.HandleCancel | src/components/schedule/ScheduleSetup.tsx:53-56 | from editing mode, editing mode is left and no edit is reverted |
| Setup.ScheduleForm.HandleReset | src/components/schedule/ScheduleSetup.tsx:58-68 | only while editing: the record becomes the default and the mode is unchanged |
| Setup.ResetIsIdempotent | src/components/schedule/ScheduleSetup.tsx:58-68 | resetting twice leaves the form as resetting once does |
| Setup.CancelKeepsEdit | src/components/schedule/ScheduleSetup.tsx:36-56 | edit, update a field, then cancel: the form is back in view mode with the update still applied |

## Left out

- `formatTime` (SchedulePreview.tsx:32-38): it depends on the locale behaviour of `toLocaleTimeString`.
- Rendering is not modelled: JSX, CSS class strings, components and icons.
- The status badge's class strings are not modelled. `getStatusColor` is modelled by the test that chooses between them (`IsActive`).
- `tailwind.config.ts`: styling configuration, with no logic.
- The `console.log` in `handleSave` is not modelled: it is logging only.
- The wall clock is not read:
  - `new Date()`, `getHours`, `getMinutes` and `toTimeString().slice(0, 5)` are replaced by an hour and a minute passed in;
  - the "now" text is that hour and minute written "HH:MM".
- TotalWorkMinutes: dates are not parsed. The difference between `new Date("2024-01-01T" + t)` for the end and the start is taken as the difference of their minute counts.
- Malformed times are excluded by preconditions, not modelled:
  - in the source they make `Number` give NaN, or make the `Date` invalid;
  - the timeline and preview functions require well-formed "HH:MM" text or 24-hour clock times.
- TimeToMinutes, ScheduleWindow, TotalWorkMinutes: these require "HH:MM" with two-digit parts. The "HH:MM:SS" form a time input can hold when seconds are enabled is not modelled.
- Timeline.GetPosition, GetWidth, ShowsLabel, SegmentText, MarkerFor, HourMarkers, CurrentTimePosition: these require a window with positive span. The source still lays out a window with zero or negative span, for example work from 22:00 to 06:00. It then divides by zero (giving NaN or Infinity) or by a negative span (giving a mirrored layout). The model does not describe those layouts; ScheduleWindow and VisibleWindow state when the span is positive.
- JsNumber.PadStart2, Preview.LexLess, LexLe: strings are sequences of Unicode code points. JavaScript's `padStart` counts length, and its `<` and `<=` compare, in UTF-16 code units. The two differ only on characters above U+FFFF: JavaScript treats "\u{1F600}" as already two long, and orders U+FFFF after U+10000. On the digit and "HH:MM" texts the screen produces, they agree.
- Percentages are exact rationals. Floating-point rounding is not modelled.
- Integers are unbounded: precision loss on parseInt of very long digit strings is not modelled.
- Timeline.HourMarkers: each marker stores its minute and derives its "HH:MM" label from it (`HourMarker.Time`). The source stores the label text itself. `MarkersEndAtMidnight` states the last label.
- Setup.ScheduleForm.HandleEdit, HandleSave, HandleCancel: their preconditions come from which buttons are shown (ScheduleSetup.tsx:107-122). Calling them in the other mode is not modelled.
- Setup.ScheduleForm.UpdateState, HandleReset: their preconditions come from the inputs and the Reset button being disabled outside editing mode (ScheduleSetup.tsx:139, 153, 177, 190, 216, 230, 251, 274).
- React's asynchronous state batching is not modelled: each handler takes effect at once.
