/** The daily timeline: a visible window of the day around the work hours,
    three contiguous segments placed on it as percentages, the hour
    gridlines, and the marker for the current time. Percentages are exact
    rationals here. */
module Timeline {
  import opened JsNumber
  import opened TimeOfDay
  import opened Schedule

  /** The stretch of the day the timeline shows, in minutes since midnight. */
  datatype Window = Window(dayStart: int, dayEnd: int) {
    function Span(): int {
      dayEnd - dayStart
    }
  }

  /** One hour of padding before and after the work hours, clipped to the
      day [0, 1440]. */
  function VisibleWindow(workStartMin: int, workEndMin: int): (w: Window)
    ensures 0 <= w.dayStart && w.dayEnd <= 1440
    ensures workStartMin - 60 <= w.dayStart && w.dayEnd <= workEndMin + 60
    ensures 0 <= workStartMin ==> w.dayStart <= workStartMin
    ensures workEndMin <= 1440 ==> workEndMin <= w.dayEnd
    ensures 60 <= workStartMin ==> w.dayStart == workStartMin - 60
    ensures workStartMin <= 60 ==> w.dayStart == 0
    ensures workEndMin <= 1380 ==> w.dayEnd == workEndMin + 60
    ensures 1380 <= workEndMin ==> w.dayEnd == 1440
    ensures 0 <= workStartMin < workEndMin <= 1440 ==> w.Span() > 0
  {
    Window(if workStartMin - 60 > 0 then workStartMin - 60 else 0,
           if workEndMin + 60 < 1440 then workEndMin + 60 else 1440)
  }

  /** `getPosition`: how far into the window a minute lies, in percent. The
      window's start is at 0, its end at 100, and a minute before or after
      the window falls below 0 or above 100. */
  function GetPosition(w: Window, x: int): (p: real)
    requires w.Span() > 0
    ensures x == w.dayStart ==> p == 0.0
    ensures x == w.dayEnd ==> p == 100.0
    ensures p < 0.0 <==> x < w.dayStart
    ensures p > 100.0 <==> x > w.dayEnd
  {
    var s := w.Span() as real;
    var a := (x - w.dayStart) as real;
    PercentOfSpan(a, s);
    (a / s) * 100.0
  }

  /** `getWidth`: a duration as a percentage of the window. Its sign is the
      duration's, and the whole window is 100. */
  function GetWidth(w: Window, duration: int): (r: real)
    requires w.Span() > 0
    ensures r > 0.0 <==> duration > 0
    ensures r < 0.0 <==> duration < 0
    ensures duration == w.Span() ==> r == 100.0
  {
    var s := w.Span() as real;
    PercentOfSpan(duration as real, s);
    (duration as real / s) * 100.0
  }

  /** A quantity as a percentage of a positive span: negative, zero or
      positive with the quantity, and above 100 exactly when the quantity
      exceeds the span. */
  lemma PercentOfSpan(a: real, s: real)
    requires s > 0.0
    ensures (a / s) * 100.0 < 0.0 <==> a < 0.0
    ensures (a / s) * 100.0 > 0.0 <==> a > 0.0
    ensures (a / s) * 100.0 > 100.0 <==> a > s
    ensures a == 0.0 ==> (a / s) * 100.0 == 0.0
    ensures a == s ==> (a / s) * 100.0 == 100.0
  {
    var q := a / s;
    assert q * s == a;
    ScaleByPositive(q, 0.0, s);
    ScaleByPositive(0.0, q, s);
    assert q < 0.0 <==> a < 0.0;
    assert q > 0.0 <==> a > 0.0;
    ScaleByPositive(1.0, q, s);
    assert 1.0 < q <==> 1.0 * s < q * s;
    assert 1.0 * s == s;
    assert 1.0 < q <==> s < a;
    ScaleByPositive(q, 1.0, s);
    assert q < 1.0 <==> q * s < 1.0 * s;
    assert q < 1.0 <==> a < s;
  }

  /** The position is strictly increasing in the minute: the stretch
      between two minutes has a positive width. */
  lemma PositionStrictlyIncreasing(w: Window, a: int, b: int)
    requires w.Span() > 0 && a < b
    ensures GetPosition(w, a) < GetPosition(w, b)
  {
    PositionPlusWidth(w, a, b);
    assert GetWidth(w, b - a) > 0.0;
  }

  /** The width of the stretch from a to b is the distance between their
      positions: a segment drawn at a's position with that width ends at
      b's position. */
  lemma PositionPlusWidth(w: Window, a: int, b: int)
    requires w.Span() > 0
    ensures GetPosition(w, a) + GetWidth(w, b - a) == GetPosition(w, b)
  {
    var s := w.Span() as real;
    var pa, d := (a - w.dayStart) as real, (b - a) as real;
    assert pa / s + d / s == (pa + d) / s;
    assert (pa / s) * 100.0 + (d / s) * 100.0 == (pa / s + d / s) * 100.0;
  }

  /** Widths add up like the durations they measure. */
  lemma WidthAdditive(w: Window, d1: int, d2: int)
    requires w.Span() > 0
    ensures GetWidth(w, d1) + GetWidth(w, d2) == GetWidth(w, d1 + d2)
  {
    var s := w.Span() as real;
    assert d1 as real / s + d2 as real / s == (d1 + d2) as real / s;
    assert (d1 as real / s) * 100.0 + (d2 as real / s) * 100.0
        == (d1 as real / s + d2 as real / s) * 100.0;
  }

  // ---------------------------------------------------------------------
  // Segments

  datatype Period = MorningWork | Break | AfternoonWork

  function Label(p: Period): string {
    match p
    case MorningWork => "Morning Work"
    case Break => "Break"
    case AfternoonWork => "Afternoon Work"
  }

  /** One bar on the timeline, from `start` to `end` in minutes. */
  datatype TimelineEvent = TimelineEvent(period: Period, start: int, end: int)

  /** `timelineEvents`: morning work up to the break, the break, afternoon
      work from the break's end. The three follow one another without gap
      or overlap and span the work hours; nothing is clamped or reordered,
      so a break outside the work hours gives a segment of negative length. */
  function TimelineEvents(workStartMin: int, workEndMin: int, breakStartMin: int, breakDuration: int)
    : (es: seq<TimelineEvent>)
    ensures |es| == 3
    ensures es[0].period == MorningWork && es[1].period == Break && es[2].period == AfternoonWork
    ensures es[0].start == workStartMin && es[2].end == workEndMin
    ensures es[0].end == es[1].start && es[1].end == es[2].start
    ensures es[1].start == breakStartMin && es[1].end - es[1].start == breakDuration
  {
    var breakEndMin := breakStartMin + breakDuration;
    [ TimelineEvent(MorningWork, workStartMin, breakStartMin),
      TimelineEvent(Break, breakStartMin, breakEndMin),
      TimelineEvent(AfternoonWork, breakEndMin, workEndMin) ]
  }

  lemma ScaleByPositive(a: real, b: real, s: real)
    requires s > 0.0
    ensures a < b <==> a * s < b * s
  {
    assert (b - a) * s == b * s - a * s;
  }

  lemma PercentAbove(a: real, s: real, t: real)
    requires s > 0.0
    ensures (a / s) * 100.0 > t <==> a * 100.0 > t * s
  {
    var q := (a / s) * 100.0;
    assert q * s == a * 100.0;
    ScaleByPositive(t, q, s);
  }

  /** The width of a segment, in percent of the window. */
  function EventWidth(w: Window, e: TimelineEvent): real
    requires w.Span() > 0
  {
    GetWidth(w, e.end - e.start)
  }

  /** The test `getWidth(event.end - event.start) > 15`: a segment shows its
      label exactly when it is wider than 15% of the window. SegmentText is
      what that test renders. */
  function ShowsLabel(w: Window, e: TimelineEvent): (shown: bool)
    requires w.Span() > 0
    ensures shown <==> 100 * (e.end - e.start) > 15 * w.Span()
  {
    var n, s := e.end - e.start, w.Span();
    PercentAbove(n as real, s as real, 15.0);
    assert n as real * 100.0 > 15.0 * s as real <==> 100 * n > 15 * s;
    EventWidth(w, e) > 15.0
  }

  /** `{getWidth(event.end - event.start) > 15 && event.label}`: the text
      inside a segment is its label when the segment is wider than 15% of the
      window, and nothing otherwise. */
  function SegmentText(w: Window, e: TimelineEvent): (text: string)
    requires w.Span() > 0
    ensures text != [] <==> 100 * (e.end - e.start) > 15 * w.Span()
    ensures text != [] ==> text == Label(e.period)
  {
    if ShowsLabel(w, e) then Label(e.period) else ""
  }

  /** The three widths add up to the width of the work hours, and on screen
      each segment ends where the next begins. */
  lemma SegmentsCoverWorkHours(w: Window, workStartMin: int, workEndMin: int, breakStartMin: int, breakDuration: int)
    requires w.Span() > 0
    ensures var es := TimelineEvents(workStartMin, workEndMin, breakStartMin, breakDuration);
      && EventWidth(w, es[0]) + EventWidth(w, es[1]) + EventWidth(w, es[2]) == GetWidth(w, workEndMin - workStartMin)
      && GetPosition(w, es[0].start) + EventWidth(w, es[0]) == GetPosition(w, es[1].start)
      && GetPosition(w, es[1].start) + EventWidth(w, es[1]) == GetPosition(w, es[2].start)
      && GetPosition(w, es[2].start) + EventWidth(w, es[2]) == GetPosition(w, workEndMin)
  {
    var es := TimelineEvents(workStartMin, workEndMin, breakStartMin, breakDuration);
    WidthAdditive(w, es[0].end - es[0].start, es[1].end - es[1].start);
    WidthAdditive(w, es[0].end - es[0].start + (es[1].end - es[1].start), es[2].end - es[2].start);
    PositionPlusWidth(w, es[0].start, es[0].end);
    PositionPlusWidth(w, es[1].start, es[1].end);
    PositionPlusWidth(w, es[2].start, es[2].end);
  }

  /** When the break lies inside the work hours and the work hours inside the
      day, every segment has a non-negative width and lies within the
      visible window, 0 to 100 percent. */
  lemma SegmentsInsideWindow(workStartMin: int, workEndMin: int, breakStartMin: int, breakDuration: int)
    requires 0 <= workStartMin < workEndMin <= 1440
    requires workStartMin <= breakStartMin && 0 <= breakDuration
    requires breakStartMin + breakDuration <= workEndMin
    ensures var w := VisibleWindow(workStartMin, workEndMin);
      var es := TimelineEvents(workStartMin, workEndMin, breakStartMin, breakDuration);
      forall i :: 0 <= i < 3 ==>
        && EventWidth(w, es[i]) >= 0.0
        && 0.0 <= GetPosition(w, es[i].start)
        && GetPosition(w, es[i].start) + EventWidth(w, es[i]) <= 100.0
  {
    var w := VisibleWindow(workStartMin, workEndMin);
    var es := TimelineEvents(workStartMin, workEndMin, breakStartMin, breakDuration);
    forall i | 0 <= i < 3
      ensures EventWidth(w, es[i]) >= 0.0
      ensures 0.0 <= GetPosition(w, es[i].start)
      ensures GetPosition(w, es[i].start) + EventWidth(w, es[i]) <= 100.0
    {
      PositionPlusWidth(w, es[i].start, es[i].end);
      assert w.dayStart <= es[i].start <= es[i].end <= w.dayEnd;
    }
  }

  // ---------------------------------------------------------------------
  // The schedule record on the timeline

  /** The window for a record's work hours. */
  function ScheduleWindow(d: ScheduleData): (w: Window)
    requires IsClockTime(d.workStart) && IsClockTime(d.workEnd)
    ensures w.dayStart <= TimeToMinutes(d.workStart) && TimeToMinutes(d.workEnd) <= w.dayEnd
    ensures TimeToMinutes(d.workStart) < TimeToMinutes(d.workEnd) ==> w.Span() > 0
  {
    VisibleWindow(TimeToMinutes(d.workStart), TimeToMinutes(d.workEnd))
  }

  /** The segments for a record. The break lasts the whole number parsed from
      the duration field, or nothing when that field holds no number. */
  function ScheduleEvents(d: ScheduleData): (es: seq<TimelineEvent>)
    requires WellFormed(d.workStart) && WellFormed(d.workEnd) && WellFormed(d.breakStart)
    ensures |es| == 3
    ensures es[0].start == TimeToMinutes(d.workStart) && es[2].end == TimeToMinutes(d.workEnd)
    ensures es[1].start == TimeToMinutes(d.breakStart)
    ensures ParseInt(d.breakDuration).Some? ==> es[1].end - es[1].start == ParseInt(d.breakDuration).value
    ensures ParseInt(d.breakDuration).None? ==> es[1].end == es[1].start
  {
    TimelineEvents(TimeToMinutes(d.workStart), TimeToMinutes(d.workEnd),
                   TimeToMinutes(d.breakStart), ParseIntOrZero(d.breakDuration))
  }

  // ---------------------------------------------------------------------
  // Hour gridlines and the current-time marker

  /** One gridline: the full hour it stands for, in minutes, and its
      position. Its label is that hour written "HH:MM". */
  datatype HourMarker = HourMarker(minute: nat, position: real) {
    function Time(): string {
      MinutesToTime(minute)
    }
  }

  /** `Math.ceil(dayStartMin / 60) * 60`: the first full hour at or after a
      minute. */
  function FirstHour(dayStart: nat): (f: nat)
    ensures f % 60 == 0 && dayStart <= f < dayStart + 60
  {
    if dayStart % 60 == 0 then dayStart else dayStart + (60 - dayStart % 60)
  }

  /** The marker for the hour `minute`, at that minute's position. */
  function MarkerFor(w: Window, minute: nat): (m: HourMarker)
    requires w.Span() > 0
    ensures m.minute == minute
    ensures w.dayStart <= minute <= w.dayEnd ==> 0.0 <= m.position <= 100.0
  {
    HourMarker(minute, GetPosition(w, minute))
  }

  /** `hourMarkers`: one marker per full hour from the first one in the
      window up to the window's end inclusive. Markers are 60 minutes apart,
      all inside the window, each at its own position, and the next full
      hour lies beyond the window, so every full hour of the window has one
      (see MarkersCoverEveryHour); a window reaching the end of the day ends
      with the marker for 1440, labelled "24:00" (see MarkersEndAtMidnight). */
  method HourMarkers(w: Window) returns (markers: seq<HourMarker>)
    requires 0 <= w.dayStart && w.Span() > 0
    ensures forall k :: 0 <= k < |markers| ==>
      markers[k].minute == FirstHour(w.dayStart) + 60 * k
    ensures forall k :: 0 <= k < |markers| ==>
      w.dayStart <= markers[k].minute <= w.dayEnd && markers[k].position == GetPosition(w, markers[k].minute)
    ensures FirstHour(w.dayStart) + 60 * |markers| > w.dayEnd
    ensures w.dayEnd == 1440 ==> |markers| > 0 && markers[|markers| - 1].minute == 1440
  {
    var first := FirstHour(w.dayStart);
    markers := [];
    var i: nat := first;
    while i <= w.dayEnd
      invariant i == first + 60 * |markers|
      invariant |markers| > 0 ==> i - 60 <= w.dayEnd
      invariant forall k :: 0 <= k < |markers| ==> markers[k].minute == first + 60 * k
      invariant forall k :: 0 <= k < |markers| ==>
        w.dayStart <= markers[k].minute <= w.dayEnd && markers[k].position == GetPosition(w, markers[k].minute)
      decreases w.dayEnd - i
    {
      if w.dayStart <= i && i <= w.dayEnd {
        markers := markers + [MarkerFor(w, i)];
      }
      i := i + 60;
    }
    if w.dayEnd == 1440 {
      LastHourOfDay(first, |markers|);
    }
  }

  /** Full hours from `first` on, 60 minutes apart, that stop just before
      passing the end of the day end exactly at it. */
  lemma LastHourOfDay(first: nat, n: nat)
    requires first % 60 == 0 && first <= 1440
    requires first + 60 * n > 1440
    requires n > 0 ==> first + 60 * (n - 1) <= 1440
    ensures n > 0 && first + 60 * (n - 1) == 1440
  {
    var q := first / 60;
    assert first == 60 * q;
    assert q + n > 24;
    assert n > 0;
    assert q + n - 1 <= 24;
  }

  /** A window reaching the end of the day ends with the "24:00" marker. */
  lemma MarkersEndAtMidnight(w: Window, markers: seq<HourMarker>)
    requires 0 <= w.dayStart && w.dayEnd == 1440
    requires forall k :: 0 <= k < |markers| ==>
      markers[k].minute == FirstHour(w.dayStart) + 60 * k && markers[k].minute <= w.dayEnd
    requires FirstHour(w.dayStart) + 60 * |markers| > w.dayEnd
    requires FirstHour(w.dayStart) <= w.dayEnd
    ensures |markers| > 0 && markers[|markers| - 1].Time() == "24:00"
  {
    var f, n := FirstHour(w.dayStart), |markers|;
    if n > 0 {
      assert markers[n - 1].minute == f + 60 * (n - 1) <= 1440;
    }
    LastHourOfDay(f, n);
    assert markers[n - 1].minute == 1440;
    MidnightLabel();
  }

  /** The end of the day is written "24:00". */
  lemma MidnightLabel()
    ensures MinutesToTime(1440) == "24:00"
  {
    TwoDigitsBelow100(24);
    TwoDigitsBelow100(0);
  }

  /** Every full hour of the window is among the markers. */
  lemma MarkersCoverEveryHour(w: Window, markers: seq<HourMarker>, m: int)
    requires 0 <= w.dayStart
    requires forall k :: 0 <= k < |markers| ==>
      markers[k].minute == FirstHour(w.dayStart) + 60 * k
    requires FirstHour(w.dayStart) + 60 * |markers| > w.dayEnd
    requires w.dayStart <= m <= w.dayEnd && m % 60 == 0
    ensures exists k :: 0 <= k < |markers| && markers[k].minute == m
  {
    var f := FirstHour(w.dayStart);
    var qf, qm := f / 60, m / 60;
    assert f == 60 * qf && m == 60 * qm;
    assert qm >= qf;
    var k := qm - qf;
    assert f + 60 * k == m;
    assert k < |markers|;
    assert markers[k].minute == m;
  }

  /** `getCurrentTimePosition`, with the clock's hour and minute passed in:
      the same position formula, not clamped, so a time before the window is
      drawn left of it (below 0) and one after it right of it (above 100). */
  function CurrentTimePosition(w: Window, hours: nat, minutes: nat): (p: real)
    requires w.Span() > 0 && hours < 24 && minutes < 60
    ensures p < 0.0 <==> hours * 60 + minutes < w.dayStart
    ensures p > 100.0 <==> hours * 60 + minutes > w.dayEnd
    ensures w.dayStart <= hours * 60 + minutes <= w.dayEnd ==> 0.0 <= p <= 100.0
  {
    GetPosition(w, hours * 60 + minutes)
  }

  // ---------------------------------------------------------------------
  // The default schedule on the timeline

  /** The default record, 08:00 to 17:00 with a 60-minute break at 12:00,
      gets the window 07:00 to 18:00 and the segments 08:00-12:00,
      12:00-13:00 and 13:00-17:00. */
  lemma DefaultTimeline()
    ensures ScheduleWindow(Default) == Window(420, 1080)
    ensures ScheduleEvents(Default) ==
      [ TimelineEvent(MorningWork, 480, 720),
        TimelineEvent(Break, 720, 780),
        TimelineEvent(AfternoonWork, 780, 1020) ]
  {
    ClockTimes(8, 0);
    ClockTimes(17, 0);
    ClockTimes(12, 0);
    DecimalText(60);
  }

  /** On that window 12:00 sits at 500/11 percent (about 45.45); the break,
      60 of 660 minutes, is too narrow for its label while both work
      segments show theirs; and the "now" marker at 12:00 sits exactly where
      the break starts. */
  lemma DefaultLayout()
    ensures var w := Window(420, 1080);
      && GetPosition(w, 720) == 500.0 / 11.0
      && ShowsLabel(w, TimelineEvent(MorningWork, 480, 720))
      && !ShowsLabel(w, TimelineEvent(Break, 720, 780))
      && ShowsLabel(w, TimelineEvent(AfternoonWork, 780, 1020))
      && CurrentTimePosition(w, 12, 0) == GetPosition(w, 720)
  {
    var w := Window(420, 1080);
    assert GetPosition(w, 720) == (300.0 / 660.0) * 100.0;
  }
}
