/** The preview card: the total work time written as "{hours}h {minutes}m",
    and whether the schedule is active at the current time of day. */
module Preview {
  import opened JsNumber
  import opened TimeOfDay
  import opened Schedule
  import Timeline

  // ---------------------------------------------------------------------
  // Total work time

  /** The work hours less the break, in minutes. The difference of the two
      times read as dates on one day is taken as the difference of their
      minute counts; the break is the number parsed from its field, or 0.
      The total is what the timeline draws as work: the lengths of its
      morning and afternoon segments added up, so it is not negative when
      neither segment is. */
  function TotalWorkMinutes(d: ScheduleData): (total: int)
    requires IsClockTime(d.workStart) && IsClockTime(d.workEnd)
    ensures ParseInt(d.breakDuration).Some? ==>
      total == TimeToMinutes(d.workEnd) - TimeToMinutes(d.workStart) - ParseInt(d.breakDuration).value
    ensures ParseInt(d.breakDuration).None? ==>
      total == TimeToMinutes(d.workEnd) - TimeToMinutes(d.workStart)
    ensures WellFormed(d.breakStart) ==>
      var es := Timeline.ScheduleEvents(d);
      && total == (es[0].end - es[0].start) + (es[2].end - es[2].start)
      && (es[0].start <= es[0].end && es[2].start <= es[2].end ==> total >= 0)
  {
    TimeToMinutes(d.workEnd) - TimeToMinutes(d.workStart) - ParseIntOrZero(d.breakDuration)
  }

  /** `Math.floor(total / 60)` and `total % 60`, the latter truncating. For a
      non-negative total these are the whole hours and the minutes left over,
      which recombine to the total. */
  function SplitHours(total: int): (hm: (int, int))
    ensures hm.0 * 60 <= total < hm.0 * 60 + 60
    ensures total >= 0 ==> 0 <= hm.1 < 60 && hm.0 * 60 + hm.1 == total
    ensures total < 0 ==> -60 < hm.1 <= 0
  {
    (total / 60, JsRem(total, 60))
  }

  /** Floor division and the truncating remainder recombine to the total
      exactly when the total is non-negative or a whole number of hours; a
      negative total such as -30 minutes splits into -1 hours and -30
      minutes. */
  lemma SplitRecombines(total: int)
    ensures SplitHours(total).0 * 60 + SplitHours(total).1 == total <==> total >= 0 || total % 60 == 0
  {
    var (h, m) := SplitHours(total);
    if total < 0 {
      var k := -total;
      assert m == -(k % 60);
      if total % 60 == 0 {
        assert k == 60 * (k / 60);
        assert k % 60 == 0;
        assert total == 60 * (total / 60);
      } else {
        assert total == 60 * (total / 60) + total % 60;
        assert k == 60 * (k / 60) + k % 60;
        assert k % 60 != 0;
      }
    }
  }

  /** `${hours}h ${minutes > 0 ? `${minutes}m` : ''}`: the hours and "h "
      always, then the minutes and "m" only when the minutes are positive. */
  function FormatWorkHours(hours: int, minutes: int): (s: string)
    ensures var h := IntToString(hours);
      |h| + 2 <= |s| && s[..|h|] == h && s[|h|..|h| + 2] == "h "
    ensures |s| == |IntToString(hours)| + 2 <==> minutes <= 0
    ensures minutes > 0 ==> s[|IntToString(hours)| + 2..] == IntToString(minutes) + "m"
  {
    IntToString(hours) + "h " + (if minutes > 0 then IntToString(minutes) + "m" else "")
  }

  /** `calculateWorkHours`. For a non-negative total: the whole hours, "h ",
      and the leftover minutes with "m" unless there are none. For a
      negative total the truncating remainder is never positive, so only the
      floored hours and "h " are written. */
  function CalculateWorkHours(d: ScheduleData): (s: string)
    requires IsClockTime(d.workStart) && IsClockTime(d.workEnd)
    ensures var total := TotalWorkMinutes(d);
      total >= 0 ==>
        s == NatToString(total / 60) + "h " + (if total % 60 == 0 then "" else NatToString(total % 60) + "m")
    ensures var total := TotalWorkMinutes(d);
      total < 0 ==> s == IntToString(total / 60) + "h "
  {
    var (hours, minutes) := SplitHours(TotalWorkMinutes(d));
    FormatWorkHours(hours, minutes)
  }

  /** The text reads back as the total: parseInt of it gives the whole
      hours, and parseInt of what follows "h " gives the leftover minutes,
      or there is nothing there when the total is a whole number of hours. */
  lemma WorkHoursReadBack(d: ScheduleData)
    requires IsClockTime(d.workStart) && IsClockTime(d.workEnd)
    requires TotalWorkMinutes(d) >= 0
    ensures var s, total := CalculateWorkHours(d), TotalWorkMinutes(d);
      var n := |NatToString(total / 60)|;
      && ParseInt(s) == Some(total / 60)
      && n + 2 <= |s| && s[n..n + 2] == "h "
      && (total % 60 == 0 ==> |s| == n + 2)
      && (total % 60 != 0 ==> ParseInt(s[n + 2..]) == Some(total % 60))
  {
    HoursTextReadBack(TotalWorkMinutes(d));
  }

  /** The read-back property for the text of a non-negative total. */
  lemma HoursTextReadBack(total: nat)
    ensures var hs := NatToString(total / 60);
      var s := hs + "h " + (if total % 60 == 0 then "" else NatToString(total % 60) + "m");
      && ParseInt(s) == Some(total / 60)
      && |hs| + 2 <= |s| && s[|hs|..|hs| + 2] == "h "
      && (total % 60 == 0 ==> |s| == |hs| + 2)
      && (total % 60 != 0 ==> ParseInt(s[|hs| + 2..]) == Some(total % 60))
  {
    var hs := NatToString(total / 60);
    var tail := if total % 60 == 0 then "" else NatToString(total % 60) + "m";
    var s := hs + "h " + tail;
    assert s == hs + ("h " + tail);
    ParseIntNatToString(total / 60, "h " + tail);
    assert s[|hs| + 2..] == tail;
    if total % 60 != 0 {
      ParseIntNatToString(total % 60, "m");
    }
  }

  /** 08:00 to 17:00 with a 60-minute break: eight hours, written "8h ". */
  lemma NineHourDayWithHourBreak(d: ScheduleData)
    requires d.workStart == "08:00" && d.workEnd == "17:00" && d.breakDuration == "60"
    ensures CalculateWorkHours(d) == "8h "
  {
    var total := TotalWorkMinutes(d);
    assert total == 480 by {
      ClockTimes(8, 0);
      ClockTimes(17, 0);
      DecimalText(60);
    }
    assert total / 60 == 8 && total % 60 == 0;
    assert NatToString(8) == "8";
  }

  /** 08:00 to 17:30 with a 45-minute break: "8h 45m". */
  lemma LongDayWithShortBreak(d: ScheduleData)
    requires d.workStart == "08:00" && d.workEnd == "17:30" && d.breakDuration == "45"
    ensures CalculateWorkHours(d) == "8h 45m"
  {
    var total := TotalWorkMinutes(d);
    assert total == 525 by {
      ClockTimes(8, 0);
      ClockTimes(17, 30);
      DecimalText(45);
    }
    assert total / 60 == 8 && total % 60 == 45;
    assert NatToString(8) == "8" && NatToString(45) == "45";
  }

  /** 08:00 to 09:00 with a 90-minute break: the total is -30 minutes, which
      is written "-1h ", the floored hour with no minutes. */
  lemma ShortDayLongBreak(d: ScheduleData)
    requires d.workStart == "08:00" && d.workEnd == "09:00" && d.breakDuration == "90"
    ensures CalculateWorkHours(d) == "-1h "
  {
    var total := TotalWorkMinutes(d);
    assert total == -30 by {
      ClockTimes(8, 0);
      ClockTimes(9, 0);
      DecimalText(90);
    }
    assert total / 60 == -1;
    assert IntToString(-1) == "-1";
  }

  // ---------------------------------------------------------------------
  // Active status

  /** JavaScript `<` on strings, comparing code points (JavaScript compares
      UTF-16 code units; the two orders agree below U+10000, which covers
      every "HH:MM" text): the first differing character decides, and
      a proper prefix comes first. */
  function LexLess(a: string, b: string): (r: bool)
    ensures |a| < |b| && a == b[..|a|] ==> r
  {
    if b == [] then false
    else if a == [] then true
    else if a[0] != b[0] then a[0] < b[0]
    else
      assert |a| < |b| && a == b[..|a|] ==> a[1..] == b[1..][..|a| - 1];
      LexLess(a[1..], b[1..])
  }

  /** JavaScript `<=` on strings, over code points as LexLess: below or
      equal. */
  function LexLe(a: string, b: string): (r: bool)
    ensures r <==> LexLess(a, b) || a == b
  {
    LexTotal(a, b);
    LexLessAsymmetric(a, b);
    LexLessIrreflexive(a);
    !LexLess(b, a)
  }

  /** No two strings are each below the other. */
  lemma {:induction false} LexLessAsymmetric(a: string, b: string)
    ensures LexLess(a, b) ==> !LexLess(b, a)
  {
    if a != [] && b != [] && a[0] == b[0] {
      LexLessAsymmetric(a[1..], b[1..]);
    }
  }

  /** Of two different strings one is below the other. */
  lemma {:induction false} LexTotal(a: string, b: string)
    ensures LexLess(a, b) || a == b || LexLess(b, a)
  {
    if a != [] && b != [] && a[0] == b[0] {
      LexTotal(a[1..], b[1..]);
      if a[1..] == b[1..] {
        assert a == [a[0]] + a[1..] && b == [b[0]] + b[1..];
      }
    }
  }

  /** `getStatusColor`'s test, with the clock's hour and minute passed in:
      the current time written "HH:MM" (as `toTimeString().slice(0, 5)`
      gives it) lies between the work start and end in string order. For
      clock times that is exactly the minute range, ends included. */
  function IsActive(d: ScheduleData, hours: nat, minutes: nat): (active: bool)
    requires hours < 24 && minutes < 60
    ensures IsClockTime(d.workStart) && IsClockTime(d.workEnd) ==>
      (active <==> TimeToMinutes(d.workStart) <= hours * 60 + minutes <= TimeToMinutes(d.workEnd))
  {
    var now := MinutesToTime(hours * 60 + minutes);
    var active := LexLe(d.workStart, now) && LexLe(now, d.workEnd);
    if IsClockTime(d.workStart) && IsClockTime(d.workEnd) then
      LexOrderAgrees(d.workStart, now);
      LexOrderAgrees(now, d.workEnd);
      active
    else
      active
  }

  /** Strings sharing a prefix compare as what follows it. */
  lemma {:induction false} LexLessCommonPrefix(a: string, b: string, k: nat)
    requires k <= |a| && k <= |b| && a[..k] == b[..k]
    ensures LexLess(a, b) == LexLess(a[k..], b[k..])
  {
    if k > 0 {
      assert a[0] == a[..k][0] == b[..k][0] == b[0];
      assert a[1..][..k - 1] == a[1..k] == b[1..k] == b[1..][..k - 1];
      LexLessCommonPrefix(a[1..], b[1..], k - 1);
      assert a[1..][k - 1..] == a[k..] && b[1..][k - 1..] == b[k..];
    }
  }

  /** Two leading digits decide string order the way their two-digit
      numbers do, unless they are equal. */
  lemma LexLessTwoDigits(a: string, b: string)
    requires |a| >= 2 && |b| >= 2
    requires IsDigit(a[0]) && IsDigit(a[1]) && IsDigit(b[0]) && IsDigit(b[1])
    requires a[..2] != b[..2]
    ensures LexLess(a, b) <==>
      DigitValue(a[0]) * 10 + DigitValue(a[1]) < DigitValue(b[0]) * 10 + DigitValue(b[1])
  {
    if a[0] == b[0] {
      assert a[..2] == [a[0], a[1]] && b[..2] == [b[0], b[1]];
      assert a[..1] == b[..1];
      LexLessCommonPrefix(a, b, 1);
      assert a[1..][0] == a[1] && b[1..][0] == b[1];
    }
  }

  /** For well-formed times with minutes below 60, string order is time
      order: comparing the text compares the minute counts. */
  lemma LexOrderAgrees(a: string, b: string)
    requires WellFormed(a) && WellFormed(b) && MinuteOf(a) < 60 && MinuteOf(b) < 60
    ensures LexLess(a, b) <==> TimeToMinutes(a) < TimeToMinutes(b)
    ensures LexLe(a, b) <==> TimeToMinutes(a) <= TimeToMinutes(b)
  {
    LexLessAgrees(a, b);
    LexLessAgrees(b, a);
  }

  /** The strict half of LexOrderAgrees for one ordered pair; LexOrderAgrees
      applies it in both directions to obtain `<=` as well. */
  lemma LexLessAgrees(a: string, b: string)
    requires WellFormed(a) && WellFormed(b) && MinuteOf(a) < 60 && MinuteOf(b) < 60
    ensures LexLess(a, b) <==> TimeToMinutes(a) < TimeToMinutes(b)
  {
    if a[..2] != b[..2] {
      LexLessTwoDigits(a, b);
    } else {
      assert a[..3] == b[..3];
      LexLessCommonPrefix(a, b, 3);
      assert HourOf(a) == HourOf(b);
      if a[3..] == b[3..] {
        assert a == a[..3] + a[3..] && b == b[..3] + b[3..];
        assert a == b;
        LexLessIrreflexive(a);
      } else {
        assert a[3..][..2] == a[3..] && b[3..][..2] == b[3..];
        LexLessTwoDigits(a[3..], b[3..]);
      }
    }
  }

  lemma {:induction false} LexLessIrreflexive(a: string)
    ensures !LexLess(a, a)
  {
    if a != [] {
      LexLessIrreflexive(a[1..]);
    }
  }
}
