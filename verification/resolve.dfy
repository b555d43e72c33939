/** Turning a parsed create command into the time the reminder fires
    (bot.js lines 125 and 139-172): build `new Date(...)` from the clock's
    current year (and, for a time-only command, its month and day), and when
    that lies strictly before now, replace its day of the month with today's
    day plus one. The delay handed to the timer is the difference to now. */
module FireTime {
  import opened Calendar
  import opened CreateCommand

  /** The `reminderDate` the handler first constructs (lines 142-143, 160-166). */
  function Candidate(r: Request, now: int): int {
    match r
    case DateTime(_, day, month, hour, minute) =>
      NewDate(YearFromTime(now), month, day, hour, minute)
    case TimeOnly(_, hour, minute) =>
      NewDate(YearFromTime(now), MonthFromTime(now), DateFromTime(now), hour, minute)
  }

  /** The stored time: the candidate, or after `setDate(now.getDate() + 1)` when
      the candidate is strictly earlier than now (lines 145-147, 168-170). */
  function Resolve(r: Request, now: int): int {
    var c := Candidate(r, now);
    if c < now then SetDate(c, DateFromTime(now) + 1) else c
  }

  /** `timeDiff`, the delay passed to `setTimeout` (lines 149, 172). */
  function Delay(r: Request, now: int): int {
    Resolve(r, now) - now
  }

  /** Midnight at the start of the day `t` falls in. */
  function Midnight(t: int): (m: int)
    ensures m <= t < m + MsPerDay
  {
    Day(t) * MsPerDay
  }

  /** Rebuilding today's date from its calendar fields gives today. */
  lemma TodayRebuilt(now: int)
    ensures MakeDay(YearFromTime(now), MonthFromTime(now), DateFromTime(now)) == Day(now)
  {
    DayRoundTrip(Day(now));
  }

  /** A time before now on the same day, moved with `setDate(today + 1)`, lands
      exactly one day later. */
  lemma NextDayShift(c: int, now: int)
    requires Midnight(now) <= c < now
    ensures SetDate(c, DateFromTime(now) + 1) == c + MsPerDay
  {
    assert Day(c) == Day(now) by {
      assert Day(now) * MsPerDay <= c < (Day(now) + 1) * MsPerDay;
      MakeDateSplit(Day(now), c - Day(now) * MsPerDay);
    }
    SetDateShift(c, DateFromTime(now) + 1);
  }

  /** A year read as 1900 + year by the constructor lies far beyond the clock's
      day, for any month the date form passes, `00` and `13`..`99` included. */
  lemma CenturyShiftIsLater(y: int, m: int, d: int)
    requires 0 <= y <= 99
    ensures MakeDay(1900 + y, m, d) > MakeDay(y, m, d) + 1
  {
    DayFromYearMonotone(y + m / 12, 1900 + y + m / 12);
  }

  /** Time-only form with the clock in an ordinary year: the reminder is today at
      HH:MM, and tomorrow at HH:MM when that is strictly earlier than now.
      Hours and minutes beyond 23 and 59 carry over, as in `new Date`. */
  lemma TimeOnlyResolution(e: string, h: nat, mi: nat, now: int)
    requires !(0 <= YearFromTime(now) <= 99)
    ensures var c := Midnight(now) + h * MsPerHour + mi * MsPerMinute;
            Resolve(TimeOnly(e, h, mi), now) == if c < now then c + MsPerDay else c
  {
    TodayRebuilt(now);
    var c := Midnight(now) + h * MsPerHour + mi * MsPerMinute;
    assert Candidate(TimeOnly(e, h, mi), now) == c;
    if c < now {
      NextDayShift(c, now);
    }
  }

  /** Time-only form: the stored time is never before now, so the delay is never
      negative, whatever the clock reads. */
  lemma {:induction false} TimeOnlyNeverPast(e: string, h: nat, mi: nat, now: int)
    ensures Resolve(TimeOnly(e, h, mi), now) >= now
    ensures Delay(TimeOnly(e, h, mi), now) >= 0
  {
    var y := YearFromTime(now);
    if 0 <= y <= 99 {
      // `new Date` reads the year as 1900 + y: the candidate is centuries ahead.
      TodayRebuilt(now);
      CenturyShiftIsLater(y, MonthFromTime(now), DateFromTime(now));
      var c := Candidate(TimeOnly(e, h, mi), now);
      assert c >= (Day(now) + 1) * MsPerDay;
    } else {
      TimeOnlyResolution(e, h, mi, now);
    }
  }

  /** Time-only form with an in-range clock reading: the reminder rings at HH:MM,
      today if that is not before now and tomorrow otherwise. */
  lemma TimeOnlyClockReading(e: string, h: nat, mi: nat, now: int)
    requires !(0 <= YearFromTime(now) <= 99)
    requires h < 24 && mi < 60
    ensures HourFromTime(Resolve(TimeOnly(e, h, mi), now)) == h
    ensures MinFromTime(Resolve(TimeOnly(e, h, mi), now)) == mi
    ensures Day(Resolve(TimeOnly(e, h, mi), now))
            == if MakeDate(Day(now), MakeTime(h, mi, 0, 0)) < now then Day(now) + 1 else Day(now)
  {
    TimeOnlyResolution(e, h, mi, now);
    var c := MakeDate(Day(now), MakeTime(h, mi, 0, 0));
    var d := if c < now then Day(now) + 1 else Day(now);
    assert Resolve(TimeOnly(e, h, mi), now) == MakeDate(d, MakeTime(h, mi, 0, 0));
    TimeFields(d, h, mi);
  }

  /** Date form, no rollover: a candidate not before now is stored as is. */
  lemma DateFormKept(e: string, day: nat, month: int, h: nat, mi: nat, now: int)
    requires NewDate(YearFromTime(now), month, day, h, mi) >= now
    ensures Resolve(DateTime(e, day, month, h, mi), now) == NewDate(YearFromTime(now), month, day, h, mi)
    ensures Delay(DateTime(e, day, month, h, mi), now) >= 0
  {
  }

  /** Date form, rollover: only the day of the month changes, to today's day plus
      one; the candidate's year, month and time of day stay. The stored time is
      therefore the candidate moved by whole days, possibly still before now. */
  lemma DateFormRollover(e: string, day: nat, month: int, h: nat, mi: nat, now: int)
    requires NewDate(YearFromTime(now), month, day, h, mi) < now
    ensures var c := NewDate(YearFromTime(now), month, day, h, mi);
            && Resolve(DateTime(e, day, month, h, mi), now)
               == c + (DateFromTime(now) + 1 - DateFromTime(c)) * MsPerDay
            && TimeWithinDay(Resolve(DateTime(e, day, month, h, mi), now)) == TimeWithinDay(c)
    ensures var c := NewDate(YearFromTime(now), month, day, h, mi);
            DateFromTime(now) + 1 <= DaysInMonth(YearFromTime(c), MonthFromTime(c)) ==>
              && YearFromTime(Resolve(DateTime(e, day, month, h, mi), now)) == YearFromTime(c)
              && MonthFromTime(Resolve(DateTime(e, day, month, h, mi), now)) == MonthFromTime(c)
              && DateFromTime(Resolve(DateTime(e, day, month, h, mi), now)) == DateFromTime(now) + 1
  {
    var c := NewDate(YearFromTime(now), month, day, h, mi);
    var d1 := DateFromTime(now) + 1;
    assert Resolve(DateTime(e, day, month, h, mi), now) == SetDate(c, d1);
    SetDateShift(c, d1);
    if d1 <= DaysInMonth(YearFromTime(c), MonthFromTime(c)) {
      SetDateFields(c, d1);
    }
  }

  /** Date form with a real calendar date and clock reading that has not passed:
      the stored time shows exactly the requested date and time in this year. */
  lemma DateFormFields(e: string, day: nat, month: int, h: nat, mi: nat, now: int)
    requires !(0 <= YearFromTime(now) <= 99)
    requires ValidDate(YearFromTime(now), month, day) && h < 24 && mi < 60
    requires NewDate(YearFromTime(now), month, day, h, mi) >= now
    ensures YearFromTime(Resolve(DateTime(e, day, month, h, mi), now)) == YearFromTime(now)
    ensures MonthFromTime(Resolve(DateTime(e, day, month, h, mi), now)) == month
    ensures DateFromTime(Resolve(DateTime(e, day, month, h, mi), now)) == day
    ensures HourFromTime(Resolve(DateTime(e, day, month, h, mi), now)) == h
    ensures MinFromTime(Resolve(DateTime(e, day, month, h, mi), now)) == mi
  {
    CivilFields(YearFromTime(now), month, day, h, mi);
  }

  /** Days of an earlier month of the same year come first. */
  lemma EarlierMonthFirst(y: int, m1: int, d1: int, m2: int, d2: int)
    requires ValidDate(y, m1, d1) && ValidDate(y, m2, d2) && m1 < m2
    ensures MakeDay(y, m1, d1) < MakeDay(y, m2, d2)
  {
    MakeDayInYear(y, m1, d1);
    MakeDayInYear(y, m2, d2);
    DaysBeforeMonthStep(y, m1);
    DaysBeforeMonthMonotone(y, m1 + 1, m2);
  }

  /** A date of an earlier month, even one past its month's end, comes before
      the same date of a later month less one day. */
  lemma EarlierMonthBefore(y: int, m1: int, d: int, m2: int)
    requires 0 <= m1 < m2 < 12
    ensures MakeDay(y, m1, d + 1) < MakeDay(y, m2, d)
  {
    MakeDayInYear(y, m1, d + 1);
    MakeDayInYear(y, m2, d);
    DaysBeforeMonthStep(y, m1);
    DaysBeforeMonthMonotone(y, m1 + 1, m2);
  }

  /** The date form can store a time in the past: when the requested date lies in
      an earlier month of this year, rollover only moves it to day today + 1
      counted from the start of that month, which is still before now (carrying
      into the next month when that day does not exist), and the delay is
      negative. */
  lemma DateFormStaysInPast(e: string, day: nat, month: int, h: nat, mi: nat, now: int)
    requires !(0 <= YearFromTime(now) <= 99)
    requires ValidDate(YearFromTime(now), month, day) && h < 24 && mi < 60
    requires month < MonthFromTime(now)
    ensures Resolve(DateTime(e, day, month, h, mi), now) < now
    ensures Delay(DateTime(e, day, month, h, mi), now) < 0
  {
    var y := YearFromTime(now);
    var c := NewDate(y, month, day, h, mi);
    CivilFields(y, month, day, h, mi);
    TodayRebuilt(now);
    DayRoundTrip(Day(now));
    EarlierMonthFirst(y, month, day, MonthFromTime(now), DateFromTime(now));
    assert Day(c) < Day(now);
    assert c < now by {
      MakeDateSplit(Day(c), TimeWithinDay(c));
    }
    var f := Resolve(DateTime(e, day, month, h, mi), now);
    var nd := MakeDay(y, month, DateFromTime(now) + 1);
    assert f == MakeDate(nd, TimeWithinDay(c));
    MakeDateSplit(nd, TimeWithinDay(c));
    EarlierMonthBefore(y, month, DateFromTime(now), MonthFromTime(now));
    assert Day(f) < Day(now);
  }

  /** One instance: on 15 June at 12:00 of any year from 100 on, `10.03 10:00`
      becomes 10 March 10:00 of that year, which has passed, and is moved to
      16 March 10:00, still three months before now. */
  lemma DateFormStaysInPastExample(y: int)
    requires y >= 100
    ensures Resolve(DateTime("x", 10, 2, 10, 0), NewDate(y, 5, 15, 12, 0)) == NewDate(y, 2, 16, 10, 0)
    ensures Resolve(DateTime("x", 10, 2, 10, 0), NewDate(y, 5, 15, 12, 0)) < NewDate(y, 5, 15, 12, 0)
  {
    var now := NewDate(y, 5, 15, 12, 0);
    CivilFields(y, 5, 15, 12, 0);
    DateFormStaysInPast("x", 10, 2, 10, 0, now);
    var c := NewDate(y, 2, 10, 10, 0);
    DateFormRollover("x", 10, 2, 10, 0, now);
    CivilFields(y, 2, 10, 10, 0);
    MakeDayShift(y, 2, 10, 6);
  }

  /** A time-only reminder for a minute that has not come yet today stays today:
      `23:59` set at 00:01 on 2 January rings at 23:59 that same day. */
  lemma TimeOnlySameDayExample(y: int)
    requires y >= 100
    ensures Resolve(TimeOnly("x", 23, 59), NewDate(y, 0, 2, 0, 1)) == NewDate(y, 0, 2, 23, 59)
  {
    var now := NewDate(y, 0, 2, 0, 1);
    CivilFields(y, 0, 2, 0, 1);
    TimeOnlyResolution("x", 23, 59, now);
  }

  /** A time-only reminder for a minute already past today moves to tomorrow:
      `23:58` set at 23:59 on 1 January rings at 23:58 on 2 January. */
  lemma TimeOnlyNextDayExample(y: int)
    requires y >= 100
    ensures Resolve(TimeOnly("x", 23, 58), NewDate(y, 0, 1, 23, 59)) == NewDate(y, 0, 2, 23, 58)
  {
    var now := NewDate(y, 0, 1, 23, 59);
    var d := MakeDay(y, 0, 1);
    CivilFields(y, 0, 1, 23, 59);
    MakeDateSplit(d, MakeTime(23, 59, 0, 0));
    assert Midnight(now) == d * MsPerDay;
    TimeOnlyResolution("x", 23, 58, now);
    MakeDayShift(y, 0, 1, 1);
    assert NewDate(y, 0, 2, 23, 58) == (d + 1) * MsPerDay + MakeTime(23, 58, 0, 0);
  }
}
