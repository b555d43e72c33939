/** The date arithmetic of JavaScript's `Date` on a local clock without time
    zones or daylight saving: a time value is an integer count of milliseconds
    from the epoch day 1970-01-01, days follow the proleptic Gregorian calendar,
    and months are numbered from 0. The names follow the abstract operations of
    section 21.4.1 of ECMA-262 (DayFromYear, MakeDay, MakeTime, MakeDate, ...). */
module Calendar {

  const MsPerSecond: int := 1000
  const MsPerMinute: int := 60000
  const MsPerHour: int := 3600000
  const MsPerDay: int := 86400000

  /** Number of days in a 400-year Gregorian cycle. */
  const DaysPerEra: int := 146097

  predicate IsLeapYear(y: int) {
    y % 4 == 0 && (y % 100 != 0 || y % 400 == 0)
  }

  function DaysInYear(y: int): int {
    if IsLeapYear(y) then 366 else 365
  }

  /** Day number of January 1st of year `y`. */
  function DayFromYear(y: int): int {
    365 * (y - 1970) + (y - 1969) / 4 - (y - 1901) / 100 + (y - 1601) / 400
  }

  /** Length of month `m` (0 = January) of year `y`. */
  function DaysInMonth(y: int, m: int): (n: int)
    requires 0 <= m < 12
    ensures 28 <= n <= 31
  {
    if m == 1 then (if IsLeapYear(y) then 29 else 28)
    else if m == 3 || m == 5 || m == 8 || m == 10 then 30
    else 31
  }

  /** Days of year `y` that precede month `m`; `m == 12` gives the whole year. */
  function DaysBeforeMonth(y: int, m: int): (n: int)
    requires 0 <= m <= 12
    ensures 0 <= n <= DaysInYear(y)
    ensures m == 0 ==> n == 0
    ensures m == 12 ==> n == DaysInYear(y)
  {
    var leap := if IsLeapYear(y) then 1 else 0;
    if m == 0 then 0
    else if m == 1 then 31
    else if m == 2 then 59 + leap
    else if m == 3 then 90 + leap
    else if m == 4 then 120 + leap
    else if m == 5 then 151 + leap
    else if m == 6 then 181 + leap
    else if m == 7 then 212 + leap
    else if m == 8 then 243 + leap
    else if m == 9 then 273 + leap
    else if m == 10 then 304 + leap
    else if m == 11 then 334 + leap
    else 365 + leap
  }

  // ---------------------------------------------------------------------------
  // Years

  /** Consecutive years start `DaysInYear` days apart. */
  lemma DayFromYearStep(y: int)
    ensures DayFromYear(y + 1) == DayFromYear(y) + DaysInYear(y)
  {
    var a, b, c := (y - 1969) / 4, (y - 1901) / 100, (y - 1601) / 400;
    var a1, b1, c1 := (y + 1 - 1969) / 4, (y + 1 - 1901) / 100, (y + 1 - 1601) / 400;
    Div4Step(y);
    Div100Step(y);
    Div400Step(y);
    assert DayFromYear(y + 1) - DayFromYear(y) == 365 + (a1 - a) - (b1 - b) + (c1 - c);
    assert DaysInYear(y) == 365 + (a1 - a) - (b1 - b) + (c1 - c);
  }

  /** The leap-day count `(y - 1969) / 4` grows by one exactly after a year divisible by 4. */
  lemma Div4Step(y: int)
    ensures (y + 1 - 1969) / 4 == (y - 1969) / 4 + (if y % 4 == 0 then 1 else 0)
  {
    var q, r := (y - 1969) / 4, (y - 1969) % 4;
    assert y - 1969 == 4 * q + r && 0 <= r < 4;
    assert y % 4 == 0 <==> r == 3;
    if r == 3 {
      assert y + 1 - 1969 == 4 * (q + 1);
    } else {
      assert y + 1 - 1969 == 4 * q + (r + 1) && r + 1 < 4;
    }
  }

  /** The century count `(y - 1901) / 100` grows by one exactly after a year divisible by 100. */
  lemma Div100Step(y: int)
    ensures (y + 1 - 1901) / 100 == (y - 1901) / 100 + (if y % 100 == 0 then 1 else 0)
  {
    var q, r := (y - 1901) / 100, (y - 1901) % 100;
    assert y - 1901 == 100 * q + r && 0 <= r < 100;
    assert y % 100 == 0 <==> r == 99;
    if r == 99 {
      assert y + 1 - 1901 == 100 * (q + 1);
    } else {
      assert y + 1 - 1901 == 100 * q + (r + 1) && r + 1 < 100;
    }
  }

  /** The count `(y - 1601) / 400` grows by one exactly after a year divisible by 400. */
  lemma Div400Step(y: int)
    ensures (y + 1 - 1601) / 400 == (y - 1601) / 400 + (if y % 400 == 0 then 1 else 0)
  {
    var q, r := (y - 1601) / 400, (y - 1601) % 400;
    assert y - 1601 == 400 * q + r && 0 <= r < 400;
    assert y % 400 == 0 <==> r == 399;
    if r == 399 {
      assert y + 1 - 1601 == 400 * (q + 1);
    } else {
      assert y + 1 - 1601 == 400 * q + (r + 1) && r + 1 < 400;
    }
  }

  /** Shifting a year by whole 400-year cycles shifts its first day by whole cycles of days. */
  lemma DayFromYearEra(y: int, e: int)
    ensures DayFromYear(y + 400 * e) == DayFromYear(y) + DaysPerEra * e
  {
    assert (y + 400 * e - 1969) / 4 == (y - 1969) / 4 + 100 * e;
    assert (y + 400 * e - 1901) / 100 == (y - 1901) / 100 + 4 * e;
    assert (y + 400 * e - 1601) / 400 == (y - 1601) / 400 + e;
  }

  /** Later years start later: every year has at least 365 days. */
  lemma {:induction false} DayFromYearMonotone(a: int, b: int)
    requires a <= b
    ensures DayFromYear(a) + 365 * (b - a) <= DayFromYear(b)
    decreases b - a
  {
    if a < b {
      DayFromYearMonotone(a, b - 1);
      DayFromYearStep(b - 1);
    }
  }

  /** Offset of year `2000 + k` from the start of the cycle that begins in 2000. */
  function EraOffset(k: int): int {
    DayFromYear(2000 + k) - DayFromYear(2000)
  }

  /** The year of the cycle starting in 2000 in which day `r` of the cycle falls,
      searching upwards from year `k`. */
  function YearOfEra(r: int, k: int): (j: int)
    requires 0 <= k < 400
    requires EraOffset(k) <= r < DaysPerEra
    ensures k <= j < 400
    ensures EraOffset(j) <= r < EraOffset(j + 1)
    decreases 400 - k
  {
    DayFromYearStep(2000 + k);
    if r < EraOffset(k + 1) then k
    else
      assert k + 1 < 400 by {
        if k + 1 == 400 {
          DayFromYearEra(2000, 1);
        }
      }
      YearOfEra(r, k + 1)
  }

  /** YearFromTime at day granularity: the year whose days contain `day`. */
  function YearFromDay(day: int): (y: int)
    ensures DayFromYear(y) <= day < DayFromYear(y + 1)
  {
    var e := (day - DayFromYear(2000)) / DaysPerEra;
    var r := (day - DayFromYear(2000)) % DaysPerEra;
    var j := YearOfEra(r, 0);
    DayFromYearEra(2000 + j, e);
    DayFromYearEra(2000 + j + 1, e);
    2000 + 400 * e + j
  }

  /** A day falls in exactly one year. */
  lemma YearFromDayUnique(day: int, y: int)
    requires DayFromYear(y) <= day < DayFromYear(y + 1)
    ensures YearFromDay(day) == y
  {
    var z := YearFromDay(day);
    if z < y {
      DayFromYearMonotone(z + 1, y);
    } else if y < z {
      DayFromYearMonotone(y + 1, z);
    }
  }

  // ---------------------------------------------------------------------------
  // Months and days of the month

  /** The month in which day `d` (0-based) of year `y` falls. */
  function MonthOfYear(y: int, d: int): (m: int)
    requires 0 <= d < DaysInYear(y)
    ensures 0 <= m < 12
    ensures DaysBeforeMonth(y, m) <= d < DaysBeforeMonth(y, m + 1)
  {
    if d < DaysBeforeMonth(y, 1) then 0
    else if d < DaysBeforeMonth(y, 2) then 1
    else if d < DaysBeforeMonth(y, 3) then 2
    else if d < DaysBeforeMonth(y, 4) then 3
    else if d < DaysBeforeMonth(y, 5) then 4
    else if d < DaysBeforeMonth(y, 6) then 5
    else if d < DaysBeforeMonth(y, 7) then 6
    else if d < DaysBeforeMonth(y, 8) then 7
    else if d < DaysBeforeMonth(y, 9) then 8
    else if d < DaysBeforeMonth(y, 10) then 9
    else if d < DaysBeforeMonth(y, 11) then 10
    else 11
  }

  /** The cumulative table and the month lengths agree. */
  lemma DaysBeforeMonthStep(y: int, m: int)
    requires 0 <= m < 12
    ensures DaysBeforeMonth(y, m + 1) == DaysBeforeMonth(y, m) + DaysInMonth(y, m)
  {
  }

  lemma {:induction false} DaysBeforeMonthMonotone(y: int, a: int, b: int)
    requires 0 <= a <= b <= 12
    ensures DaysBeforeMonth(y, a) + 28 * (b - a) <= DaysBeforeMonth(y, b)
    decreases b - a
  {
    if a < b {
      DaysBeforeMonthMonotone(y, a, b - 1);
      DaysBeforeMonthStep(y, b - 1);
    }
  }

  /** A day of a year falls in exactly one month. */
  lemma MonthOfYearUnique(y: int, d: int, m: int)
    requires 0 <= m < 12
    requires DaysBeforeMonth(y, m) <= d < DaysBeforeMonth(y, m + 1)
    ensures MonthOfYear(y, d) == m
  {
    var z := MonthOfYear(y, d);
    if z < m {
      DaysBeforeMonthMonotone(y, z + 1, m);
    } else if m < z {
      DaysBeforeMonthMonotone(y, m + 1, z);
    }
  }

  function MonthFromDay(day: int): (m: int)
    ensures 0 <= m < 12
  {
    var y := YearFromDay(day);
    DayFromYearStep(y);
    MonthOfYear(y, day - DayFromYear(y))
  }

  function DateFromDay(day: int): (d: int)
    ensures 1 <= d <= DaysInMonth(YearFromDay(day), MonthFromDay(day))
  {
    var y := YearFromDay(day);
    DayFromYearStep(y);
    var m := MonthOfYear(y, day - DayFromYear(y));
    day - DayFromYear(y) - DaysBeforeMonth(y, m) + 1
  }

  /** MakeDay: the day number of (year, month, date), where a month outside
      0..11 carries into the year and a date outside the month carries into
      the neighbouring months, as `new Date(y, m, d)` does. */
  function MakeDay(year: int, month: int, date: int): int {
    var ym := year + month / 12;
    var mn := month % 12;
    DayFromYear(ym) + DaysBeforeMonth(ym, mn) + date - 1
  }

  /** Within a year, MakeDay counts days from the start of the year. */
  lemma MakeDayInYear(y: int, m: int, d: int)
    requires 0 <= m < 12
    ensures MakeDay(y, m, d) == DayFromYear(y) + DaysBeforeMonth(y, m) + d - 1
  {
    assert m / 12 == 0 && m % 12 == m;
  }

  predicate ValidDate(y: int, m: int, d: int) {
    0 <= m < 12 && 1 <= d <= DaysInMonth(y, m)
  }

  /** Splitting a day number into year, month and date and recombining them is the identity. */
  lemma DayRoundTrip(day: int)
    ensures ValidDate(YearFromDay(day), MonthFromDay(day), DateFromDay(day))
    ensures MakeDay(YearFromDay(day), MonthFromDay(day), DateFromDay(day)) == day
  {
    var y := YearFromDay(day);
    DayFromYearStep(y);
    var m := MonthOfYear(y, day - DayFromYear(y));
    assert MonthFromDay(day) == m;
    assert DateFromDay(day) == day - DayFromYear(y) - DaysBeforeMonth(y, m) + 1;
    assert m / 12 == 0 && m % 12 == m;
  }

  /** A valid calendar date is recovered from its day number. */
  lemma DateRoundTrip(y: int, m: int, d: int)
    requires ValidDate(y, m, d)
    ensures YearFromDay(MakeDay(y, m, d)) == y
    ensures MonthFromDay(MakeDay(y, m, d)) == m
    ensures DateFromDay(MakeDay(y, m, d)) == d
  {
    var day := MakeDay(y, m, d);
    assert day == DayFromYear(y) + DaysBeforeMonth(y, m) + d - 1;
    DayFromYearStep(y);
    YearFromDayUnique(day, y);
    MonthOfYearUnique(y, day - DayFromYear(y), m);
  }

  /** Dates carry linearly: one more day of the month is one more day number. */
  lemma MakeDayShift(year: int, month: int, date: int, k: int)
    ensures MakeDay(year, month, date + k) == MakeDay(year, month, date) + k
  {
  }

  // ---------------------------------------------------------------------------
  // Time values

  /** Day number of time value `t` (floor division, as Day(t) in ECMA-262). */
  function Day(t: int): int {
    t / MsPerDay
  }

  function TimeWithinDay(t: int): (r: int)
    ensures 0 <= r < MsPerDay
    ensures t == Day(t) * MsPerDay + r
  {
    t % MsPerDay
  }

  /** A time made from a day and an in-range time of day splits back into them. */
  lemma MakeDateSplit(day: int, time: int)
    requires 0 <= time < MsPerDay
    ensures Day(MakeDate(day, time)) == day
    ensures TimeWithinDay(MakeDate(day, time)) == time
  {
    assert (day * MsPerDay + time) / MsPerDay == day;
  }

  function MakeTime(hour: int, min: int, sec: int, ms: int): int {
    hour * MsPerHour + min * MsPerMinute + sec * MsPerSecond + ms
  }

  function MakeDate(day: int, time: int): int {
    day * MsPerDay + time
  }

  function YearFromTime(t: int): int {
    YearFromDay(Day(t))
  }

  /** `getMonth()`: 0-based month. */
  function MonthFromTime(t: int): int {
    MonthFromDay(Day(t))
  }

  /** `getDate()`: 1-based day of the month. */
  function DateFromTime(t: int): int {
    DateFromDay(Day(t))
  }

  /** `getHours()` */
  function HourFromTime(t: int): (h: int)
    ensures 0 <= h < 24
  {
    (t / MsPerHour) % 24
  }

  /** `getMinutes()` */
  function MinFromTime(t: int): (m: int)
    ensures 0 <= m < 60
  {
    (t / MsPerMinute) % 60
  }

  /** The year `new Date(year, ...)` actually uses: 0..99 mean 1900..1999. */
  function ConstructorYear(year: int): (y: int)
    ensures y == year || y == year + 1900
    ensures y == year + 1900 ==> 0 <= year <= 99
    ensures !(0 <= y <= 99)
  {
    if 0 <= year <= 99 then 1900 + year else year
  }

  /** A year the constructor has already read is read as itself. */
  lemma ConstructorYearIdempotent(year: int)
    ensures ConstructorYear(ConstructorYear(year)) == ConstructorYear(year)
  {
  }

  /** `new Date(year, month, date, hours, minutes).getTime()` on the local clock. */
  function NewDate(year: int, month: int, date: int, hours: int, minutes: int): int {
    MakeDate(MakeDay(ConstructorYear(year), month, date), MakeTime(hours, minutes, 0, 0))
  }

  /** `t` after `setDate(date)`: the year, month and time of day of `t` are kept
      and only the day of the month is replaced (with carrying). */
  function SetDate(t: int, date: int): int {
    MakeDate(MakeDay(YearFromTime(t), MonthFromTime(t), date), TimeWithinDay(t))
  }

  /** `setDate(d)` moves the time by whole days: by the difference between the
      new and the old day of the month. */
  lemma SetDateShift(t: int, date: int)
    ensures SetDate(t, date) == t + (date - DateFromTime(t)) * MsPerDay
    ensures TimeWithinDay(SetDate(t, date)) == TimeWithinDay(t)
  {
    var day := Day(t);
    var y, m, d := YearFromDay(day), MonthFromDay(day), DateFromDay(day);
    DayRoundTrip(day);
    MakeDayShift(y, m, d, date - d);
    var nd := MakeDay(y, m, date);
    assert nd == day + (date - d);
    var w := TimeWithinDay(t);
    assert SetDate(t, date) == nd * MsPerDay + w;
    assert nd * MsPerDay + w == t + (date - d) * MsPerDay;
    MakeDateSplit(nd, w);
  }

  /** `setDate(d)` with a day that exists in the month keeps the year and month
      and shows `d` as the date. */
  lemma SetDateFields(t: int, date: int)
    requires 1 <= date <= DaysInMonth(YearFromTime(t), MonthFromTime(t))
    ensures YearFromTime(SetDate(t, date)) == YearFromTime(t)
    ensures MonthFromTime(SetDate(t, date)) == MonthFromTime(t)
    ensures DateFromTime(SetDate(t, date)) == date
  {
    var y, m := YearFromTime(t), MonthFromTime(t);
    var nd := MakeDay(y, m, date);
    MakeDateSplit(nd, TimeWithinDay(t));
    assert Day(SetDate(t, date)) == nd;
    DateRoundTrip(y, m, date);
  }

  /** The clock fields of a time made from an in-range hour and minute. */
  lemma TimeFields(day: int, h: int, mi: int)
    requires 0 <= h < 24 && 0 <= mi < 60
    ensures Day(MakeDate(day, MakeTime(h, mi, 0, 0))) == day
    ensures HourFromTime(MakeDate(day, MakeTime(h, mi, 0, 0))) == h
    ensures MinFromTime(MakeDate(day, MakeTime(h, mi, 0, 0))) == mi
  {
    var t := MakeDate(day, MakeTime(h, mi, 0, 0));
    assert t == day * MsPerDay + h * MsPerHour + mi * MsPerMinute;
    assert t / MsPerHour == day * 24 + h;
    assert t / MsPerMinute == day * 1440 + h * 60 + mi;
  }

  /** Every calendar field of a time built from a valid date and an in-range clock reading. */
  lemma CivilFields(y: int, m: int, d: int, h: int, mi: int)
    requires ValidDate(y, m, d) && 0 <= h < 24 && 0 <= mi < 60
    ensures YearFromTime(MakeDate(MakeDay(y, m, d), MakeTime(h, mi, 0, 0))) == y
    ensures MonthFromTime(MakeDate(MakeDay(y, m, d), MakeTime(h, mi, 0, 0))) == m
    ensures DateFromTime(MakeDate(MakeDay(y, m, d), MakeTime(h, mi, 0, 0))) == d
    ensures HourFromTime(MakeDate(MakeDay(y, m, d), MakeTime(h, mi, 0, 0))) == h
    ensures MinFromTime(MakeDate(MakeDay(y, m, d), MakeTime(h, mi, 0, 0))) == mi
  {
    TimeFields(MakeDay(y, m, d), h, mi);
    DateRoundTrip(y, m, d);
  }
}
