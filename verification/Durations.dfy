/** `DateTime`: a day number with a time of day, and arithmetic on it. */
module Durations {
  import opened Dates

  const MILLIS_PER_DAY := 86400000

  /** A parsed duration. */
  datatype Duration = Duration(years: int, months: int, days: int, hours: int, minutes: int, seconds: int)

  predicate NonNegative(d: Duration) {
    d.years >= 0 && d.months >= 0 && d.days >= 0 && d.hours >= 0 && d.minutes >= 0 && d.seconds >= 0
  }

  function MakeHms(hour: int, minute: int, second: int, millis: int): int {
    1000 * (3600 * hour + 60 * minute + second) + millis
  }

  /** Year and month after adding years and months: month by month, carrying into the year. */
  function AddMonths(year: int, month: int, n: int): (int, int) {
    (year + (month - 1 + n) / 12, (month - 1 + n) % 12 + 1)
  }

  /** The start of the day count: the starting day moved by years and months, or the last day of a
      month that is too short for it. */
  function Pinned(d: Date, dur: Duration): Date {
    var (y, m) := AddMonths(d.year + dur.years, d.month, dur.months);
    Date(y, m, if d.day > DaysIn(y, m) then DaysIn(y, m) else d.day)
  }

  /** `p` is the same day of the month, years and months later than `d`, or the last day of a month that is
      too short. */
  ghost predicate Moved(d: Date, dur: Duration, p: Date) {
    && 12 * p.year + p.month == 12 * (d.year + dur.years) + d.month + dur.months && 1 <= p.month <= 12
    && p.day == if DaysIn(p.year, p.month) < d.day then DaysIn(p.year, p.month) else d.day
  }

  lemma PinnedIs(d: Date, dur: Duration)
    ensures Moved(d, dur, Pinned(d, dur))
  {
  }

  /** One turn of the day-normalising loop. */
  function Turn(d: Date): Date {
    var day := if d.day < 1 then d.day + MaxDay(d.year, d.month - 1) else d.day - MaxDay(d.year, d.month);
    var month := d.month + if d.day < 1 then -1 else 1;
    Date(d.year + CDiv(month - 1, 12), CMod(month - 1, 12) + 1, day)
  }

  /** A turn that takes a whole month off the day count keeps the day meant. */
  lemma TurnForward(d: Date)
    requires 1 <= d.month <= 12 && InRange(d.(day := 1)) && d.day > MaxDay(d.year, d.month)
    ensures var t := Turn(d); 1 <= t.month <= 12 && InRange(t.(day := 1)) && 1 <= t.day < d.day && Julian(t) == Julian(d)
  {
    MaxDayIs(d.year, d.month);
    var n := DaysIn(d.year, d.month);
    assert Turn(d) == if d.month < 12 then Date(d.year, d.month + 1, d.day - n) else Date(d.year + 1, 1, d.day - n);
    NextMonth(d.year, d.month, d.day - n);
  }

  /** A turn that borrows a month keeps the day meant exactly when there is a month to borrow in the
      same year: from January it borrows 28 days instead of the 31 of December. */
  lemma TurnBack(d: Date)
    requires 1 <= d.month <= 12 && InRange(d.(day := 1)) && InRange(Date(d.year, d.month - 1, 1)) && d.day < 1
    ensures Julian(Turn(d)) == Julian(d) <==> d.month != 1
    ensures d.month == 1 ==> Julian(Turn(d)) == Julian(d) - 3
  {
    if d.month > 1 {
      TurnWithinYear(d);
    } else {
      TurnFromJanuary(d);
    }
  }

  lemma TurnWithinYear(d: Date)
    requires 2 <= d.month <= 12 && InRange(Date(d.year, d.month - 1, 1)) && d.day < 1
    ensures Julian(Turn(d)) == Julian(d)
  {
    MaxDayIs(d.year, d.month - 1);
    assert Turn(d) == Date(d.year, d.month - 1, d.day + DaysIn(d.year, d.month - 1));
    NextMonth(d.year, d.month - 1, d.day);
  }

  lemma TurnFromJanuary(d: Date)
    requires d.month == 1 && InRange(Date(d.year - 1, 12, 1)) && d.day < 1
    ensures Julian(Turn(d)) == Julian(d) - 3
  {
    assert Turn(d) == Date(d.year, 0, d.day + 28);
    ZerothMonth(d.year, d.day + 28);
    NextMonth(d.year - 1, 12, d.day);
    Shift(d.year - 1, 12, d.day + 28, d.day + 31);
  }

  /** Month 0 has the day numbers of the December before. */
  lemma ZerothMonth(year: int, day: int)
    ensures JulianDate(year, 0, day) == JulianDate(year - 1, 12, day)
  {
  }

  /** The day meant by `start` does not lie before the year it is written in. */
  predicate Kept(start: Date) {
    start.day >= 1 || Julian(start) >= JulianDate(start.year, 1, 1)
  }

  /** Months 0 to -10 mean those of the year before. */
  function Real(d: Date): Date {
    if d.month >= 1 then d else Date(d.year - 1, d.month + 12, d.day)
  }

  lemma RealJulian(d: Date)
    requires -10 <= d.month <= 12
    ensures Julian(Real(d)) == Julian(d)
  {
  }

  /** The first day of the month of `d` is in range. */
  predicate MonthInRange(d: Date) {
    InRange(Real(d).(day := 1))
  }

  /** Any turn that borrows a month ends on a day of that month, and past January on an earlier day
      than it started from. */
  lemma TurnAway(d: Date)
    requires -10 <= d.month <= 12 && d.day < 1
    ensures var t := Turn(d);
      && -10 <= t.month <= 12 && d.day + 28 <= t.day <= MaxDay(t.year, t.month) <= 31
      && (MonthInRange(t) && d.month <= 1 ==> MonthInRange(d) && Julian(t) <= Julian(d) - if d.month == 1 then 3 else 0)
  {
    var t := Turn(d);
    Borrowed(d);
    if d.month <= 1 && MonthInRange(t) {
      if d.month == 1 {
        TurnFromJanuary(d);
      } else {
        TurnBeforeJanuary(d);
      }
    }
  }

  lemma Borrowed(d: Date)
    requires -10 <= d.month <= 12 && d.day < 1
    ensures var t := Turn(d); -10 <= t.month <= 12 && d.day + 28 <= t.day <= MaxDay(t.year, t.month) <= 31
  {
    MonthBack(d.month);
    MaxDayRange(d.year, d.month - 1);
  }

  lemma MonthBack(m: int)
    requires -10 <= m <= 12
    ensures (CDiv(m - 2, 12), CMod(m - 2, 12) + 1) == if m == -10 then (-1, 1) else (0, m - 1)
  {
  }

  lemma MaxDayRange(year: int, mon: int)
    ensures 28 <= MaxDay(year, mon) <= 31
  {
  }

  lemma TurnBeforeJanuary(d: Date)
    requires -10 <= d.month <= 0 && d.day < 1 && MonthInRange(Turn(d))
    ensures Julian(Turn(d)) <= Julian(d)
  {
    var y, m := d.year - 1, d.month + 11;
    TurnShape(d);
    RealJulian(Turn(d));
    RealJulian(d);
    NextMonth(y, m, d.day);
    Shift(y, m, Turn(d).day, d.day + DaysIn(y, m));
  }

  /** Before January the loop borrows 28 days, except from the January of the year before. */
  lemma TurnShape(d: Date)
    requires -10 <= d.month <= 0 && d.day < 1
    ensures -10 <= Turn(d).month <= 12 && d.day + 28 <= Turn(d).day <= d.day + DaysIn(d.year - 1, d.month + 11)
    ensures Real(Turn(d)) == Date(d.year - 1, d.month + 11, Turn(d).day) && Real(d) == Date(d.year - 1, d.month + 12, d.day)
  {
  }

  /** Going back within the starting year. */
  ghost predicate Home(start: Date, d: Date) {
    1 <= d.month <= 12 && d.year == start.year && Julian(d) == Julian(start)
  }

  /** Gone back past January of the starting year. */
  ghost predicate Away(start: Date, d: Date) {
    !Kept(start) && (MonthInRange(d) ==> Julian(d) <= Julian(start) - 3)
  }

  ghost predicate Back(start: Date, d: Date) {
    && start.day < 1 && -10 <= d.month <= 12 && (d.day < 1 || d.day <= MaxDay(d.year, d.month) <= 31)
    && (Home(start, d) || Away(start, d))
  }

  lemma TurnsBack(start: Date, d: Date)
    requires InRange(Date(start.year, 1, 1)) && Back(start, d) && d.day < 1
    ensures Back(start, Turn(d)) && Turn(d).day >= d.day + 28
  {
    TurnAway(d);
    if Home(start, d) && d.month > 1 {
      TurnWithinYear(d);
      MaxDayIs(d.year, d.month - 1);
    } else if Home(start, d) {
      Shift(d.year, 1, d.day, 1);
    } else if d.month > 1 && MonthInRange(Turn(d)) {
      TurnWithinYear(d);
    }
  }

  /** Where the way back ends. */
  lemma BackIs(start: Date, d: Date)
    requires InRange(Date(start.year, 1, 1)) && Back(start, d) && d.day >= 1
    ensures IsDate(d) && InRange(d) && Julian(d) == Julian(start) <==> Kept(start)
  {
    if 1 <= d.month {
      MaxDayIs(d.year, d.month);
    }
    if Home(start, d) && d != Date(d.year, 1, 1) {
      EarlierIsLess(Date(d.year, 1, 1), d);
    }
  }

  /** The loop of `add_duration_date_time`: it always ends, and it ends on the day it started from if
      and only if that day does not lie before the starting year. */
  method Normalize(start: Date) returns (d: Date)
    requires 1 <= start.month <= 12 && InRange(start.(day := 1)) && (start.day < 1 ==> InRange(Date(start.year, 1, 1)))
    ensures IsDate(d) && InRange(d) && Julian(d) == Julian(start) <==> Kept(start)
  {
    d := start;
    while d.day < 1 || d.day > MaxDay(d.year, d.month)
      invariant start.day >= 1 ==> 1 <= d.month <= 12 && InRange(d.(day := 1)) && d.day >= 1 && Julian(d) == Julian(start)
      invariant start.day < 1 ==> Back(start, d)
      decreases if start.day >= 1 then d.day else 31 - d.day
    {
      if start.day >= 1 {
        TurnForward(d);
      } else {
        TurnsBack(start, d);
      }
      d := Turn(d);
    }
    if start.day >= 1 {
      MaxDayIs(d.year, d.month);
    } else {
      BackIs(start, d);
    }
  }

  class DateTime {
    var date: int
    var time: int

    /** Milliseconds since day 0. */
    function Instant(): int
      reads this
    {
      MILLIS_PER_DAY * date + time
    }

    ghost predicate Normal()
      reads this
    {
      0 <= time < MILLIS_PER_DAY
    }

    constructor (d: int, t: int)
      ensures date == d && time == t
    {
      date, time := d, t;
    }

    method GetHms() returns (hour: int, minute: int, second: int, millis: int)
      requires time >= 0
      ensures MakeHms(hour, minute, second, millis) == time
      ensures 0 <= minute < 60 && 0 <= second < 60 && 0 <= millis < 1000 && hour >= 0 && (Normal() ==> hour < 24)
    {
      var ticks := time / 1000;
      hour := ticks / 3600;
      minute := ticks / 60 % 60;
      second := ticks % 60;
      millis := time % 1000;
      ClockOf(ticks);
    }

    /** `operator+=`: exact to the millisecond. The result is a normal time of day except when it
        falls exactly on midnight of the next day, which stays written as 24:00. */
    method AddSeconds(seconds: int)
      requires Normal()
      modifies this
      ensures Instant() == old(Instant()) + 1000 * seconds
      ensures Normal() <==> old(time) + 1000 * CMod(seconds, 86400) != MILLIS_PER_DAY
      ensures 0 <= time <= MILLIS_PER_DAY
    {
      var d := CDiv(seconds, 86400);
      var s := CMod(seconds, 86400);
      assert -86400 < s < 86400 && seconds == 86400 * d + s;
      date := date + d;
      time := time + s * 1000;
      if time > MILLIS_PER_DAY {
        date := date + 1;
        time := CMod(time, MILLIS_PER_DAY);
      } else if time < 0 {
        date := date - 1;
        time := time + MILLIS_PER_DAY;
      }
    }

    /** `add_duration_date_time` for a non-negative duration: years and months move the date, clamped
        to the length of the month; days, hours, minutes and seconds are then added exactly. The
        milliseconds of the starting time are dropped. */
    method AddDuration(dur: Duration) returns (ghost moved: Date)
      requires Normal() && date >= FIRST_DAY && NonNegative(dur)
      modifies this
      ensures Normal() && time % 1000 == 0 && IsDate(GetYmd(date))
      ensures Moved(GetYmd(old(date)), dur, moved)
      ensures Instant() == MILLIS_PER_DAY * (Julian(moved) + dur.days)
        + old(time) / 1000 * 1000 + 1000 * (3600 * dur.hours + 60 * dur.minutes + dur.seconds)
    {
      moved := Pinned(GetYmd(date), dur);
      PinnedIs(GetYmd(date), dur);
      var hour, minute, second, millis := GetHms();
      SameClock(hour, minute, second, millis, time);
      date, time := AddParts(date, hour, minute, second, dur);
    }
  }

  /** The clock first, then the date with the days carried over. */
  method AddParts(jday: int, hour: int, minute: int, second: int, dur: Duration) returns (r: int, time: int)
    requires jday >= FIRST_DAY && 0 <= hour && 0 <= minute && 0 <= second && NonNegative(dur)
    ensures 0 <= time < MILLIS_PER_DAY && time % 1000 == 0 && IsDate(GetYmd(r))
    ensures MILLIS_PER_DAY * r + time == MILLIS_PER_DAY * (Julian(Pinned(GetYmd(jday), dur)) + dur.days)
      + MakeHms(hour, minute, second, 0) + MakeHms(dur.hours, dur.minutes, dur.seconds, 0)
  {
    var endHour, endMin, endSec, carry := AddClock(hour, minute, second, dur);
    r := EndDay(jday, dur, carry);
    time := MakeHms(endHour, endMin, endSec, 0);
    CarryDays(r - carry, carry, endHour, endMin, endSec, hour, minute, second, dur);
  }

  /** The day reached from day `jday`. */
  method EndDay(jday: int, dur: Duration, carry: int) returns (r: int)
    requires jday >= FIRST_DAY && NonNegative(dur) && carry >= 0
    ensures r == Julian(Pinned(GetYmd(jday), dur)) + dur.days + carry && IsDate(GetYmd(r))
  {
    JulianOfYmd(jday);
    var end := EndDate(GetYmd(jday), dur, carry);
    YmdOfJulian(end);
    r := JulianDate(end.year, end.month, end.day);
  }

  lemma ClockOf(ticks: nat)
    ensures ticks == 3600 * (ticks / 3600) + 60 * (ticks / 60 % 60) + ticks % 60
  {
    var q := ticks / 60;
    assert ticks == (q / 60) * 3600 + (60 * (q % 60) + ticks % 60);
    Unique(ticks, 3600, q / 60, 60 * (q % 60) + ticks % 60, ticks / 3600, ticks % 3600);
  }

  /** The day count from the pinned date. */
  method EndDate(start: Date, dur: Duration, carry: int) returns (end: Date)
    requires IsDate(start) && InRange(start) && NonNegative(dur) && carry >= 0
    ensures IsDate(end) && InRange(end) && Julian(end) == Julian(Pinned(start, dur)) + dur.days + carry
  {
    var from := PinnedDate(start, dur);
    PinnedInRange(start, dur);
    end := Normalize(from.(day := from.day + dur.days + carry));
    Shift(from.year, from.month, from.day, from.day + dur.days + carry);
  }

  lemma CarryMonths(year: int, month: int, n: int)
    requires 1 <= month && n >= 0
    ensures (year + CDiv(month + n - 1, 12), CMod(month + n - 1, 12) + 1) == AddMonths(year, month, n)
    ensures 1 <= CMod(month + n - 1, 12) + 1 <= 12
  {
  }

  /** The month and year carries and the clamped day. */
  method PinnedDate(start: Date, dur: Duration) returns (from: Date)
    requires IsDate(start) && NonNegative(dur)
    ensures from == Pinned(start, dur)
  {
    var tmpMonth := start.month + dur.months;
    var month := CMod(tmpMonth - 1, 12) + 1;
    var year := start.year + dur.years + CDiv(tmpMonth - 1, 12);
    CarryMonths(start.year + dur.years, start.month, dur.months);
    var maxDay := MaxDay(year, month);
    MaxDayIs(year, month);
    from := Date(year, month, if start.day > maxDay then maxDay else if start.day < 1 then 1 else start.day);
  }

  lemma SameClock(hour: int, minute: int, second: int, millis: int, was: int)
    requires MakeHms(hour, minute, second, millis) == was && 0 <= millis < 1000
    ensures MakeHms(hour, minute, second, 0) == was / 1000 * 1000
  {
  }

  /** Carrying whole days out of a time of day keeps the instant. */
  lemma CarryDays(day: int, carry: int, h: int, m: int, s: int, hour: int, minute: int, second: int, dur: Duration)
    requires 0 <= h < 24 && 0 <= m < 60 && 0 <= s < 60
    requires 86400 * carry + 3600 * h + 60 * m + s ==
      3600 * (hour + dur.hours) + 60 * (minute + dur.minutes) + second + dur.seconds
    ensures 0 <= MakeHms(h, m, s, 0) < MILLIS_PER_DAY && MakeHms(h, m, s, 0) % 1000 == 0
    ensures MILLIS_PER_DAY * (day + carry) + MakeHms(h, m, s, 0) ==
      MILLIS_PER_DAY * day + MakeHms(hour, minute, second, 0) + MakeHms(dur.hours, dur.minutes, dur.seconds, 0)
  {
  }

  /** Adding years and months does not leave the range of dates. */
  lemma PinnedInRange(d: Date, dur: Duration)
    requires IsDate(d) && InRange(d) && NonNegative(dur)
    ensures IsDate(Pinned(d, dur)) && InRange(Pinned(d, dur))
  {
  }

  /** Seconds, minutes and hours with their carries. */
  method AddClock(hour: int, minute: int, second: int, dur: Duration) returns (h: int, m: int, s: int, carry: int)
    requires 0 <= hour && 0 <= minute && 0 <= second && NonNegative(dur)
    ensures 0 <= h < 24 && 0 <= m < 60 && 0 <= s < 60 && carry >= 0
    ensures 86400 * carry + 3600 * h + 60 * m + s ==
      3600 * (hour + dur.hours) + 60 * (minute + dur.minutes) + second + dur.seconds
  {
    var tmpSec := second + dur.seconds;
    s := CMod(tmpSec, 60);
    var tmpMin := minute + dur.minutes + CDiv(tmpSec, 60);
    m := CMod(tmpMin, 60);
    var tmpHour := hour + dur.hours + CDiv(tmpMin, 60);
    h := CMod(tmpHour, 24);
    carry := CDiv(tmpHour, 24);
  }
}
