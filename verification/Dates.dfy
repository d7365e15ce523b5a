/** Julian day numbers, calendar dates and the addition of durations. */
module Dates {
  // ---- C++ division ----

  /** Division that truncates toward zero. */
  function CDiv(a: int, b: int): int
    requires b > 0
  {
    if a >= 0 then a / b else -((-a) / b)
  }

  function CMod(a: int, b: int): int
    requires b > 0
  {
    a - b * CDiv(a, b)
  }

  /** The quotient and the remainder of C++: the remainder has the sign of the dividend. */
  lemma Truncates(a: int, b: int)
    requires b > 0
    ensures a == b * CDiv(a, b) + CMod(a, b) && -b < CMod(a, b) < b
    ensures (a >= 0 ==> CMod(a, b) >= 0) && (a <= 0 ==> CMod(a, b) <= 0)
  {
    if a >= 0 {
      assert a == b * (a / b) + a % b;
    } else {
      assert -a == b * (-a / b) + -a % b;
    }
  }

  // ---- the calendar ----

  datatype Date = Date(year: int, month: int, day: int)

  /** `max_day_in_month_for`. */
  function MaxDay(yr: int, mon: int): (r: int) {
    var month := CMod(mon - 1, 12) + 1;
    var year := yr + CDiv(month - 1, 12);
    if month == 1 || month == 3 || month == 5 || month == 7 || month == 8 || month == 10 || month == 12 then 31
    else if month == 4 || month == 6 || month == 9 || month == 11 then 30
    else if month == 2 && (CMod(year, 400) == 0 || (CMod(year, 100) != 0 && CMod(year, 4) == 0)) then 29
    else 28
  }

  /** Proleptic Gregorian leap years. */
  predicate Leap(year: int) {
    year % 4 == 0 && (year % 100 == 0 ==> year % 400 == 0)
  }

  /** The number of days in a month, by the calendar. */
  function DaysIn(year: int, month: int): int
    requires 1 <= month <= 12
  {
    if month == 2 then if Leap(year) then 29 else 28
    else if month in {4, 6, 9, 11} then 30 else 31
  }

  predicate IsDate(d: Date) {
    1 <= d.month <= 12 && 1 <= d.day <= DaysIn(d.year, d.month)
  }

  lemma CModZero(a: int, b: int)
    requires b > 0
    ensures CMod(a, b) == 0 <==> a % b == 0
  {
    if a < 0 {
      var q := (-a) / b;
      assert -a == q * b + (-a) % b;
      if a % b == 0 {
        var p := a / b;
        assert a == p * b;
        assert (-p) * b == -a;
        Unique(-a, b, -p, 0, q, (-a) % b);
      } else if (-a) % b == 0 {
        assert a == (-q) * b;
        Unique(a, b, -q, 0, a / b, a % b);
      }
    }
  }

  lemma Unique(a: int, b: int, q: int, r: int, q': int, r': int)
    requires b > 0 && a == q * b + r && a == q' * b + r' && 0 <= r < b && 0 <= r' < b
    ensures q == q' && r == r'
  {
    assert (q - q') * b == r' - r;
    assert q - q' >= 1 ==> (q - q') * b >= b;
    assert q - q' <= -1 ==> (q - q') * b <= -b;
  }

  /** The code's month lengths are the calendar's, for negative years too. */
  lemma MaxDayIs(year: int, month: int)
    requires 1 <= month <= 12
    ensures MaxDay(year, month) == DaysIn(year, month)
  {
    CModZero(year, 400);
    CModZero(year, 100);
    CModZero(year, 4);
    LeapByCenturies(year);
  }

  lemma LeapByCenturies(year: int)
    ensures Leap(year) <==> year % 400 == 0 || (year % 100 != 0 && year % 4 == 0)
  {
    Multiples(year);
  }

  lemma Multiples(year: int)
    ensures year % 400 == 0 ==> year % 100 == 0
    ensures year % 100 == 0 ==> year % 4 == 0
  {
    if year % 400 == 0 {
      Unique(year, 100, 4 * (year / 400), 0, year / 100, year % 100);
    }
    if year % 100 == 0 {
      Unique(year, 4, 25 * (year / 100), 0, year / 4, year % 4);
    }
  }

  /** The day after. */
  function Next(d: Date): Date
    requires IsDate(d)
  {
    if d.day < DaysIn(d.year, d.month) then d.(day := d.day + 1)
    else if d.month < 12 then Date(d.year, d.month + 1, 1)
    else Date(d.year + 1, 1, 1)
  }

  // ---- Julian day numbers ----

  function JulianDate(year: int, month: int, day: int): int {
    var a := CDiv(14 - month, 12);
    var y := year + 4800 - a;
    var m := month + 12 * a - 3;
    day + CDiv(153 * m + 2, 5) + y * 365 + CDiv(y, 4) - CDiv(y, 100) + CDiv(y, 400) - 32045
  }

  function Julian(d: Date): int {
    JulianDate(d.year, d.month, d.day)
  }

  function GetYmd(jday: int): Date {
    var a := jday + 32044;
    var b := CDiv(4 * a + 3, 146097);
    FromCentury(b, a - CDiv(b * 146097, 4))
  }

  function FromCentury(b: int, c: int): Date {
    var d := CDiv(4 * c + 3, 1461);
    FromYear(b, d, c - CDiv(1461 * d, 4))
  }

  function FromYear(b: int, d: int, e: int): Date {
    var m := CDiv(5 * e + 2, 153);
    Date(b * 100 + d - 4800 + CDiv(m, 10), m + 3 - 12 * CDiv(m, 10), e - CDiv(153 * m + 2, 5) + 1)
  }

  const FIRST_DAY := -32044  // 1 March 4801 BC

  /** The dates for which no intermediate value is negative: from 1 March of year -4800 on. */
  predicate InRange(d: Date) {
    d.year > -4800 || (d.year == -4800 && d.month >= 3)
  }

  /** Days before the `y`-th year that starts in March. */
  function YearDays(y: nat): int {
    365 * y + y / 4 - y / 100 + y / 400
  }

  /** Days before the `m`-th month after March. */
  function MonthDays(m: nat): int {
    (153 * m + 2) / 5
  }

  /** The length of the `y`-th year that starts in March: it ends with the February of year `y + 1`. */
  lemma YearLength(y: nat)
    ensures YearDays(y + 1) - YearDays(y) == if Leap(y + 1) then 366 else 365
  {
    NextQuotient(y, 4);
    NextQuotient(y, 100);
    NextQuotient(y, 400);
    Multiples(y + 1);
  }

  lemma NextQuotient(y: nat, b: nat)
    requires b > 1
    ensures (y + 1) / b == y / b + if (y + 1) % b == 0 then 1 else 0
  {
    var q, r := y / b, y % b;
    assert y + 1 == q * b + r + 1;
    if r + 1 == b {
      assert y + 1 == (q + 1) * b + 0;
      Unique(y + 1, b, q + 1, 0, (y + 1) / b, (y + 1) % b);
    } else {
      Unique(y + 1, b, q, r + 1, (y + 1) / b, (y + 1) % b);
    }
  }

  /** A date as a year that starts in March, a month from March and a day. */
  function MarchYear(d: Date): int {
    if d.month >= 3 then d.year + 4800 else d.year + 4799
  }

  function MarchMonth(d: Date): int {
    if d.month >= 3 then d.month - 3 else d.month + 9
  }

  lemma JulianIs(d: Date)
    requires 1 <= d.month <= 12 && InRange(d)
    ensures MarchYear(d) >= 0 && 0 <= MarchMonth(d) <= 11
    ensures Julian(d) == YearDays(MarchYear(d)) + MonthDays(MarchMonth(d)) + d.day - 32045
  {
  }

  /** Month lengths, counted from March. */
  lemma MonthLength(d: Date)
    requires 1 <= d.month <= 12 && InRange(d)
    ensures MarchYear(d) >= 0 && 0 <= MarchMonth(d) <= 11
    ensures MarchMonth(d) < 11 ==> MonthDays(MarchMonth(d) + 1) - MonthDays(MarchMonth(d)) == DaysIn(d.year, d.month)
    ensures MarchMonth(d) == 11 ==>
      YearDays(MarchYear(d) + 1) - YearDays(MarchYear(d)) - MonthDays(11) == DaysIn(d.year, d.month)
  {
    if MarchMonth(d) == 11 {
      YearLength(MarchYear(d));
      LeapShift(d.year);
    }
  }

  lemma LeapShift(year: int)
    ensures Leap(year + 4800) == Leap(year)
  {
    Unique(year + 4800, 4, year / 4 + 1200, year % 4, (year + 4800) / 4, (year + 4800) % 4);
    Unique(year + 4800, 100, year / 100 + 48, year % 100, (year + 4800) / 100, (year + 4800) % 100);
    Unique(year + 4800, 400, year / 400 + 12, year % 400, (year + 4800) / 400, (year + 4800) % 400);
  }

  /** The Julian day of the following month's first day. */
  lemma NextMonth(year: int, month: int, day: int)
    requires 1 <= month <= 12 && InRange(Date(year, month, 1))
    ensures JulianDate(if month < 12 then year else year + 1, if month < 12 then month + 1 else 1, day)
      == JulianDate(year, month, day + DaysIn(year, month))
  {
    var d := Date(year, month, day);
    var n := if month < 12 then Date(year, month + 1, day) else Date(year + 1, 1, day);
    JulianIs(d.(day := day + DaysIn(year, month)));
    JulianIs(n);
    StepSum(d, n);
  }

  lemma StepSum(d: Date, n: Date)
    requires 1 <= d.month <= 12 && InRange(d)
    requires n == if d.month < 12 then Date(d.year, d.month + 1, d.day) else Date(d.year + 1, 1, d.day)
    ensures MarchYear(d) >= 0 && MarchMonth(d) >= 0 && MarchYear(n) >= 0 && MarchMonth(n) >= 0
    ensures YearDays(MarchYear(n)) + MonthDays(MarchMonth(n))
      == YearDays(MarchYear(d)) + MonthDays(MarchMonth(d)) + DaysIn(d.year, d.month)
  {
    MonthLength(d);
    MarchNext(d, n);
  }

  /** Counting from March, the year ends with February. */
  lemma MarchNext(d: Date, n: Date)
    requires 1 <= d.month <= 12
    requires n == if d.month < 12 then Date(d.year, d.month + 1, d.day) else Date(d.year + 1, 1, d.day)
    ensures MarchMonth(d) < 11 ==> MarchYear(n) == MarchYear(d) && MarchMonth(n) == MarchMonth(d) + 1
    ensures MarchMonth(d) == 11 ==> MarchYear(n) == MarchYear(d) + 1 && MarchMonth(n) == 0
  {
  }

  /** Day numbers count from noon of 1 January 4713 BC, Julian calendar: 1 January 1970 is day 2440588. */
  lemma Epoch()
    ensures Julian(Date(1970, 1, 1)) == 2440588
  {
    assert CDiv(13, 12) == 1 && CDiv(1532, 5) == 306;
    assert CDiv(6769, 4) == 1692 && CDiv(6769, 100) == 67 && CDiv(6769, 400) == 16;
  }

  /** Julian day numbers count days: each day's number is one more than the day before. */
  lemma JulianNext(d: Date)
    requires IsDate(d) && InRange(d)
    ensures IsDate(Next(d)) && InRange(Next(d)) && Julian(Next(d)) == Julian(d) + 1
  {
    if d.day < DaysIn(d.year, d.month) {
      Shift(d.year, d.month, d.day, d.day + 1);
    } else {
      NextMonth(d.year, d.month, 1);
      Shift(d.year, d.month, d.day, 1 + DaysIn(d.year, d.month));
    }
  }

  lemma Shift(year: int, month: int, day: int, day': int)
    ensures JulianDate(year, month, day') == JulianDate(year, month, day) + day' - day
  {
  }

  // ---- splitting a day number ----

  /** Days before the `b`-th century. */
  function CenturyDays(b: nat): int {
    b * 146097 / 4
  }

  /** Days before the `d`-th year of a century. */
  function QuadDays(d: nat): int {
    1461 * d / 4
  }

  lemma CenturySplit(b: nat, d: nat)
    requires d < 100
    ensures YearDays(100 * b + d) == CenturyDays(b) + QuadDays(d)
  {
    var y := 100 * b + d;
    assert y / 100 == b;
    assert y / 4 == 25 * b + d / 4;
    assert y / 400 == b / 4;
    assert b * 146097 / 4 == 36524 * b + b / 4;
    assert 1461 * d / 4 == 365 * d + d / 4;
  }

  /** The century of a day, from its number. */
  lemma CenturyOf(n: nat, b: nat)
    ensures CenturyDays(b) <= n < CenturyDays(b + 1) <==> (4 * n + 3) / 146097 == b
  {
    assert (4 * n + 3) / 146097 == b <==> 146097 * b <= 4 * n + 3 < 146097 * (b + 1);
  }

  lemma QuadOf(n: nat, d: nat)
    ensures QuadDays(d) <= n < QuadDays(d + 1) <==> (4 * n + 3) / 1461 == d
  {
    assert (4 * n + 3) / 1461 == d <==> 1461 * d <= 4 * n + 3 < 1461 * (d + 1);
  }

  lemma MonthOf(n: nat, m: nat)
    ensures MonthDays(m) <= n < MonthDays(m + 1) <==> (5 * n + 2) / 153 == m
  {
    assert (5 * n + 2) / 153 == m <==> 153 * m <= 5 * n + 2 < 153 * (m + 1);
  }

  /** A day of a year stays within its century, and within its year counted in four-year steps. */
  lemma WithinCentury(b: nat, d: nat, e: nat)
    requires d < 100 && e < YearDays(100 * b + d + 1) - YearDays(100 * b + d)
    ensures e < QuadDays(d + 1) - QuadDays(d)
    ensures QuadDays(d) + e < CenturyDays(b + 1) - CenturyDays(b)
  {
    CenturySplit(b, d);
    if d < 99 {
      CenturySplit(b, d + 1);
      assert QuadDays(d + 1) <= QuadDays(99) == 36159;
      assert CenturyDays(b + 1) - CenturyDays(b) >= 36524;
    } else {
      CenturySplit(b + 1, 0);
      assert 100 * (b + 1) + 0 == 100 * b + d + 1;
    }
  }

  /** Conversely, a day of a century is a day of its year. */
  lemma WithinYear(b: nat, d: nat, e: nat)
    requires d < 100 && e < QuadDays(d + 1) - QuadDays(d) && QuadDays(d) + e < CenturyDays(b + 1) - CenturyDays(b)
    ensures e < YearDays(100 * b + d + 1) - YearDays(100 * b + d)
  {
    CenturySplit(b, d);
    if d < 99 {
      CenturySplit(b, d + 1);
    } else {
      CenturySplit(b + 1, 0);
      assert 100 * (b + 1) + 0 == 100 * b + d + 1;
    }
  }

  /** A day number split into century, year, day of the year and month. */
  ghost predicate Parts(n: nat, b: nat, k: nat, e: nat, m: nat) {
    && k < 100 && m <= 11
    && CenturyDays(b) <= n < CenturyDays(b + 1) && n - CenturyDays(b) == QuadDays(k) + e
    && e < QuadDays(k + 1) - QuadDays(k) && MonthDays(m) <= e < MonthDays(m + 1)
  }

  /** The calendar date of a split day number. */
  function Assemble(b: nat, k: nat, e: nat, m: nat): Date {
    var next := if m >= 10 then 1 else 0;
    Date(100 * b + k - 4800 + next, m + 3 - 12 * next, e - MonthDays(m) + 1)
  }

  lemma YmdMonth(b: nat, k: nat, e: nat, m: nat)
    requires m <= 11 && MonthDays(m) <= e < MonthDays(m + 1)
    ensures FromYear(b, k, e) == Assemble(b, k, e, m)
  {
    MonthOf(e, m);
  }

  lemma YmdYear(b: nat, c: nat, k: nat)
    requires QuadDays(k) <= c < QuadDays(k + 1)
    ensures FromCentury(b, c) == FromYear(b, k, c - QuadDays(k))
  {
    QuadOf(c, k);
  }

  lemma YmdCentury(jday: int, b: nat)
    requires CenturyDays(b) <= jday + 32044 < CenturyDays(b + 1)
    ensures GetYmd(jday) == FromCentury(b, jday + 32044 - CenturyDays(b))
  {
    CenturyOf(jday + 32044, b);
  }

  lemma YmdFrom(jday: int, b: nat, k: nat, e: nat, m: nat)
    requires jday >= FIRST_DAY && Parts(jday + 32044, b, k, e, m)
    ensures GetYmd(jday) == Assemble(b, k, e, m)
  {
    var c := jday + 32044 - CenturyDays(b);
    assert GetYmd(jday) == FromCentury(b, c) by {
      YmdCentury(jday, b);
    }
    assert FromCentury(b, c) == FromYear(b, k, e) by {
      YmdYear(b, c, k);
    }
    YmdMonth(b, k, e, m);
  }

  lemma PartsOf(d: Date) returns (b: nat, k: nat, e: nat, m: nat)
    requires IsDate(d) && InRange(d)
    ensures Julian(d) >= FIRST_DAY && Parts(Julian(d) + 32044, b, k, e, m) && Assemble(b, k, e, m) == d
  {
    var y := MarchYear(d);
    m := MarchMonth(d);
    JulianIs(d);
    b, k := y / 100, y % 100;
    e := MonthDays(m) + d.day - 1;
    InYear(y, m, e, d);
    DayParts(y, m, e, b, k);
    AssembleBack(d, b, k, e);
  }

  lemma AssembleBack(d: Date, b: nat, k: nat, e: nat)
    requires IsDate(d) && InRange(d) && MarchYear(d) == 100 * b + k && e == MonthDays(MarchMonth(d)) + d.day - 1
    ensures Assemble(b, k, e, MarchMonth(d)) == d
  {
  }

  lemma DayParts(y: nat, m: nat, e: nat, b: nat, k: nat)
    requires k < 100 && y == 100 * b + k && m <= 11
    requires e < YearDays(y + 1) - YearDays(y) && MonthDays(m) <= e < MonthDays(m + 1)
    ensures Parts(YearDays(y) + e, b, k, e, m)
  {
    WithinCentury(b, k, e);
    CenturySplit(b, k);
  }

  /** `get_ymd` undoes `julian_date`. */
  lemma YmdOfJulian(d: Date)
    requires IsDate(d) && InRange(d)
    ensures GetYmd(Julian(d)) == d && Julian(d) >= FIRST_DAY
  {
    var b, k, e, m := PartsOf(d);
    YmdFrom(Julian(d), b, k, e, m);
  }

  /** A valid day lies within its month and its year. */
  lemma InYear(y: nat, m: nat, e: int, d: Date)
    requires IsDate(d) && InRange(d) && y == MarchYear(d) && m == MarchMonth(d) && e == MonthDays(m) + d.day - 1
    ensures 0 <= e < YearDays(y + 1) - YearDays(y) && MonthDays(m) <= e < MonthDays(m + 1)
  {
    MonthLength(d);
    YearLength(y);
    assert m < 11 ==> MonthDays(m + 1) <= MonthDays(11) == 337;
  }

  /** Every day number splits. */
  lemma Split(n: nat) returns (b: nat, k: nat, e: nat, m: nat)
    ensures Parts(n, b, k, e, m) && e < YearDays(100 * b + k + 1) - YearDays(100 * b + k)
  {
    b := (4 * n + 3) / 146097;
    CenturyOf(n, b);
    var c := n - CenturyDays(b);
    k := (4 * c + 3) / 1461;
    QuadOf(c, k);
    e := c - QuadDays(k);
    WithinYear(b, k, e);
    YearLength(100 * b + k);
    m := (5 * e + 2) / 153;
    MonthOf(e, m);
  }

  lemma AssembleOk(n: nat, b: nat, k: nat, e: nat, m: nat)
    requires Parts(n, b, k, e, m) && e < YearDays(100 * b + k + 1) - YearDays(100 * b + k)
    ensures var d := Assemble(b, k, e, m); IsDate(d) && InRange(d) && Julian(d) == n - 32044
  {
    var d := Assemble(b, k, e, m);
    AssembleDate(b, k, e, m);
    CenturySplit(b, k);
    JulianIs(d);
  }

  lemma AssembleDate(b: nat, k: nat, e: nat, m: nat)
    requires k < 100 && m <= 11 && MonthDays(m) <= e < MonthDays(m + 1)
    requires e < YearDays(100 * b + k + 1) - YearDays(100 * b + k)
    ensures var d := Assemble(b, k, e, m);
      IsDate(d) && InRange(d) && MarchYear(d) == 100 * b + k && MarchMonth(d) == m && d.day == e - MonthDays(m) + 1
  {
    MonthLength(Assemble(b, k, e, m));
  }

  /** `julian_date` undoes `get_ymd`, which yields a date of the calendar. */
  lemma JulianOfYmd(jday: int)
    requires jday >= FIRST_DAY
    ensures IsDate(GetYmd(jday)) && InRange(GetYmd(jday)) && Julian(GetYmd(jday)) == jday
  {
    var b, k, e, m := Split(jday + 32044);
    YmdFrom(jday, b, k, e, m);
    AssembleOk(jday + 32044, b, k, e, m);
  }

  // ---- order ----

  predicate Before(d: Date, e: Date) {
    d.year < e.year || (d.year == e.year && (d.month < e.month || (d.month == e.month && d.day < e.day)))
  }

  lemma {:induction false} YearsUp(y: nat, z: nat)
    requires y <= z
    ensures YearDays(y) <= YearDays(z)
  {
    if y < z {
      YearsUp(y, z - 1);
      YearLength(z - 1);
    }
  }

  /** Counting from March does not change the order. */
  lemma MarchOrder(d: Date, e: Date)
    requires 1 <= d.month <= 12 && 1 <= e.month <= 12 && Before(d, e)
    ensures MarchYear(d) < MarchYear(e) || (MarchYear(d) == MarchYear(e) &&
      (MarchMonth(d) < MarchMonth(e) || (MarchMonth(d) == MarchMonth(e) && d.day < e.day)))
  {
  }

  /** The day of the year, from March. */
  function DayOfYear(d: Date): int
    requires 1 <= d.month <= 12
  {
    MonthDays(MarchMonth(d)) + d.day - 1
  }

  lemma EarlierIsLess(d: Date, e: Date)
    requires IsDate(d) && InRange(d) && IsDate(e) && InRange(e) && Before(d, e)
    ensures Julian(d) < Julian(e)
  {
    JulianIs(d);
    JulianIs(e);
    EarlierDay(d, e);
  }

  lemma EarlierDay(d: Date, e: Date)
    requires IsDate(d) && InRange(d) && IsDate(e) && InRange(e) && Before(d, e)
    requires MarchYear(d) >= 0 && MarchYear(e) >= 0 && MarchMonth(d) >= 0 && MarchMonth(e) >= 0
    ensures YearDays(MarchYear(d)) + DayOfYear(d) < YearDays(MarchYear(e)) + DayOfYear(e)
  {
    MarchOrder(d, e);
    InYear(MarchYear(d), MarchMonth(d), DayOfYear(d), d);
    InYear(MarchYear(e), MarchMonth(e), DayOfYear(e), e);
    DaysUp(MarchYear(d), MarchMonth(d), DayOfYear(d), MarchYear(e), MarchMonth(e), DayOfYear(e));
  }

  /** Days in order of year, month and day. */
  lemma DaysUp(y: nat, m: nat, n: int, z: nat, k: nat, l: int)
    requires 0 <= n < YearDays(y + 1) - YearDays(y) && MonthDays(m) <= n < MonthDays(m + 1)
    requires l >= MonthDays(k)
    requires y < z || (y == z && (m < k || (m == k && n < l)))
    ensures YearDays(y) + n < YearDays(z) + l
  {
    if y < z {
      YearsUp(y + 1, z);
    } else if m < k {
      MonthsUp(m, k);
    }
  }

  lemma MonthsUp(m: nat, n: nat)
    requires m < n
    ensures MonthDays(m + 1) <= MonthDays(n)
  {
  }

  /** Day numbers order dates as the calendar does. */
  lemma JulianOrder(d: Date, e: Date)
    requires IsDate(d) && InRange(d) && IsDate(e) && InRange(e)
    ensures Before(d, e) <==> Julian(d) < Julian(e)
  {
    if Before(d, e) {
      EarlierIsLess(d, e);
    } else if Before(e, d) {
      EarlierIsLess(e, d);
    }
  }
}
