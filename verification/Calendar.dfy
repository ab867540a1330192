/**
 The proleptic Gregorian calendar as the cron walker uses it through Go's time package on a naive
 carrier without transitions.  A wall-clock second is an integer: seconds since
 0001-01-01T00:00:00.  Years may be zero or negative.
 */
module Calendar {

  const SECONDS_PER_DAY := 86400

  predicate Leap(year: int) {
    year % 4 == 0 && (year % 100 != 0 || year % 400 == 0)
  }

  function DaysInMonth(year: int, month: int): (n: int)
    requires 1 <= month <= 12
    ensures 28 <= n <= 31
  {
    if month == 2 then if Leap(year) then 29 else 28
    else if month == 4 || month == 6 || month == 9 || month == 11 then 30
    else 31
  }

  /** Days from 0001-01-01 to January 1st of `year`. */
  function YearStart(year: int): int {
    365 * (year - 1) + (year - 1) / 4 - (year - 1) / 100 + (year - 1) / 400
  }

  function DaysBeforeMonth(year: int, month: int): int
    requires 1 <= month <= 12
    decreases month
  {
    if month == 1 then 0 else DaysBeforeMonth(year, month - 1) + DaysInMonth(year, month - 1)
  }

  /** Months are counted from January of year 0. */
  function MonthIndex(year: int, month: int): int
    requires 1 <= month <= 12
  {
    12 * year + month - 1
  }

  function YearOfIndex(k: int): int {
    k / 12
  }

  function MonthOfIndex(k: int): (month: int)
    ensures 1 <= month <= 12
  {
    k % 12 + 1
  }

  /** The day number of the first day of month `k`. */
  function MonthStart(k: int): int {
    YearStart(YearOfIndex(k)) + DaysBeforeMonth(YearOfIndex(k), MonthOfIndex(k))
  }

  function MonthLength(k: int): (n: int)
    ensures 28 <= n <= 31
  {
    DaysInMonth(YearOfIndex(k), MonthOfIndex(k))
  }

  lemma YearLength(year: int)
    ensures YearStart(year + 1) == YearStart(year) + (if Leap(year) then 366 else 365)
  {
    var y := year - 1;
    assert (y + 1) / 4 == y / 4 + (if year % 4 == 0 then 1 else 0);
    assert (y + 1) / 100 == y / 100 + (if year % 100 == 0 then 1 else 0);
    assert (y + 1) / 400 == y / 400 + (if year % 400 == 0 then 1 else 0);
    assert year % 400 == 0 ==> year % 100 == 0 by {
      assert year == 400 * (year / 400) + year % 400;
    }
    assert year % 100 == 0 ==> year % 4 == 0 by {
      assert year == 100 * (year / 100) + year % 100;
    }
  }

  lemma DaysBeforeDecember(year: int)
    ensures DaysBeforeMonth(year, 12) == if Leap(year) then 335 else 334
  {
    assert DaysBeforeMonth(year, 3) == if Leap(year) then 60 else 59;
    assert DaysBeforeMonth(year, 6) == DaysBeforeMonth(year, 3) + 92;
    assert DaysBeforeMonth(year, 9) == DaysBeforeMonth(year, 6) + 92;
    assert DaysBeforeMonth(year, 12) == DaysBeforeMonth(year, 9) + 91;
  }

  /** Each month starts where the previous one ends, across year ends too. */
  lemma MonthFollows(k: int)
    ensures MonthStart(k + 1) == MonthStart(k) + MonthLength(k)
  {
    if k % 12 == 11 {
      assert (k + 1) / 12 == k / 12 + 1 && (k + 1) % 12 == 0;
      YearLength(k / 12);
      DaysBeforeDecember(k / 12);
    } else {
      assert (k + 1) / 12 == k / 12 && (k + 1) % 12 == k % 12 + 1;
    }
  }

  lemma {:induction false} MonthStartIncreases(a: int, b: int)
    requires a <= b
    ensures MonthStart(a) + 28 * (b - a) <= MonthStart(b)
    decreases b - a
  {
    hide MonthStart, MonthLength;
    if a < b {
      MonthFollows(b - 1);
      MonthStartIncreases(a, b - 1);
    }
  }

  /** A month known to start at or before `day`. */
  function EarlyMonth(day: int): (k: int)
    ensures MonthStart(k) <= day
  {
    var year := if day < 0 then day else 0;
    assert MonthIndex(year, 1) / 12 == year && MonthIndex(year, 1) % 12 == 0;
    MonthIndex(year, 1)
  }

  function MonthFrom(k: int, day: int): (r: int)
    requires MonthStart(k) <= day
    ensures MonthStart(r) <= day < MonthStart(r + 1)
    decreases day - MonthStart(k)
  {
    hide MonthStart, MonthLength;
    MonthFollows(k);
    if day < MonthStart(k + 1) then k else MonthFrom(k + 1, day)
  }

  /** The month that contains a day. */
  function MonthOfDay(day: int): (k: int)
    ensures MonthStart(k) <= day < MonthStart(k + 1)
  {
    MonthFrom(EarlyMonth(day), day)
  }

  lemma MonthOfDayIsUnique(day: int, k: int)
    requires MonthStart(k) <= day < MonthStart(k + 1)
    ensures MonthOfDay(day) == k
  {
    var r := MonthOfDay(day);
    if r < k {
      MonthStartIncreases(r + 1, k);
    } else if k < r {
      MonthStartIncreases(k + 1, r);
    }
  }

  lemma MonthOfDayIsMonotone(a: int, b: int)
    requires a <= b
    ensures MonthOfDay(a) <= MonthOfDay(b)
  {
    if MonthOfDay(b) < MonthOfDay(a) {
      MonthStartIncreases(MonthOfDay(b) + 1, MonthOfDay(a));
    }
  }

  // ---------------------------------------------------------------------------------------------
  // Wall-clock seconds and their fields
  // ---------------------------------------------------------------------------------------------

  function DayOf(t: int): int {
    t / SECONDS_PER_DAY
  }

  function Year(t: int): int {
    YearOfIndex(MonthOfDay(DayOf(t)))
  }

  function Month(t: int): (month: int)
    ensures 1 <= month <= 12
  {
    MonthOfIndex(MonthOfDay(DayOf(t)))
  }

  function Day(t: int): (day: int)
    ensures 1 <= day <= DaysInMonth(Year(t), Month(t))
  {
    MonthFollows(MonthOfDay(DayOf(t)));
    DayOf(t) - MonthStart(MonthOfDay(DayOf(t))) + 1
  }

  function Hour(t: int): (hour: int)
    ensures 0 <= hour < 24
  {
    t % SECONDS_PER_DAY / 3600
  }

  function Minute(t: int): (minute: int)
    ensures 0 <= minute < 60
  {
    t % SECONDS_PER_DAY % 3600 / 60
  }

  function Second(t: int): (second: int)
    ensures 0 <= second < 60
  {
    t % SECONDS_PER_DAY % 60
  }

  /** Sunday is 0, as in time.Weekday; 0001-01-01 was a Monday. */
  function Weekday(day: int): (w: int)
    ensures 0 <= w < 7
  {
    (day + 1) % 7
  }

  function DayNumber(year: int, month: int, day: int): int
    requires 1 <= month <= 12
  {
    MonthStart(MonthIndex(year, month)) + day - 1
  }

  /** time.Date on the naive carrier, for fields in range. */
  function Date(year: int, month: int, day: int, hour: int, minute: int, second: int): int
    requires 1 <= month <= 12 && 1 <= day <= DaysInMonth(year, month)
    requires 0 <= hour < 24 && 0 <= minute < 60 && 0 <= second < 60
  {
    DayNumber(year, month, day) * SECONDS_PER_DAY + hour * 3600 + minute * 60 + second
  }

  lemma NextDayOf(t: int)
    ensures DayOf(t + SECONDS_PER_DAY) == DayOf(t) + 1
  {
  }

  /** Two days have the same weekday exactly when they are whole weeks apart. */
  lemma SameWeekday(a: int, b: int)
    ensures Weekday(a) == Weekday(b) <==> (b - a) % 7 == 0
  {
    assert b + 1 == (a + 1) + (b - a);
  }

  lemma IndexParts(year: int, month: int)
    requires 1 <= month <= 12
    ensures YearOfIndex(MonthIndex(year, month)) == year && MonthOfIndex(MonthIndex(year, month)) == month
  {
  }

  lemma PartsIndex(k: int)
    ensures MonthIndex(YearOfIndex(k), MonthOfIndex(k)) == k
  {
  }

  /** The seconds within a day split into hour, minute and second, and back. */
  lemma ClockParts(t: int)
    ensures t == DayOf(t) * SECONDS_PER_DAY + Hour(t) * 3600 + Minute(t) * 60 + Second(t)
  {
    var sod := t % SECONDS_PER_DAY;
    assert sod == sod / 3600 * 3600 + sod % 3600;
    assert sod % 3600 == sod % 3600 / 60 * 60 + sod % 3600 % 60;
    assert sod % 3600 % 60 == sod % 60 by {
      assert sod == 60 * (60 * (sod / 3600) + sod % 3600 / 60) + sod % 3600 % 60;
    }
  }

  lemma ClockOf(day: int, hour: int, minute: int, second: int)
    requires 0 <= hour < 24 && 0 <= minute < 60 && 0 <= second < 60
    ensures
      var t := day * SECONDS_PER_DAY + hour * 3600 + minute * 60 + second;
      DayOf(t) == day && Hour(t) == hour && Minute(t) == minute && Second(t) == second
  {
    var sod := hour * 3600 + minute * 60 + second;
    var t := day * SECONDS_PER_DAY + sod;
    assert 0 <= sod < SECONDS_PER_DAY;
    assert DayOf(t) == day && t % SECONDS_PER_DAY == sod;
    assert sod / 3600 == hour;
    assert sod % 3600 == minute * 60 + second;
    assert sod == 60 * (60 * hour + minute) + second;
    assert sod % 60 == second;
  }

  lemma MonthOfDate(year: int, month: int, day: int)
    requires 1 <= month <= 12 && 1 <= day <= DaysInMonth(year, month)
    ensures MonthOfDay(DayNumber(year, month, day)) == MonthIndex(year, month)
  {
    var k := MonthIndex(year, month);
    IndexParts(year, month);
    MonthFollows(k);
    MonthOfDayIsUnique(DayNumber(year, month, day), k);
  }

  /** Reading the fields of a date gives the fields back. */
  lemma FieldsOfDate(year: int, month: int, day: int, hour: int, minute: int, second: int)
    requires 1 <= month <= 12 && 1 <= day <= DaysInMonth(year, month)
    requires 0 <= hour < 24 && 0 <= minute < 60 && 0 <= second < 60
    ensures
      var t := Date(year, month, day, hour, minute, second);
      && Year(t) == year && Month(t) == month && Day(t) == day
      && Hour(t) == hour && Minute(t) == minute && Second(t) == second
      && DayOf(t) == DayNumber(year, month, day)
  {
    var n := DayNumber(year, month, day);
    ClockOf(n, hour, minute, second);
    MonthOfDate(year, month, day);
    IndexParts(year, month);
  }

  lemma DayNumberOfFields(t: int)
    ensures DayNumber(Year(t), Month(t), Day(t)) == DayOf(t)
  {
    PartsIndex(MonthOfDay(DayOf(t)));
  }

  /** Building the date of the fields of a second gives that second back. */
  lemma DateOfFields(t: int)
    ensures Date(Year(t), Month(t), Day(t), Hour(t), Minute(t), Second(t)) == t
  {
    DayNumberOfFields(t);
    ClockParts(t);
  }

  /** The first second of a year, and the seconds before it. */
  function YearBegin(year: int): int {
    YearStart(year) * SECONDS_PER_DAY
  }

  lemma YearBegins(year: int, t: int)
    ensures Year(t) < year <==> t < YearBegin(year)
  {
    var k := MonthIndex(year, 1);
    IndexParts(year, 1);
    assert MonthStart(k) == YearStart(year);
    var r := MonthOfDay(DayOf(t));
    if r < k {
      MonthStartIncreases(r + 1, k);
      assert DayOf(t) < YearStart(year);
    } else {
      MonthStartIncreases(k, r);
      assert DayOf(t) >= YearStart(year);
    }
  }

  /** The first second after a year. */
  function AfterYear(year: int): int {
    YearBegin(year + 1)
  }

  lemma AfterYearBegins(year: int, t: int)
    ensures Year(t) <= year <==> t < AfterYear(year)
  {
    YearBegins(year + 1, t);
  }
}
