/**
 What a schedule means on the calendar: the day rules of libs/scheduling-cron/evaluator.go (dayMatches, domMatchFor,
 dowMatchFor) against a reading of each day field by itself, and the rule that two restricted day fields are
 alternatives, for one second and for the whole search.
 */
module CronVixie {
  import opened Common
  import opened Calendar
  import opened CronSchedule
  import opened CronEvaluator
  import CronParser

  // ---------------------------------------------------------------------------------------------
  // One field at a time
  // ---------------------------------------------------------------------------------------------

  predicate In(v: ValueSet, x: int) {
    v.Star? || (x >= 0 && x in v.values)
  }

  /** The month and the time of day are as the schedule says. */
  predicate OnClock(s: Schedule, t: int) {
    In(s.months, Month(t)) && In(s.hours, Hour(t)) && In(s.minutes, Minute(t)) && In(s.seconds, Second(t))
  }

  /** Two seconds lie in one month of one year. */
  predicate SameMonth(t: int, u: int) {
    Year(t) == Year(u) && Month(t) == Month(u)
  }

  /** `L` is the day whose tomorrow is in another month. */
  predicate OnMonthDay(spec: DayOfMonth, t: int) {
    match spec
    case DomStar => true
    case DomSet(set_) => In(set_, Day(t))
    case DomLast => !SameMonth(t, t + SECONDS_PER_DAY)
  }

  /** `5L` is the Friday with no Friday of its month a week later; `5#3` the one with two of them before it. */
  predicate OnWeekday(spec: DayOfWeek, t: int) {
    match spec
    case DowStar => true
    case DowSet(set_) => In(set_, Weekday(DayOf(t)))
    case DowLast(w) => Weekday(DayOf(t)) == w && !SameMonth(t, t + 7 * SECONDS_PER_DAY)
    case DowNth(w, n) =>
      && Weekday(DayOf(t)) == w && n >= 1
      && SameMonth(t, t - 7 * (n - 1) * SECONDS_PER_DAY) && !SameMonth(t, t - 7 * n * SECONDS_PER_DAY)
  }

  lemma MemberIsIn(v: ValueSet, x: int)
    ensures Member(v, x) <==> In(v, x)
  {
  }

  lemma DaysLater(t: int, k: int)
    ensures DayOf(t + k * SECONDS_PER_DAY) == DayOf(t) + k
  {
  }

  /** A day k days away is in the same month exactly when its number is one of the month's. */
  lemma SameMonthIff(t: int, k: int)
    ensures SameMonth(t, t + k * SECONDS_PER_DAY) <==> 1 <= Day(t) + k <= DaysInMonth(Year(t), Month(t))
  {
    hide MonthStart, MonthOfDay;
    var u := t + k * SECONDS_PER_DAY;
    var here, there := MonthOfDay(DayOf(t)), MonthOfDay(DayOf(u));
    DaysLater(t, k);
    MonthFollows(here);
    PartsIndex(here);
    PartsIndex(there);
    if MonthStart(here) <= DayOf(u) < MonthStart(here + 1) {
      MonthOfDayIsUnique(DayOf(u), here);
    }
  }

  lemma MonthDayMeaning(spec: DayOfMonth, t: int)
    ensures DomMatchFor(spec, Year(t), Month(t), Day(t)) <==> OnMonthDay(spec, t)
  {
    hide Day, Year, Month, SameMonth;
    SameMonthIff(t, 1);
    if spec.DomSet? {
      MemberIsIn(spec.set_, Day(t));
    }
  }

  lemma WeekdayMeaning(spec: DayOfWeek, t: int)
    ensures DowMatchFor(spec, Year(t), Month(t), Day(t)) <==> OnWeekday(spec, t)
  {
    DayNumberOfFields(t);
    hide Day, Year, Month, SameMonth, Weekday, DayNumber;
    match spec
    case DowStar =>
    case DowSet(set_) => MemberIsIn(set_, Weekday(DayOf(t)));
    case DowLast(_) => SameMonthIff(t, 7);
    case DowNth(_, n) =>
      SameMonthIff(t, -7 * n);
      SameMonthIff(t, -7 * (n - 1));
      NthWeekIff(Day(t), n);
      assert t + -7 * n * SECONDS_PER_DAY == t - 7 * n * SECONDS_PER_DAY;
      assert t + -7 * (n - 1) * SECONDS_PER_DAY == t - 7 * (n - 1) * SECONDS_PER_DAY;
  }

  lemma NthWeekIff(day: int, n: nat)
    requires 1 <= day
    ensures (day - 1) / 7 + 1 == n <==> n >= 1 && 1 <= day - 7 * (n - 1) && day - 7 * n < 1
  {
  }

  lemma ClockMeaning(s: Schedule, t: int)
    ensures
      OnClock(s, t) <==>
        && Member(s.months, Month(t)) && Member(s.hours, Hour(t))
        && Member(s.minutes, Minute(t)) && Member(s.seconds, Second(t))
  {
    hide Month, Hour, Minute, Second, Member, In;
    MemberIsIn(s.months, Month(t));
    MemberIsIn(s.hours, Hour(t));
    MemberIsIn(s.minutes, Minute(t));
    MemberIsIn(s.seconds, Second(t));
  }

  // ---------------------------------------------------------------------------------------------
  // The Vixie rule
  // ---------------------------------------------------------------------------------------------

  predicate BothRestricted(s: Schedule) {
    !s.dayOfMonth.DomStar? && !s.dayOfWeek.DowStar?
  }

  /** With a star in one day field the other one decides alone. */
  lemma OneDayFieldDecides(s: Schedule, t: int)
    requires !BothRestricted(s)
    ensures Matches(s, t) <==> OnClock(s, t) && OnMonthDay(s.dayOfMonth, t) && OnWeekday(s.dayOfWeek, t)
  {
    ClockMeaning(s, t);
    MonthDayMeaning(s.dayOfMonth, t);
    WeekdayMeaning(s.dayOfWeek, t);
    hide OnMonthDay, OnWeekday, OnClock, DomMatchFor, DowMatchFor, Member, Year, Month, Day, Hour, Minute, Second;
  }

  /** With two restricted day fields either one suffices: the schedule fires when it would with only the first, or
      with only the second. */
  lemma EitherDayFieldSuffices(s: Schedule, t: int)
    requires BothRestricted(s)
    ensures Matches(s, t) <==>
      Matches(s.(dayOfWeek := DowStar), t) || Matches(s.(dayOfMonth := DomStar), t)
    ensures Matches(s, t) <==> OnClock(s, t) && (OnMonthDay(s.dayOfMonth, t) || OnWeekday(s.dayOfWeek, t))
  {
    ClockMeaning(s, t);
    MonthDayMeaning(s.dayOfMonth, t);
    WeekdayMeaning(s.dayOfWeek, t);
    hide OnMonthDay, OnWeekday, OnClock, Member, Year, Month, Day, Hour, Minute, Second, LastDayOfMonth, Contains;
  }

  function Earlier(a: Option<int>, b: Option<int>): Option<int> {
    if a.None? then b else if b.None? then a else Some(Min(a.value, b.value))
  }

  lemma FirstMatchIsUnique(s: Schedule, start: int, capYear: int, a: Option<int>, b: Option<int>)
    requires IsFirstMatch(s, start, capYear, a) && IsFirstMatch(s, start, capYear, b)
    ensures a == b
  {
    hide Matches, Year;
  }

  /** The search over such a schedule finds the earlier of what it finds for each day field alone. */
  lemma FirstOfEither(s: Schedule, start: int, capYear: int, r: Option<int>, byDay: Option<int>, byWeekday: Option<int>)
    requires BothRestricted(s) && IsFirstMatch(s, start, capYear, r)
    requires IsFirstMatch(s.(dayOfWeek := DowStar), start, capYear, byDay)
    requires IsFirstMatch(s.(dayOfMonth := DomStar), start, capYear, byWeekday)
    ensures r == Earlier(byDay, byWeekday)
  {
    hide Matches, Year;
    var first := Earlier(byDay, byWeekday);
    if first.Some? {
      EitherDayFieldSuffices(s, first.value);
    }
    forall u
      ensures Matches(s, u) <==>
        Matches(s.(dayOfWeek := DowStar), u) || Matches(s.(dayOfMonth := DomStar), u)
    {
      EitherDayFieldSuffices(s, u);
    }
    FirstMatchIsUnique(s, start, capYear, r, first);
  }

  // ---------------------------------------------------------------------------------------------
  // Weekdays
  // ---------------------------------------------------------------------------------------------

  /** Sunday is 0 and the weekdays follow each other. */
  lemma WeekdaysFollow(day: int)
    ensures Weekday(day + 1) == if Weekday(day) == 6 then 0 else Weekday(day) + 1
  {
  }

  lemma StartOfMonth(year: int, month: int, day: int)
    requires 1 <= month <= 12
    ensures DayNumber(year, month, day) == YearStart(year) + DaysBeforeMonth(year, month) + day - 1
  {
    IndexParts(year, month);
    hide YearStart, DaysBeforeMonth;
  }

  /** Known days fix where the week starts and which years are leap years. */
  lemma KnownWeekdays()
    ensures Weekday(DayNumber(2024, 1, 5)) == 5 && Weekday(DayNumber(2000, 2, 29)) == 2
    ensures Weekday(DayNumber(1900, 3, 1)) == 4 && Weekday(DayNumber(1970, 1, 1)) == 4
  {
    hide DayNumber;
    StartOf2024(5);
    LeapDayOf2000();
    MarchOf1900();
    StartOfMonth(1970, 1, 1);
  }

  lemma StartOf2024(day: int)
    ensures MonthStart(MonthIndex(2024, 1)) == 738885 && DayNumber(2024, 1, day) == 738884 + day
  {
    hide DayNumber, MonthStart, MonthIndex;
    StartOfMonth(2024, 1, 1);
    StartOfMonth(2024, 1, day);
    FirstDay(2024, 1);
    assert DaysBeforeMonth(2024, 1) == 0 && YearStart(2024) == 738885;
  }

  lemma FirstDay(year: int, month: int)
    requires 1 <= month <= 12
    ensures DayNumber(year, month, 1) == MonthStart(MonthIndex(year, month))
  {
  }

  lemma LeapDayOf2000()
    ensures DayNumber(2000, 2, 29) == 730178 && DaysInMonth(2000, 2) == 29
  {
    hide DayNumber, MonthStart, MonthIndex;
    StartOfMonth(2000, 2, 29);
    assert DaysBeforeMonth(2000, 1) == 0 && DaysBeforeMonth(2000, 2) == 31;
    assert YearStart(2000) == 730119;
  }

  lemma MarchOf1900()
    ensures DayNumber(1900, 3, 1) == 693654 && DaysInMonth(1900, 2) == 28
  {
    hide DayNumber, MonthStart, MonthIndex;
    StartOfMonth(1900, 3, 1);
    assert DaysBeforeMonth(1900, 1) == 0 && DaysBeforeMonth(1900, 2) == 31;
    assert !Leap(1900) && DaysBeforeMonth(1900, 3) == 59;
    assert YearStart(1900) == 693595;
  }

  const MIDNIGHT: ValueSet := Explicit([0])

  /** `0 0 0 13 * 5`: midnight on the 13th or on Fridays. */
  const THIRTEENTH_OR_FRIDAY :=
    Schedule(MIDNIGHT, MIDNIGHT, MIDNIGHT, DomSet(Explicit([13])), Star, DowSet(Explicit([5])))

  /** From the start of 2024 that schedule first fires on Friday, January 5th. */
  lemma FridayComesFirst()
    ensures IsFirstMatch(THIRTEENTH_OR_FRIDAY, Date(2024, 1, 1, 0, 0, 0), 2034, Some(Date(2024, 1, 5, 0, 0, 0)))
  {
    hide *;
    var start := MidnightOf2024(1);
    var fire := MidnightOf2024(5);
    FridayFires(start, fire);
  }

  lemma MidnightOf2024(day: int) returns (t: int)
    requires 1 <= day <= 28
    ensures t == Date(2024, 1, day, 0, 0, 0) && t == (738884 + day) * SECONDS_PER_DAY
    ensures Year(t) == 2024 && DayOf(t) == 738884 + day && Hour(t) == 0 && Minute(t) == 0 && Second(t) == 0
  {
    hide Year, Month, Day, DayNumber, DayOf, Hour, Minute, Second, DaysInMonth;
    t := Date(2024, 1, day, 0, 0, 0);
    StartOf2024(day);
    FieldsOfDate(2024, 1, day, 0, 0, 0);
  }

  lemma FridayFires(start: int, fire: int)
    requires start == 738885 * SECONDS_PER_DAY && fire == 738889 * SECONDS_PER_DAY
    requires Year(fire) == 2024 && DayOf(fire) == 738889
    requires Hour(fire) == 0 && Minute(fire) == 0 && Second(fire) == 0
    ensures IsFirstMatch(THIRTEENTH_OR_FRIDAY, start, 2034, Some(fire))
  {
    hide Year, Month, Day, Matches, Hour, Minute, Second;
    assert Weekday(738889) == 5;
    EitherDayFieldSuffices(THIRTEENTH_OR_FRIDAY, fire);
    forall u | start <= u < fire
      ensures !Matches(THIRTEENTH_OR_FRIDAY, u)
    {
      FirstDaysOf2024(u);
      EitherDayFieldSuffices(THIRTEENTH_OR_FRIDAY, u);
    }
  }

  lemma FirstDaysOf2024(u: int)
    requires 738885 * SECONDS_PER_DAY <= u < 738889 * SECONDS_PER_DAY
    ensures Day(u) != 13 && Weekday(DayOf(u)) != 5
  {
    hide Day, DayNumber, MonthStart, MonthIndex;
    StartOf2024(1);
    assert 738885 <= DayOf(u) < 738889;
    DayInMonth(u, MonthIndex(2024, 1));
  }

  lemma DayInMonth(u: int, k: int)
    requires MonthStart(k) <= DayOf(u) < MonthStart(k) + 28
    ensures Day(u) == DayOf(u) - MonthStart(k) + 1
  {
    hide MonthStart, MonthOfDay, MonthLength;
    MonthFollows(k);
    MonthOfDayIsUnique(DayOf(u), k);
  }

  // ---------------------------------------------------------------------------------------------
  // The ranges of the fields
  // ---------------------------------------------------------------------------------------------

  predicate InRange(f: CronParser.Field, x: int) {
    f.min <= x <= f.max
  }

  /** The fields of an expression range over exactly the values that clock and calendar take; weekdays over those and
      seven, the other name of Sunday. */
  lemma RangesAreTheCalendar(x: int)
    ensures InRange(CronParser.SECONDS, x) <==> exists t :: Second(t) == x
    ensures InRange(CronParser.MINUTES, x) <==> exists t :: Minute(t) == x
    ensures InRange(CronParser.HOURS, x) <==> exists t :: Hour(t) == x
    ensures InRange(CronParser.DAYS, x) <==> exists t :: Day(t) == x
    ensures InRange(CronParser.MONTHS, x) <==> exists t :: Month(t) == x
    ensures InRange(CronParser.WEEKDAYS, x) <==> (exists day :: Weekday(day) == x) || x == 7
  {
    if 0 <= x < 60 {
      ClockOf(0, 0, 0, x);
      ClockOf(0, 0, x, 0);
      assert Second(0 * SECONDS_PER_DAY + 0 * 3600 + 0 * 60 + x) == x;
      assert Minute(0 * SECONDS_PER_DAY + 0 * 3600 + x * 60 + 0) == x;
    }
    if 0 <= x < 24 {
      ClockOf(0, x, 0, 0);
      assert Hour(0 * SECONDS_PER_DAY + x * 3600 + 0 * 60 + 0) == x;
    }
    if 0 <= x < 7 {
      assert Weekday(x - 1) == x;
    }
    hide Second, Minute, Hour, Weekday, Day, Month;
    DaysAndMonthsOccur(x);
  }

  lemma DaysAndMonthsOccur(x: int)
    ensures 1 <= x <= 31 <==> exists t :: Day(t) == x
    ensures 1 <= x <= 12 <==> exists t :: Month(t) == x
  {
    hide Day, Month, Year, DaysInMonth;
    if 1 <= x <= 31 {
      var t := DayInJanuary(x);
    }
    if 1 <= x <= 12 {
      var t := FirstOfMonth(x);
    }
  }

  lemma DayInJanuary(x: int) returns (t: int)
    requires 1 <= x <= 31
    ensures Day(t) == x
  {
    hide Day, Month, Year, Hour, Minute, Second, DayOf, DayNumber;
    t := Date(1, 1, x, 0, 0, 0);
    FieldsOfDate(1, 1, x, 0, 0, 0);
  }

  lemma FirstOfMonth(x: int) returns (t: int)
    requires 1 <= x <= 12
    ensures Month(t) == x
  {
    hide Day, Month, Year, Hour, Minute, Second, DayOf, DayNumber, DaysInMonth;
    t := Date(1, x, 1, 0, 0, 0);
    FieldsOfDate(1, x, 1, 0, 0, 0);
  }
}
