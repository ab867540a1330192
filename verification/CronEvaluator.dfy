/**
 The wall-clock walk of libs/scheduling-cron/evaluator.go (findNextMatch and its helpers): a
 coarse-to-fine search over month, day, hour, minute and second that finds exactly the first
 matching second.
 */
module CronEvaluator {
  import opened Common
  import opened Calendar
  import opened CronSchedule

  // ---------------------------------------------------------------------------------------------
  // When a second matches
  // ---------------------------------------------------------------------------------------------

  /** lastDayOfMonth: the day before the first of the next month. */
  function LastDayOfMonth(year: int, month: int): (day: int)
    requires 1 <= month <= 12
    ensures day == DaysInMonth(year, month)
  {
    var nextYear := if month == 12 then year + 1 else year;
    var nextMonth := if month == 12 then 1 else month + 1;
    var firstOfNext := Date(nextYear, nextMonth, 1, 0, 0, 0);
    LastDayIsMonthLength(year, month, nextYear, nextMonth);
    Day(firstOfNext - SECONDS_PER_DAY)
  }

  lemma LastDayIsMonthLength(year: int, month: int, nextYear: int, nextMonth: int)
    requires 1 <= month <= 12
    requires nextYear == if month == 12 then year + 1 else year
    requires nextMonth == if month == 12 then 1 else month + 1
    ensures Day(Date(nextYear, nextMonth, 1, 0, 0, 0) - SECONDS_PER_DAY) == DaysInMonth(year, month)
  {
    var last := DaysInMonth(year, month);
    var k := MonthIndex(year, month);
    assert MonthIndex(nextYear, nextMonth) == k + 1;
    IndexParts(year, month);
    MonthFollows(k);
    assert Date(nextYear, nextMonth, 1, 0, 0, 0) - SECONDS_PER_DAY == Date(year, month, last, 0, 0, 0);
    FieldsOfDate(year, month, last, 0, 0, 0);
  }

  predicate DomMatchFor(spec: DayOfMonth, year: int, month: int, day: int)
    requires 1 <= month <= 12
  {
    match spec
    case DomStar => true
    case DomSet(set_) => Contains(set_, day)
    case DomLast => LastDayOfMonth(year, month) == day
  }

  predicate DowMatchFor(spec: DayOfWeek, year: int, month: int, day: int)
    requires 1 <= month <= 12
  {
    var weekday := Weekday(DayNumber(year, month, day));
    match spec
    case DowStar => true
    case DowSet(set_) => Contains(set_, weekday)
    case DowLast(w) =>
      weekday == w &&
      var last := LastDayOfMonth(year, month);
      if last < 7 then day > 0 else day > last - 7
    case DowNth(w, occurrence) => weekday == w && (day - 1) / 7 + 1 == occurrence
  }

  /** Vixie semantics: when both day fields are restricted either one suffices. */
  predicate DayMatches(s: Schedule, year: int, month: int, day: int)
    requires 1 <= month <= 12
  {
    var dom := DomMatchFor(s.dayOfMonth, year, month, day);
    var dow := DowMatchFor(s.dayOfWeek, year, month, day);
    if !s.dayOfMonth.DomStar? && !s.dayOfWeek.DowStar? then dom || dow else dom && dow
  }

  /** The schedule fires at wall-clock second t. */
  predicate Matches(s: Schedule, t: int) {
    && Member(s.months, Month(t))
    && DayMatches(s, Year(t), Month(t), Day(t))
    && Member(s.hours, Hour(t))
    && Member(s.minutes, Minute(t))
    && Member(s.seconds, Second(t))
  }

  ghost predicate NoMatch(s: Schedule, a: int, b: int) {
    forall u :: a <= u < b ==> !Matches(s, u)
  }

  /** `<weekday>L` is the last such weekday of the month: no later day of the month has it. */
  lemma LastWeekdayMeaning(w: nat, year: int, month: int, day: int)
    requires 1 <= month <= 12 && 1 <= day <= DaysInMonth(year, month)
    ensures DowMatchFor(DowLast(w), year, month, day) <==>
      && Weekday(DayNumber(year, month, day)) == w
      && forall d :: day < d <= DaysInMonth(year, month) ==> Weekday(DayNumber(year, month, d)) != w
  {
    hide Weekday, DayNumber, DaysInMonth;
    var n := DayNumber(year, month, day);
    if Weekday(n) == w {
      if day <= DaysInMonth(year, month) - 7 {
        DaysFollow(year, month, day, day + 7);
        WeekdayRepeats(n, 1);
      } else {
        forall d | day < d <= DaysInMonth(year, month)
          ensures Weekday(DayNumber(year, month, d)) != w
        {
          DaysFollow(year, month, day, d);
          WeekdayRepeats(n, d - day);
        }
      }
    }
  }

  lemma DaysFollow(year: int, month: int, a: int, b: int)
    requires 1 <= month <= 12
    ensures DayNumber(year, month, b) == DayNumber(year, month, a) + (b - a)
  {
  }

  lemma WeekdayRepeats(n: int, k: int)
    requires 0 < k < 7
    ensures Weekday(n + 7) == Weekday(n) && Weekday(n + k) != Weekday(n)
  {
  }

  /** Of the days base + 1, ..., base + day, those with the weekday of the last one. */
  function SameWeekdayUpTo(base: int, day: int): set<int> {
    set d | 1 <= d <= day && WeekdayAfter(base, d) == WeekdayAfter(base, day)
  }

  function WeekdayAfter(base: int, d: int): int {
    Weekday(base + d)
  }

  lemma {:induction false} CountWeekday(base: int, day: int)
    requires 1 <= day
    ensures |SameWeekdayUpTo(base, day)| == (day - 1) / 7 + 1
    decreases day
  {
    var all := SameWeekdayUpTo(base, day);
    forall d | 1 <= d <= day
      ensures d in all <==> (day - d) % 7 == 0
    {
      SameWeekday(base + d, base + day);
    }
    if day <= 7 {
      assert all == {day};
    } else {
      var before := SameWeekdayUpTo(base, day - 7);
      CountWeekday(base, day - 7);
      forall d | 1 <= d <= day - 7
        ensures d in all <==> d in before
      {
        SameWeekday(base + day - 7, base + day);
      }
      assert all == before + {day};
    }
  }

  /** `<weekday>#<n>`: the day has that weekday and is the n-th day of its month that has it. */
  lemma NthWeekdayMeaning(w: nat, n: nat, year: int, month: int, day: int)
    requires 1 <= month <= 12 && 1 <= day <= DaysInMonth(year, month)
    ensures DowMatchFor(DowNth(w, n), year, month, day) <==>
      && Weekday(DayNumber(year, month, day)) == w
      && |set d | 1 <= d <= day && Weekday(DayNumber(year, month, d)) == w| == n
  {
    var base := DayNumber(year, month, 0);
    CountWeekday(base, day);
    if Weekday(DayNumber(year, month, day)) == w {
      assert (set d | 1 <= d <= day && Weekday(DayNumber(year, month, d)) == w) == SameWeekdayUpTo(base, day);
    }
  }

  // ---------------------------------------------------------------------------------------------
  // The helpers that move the cursor
  // ---------------------------------------------------------------------------------------------

  function Midnight(t: int): (r: int)
    ensures r == DayOf(t) * SECONDS_PER_DAY
  {
    DayNumberOfFields(t);
    Date(Year(t), Month(t), Day(t), 0, 0, 0)
  }

  function AdvanceToNextDay(t: int, capYear: int): (r: Option<int>)
    ensures r.Some? ==> r.value == (DayOf(t) + 1) * SECONDS_PER_DAY
    ensures r.None? <==> Year(t + SECONDS_PER_DAY) > capYear
  {
    var next := t + SECONDS_PER_DAY;
    NextDayOf(t);
    if Year(next) > capYear then None else Some(Midnight(next))
  }

  function WithHourResetFiner(t: int, hour: int): (r: int)
    requires 0 <= hour < 24
    ensures r == DayOf(t) * SECONDS_PER_DAY + hour * 3600
  {
    DayNumberOfFields(t);
    Date(Year(t), Month(t), Day(t), hour, 0, 0)
  }

  function WithMinuteResetFiner(t: int, minute: int): (r: int)
    requires 0 <= minute < 60
    ensures r == DayOf(t) * SECONDS_PER_DAY + Hour(t) * 3600 + minute * 60
  {
    DayNumberOfFields(t);
    Date(Year(t), Month(t), Day(t), Hour(t), minute, 0)
  }

  function WithSecond(t: int, second: int): (r: int)
    requires 0 <= second < 60
    ensures r == DayOf(t) * SECONDS_PER_DAY + Hour(t) * 3600 + Minute(t) * 60 + second
  {
    DayNumberOfFields(t);
    Date(Year(t), Month(t), Day(t), Hour(t), Minute(t), second)
  }

  /** The first second of the following hour, across midnight. */
  function WithHourAdvanceOne(t: int): (r: int)
    ensures r == DayOf(t) * SECONDS_PER_DAY + (Hour(t) + 1) * 3600
  {
    NextDayOf(t);
    if Hour(t) == 23 then Midnight(t + SECONDS_PER_DAY) else WithHourResetFiner(t, Hour(t) + 1)
  }

  /** The first second of the following minute, across the hour and midnight. */
  function WithMinuteAdvanceOne(t: int): (r: int)
    ensures r == DayOf(t) * SECONDS_PER_DAY + Hour(t) * 3600 + (Minute(t) + 1) * 60
  {
    if Minute(t) == 59 then WithHourAdvanceOne(t) else WithMinuteResetFiner(t, Minute(t) + 1)
  }

  /** advanceToNextMonth: the first of the next listed month, unless that is past the cap. */
  method AdvanceToNextMonth(s: Schedule, t: int, capYear: int) returns (r: Option<int>)
    requires Year(t) <= capYear && !Member(s.months, Month(t))
    ensures r.Some? ==> t < r.value && Year(r.value) <= capYear && NoMatch(s, t, r.value)
    ensures r.None? ==>
      && MonthOfDay(DayOf(t)) <= MonthIndex(capYear + 1, 1)
      && Unlisted(s, MonthOfDay(DayOf(t)), MonthIndex(capYear + 1, 1))
  {
    var year, month := Year(t), Month(t);
    ghost var k0 := MonthOfDay(DayOf(t));
    PartsIndex(k0);
    UnlistedStep(s, k0, year, month);
    while true
      invariant 1 <= month <= 12 && year <= capYear
      invariant k0 <= MonthIndex(year, month)
      invariant Unlisted(s, k0, MonthIndex(year, month) + 1)
      decreases 12 * (capYear + 1) - MonthIndex(year, month)
    {
      ghost var k := MonthIndex(year, month) + 1;
      month := month + 1;
      if month > 12 {
        year := year + 1;
        month := 1;
      }
      assert k == MonthIndex(year, month);
      if year > capYear {
        assert month == 1 && year == capYear + 1;
        return None;
      }
      if Contains(s.months, month) {
        MonthFound(s, t, year, month);
        return Some(Date(year, month, 1, 0, 0, 0));
      }
      UnlistedStep(s, k0, year, month);
    }
  }

  // ---------------------------------------------------------------------------------------------
  // What each move skips
  // ---------------------------------------------------------------------------------------------

  lemma NextMonthIsLater(t: int, k: int)
    requires MonthOfDay(DayOf(t)) < k
    ensures t < MonthStart(k) * SECONDS_PER_DAY
  {
    MonthStartIncreases(MonthOfDay(DayOf(t)) + 1, k);
    ClockParts(t);
  }

  lemma JanuaryBegins(year: int)
    ensures MonthStart(MonthIndex(year + 1, 1)) * SECONDS_PER_DAY == AfterYear(year)
  {
    IndexParts(year + 1, 1);
  }

  /** None of the months a, ..., b - 1 is listed. */
  ghost predicate Unlisted(s: Schedule, a: int, b: int) {
    forall i :: a <= i < b ==> !Member(s.months, MonthOfIndex(i))
  }

  lemma UnlistedStep(s: Schedule, a: int, year: int, month: int)
    requires 1 <= month <= 12 && !Member(s.months, month) && Unlisted(s, a, MonthIndex(year, month))
    ensures Unlisted(s, a, MonthIndex(year, month) + 1)
  {
    IndexParts(year, month);
  }

  lemma MonthsExhausted(s: Schedule, t: int, year: int)
    requires MonthOfDay(DayOf(t)) <= MonthIndex(year + 1, 1)
    requires Unlisted(s, MonthOfDay(DayOf(t)), MonthIndex(year + 1, 1))
    ensures NoMatch(s, t, AfterYear(year))
  {
    SkipMonths(s, t, MonthIndex(year + 1, 1));
    JanuaryBegins(year);
  }

  lemma MonthFound(s: Schedule, t: int, year: int, month: int)
    requires 1 <= month <= 12 && MonthOfDay(DayOf(t)) < MonthIndex(year, month)
    requires Unlisted(s, MonthOfDay(DayOf(t)), MonthIndex(year, month))
    ensures
      var next := Date(year, month, 1, 0, 0, 0);
      t < next && Year(next) == year && NoMatch(s, t, next)
  {
    var k := MonthIndex(year, month);
    SkipMonths(s, t, k);
    FieldsOfDate(year, month, 1, 0, 0, 0);
    NextMonthIsLater(t, k);
  }

  /** Up to the start of month k, while no month before it is listed. */
  lemma SkipMonths(s: Schedule, t: int, k: int)
    requires MonthOfDay(DayOf(t)) <= k
    requires Unlisted(s, MonthOfDay(DayOf(t)), k)
    ensures NoMatch(s, t, MonthStart(k) * SECONDS_PER_DAY)
  {
    forall u | t <= u < MonthStart(k) * SECONDS_PER_DAY
      ensures !Matches(s, u)
    {
      var i := MonthOfDay(DayOf(u));
      assert DayOf(t) <= DayOf(u);
      MonthOfDayIsMonotone(DayOf(t), DayOf(u));
      assert DayOf(u) < MonthStart(k);
      if k <= i {
        MonthStartIncreases(k, i);
      }
      assert !Member(s.months, MonthOfIndex(i));
    }
  }

  lemma SkipDay(s: Schedule, t: int)
    requires !DayMatches(s, Year(t), Month(t), Day(t))
    ensures NoMatch(s, t, (DayOf(t) + 1) * SECONDS_PER_DAY)
  {
    hide DayMatches, Member, Hour, Minute, Second;
    forall u | t <= u < (DayOf(t) + 1) * SECONDS_PER_DAY
      ensures !Matches(s, u)
    {
      SameDay(t, u);
    }
  }

  lemma SameDay(t: int, u: int)
    requires t <= u < (DayOf(t) + 1) * SECONDS_PER_DAY
    ensures DayOf(u) == DayOf(t)
  {
  }

  lemma SkipHours(s: Schedule, t: int, hour: int)
    requires Hour(t) <= hour <= 24 && forall h :: Hour(t) <= h < hour ==> !Member(s.hours, h)
    ensures NoMatch(s, t, DayOf(t) * SECONDS_PER_DAY + hour * 3600)
  {
    forall u | t <= u < DayOf(t) * SECONDS_PER_DAY + hour * 3600
      ensures !Matches(s, u)
    {
      HourIsMonotone(t, u, hour);
    }
  }

  lemma HourIsMonotone(t: int, u: int, hour: int)
    requires t <= u < DayOf(t) * SECONDS_PER_DAY + hour * 3600 && hour <= 24
    ensures DayOf(u) == DayOf(t) && Hour(t) <= Hour(u) < hour
  {
    assert DayOf(u) == DayOf(t);
  }

  lemma SkipMinutes(s: Schedule, t: int, minute: int)
    requires Minute(t) <= minute <= 60 && forall m :: Minute(t) <= m < minute ==> !Member(s.minutes, m)
    ensures NoMatch(s, t, DayOf(t) * SECONDS_PER_DAY + Hour(t) * 3600 + minute * 60)
  {
    forall u | t <= u < DayOf(t) * SECONDS_PER_DAY + Hour(t) * 3600 + minute * 60
      ensures !Matches(s, u)
    {
      MinuteIsMonotone(t, u, minute);
    }
  }

  lemma MinuteIsMonotone(t: int, u: int, minute: int)
    requires t <= u < DayOf(t) * SECONDS_PER_DAY + Hour(t) * 3600 + minute * 60 && minute <= 60
    ensures Minute(t) <= Minute(u) < minute
  {
    HourIsMonotone(t, u, Hour(t) + 1);
    ClockParts(t);
    ClockParts(u);
  }

  lemma SkipSeconds(s: Schedule, t: int, second: int)
    requires Second(t) <= second <= 60 && forall x :: Second(t) <= x < second ==> !Member(s.seconds, x)
    ensures NoMatch(s, t, DayOf(t) * SECONDS_PER_DAY + Hour(t) * 3600 + Minute(t) * 60 + second)
  {
    forall u | t <= u < DayOf(t) * SECONDS_PER_DAY + Hour(t) * 3600 + Minute(t) * 60 + second
      ensures !Matches(s, u)
    {
      HourIsMonotone(t, u, Hour(t) + 1);
      MinuteIsMonotone(t, u, Minute(t) + 1);
      ClockParts(t);
      ClockParts(u);
    }
  }

  // ---------------------------------------------------------------------------------------------
  // findNextMatch
  // ---------------------------------------------------------------------------------------------

  /** The first matching second at or after `start` within `capYear`; None when there is none. */
  ghost predicate IsFirstMatch(s: Schedule, start: int, capYear: int, r: Option<int>) {
    match r
    case Some(t) => start <= t && Year(t) <= capYear && Matches(s, t) && NoMatch(s, start, t)
    case None => forall u :: start <= u && Year(u) <= capYear ==> !Matches(s, u)
  }

  lemma NoneUpToCap(s: Schedule, start: int, capYear: int)
    requires NoMatch(s, start, AfterYear(capYear))
    ensures IsFirstMatch(s, start, capYear, None)
  {
    forall u | start <= u && Year(u) <= capYear
      ensures !Matches(s, u)
    {
      AfterYearBegins(capYear, u);
    }
  }

  lemma NoNextDay(t: int, capYear: int)
    requires Year(t + SECONDS_PER_DAY) > capYear
    ensures AfterYear(capYear) <= (DayOf(t) + 1) * SECONDS_PER_DAY
  {
    var next := (DayOf(t) + 1) * SECONDS_PER_DAY;
    NextDayOf(t);
    ClockOf(DayOf(t) + 1, 0, 0, 0);
    assert Year(next) == Year(t + SECONDS_PER_DAY);
    AfterYearBegins(capYear, next);
  }

  /** One round of the loop body: either the cursor is the answer, or it moves forward over seconds that
      do not match. */
  method Advance(s: Schedule, t: int, capYear: int) returns (done: bool, next: Option<int>)
    requires Year(t) <= capYear
    ensures done ==> Matches(s, t)
    ensures !done && next.Some? ==> t < next.value && NoMatch(s, t, next.value)
    ensures !done && next.None? ==> NoMatch(s, t, AfterYear(capYear))
  {
    ClockParts(t);
    if !Contains(s.months, Month(t)) {
      next := AdvanceToNextMonth(s, t, capYear);
      if next.None? {
        MonthsExhausted(s, t, capYear);
      }
      return false, next;
    }
    if !DayMatches(s, Year(t), Month(t), Day(t)) {
      SkipDay(s, t);
      next := AdvanceToNextDay(t, capYear);
      if next.None? {
        NoNextDay(t, capYear);
      }
      return false, next;
    }
    if !Contains(s.hours, Hour(t)) {
      var h := NextAtOrAfter(s.hours, Hour(t), 23);
      if h.None? {
        SkipHours(s, t, 24);
        next := AdvanceToNextDay(t, capYear);
        if next.None? {
          NoNextDay(t, capYear);
        }
        return false, next;
      }
      SkipHours(s, t, h.value);
      return false, Some(WithHourResetFiner(t, h.value));
    }
    if !Contains(s.minutes, Minute(t)) {
      var m := NextAtOrAfter(s.minutes, Minute(t), 59);
      if m.None? {
        SkipMinutes(s, t, 60);
        return false, Some(WithHourAdvanceOne(t));
      }
      SkipMinutes(s, t, m.value);
      return false, Some(WithMinuteResetFiner(t, m.value));
    }
    if !Contains(s.seconds, Second(t)) {
      var x := NextAtOrAfter(s.seconds, Second(t), 59);
      if x.None? {
        SkipSeconds(s, t, 60);
        return false, Some(WithMinuteAdvanceOne(t));
      }
      SkipSeconds(s, t, x.value);
      return false, Some(WithSecond(t, x.value));
    }
    return true, None;
  }

  /** findNextMatch finds the same second as a second-by-second search, and terminates. */
  method FindNextMatch(s: Schedule, start: int, capYear: int) returns (r: Option<int>)
    ensures IsFirstMatch(s, start, capYear, r)
  {
    var current := start;
    while true
      invariant start <= current && NoMatch(s, start, current)
      decreases AfterYear(capYear) - current
    {
      AfterYearBegins(capYear, current);
      if Year(current) > capYear {
        NoneUpToCap(s, start, capYear);
        return None;
      }
      var done, next := Advance(s, current, capYear);
      if done {
        return Some(current);
      }
      if next.None? {
        NoneUpToCap(s, start, capYear);
        return None;
      }
      current := next.value;
    }
  }
}
