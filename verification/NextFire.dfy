/**
 From wall clock to UTC: NextFireAfter and resolveWallClock (libs/scheduling-cron/evaluator.go).

 A zone is the offset function of a location together with what `time.Date` answers for a
 wall-clock second.  Go does not promise which side of a transition `time.Date` picks, so it is an
 arbitrary function here and each theorem names what it needs of it.
 */
module NextFire {
  import opened Common
  import opened Calendar
  import opened CronSchedule
  import opened CronEvaluator

  const MAX_FORWARD_YEARS := 10
  const HOUR := 3600

  datatype Zone = Zone(offset: int -> int, date: int -> int)

  /** An instant with its fraction of a second in nanoseconds. */
  datatype Instant = Instant(seconds: int, nanos: nat)

  /** The wall clock at a UTC second. */
  function Local(z: Zone, utc: int): int {
    utc + z.offset(utc)
  }

  /** time.Time.After for a whole-second instant. */
  predicate IsAfter(utc: int, after: Instant) {
    utc > after.seconds || (utc == after.seconds && 0 > after.nanos)
  }

  datatype Fields = Fields(year: int, month: int, day: int, hour: int, minute: int, second: int)

  function FieldsOf(t: int): Fields {
    Fields(Year(t), Month(t), Day(t), Hour(t), Minute(t), Second(t))
  }

  /** Comparing the six fields compares the seconds. */
  lemma FieldsAreFaithful(t: int, u: int)
    ensures FieldsOf(t) == FieldsOf(u) <==> t == u
  {
    DateOfFields(t);
    DateOfFields(u);
  }

  datatype LocalResult = Skipped | Single(utc: int) | Ambiguous(early: int, late: int)

  /** What wall-clock second n means in zone z. */
  function Resolution(z: Zone, n: int): LocalResult {
    if Local(z, z.date(n)) != n then Skipped
    else if Local(z, z.date(n) + HOUR) == n then Ambiguous(z.date(n), z.date(n) + HOUR)
    else Single(z.date(n))
  }

  method SameWallClock(t: int, u: int) returns (same: bool)
    ensures same <==> t == u
  {
    FieldsAreFaithful(t, u);
    same := FieldsOf(t) == FieldsOf(u);
  }

  /** resolveWallClock decides it by reading the six local fields back. */
  method ResolveWallClock(z: Zone, n: int) returns (r: LocalResult)
    ensures r == Resolution(z, n)
  {
    var candidate := z.date(n);
    var exists_ := SameWallClock(Local(z, candidate), n);
    if !exists_ {
      return Skipped;
    }
    var probe := candidate + HOUR;
    var twice := SameWallClock(Local(z, probe), n);
    if twice {
      return Ambiguous(candidate, probe);
    }
    return Single(candidate);
  }

  /** The UTC seconds a wall-clock second fires at, in the order they are tried. */
  function Occurrences(z: Zone, n: int): (r: seq<int>)
    ensures forall u :: u in r ==> Local(z, u) == n
    ensures Local(z, z.date(n)) == n ==> z.date(n) in r
    ensures forall i, j :: 0 <= i < j < |r| ==> r[i] < r[j]
  {
    match Resolution(z, n)
    case Skipped => []
    case Single(u) => [u]
    case Ambiguous(early, late) => [early, late]
  }

  /** Where the search starts: two hours before the wall clock of the first second after `after`. */
  function SearchStart(z: Zone, after: Instant): int {
    Local(z, after.seconds + 1) - 2 * HOUR
  }

  function CapYear(z: Zone, after: Instant): int {
    Year(Local(z, after.seconds + 1)) + MAX_FORWARD_YEARS
  }

  ghost predicate NoneAfter(z: Zone, n: int, after: Instant) {
    forall u :: u in Occurrences(z, n) ==> u <= after.seconds
  }

  /** u is the first occurrence of wall-clock second n that lies after `after`. */
  ghost predicate FirstAfter(z: Zone, n: int, u: int, after: Instant) {
    && u in Occurrences(z, n) && u > after.seconds
    && forall v :: v in Occurrences(z, n) && v < u ==> v <= after.seconds
  }

  /** No matching wall-clock second of [a, b) has an occurrence after `after`. */
  ghost predicate Barren(s: Schedule, z: Zone, after: Instant, a: int, b: int) {
    forall m :: a <= m < b && Matches(s, m) ==> NoneAfter(z, m, after)
  }

  /** The exact answer, for every zone and every oracle: the first matching wall-clock second of the
      window that has an occurrence after `after`, and its first such occurrence. */
  ghost predicate IsAnswer(s: Schedule, z: Zone, after: Instant, r: Option<int>) {
    var start, cap := SearchStart(z, after), CapYear(z, after);
    match r
    case Some(u) =>
      && start <= Local(z, u) && Year(Local(z, u)) <= cap
      && Matches(s, Local(z, u)) && FirstAfter(z, Local(z, u), u, after)
      && Barren(s, z, after, start, Local(z, u))
    case None => Barren(s, z, after, start, AfterYear(cap))
  }

  /** A fire and the absence of one are not both the answer. */
  lemma AnswerOrNone(s: Schedule, z: Zone, after: Instant, u: int)
    requires IsAnswer(s, z, after, Some(u))
    ensures !IsAnswer(s, z, after, None)
  {
    hide Matches, Occurrences, Year;
    AfterYearBegins(CapYear(z, after), Local(z, u));
    assert Matches(s, Local(z, u)) && !NoneAfter(z, Local(z, u), after);
  }

  lemma BarrenExtends(s: Schedule, z: Zone, after: Instant, a: int, b: int, c: int)
    requires Barren(s, z, after, a, b) && NoMatch(s, b, c)
    ensures Barren(s, z, after, a, c)
  {
  }

  lemma BarrenPast(s: Schedule, z: Zone, after: Instant, a: int, n: int)
    requires Barren(s, z, after, a, n) && NoneAfter(z, n, after)
    ensures Barren(s, z, after, a, n + 1)
  {
  }

  lemma ExhaustedWindow(s: Schedule, z: Zone, after: Instant, start: int, current: int, capYear: int)
    requires Barren(s, z, after, start, current) && IsFirstMatch(s, current, capYear, None)
    ensures Barren(s, z, after, start, AfterYear(capYear))
  {
    forall u | current <= u < AfterYear(capYear)
      ensures !Matches(s, u)
    {
      AfterYearBegins(capYear, u);
    }
    BarrenExtends(s, z, after, start, current, AfterYear(capYear));
  }

  /** Fires of one wall-clock second: the first occurrence after `after`, if any. */
  method FireOf(z: Zone, n: int, after: Instant) returns (r: Option<int>)
    ensures r.Some? ==> FirstAfter(z, n, r.value, after)
    ensures r.None? ==> NoneAfter(z, n, after)
  {
    var res := ResolveWallClock(z, n);
    match res
    case Skipped =>
      return None;
    case Single(u) =>
      assert Occurrences(z, n) == [u];
      return if IsAfter(u, after) then Some(u) else None;
    case Ambiguous(early, late) =>
      assert Occurrences(z, n) == [early, late];
      if IsAfter(early, after) {
        return Some(early);
      }
      return if IsAfter(late, after) then Some(late) else None;
  }

  /** NextFireAfter computes exactly that answer, and terminates. */
  method NextFireAfter(s: Schedule, z: Zone, after: Instant) returns (r: Option<int>)
    ensures IsAnswer(s, z, after, r)
    ensures r.Some? ==> r.value > after.seconds && Matches(s, Local(z, r.value))
  {
    var capYear := CapYear(z, after);
    var start := SearchStart(z, after);
    var current := start;
    while true
      invariant start <= current && Barren(s, z, after, start, current)
      decreases AfterYear(capYear) - current
    {
      AfterYearBegins(capYear, current);
      if Year(current) > capYear {
        return None;
      }
      var candidate := FindNextMatch(s, current, capYear);
      if candidate.None? {
        ExhaustedWindow(s, z, after, start, current, capYear);
        return None;
      }
      var n := candidate.value;
      BarrenExtends(s, z, after, start, current, n);
      r := FireOf(z, n, after);
      if r.Some? {
        assert Local(z, r.value) == n;
        return;
      }
      BarrenPast(s, z, after, start, n);
      current := n + 1;
    }
  }

  // ---------------------------------------------------------------------------------------------
  // Windows in which local time increases: the answer is the least UTC instant
  // ---------------------------------------------------------------------------------------------

  /** Local time increases strictly over the seconds after a up to b. */
  ghost predicate IncreasingBetween(z: Zone, a: int, b: int) {
    forall u, v :: a < u < v <= b ==> Local(z, u) < Local(z, v)
  }

  /** time.Date inverts the wall clock at every second after a up to b. */
  ghost predicate InvertsBetween(z: Zone, a: int, b: int) {
    forall u :: a < u <= b ==> z.date(Local(z, u)) == u
  }

  /** For the wall-clock seconds of the window, time.Date answers on one side of a transition: it finds an
      occurrence when there is one. */
  ghost predicate OneSidedBetween(z: Zone, a: int, b: int) {
    forall u :: a < u <= b ==> Local(z, z.date(Local(z, u))) == Local(z, u)
  }

  /** No other second, inside the window or outside, shows the wall clock of a second of the window. */
  ghost predicate UniqueBetween(z: Zone, a: int, b: int) {
    forall u, v :: a < u <= b && Local(z, u) == Local(z, v) ==> u == v
  }

  /** Where no wall-clock second is repeated, one-sidedness is enough. */
  lemma OneSidedInverts(z: Zone, a: int, b: int)
    requires OneSidedBetween(z, a, b) && UniqueBetween(z, a, b)
    ensures InvertsBetween(z, a, b)
  {
    forall u | a < u <= b
      ensures z.date(Local(z, u)) == u
    {
      var d := z.date(Local(z, u));
      assert Local(z, d) == Local(z, u);
    }
  }

  /** Offsets are at most a day, so a repetition would be near: increase over a slightly wider window rules it
      out. */
  lemma IncreasingIsUnique(z: Zone, a: int, b: int)
    requires forall u :: -SECONDS_PER_DAY <= z.offset(u) <= SECONDS_PER_DAY
    requires IncreasingBetween(z, a - 2 * SECONDS_PER_DAY, b + 2 * SECONDS_PER_DAY)
    ensures UniqueBetween(z, a, b)
  {
    forall u, v | a < u <= b && Local(z, u) == Local(z, v)
      ensures u == v
    {
      assert -2 * SECONDS_PER_DAY <= z.offset(u) - z.offset(v) <= 2 * SECONDS_PER_DAY;
      assert a - 2 * SECONDS_PER_DAY < v <= b + 2 * SECONDS_PER_DAY;
    }
  }

  /** No UTC second strictly between `after` and u fires. */
  ghost predicate Least(s: Schedule, z: Zone, after: Instant, u: int) {
    forall v :: after.seconds < v < u ==> !Matches(s, Local(z, v))
  }

  /** Fixed offsets and forward gaps, over any window that starts at the argument: an answer inside the window is
      the least UTC second that fires; an answer beyond it, or none, means that no second of the window fires
      with an earlier wall clock, or up to the end of the cap year. */
  lemma LeastWhereIncreasing(s: Schedule, z: Zone, after: Instant, r: Option<int>, b: int)
    requires IsAnswer(s, z, after, r)
    requires IncreasingBetween(z, after.seconds, b) && InvertsBetween(z, after.seconds, b)
    ensures r.Some? && r.value <= b ==> Least(s, z, after, r.value)
    ensures
      var end := if r.Some? then Local(z, r.value) else AfterYear(CapYear(z, after));
      forall v :: after.seconds < v <= b && Local(z, v) < end ==> !Matches(s, Local(z, v))
  {
    hide Matches;
    var end := if r.Some? then Local(z, r.value) else AfterYear(CapYear(z, after));
    forall v | after.seconds < v <= b && Local(z, v) < end
      ensures !Matches(s, Local(z, v))
    {
      BarrenMeansNoFire(s, z, after, end, v, b);
    }
    if r.Some? && r.value <= b {
      forall v | after.seconds < v < r.value
        ensures !Matches(s, Local(z, v))
      {
        assert Local(z, v) < Local(z, r.value);
      }
    }
  }

  const UTC := Zone(_ => 0, n => n)

  /** In UTC the answer is the least second after the argument that matches, up to the end of the tenth year after
      that of the next second; there is none exactly when no such second matches. */
  lemma UtcAnswer(s: Schedule, after: Instant, r: Option<int>)
    requires IsAnswer(s, UTC, after, r)
    ensures
      var lastYear := Year(after.seconds + 1) + 10;
      match r
      case Some(u) =>
        && after.seconds < u && Year(u) <= lastYear && Matches(s, u)
        && forall v :: after.seconds < v < u ==> !Matches(s, v)
      case None => forall v :: after.seconds < v && Year(v) <= lastYear ==> !Matches(s, v)
  {
    var lastYear := Year(after.seconds + 1) + 10;
    hide Matches, Year, AfterYear;
    UtcIsPlain(s, after, r);
    if r.Some? {
      LeastWhereIncreasing(s, UTC, after, r, r.value);
      forall v | after.seconds < v < r.value
        ensures !Matches(s, v)
      {
        assert !Matches(s, Local(UTC, v));
      }
    } else {
      forall v | after.seconds < v && Year(v) <= lastYear
        ensures !Matches(s, v)
      {
        LeastWhereIncreasing(s, UTC, after, r, v);
        AfterYearBegins(lastYear, v);
        assert Local(UTC, v) < AfterYear(CapYear(UTC, after));
      }
    }
  }

  lemma UtcIsPlain(s: Schedule, after: Instant, r: Option<int>)
    requires IsAnswer(s, UTC, after, r)
    ensures forall v :: Local(UTC, v) == v
    ensures CapYear(UTC, after) == Year(after.seconds + 1) + 10
    ensures r.Some? ==> after.seconds < r.value && Matches(s, r.value) && Year(r.value) <= CapYear(UTC, after)
  {
    hide Matches, Year, Occurrences, AfterYear;
    assert forall v :: Local(UTC, v) == v;
  }

  lemma BarrenMeansNoFire(s: Schedule, z: Zone, after: Instant, end: int, v: int, b: int)
    requires Barren(s, z, after, SearchStart(z, after), end)
    requires IncreasingBetween(z, after.seconds, b) && InvertsBetween(z, after.seconds, b)
    requires after.seconds < v <= b && Local(z, v) < end
    ensures !Matches(s, Local(z, v))
  {
    LaterSecondsAreSearched(z, after, v, b);
  }

  lemma LaterSecondsAreSearched(z: Zone, after: Instant, v: int, b: int)
    requires IncreasingBetween(z, after.seconds, b) && InvertsBetween(z, after.seconds, b) && after.seconds < v <= b
    ensures SearchStart(z, after) <= Local(z, v) && !NoneAfter(z, Local(z, v), after)
  {
    assert v == after.seconds + 1 || Local(z, after.seconds + 1) < Local(z, v);
    assert v in Occurrences(z, Local(z, v));
  }

  // ---------------------------------------------------------------------------------------------
  // A one-hour fall-back: exactly when the answer is not the least
  // ---------------------------------------------------------------------------------------------

  /** Over the seconds from lo to hi the clocks change only at UTC second `turn`, where they go back one hour from
      offset o.  `early` says which of the two occurrences time.Date picks for a repeated wall-clock second.
      Nothing is said about other seconds, where the zone may have any number of transitions. */
  ghost predicate FallsBackIn(z: Zone, turn: int, o: int, lo: int, hi: int, early: bool) {
    && (forall u :: lo <= u <= hi ==> z.offset(u) == if u < turn then o else o - HOUR)
    && (forall n :: lo + o <= n <= hi + o - HOUR ==>
          z.date(n) == if n < turn + o - (if early then 0 else HOUR) then n - o else n - o + HOUR)
  }

  /** The window reaches from four hours before the argument to three hours after the answer. */
  predicate Around(lo: int, hi: int, after: Instant, u: int) {
    lo <= after.seconds - 4 * HOUR && u + 3 * HOUR <= hi
  }

  lemma FallBackOccurrences(z: Zone, turn: int, o: int, lo: int, hi: int, n: int)
    requires FallsBackIn(z, turn, o, lo, hi, true) && lo + o <= n <= hi + o - 2 * HOUR
    ensures Occurrences(z, n) ==
      if n < turn + o - HOUR then [n - o]
      else if n < turn + o then [n - o, n - o + HOUR]
      else [n - o + HOUR]
  {
    var d := z.date(n);
    assert lo <= d <= d + HOUR <= hi;
    assert Local(z, d) == n;
    assert Local(z, d + HOUR) == if d + HOUR < turn then n + HOUR else d + o;
  }

  /** Some second of the repeated hour up to `after` fires, and some later one of the same hour too. */
  ghost predicate Straddles(s: Schedule, turn: int, o: int, after: Instant) {
    && turn - HOUR <= after.seconds < turn
    && (exists m :: turn + o - HOUR <= m <= after.seconds + o && Matches(s, m))
    && (exists m :: after.seconds + o < m < turn + o && Matches(s, m))
  }

  /** The part of IsAnswer that does not mention the cap year. */
  ghost predicate Chosen(s: Schedule, z: Zone, after: Instant, u: int) {
    && Matches(s, Local(z, u)) && FirstAfter(z, Local(z, u), u, after)
    && Barren(s, z, after, SearchStart(z, after), Local(z, u))
  }

  /** A matching second with an occurrence after `after` is not in the barren stretch. */
  lemma NotBarren(s: Schedule, z: Zone, after: Instant, a: int, b: int, m: int, u: int)
    requires Barren(s, z, after, a, b) && a <= m && Matches(s, m)
    requires u in Occurrences(z, m) && u > after.seconds
    ensures m >= b
  {
    hide Matches, Occurrences;
  }

  /** A second that fires before the answer, although it was not chosen, makes `after` straddle. */
  lemma EarlierFireStraddles(s: Schedule, z: Zone, turn: int, o: int, lo: int, hi: int, after: Instant, u: int, v: int)
    requires FallsBackIn(z, turn, o, lo, hi, true) && Around(lo, hi, after, u) && Chosen(s, z, after, u)
    requires after.seconds < v < u && Matches(s, Local(z, v))
    ensures Straddles(s, turn, o, after)
  {
    hide Matches, Occurrences, Barren;
    var a := after.seconds;
    var n, m := Local(z, u), Local(z, v);
    FallBackOccurrences(z, turn, o, lo, hi, n);
    FallBackOccurrences(z, turn, o, lo, hi, m);
    assert v in Occurrences(z, m);
    assert Local(z, a + 1) == if a + 1 < turn then a + 1 + o else a + 1 + o - HOUR;
    assert m == if v < turn then v + o else v + o - HOUR;
    assert n == if u < turn then u + o else u + o - HOUR;
    NotBarren(s, z, after, SearchStart(z, after), n, m, v);
    assert v < turn <= u;
    assert Occurrences(z, n)[0] == n - o;
    assert n - o in Occurrences(z, n);
  }

  /** With the early oracle, over any window around the search that contains one fall-back: NextFireAfter returns
      the least UTC second exactly when `after` does not straddle firing seconds of the repeated hour. */
  lemma FallBackExact(s: Schedule, z: Zone, turn: int, o: int, lo: int, hi: int, after: Instant, u: int)
    requires FallsBackIn(z, turn, o, lo, hi, true) && Around(lo, hi, after, u) && IsAnswer(s, z, after, Some(u))
    ensures Least(s, z, after, u) <==> !Straddles(s, turn, o, after)
  {
    assert Chosen(s, z, after, u);
    hide Matches, Occurrences, Barren, Chosen, CapYear, FallsBackIn, Straddles;
    if !Least(s, z, after, u) {
      var v :| after.seconds < v < u && Matches(s, Local(z, v));
      EarlierFireStraddles(s, z, turn, o, lo, hi, after, u, v);
    }
    if Straddles(s, turn, o, after) {
      var v := StraddlingMisses(s, z, turn, o, lo, hi, after, u);
    }
  }

  /** Where `after` straddles, a second that fires was passed over. */
  lemma StraddlingMisses(s: Schedule, z: Zone, turn: int, o: int, lo: int, hi: int, after: Instant, u: int)
    returns (v: int)
    requires FallsBackIn(z, turn, o, lo, hi, true) && Around(lo, hi, after, u) && Chosen(s, z, after, u)
    requires Straddles(s, turn, o, after)
    ensures after.seconds < v < u && Matches(s, Local(z, v))
  {
    hide Matches, Occurrences, Barren, Chosen;
    var a := after.seconds;
    var m :| turn + o - HOUR <= m <= a + o && Matches(s, m);
    var k :| a + o < k < turn + o && Matches(s, k);
    StraddlingAnswerIsLate(s, z, turn, o, lo, hi, after, u, m);
    v := k - o;
    assert Local(z, v) == k;
  }

  lemma StraddlingAnswerIsLate(
    s: Schedule, z: Zone, turn: int, o: int, lo: int, hi: int, after: Instant, u: int, m: int)
    requires FallsBackIn(z, turn, o, lo, hi, true) && Around(lo, hi, after, u) && Chosen(s, z, after, u)
    requires turn - HOUR <= after.seconds < turn
    requires turn + o - HOUR <= m <= after.seconds + o && Matches(s, m)
    ensures turn <= u <= m - o + HOUR
  {
    hide Matches, Occurrences, Barren;
    var a := after.seconds;
    var n := Local(z, u);
    assert a < u;
    FallBackOccurrences(z, turn, o, lo, hi, n);
    FallBackOccurrences(z, turn, o, lo, hi, m);
    assert m - o + HOUR in Occurrences(z, m);
    assert Local(z, a + 1) == if a + 1 < turn then a + 1 + o else a + 1 + o - HOUR;
    assert n == if u < turn then u + o else u + o - HOUR;
    NotBarren(s, z, after, SearchStart(z, after), n, m, m - o + HOUR);
  }

  /** A wall-clock second that fires once in the repeated hour fires twice: right after its early
      occurrence the answer is its late one. */
  lemma RepeatedSecondFiresTwice(
    s: Schedule, z: Zone, turn: int, o: int, lo: int, hi: int, n: int, nanos: nat, r: Option<int>)
    requires FallsBackIn(z, turn, o, lo, hi, true) && Around(lo, hi, Instant(n - o, nanos), n - o + HOUR)
    requires turn + o - HOUR <= n < turn + o && Matches(s, n)
    requires forall m :: turn + o - HOUR <= m < turn + o && m != n ==> !Matches(s, m)
    requires IsAnswer(s, z, Instant(n - o, nanos), r)
    ensures r == Some(n - o + HOUR)
  {
    hide Matches, Occurrences;
    var after := Instant(n - o, nanos);
    FallBackOccurrences(z, turn, o, lo, hi, n);
    assert n - o + HOUR in Occurrences(z, n);
    assert !NoneAfter(z, n, after);
    LateFireIsInWindow(z, turn, o, lo, hi, n, after);
    if r.Some? {
      AnswerIsRepeated(s, z, turn, o, lo, hi, n, after, r.value);
    }
  }

  /** The answer shows a wall-clock second of the repeated hour, at its late occurrence. */
  lemma AnswerIsRepeated(s: Schedule, z: Zone, turn: int, o: int, lo: int, hi: int, n: int, after: Instant, u: int)
    requires FallsBackIn(z, turn, o, lo, hi, true) && Around(lo, hi, after, n - o + HOUR)
    requires turn + o - HOUR <= n < turn + o && after.seconds == n - o && Matches(s, n)
    requires forall m :: turn + o - HOUR <= m < turn + o && m != n ==> !Matches(s, m)
    requires IsAnswer(s, z, after, Some(u))
    ensures u == n - o + HOUR
  {
    hide Matches, Occurrences, AfterYear;
    var w := Local(z, u);
    FallBackOccurrences(z, turn, o, lo, hi, n);
    assert n - o + HOUR in Occurrences(z, n);
    assert SearchStart(z, after) <= n && n - 3 * HOUR <= SearchStart(z, after);
    NotBarren(s, z, after, SearchStart(z, after), w, n, n - o + HOUR);
    FallBackOccurrences(z, turn, o, lo, hi, w);
    assert u == w - o || u == w - o + HOUR;
    assert Matches(s, w);
  }

  lemma LateFireIsInWindow(z: Zone, turn: int, o: int, lo: int, hi: int, n: int, after: Instant)
    requires FallsBackIn(z, turn, o, lo, hi, true) && Around(lo, hi, after, n - o + HOUR)
    requires turn + o - HOUR <= n < turn + o && after.seconds == n - o
    ensures SearchStart(z, after) <= n < AfterYear(CapYear(z, after))
  {
    hide Year;
    assert n - HOUR < Local(z, after.seconds + 1) <= n + 1;
    WithinCap(Local(z, after.seconds + 1), n, CapYear(z, after));
  }

  lemma WithinCap(t: int, u: int, capYear: int)
    requires u <= t + SECONDS_PER_DAY && Year(t) < capYear
    ensures u < AfterYear(capYear)
  {
    YearGrowsSlowly(t, u);
    AfterYearBegins(capYear, u);
  }

  lemma YearGrowsSlowly(t: int, u: int)
    requires u <= t + SECONDS_PER_DAY
    ensures Year(u) <= Year(t) + 1
  {
    YearLength(Year(t) + 1);
    AfterYearBegins(Year(t), t);
    AfterYearBegins(Year(t) + 1, u);
  }

  // ---------------------------------------------------------------------------------------------
  // The same fall-back when time.Date picks the late side
  // ---------------------------------------------------------------------------------------------

  /** If time.Date picks the late occurrence, as it may, the early one is never returned at all, wherever the search
      started. */
  lemma LateOracleMissesEarlyFires(
    s: Schedule, z: Zone, turn: int, o: int, lo: int, hi: int, after: Instant, u: int)
    requires FallsBackIn(z, turn, o, lo, hi, false) && lo <= turn - HOUR && turn + 2 * HOUR <= hi
    requires IsAnswer(s, z, after, Some(u))
    ensures !(turn - HOUR <= u < turn)
  {
    assert u in Occurrences(z, Local(z, u));
    if turn - HOUR <= u < turn {
      LateOracleResolves(z, turn, o, lo, hi, u);
    }
  }

  lemma LateOracleResolves(z: Zone, turn: int, o: int, lo: int, hi: int, u: int)
    requires FallsBackIn(z, turn, o, lo, hi, false) && lo <= turn - HOUR && turn + 2 * HOUR <= hi
    requires turn - HOUR <= u < turn
    ensures u !in Occurrences(z, Local(z, u))
  {
    assert Local(z, u) == u + o && z.date(u + o) == u + HOUR;
    assert Local(z, u + 2 * HOUR) == u + o + HOUR;
  }

  lemma LateOccurrences(z: Zone, turn: int, o: int, lo: int, hi: int, n: int)
    requires FallsBackIn(z, turn, o, lo, hi, false) && lo + o <= n <= hi + o - 2 * HOUR
    ensures Occurrences(z, n) == if n < turn + o - HOUR then [n - o] else [n - o + HOUR]
  {
    var d := z.date(n);
    assert lo <= d <= d + HOUR <= hi;
    assert Local(z, d) == n;
    assert d + HOUR >= turn ==> Local(z, d + HOUR) == d + o;
    assert d + HOUR < turn ==> Local(z, d + HOUR) == n + HOUR;
  }

  /** A matching wall-clock second of the repeated hour whose early occurrence lies after `after`. */
  ghost predicate EarlyFireAhead(s: Schedule, turn: int, o: int, after: Instant) {
    exists m :: turn + o - HOUR <= m < turn + o && after.seconds + o < m && Matches(s, m)
  }

  /** A matching second before the repeated hour that still lies after `after`. */
  ghost predicate FireBeforeOverlap(s: Schedule, turn: int, o: int, after: Instant) {
    exists w :: after.seconds + o < w < turn + o - HOUR && Matches(s, w)
  }

  /** Where the answer lies under the late oracle: at its only occurrence, before or after the hour is lost. */
  lemma LateAnswer(s: Schedule, z: Zone, turn: int, o: int, lo: int, hi: int, after: Instant, u: int)
    requires FallsBackIn(z, turn, o, lo, hi, false) && Around(lo, hi, after, u) && Chosen(s, z, after, u)
    ensures u < turn - HOUR || u >= turn
    ensures Local(z, u) == if u < turn then u + o else u + o - HOUR
    ensures Matches(s, Local(z, u)) && after.seconds < u
  {
    hide Matches, Barren, Occurrences;
    LateOccurrences(z, turn, o, lo, hi, Local(z, u));
  }

  /** With the late oracle, over any window around the search that contains one fall-back: NextFireAfter returns
      the least UTC second exactly when no early occurrence of the repeated hour lies ahead, or something fires
      before that hour anyway. */
  lemma LateOracleExact(s: Schedule, z: Zone, turn: int, o: int, lo: int, hi: int, after: Instant, u: int)
    requires FallsBackIn(z, turn, o, lo, hi, false) && Around(lo, hi, after, u) && IsAnswer(s, z, after, Some(u))
    ensures Least(s, z, after, u) <==> !EarlyFireAhead(s, turn, o, after) || FireBeforeOverlap(s, turn, o, after)
  {
    assert Chosen(s, z, after, u);
    hide Matches, Occurrences, Barren, Chosen, CapYear, IsAnswer, FallsBackIn, EarlyFireAhead, FireBeforeOverlap;
    if !Least(s, z, after, u) {
      var v :| after.seconds < v < u && Matches(s, Local(z, v));
      PassedOverIsAhead(s, z, turn, o, lo, hi, after, u, v);
    }
    if EarlyFireAhead(s, turn, o, after) && !FireBeforeOverlap(s, turn, o, after) {
      var v := LateMissesEarly(s, z, turn, o, lo, hi, after, u);
    }
  }

  lemma PassedOverIsAhead(s: Schedule, z: Zone, turn: int, o: int, lo: int, hi: int, after: Instant, u: int, v: int)
    requires FallsBackIn(z, turn, o, lo, hi, false) && Around(lo, hi, after, u) && Chosen(s, z, after, u)
    requires after.seconds < v < u && Matches(s, Local(z, v))
    ensures EarlyFireAhead(s, turn, o, after) && !FireBeforeOverlap(s, turn, o, after)
  {
    hide Matches, Occurrences, Barren, Chosen, FireBeforeOverlap;
    LateMissIsEarly(s, z, turn, o, lo, hi, after, u, v);
    assert Local(z, v) == v + o;
    if FireBeforeOverlap(s, turn, o, after) {
      LateAnswerIsBefore(s, z, turn, o, lo, hi, after, u);
    }
  }

  lemma AnswerBeforeIsFire(s: Schedule, z: Zone, turn: int, o: int, lo: int, hi: int, after: Instant, u: int)
    requires FallsBackIn(z, turn, o, lo, hi, false) && Around(lo, hi, after, u) && Chosen(s, z, after, u)
    requires u < turn - HOUR
    ensures FireBeforeOverlap(s, turn, o, after)
  {
    hide Matches, Occurrences, Barren, Chosen;
    LateAnswer(s, z, turn, o, lo, hi, after, u);
    assert after.seconds + o < u + o < turn + o - HOUR;
  }

  lemma LateMissesEarly(s: Schedule, z: Zone, turn: int, o: int, lo: int, hi: int, after: Instant, u: int)
    returns (v: int)
    requires FallsBackIn(z, turn, o, lo, hi, false) && Around(lo, hi, after, u) && Chosen(s, z, after, u)
    requires EarlyFireAhead(s, turn, o, after) && !FireBeforeOverlap(s, turn, o, after)
    ensures after.seconds < v < u && Matches(s, Local(z, v))
  {
    hide Matches, Occurrences, Barren, Chosen, FireBeforeOverlap;
    LateAnswer(s, z, turn, o, lo, hi, after, u);
    var m :| turn + o - HOUR <= m < turn + o && after.seconds + o < m && Matches(s, m);
    v := m - o;
    assert u >= turn by {
      if u < turn - HOUR {
        AnswerBeforeIsFire(s, z, turn, o, lo, hi, after, u);
      }
    }
    assert Local(z, v) == m;
  }

  /** If something fires before the repeated hour, so does the answer. */
  lemma LateAnswerIsBefore(s: Schedule, z: Zone, turn: int, o: int, lo: int, hi: int, after: Instant, u: int)
    requires FallsBackIn(z, turn, o, lo, hi, false) && Around(lo, hi, after, u) && Chosen(s, z, after, u)
    requires FireBeforeOverlap(s, turn, o, after)
    ensures u < turn - HOUR
  {
    hide Matches, Occurrences, Barren;
    var w :| after.seconds + o < w < turn + o - HOUR && Matches(s, w);
    LateAnswer(s, z, turn, o, lo, hi, after, u);
    if w - o < u {
      LateOccurrences(z, turn, o, lo, hi, w);
      assert w - o in Occurrences(z, w);
      NotBarren(s, z, after, SearchStart(z, after), Local(z, u), w, w - o);
    }
  }

  /** A second that fires before the answer is an early occurrence of the repeated hour, and the answer is past
      that hour. */
  lemma LateMissIsEarly(s: Schedule, z: Zone, turn: int, o: int, lo: int, hi: int, after: Instant, u: int, v: int)
    requires FallsBackIn(z, turn, o, lo, hi, false) && Around(lo, hi, after, u) && Chosen(s, z, after, u)
    requires after.seconds < v < u && Matches(s, Local(z, v))
    ensures turn - HOUR <= v < turn <= u
  {
    hide Matches, Occurrences, Barren;
    var n, m := Local(z, u), Local(z, v);
    LateOccurrences(z, turn, o, lo, hi, n);
    LateOccurrences(z, turn, o, lo, hi, m);
    if v < turn - HOUR || v >= turn {
      assert v in Occurrences(z, m);
      NotBarren(s, z, after, SearchStart(z, after), n, m, v);
    }
  }
}
