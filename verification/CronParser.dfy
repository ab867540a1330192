/**
 The cron parser (libs/scheduling-cron/parser.go): from the text of a field to the values it stands for.
 */
module CronParser {
  import opened Common
  import opened Text
  import opened GoInt
  import opened CronSchedule
  import Ascii
  import ExprSyntax

  datatype Flavor = Unix5 | Quartz6

  datatype CronError =
    | WrongFieldCount(expected: nat, found: nat)
    | InvalidValue(value: string)
    | OutOfRange(number: nat)
    | InvalidStep
    | DisallowedSpecial

  /** A field: its accepted range and the names of its values. */
  datatype Field = Field(min: nat, max: nat, aliases: seq<(string, nat)>)

  const SECONDS := Field(0, 59, [])
  const MINUTES := Field(0, 59, [])
  const HOURS := Field(0, 23, [])
  const DAYS := Field(1, 31, [])
  const MONTHS := Field(1, 12, [("JAN", 1), ("FEB", 2), ("MAR", 3), ("APR", 4), ("MAY", 5), ("JUN", 6),
                                ("JUL", 7), ("AUG", 8), ("SEP", 9), ("OCT", 10), ("NOV", 11), ("DEC", 12)])
  const WEEKDAYS := Field(0, 7, [("SUN", 0), ("MON", 1), ("TUE", 2), ("WED", 3), ("THU", 4), ("FRI", 5), ("SAT", 6)])

  // ---------------------------------------------------------------------------------------------
  // Numbers and names
  // ---------------------------------------------------------------------------------------------

  /** strconv.ParseUint(s, 10, 32) */
  function ParseUint32(s: string): (r: Option<nat>)
    ensures r.Some? ==> r.value < TWO32
  {
    if s == "" || exists i :: 0 <= i < |s| && !ExprSyntax.IsDigit(s[i]) then None
    else if ExprSyntax.DigitsValue(s) < TWO32 then Some(ExprSyntax.DigitsValue(s)) else None
  }

  function AliasValue(aliases: seq<(string, nat)>, name: string): (r: Option<nat>)
    ensures r.Some? ==> exists i :: 0 <= i < |aliases| && aliases[i].1 == r.value
  {
    if aliases == [] then None
    else if Ascii.EqualFold(aliases[0].0, name) then Some(aliases[0].1)
    else
      var rest := AliasValue(aliases[1..], name);
      assert rest.Some? ==> exists i :: 0 <= i < |aliases| && aliases[i].1 == rest.value by {
        if rest.Some? {
          var i :| 0 <= i < |aliases[1..]| && aliases[1..][i].1 == rest.value;
          assert aliases[i + 1].1 == rest.value;
        }
      }
      rest
  }

  /** Names stand for values of their field. */
  ghost predicate Sound(f: Field) {
    f.min <= f.max < TWO32 && forall i :: 0 <= i < |f.aliases| ==> f.min <= f.aliases[i].1 <= f.max
  }

  lemma FieldsAreSound()
    ensures Sound(SECONDS) && Sound(MINUTES) && Sound(HOURS) && Sound(DAYS) && Sound(MONTHS) && Sound(WEEKDAYS)
  {
  }

  function ParseIntOrAlias(raw: string, f: Field): (r: Result<nat, CronError>)
    ensures Sound(f) && r.Ok? ==> f.min <= r.value <= f.max
  {
    var text := Trim(raw);
    if text == "" then Err(InvalidValue(raw))
    else if AliasValue(f.aliases, text).Some? then Ok(AliasValue(f.aliases, text).value)
    else match ParseUint32(text)
      case None => Err(InvalidValue(raw))
      case Some(v) => if v < f.min || v > f.max then Err(OutOfRange(v)) else Ok(v)
  }

  // ---------------------------------------------------------------------------------------------
  // Components
  // ---------------------------------------------------------------------------------------------

  /** start, start + step, ... up to end. */
  datatype Progression = Progression(start: nat, end: nat, step: nat)

  function Nth(p: Progression, k: nat): (r: nat)
    ensures r >= p.start
  {
    if k == 0 then p.start else Nth(p, k - 1) + p.step
  }

  ghost predicate Among(x: int, p: Progression) {
    x <= p.end && exists k: nat :: x == Nth(p, k)
  }

  lemma {:induction false} NthGrows(p: Progression, i: nat, j: nat)
    requires i < j
    ensures Nth(p, i) + p.step <= Nth(p, j)
    decreases j
  {
    if i < j - 1 {
      NthGrows(p, i, j - 1);
    }
  }

  function ParseStep(component: string): Result<(string, nat), CronError> {
    match IndexOf(component, '/')
    case None => Ok((component, 1))
    case Some(i) =>
      match ParseUint32(component[i + 1..])
      case None => Err(InvalidValue(component[i + 1..]))
      case Some(0) => Err(InvalidStep)
      case Some(step) => Ok((component[..i], step))
  }

  /** The bounds a range stands for: everything, from-to, or one value; one value with a step other than one
      goes on to the end of the field. */
  function ParseRange(range: string, step: nat, f: Field): Result<(nat, nat), CronError> {
    if range == "*" then Ok((f.min, f.max))
    else match IndexOf(range, '-')
      case Some(dash) =>
        (match ParseIntOrAlias(range[..dash], f)
         case Err(e) => Err(e)
         case Ok(from) =>
           match ParseIntOrAlias(range[dash + 1..], f)
           case Err(e) => Err(e)
           case Ok(to) => Ok((from, to)))
      case None =>
        match ParseIntOrAlias(range, f)
        case Err(e) => Err(e)
        case Ok(v) => Ok((v, if step != 1 then f.max else v))
  }

  /** What a component means: one in-range progression, or an error. */
  function Meaning(component: string, f: Field): (r: Result<Progression, CronError>)
    ensures r.Ok? ==> f.min <= r.value.start <= r.value.end <= f.max && 1 <= r.value.step < TWO32
  {
    if component == "" then Err(InvalidValue(component))
    else match ParseStep(component)
      case Err(e) => Err(e)
      case Ok((range, step)) =>
        match ParseRange(range, step, f)
        case Err(e) => Err(e)
        case Ok((start, end)) =>
          if start > end then Err(InvalidValue(component))
          else if start < f.min || end > f.max then Err(OutOfRange(if start >= f.min then end else start))
          else Ok(Progression(start, end, step))
  }

  /** 32-bit addition. */
  function Add32(a: nat, b: nat): nat {
    (a + b) % TWO32
  }

  /** A sum that wraps is below its first operand, and only such a sum. */
  lemma WrapIsVisible(a: nat, b: nat)
    requires a < TWO32 && b < TWO32
    ensures if Add32(a, b) < a then a + b >= TWO32 else Add32(a, b) == a + b < TWO32
  {
  }

  /** The loop of expandComponent, in 32-bit arithmetic: it yields exactly the progression and stops, also when
      the addition wraps around. */
  method Expand(p: Progression) returns (out: seq<nat>)
    requires p.start <= p.end < TWO32 && 1 <= p.step < TWO32
    ensures StrictlyAscending(out) && out != [] && out[0] == p.start
    ensures forall x :: x in out <==> Among(x, p)
    ensures forall x :: x in out ==> p.start <= x <= p.end
  {
    hide Add32, StrictlyAscending, Among, Nth;
    out := [];
    var value := p.start;
    FirstMembers(p, 0);
    while value <= p.end
      invariant value == Nth(p, |out|) < TWO32
      invariant forall i :: 0 <= i < |out| ==> out[i] == Nth(p, i) <= p.end
      decreases p.end + p.step - value
    {
      out := out + [value];
      var next := Add32(value, p.step);
      WrapIsVisible(value, p.step);
      FirstMembers(p, |out| - 1);
      if next < value {
        break;
      }
      value := next;
    }
    Enumerates(p, out);
  }

  lemma FirstMembers(p: Progression, k: nat)
    ensures Nth(p, 0) == p.start && Nth(p, k + 1) == Nth(p, k) + p.step
  {
  }

  /** Listing the members until the next one is past the end lists the progression. */
  lemma Enumerates(p: Progression, out: seq<nat>)
    requires p.step >= 1 && p.start <= p.end
    requires forall i :: 0 <= i < |out| ==> out[i] == Nth(p, i) <= p.end
    requires Nth(p, |out|) > p.end
    ensures StrictlyAscending(out) && out != [] && out[0] == p.start
    ensures forall x :: x in out <==> Among(x, p)
    ensures forall x :: x in out ==> p.start <= x <= p.end
  {
    forall i, j | 0 <= i < j < |out|
      ensures out[i] < out[j]
    {
      NthGrows(p, i, j);
    }
    forall x | Among(x, p)
      ensures x in out
    {
      var k: nat :| x == Nth(p, k);
      if k > |out| {
        NthGrows(p, |out|, k);
      }
      assert out[k] == x;
    }
  }

  // ---------------------------------------------------------------------------------------------
  // Value sets
  // ---------------------------------------------------------------------------------------------

  /** x belongs to one of the components. */
  ghost predicate InUnion(parts: seq<string>, f: Field, x: int) {
    exists i :: 0 <= i < |parts| && Meaning(parts[i], f).Ok? && Among(x, Meaning(parts[i], f).value)
  }

  predicate AllMean(parts: seq<string>, f: Field) {
    forall i :: 0 <= i < |parts| ==> Meaning(parts[i], f).Ok?
  }

  /** The set is the sorted, duplicate-free, non-empty, in-range union of the components' progressions. */
  ghost predicate Denotes(raw: string, f: Field, v: ValueSet) {
    if raw == "*" then v.Star? else
    && v.Explicit? && v.values != [] && StrictlyAscending(v.values)
    && (forall x :: Member(v, x) <==> InUnion(Split(raw, ','), f, x))
    && (forall x :: x in v.values ==> f.min <= x <= f.max)
  }

  predicate Accepted(raw: string, f: Field) {
    raw == "*" || AllMean(Split(raw, ','), f)
  }

  /** parseValueSet: accepts exactly the fields all of whose components have a meaning. */
  method ParseValueSet(raw: string, f: Field) returns (r: Result<ValueSet, CronError>)
    requires f.max < TWO32
    ensures r.Ok? <==> Accepted(raw, f)
    ensures r.Ok? ==> Denotes(raw, f, r.value)
  {
    hide StrictlyAscending, Among, Nth, Meaning, InUnion, AllMean, Denotes, Same, Collected;
    if raw == "*" {
      StarDenotes(f);
      return Ok(Star);
    }
    var parts := Split(raw, ',');
    var values: seq<nat> := [];
    NothingCollected(f, parts[..0]);
    for i := 0 to |parts|
      invariant Collected(values, parts[..i], f)
    {
      var p := Meaning(parts[i], f);
      if p.Err? {
        OneWithoutMeaning(parts, i, f);
        return Err(p.error);
      }
      var expanded := Expand(p.value);
      CollectedGrows(values, expanded, parts, i, f);
      values := values + expanded;
    }
    assert parts[..|parts|] == parts;
    CollectedAll(values, parts, f);
    var set_ := FromValues(values);
    SetDenotes(raw, f, values, set_);
    return Ok(set_);
  }

  /** The values gathered from the components read so far. */
  ghost predicate Collected(values: seq<nat>, parts: seq<string>, f: Field) {
    && AllMean(parts, f) && (parts != [] ==> values != [])
    && (forall x :: x in values <==> InUnion(parts, f, x))
    && (forall x :: x in values ==> f.min <= x <= f.max)
  }

  lemma NothingCollected(f: Field, parts: seq<string>)
    requires parts == []
    ensures Collected([], parts, f)
  {
  }

  lemma CollectedAll(values: seq<nat>, parts: seq<string>, f: Field)
    requires Collected(values, parts, f) && parts != []
    ensures AllMean(parts, f) && values != []
  {
  }

  lemma OneWithoutMeaning(parts: seq<string>, i: nat, f: Field)
    requires i < |parts| && Meaning(parts[i], f).Err?
    ensures !AllMean(parts, f)
  {
    hide Meaning;
  }

  lemma CollectedGrows(values: seq<nat>, more: seq<nat>, parts: seq<string>, i: nat, f: Field)
    requires i < |parts| && Collected(values, parts[..i], f) && Meaning(parts[i], f).Ok? && more != []
    requires
      var p := Meaning(parts[i], f).value;
      (forall x :: x in more <==> Among(x, p)) && (forall x :: x in more ==> p.start <= x <= p.end)
    ensures Collected(values + more, parts[..i + 1], f)
  {
    hide Meaning, Among, InUnion, AllMean;
    UnionGrows(parts, i, f);
  }

  lemma StarDenotes(f: Field)
    ensures Denotes("*", f, Star)
  {
  }

  lemma SetDenotes(raw: string, f: Field, values: seq<nat>, v: ValueSet)
    requires raw != "*" && v.Explicit? && v.values != [] && Same(values, v.values)
    requires Collected(values, Split(raw, ','), f)
    ensures Denotes(raw, f, v)
  {
    hide InUnion, AllMean;
    assert forall x :: Member(v, x) <==> x in values;
  }

  lemma UnionGrows(parts: seq<string>, i: nat, f: Field)
    requires i < |parts|
    ensures AllMean(parts[..i + 1], f) <==> AllMean(parts[..i], f) && Meaning(parts[i], f).Ok?
    ensures forall x :: InUnion(parts[..i + 1], f, x) <==>
      InUnion(parts[..i], f, x) || (Meaning(parts[i], f).Ok? && Among(x, Meaning(parts[i], f).value))
  {
    hide Meaning;
    var shorter, longer := parts[..i], parts[..i + 1];
    assert longer == shorter + [parts[i]];
    forall x
      ensures InUnion(longer, f, x) <==>
        InUnion(shorter, f, x) || (Meaning(parts[i], f).Ok? && Among(x, Meaning(parts[i], f).value))
    {
      if InUnion(longer, f, x) {
        var k :| 0 <= k < |longer| && Meaning(longer[k], f).Ok? && Among(x, Meaning(longer[k], f).value);
        assert k < i ==> shorter[k] == longer[k];
      }
      if InUnion(shorter, f, x) {
        var k :| 0 <= k < |shorter| && Meaning(shorter[k], f).Ok? && Among(x, Meaning(shorter[k], f).value);
        assert longer[k] == shorter[k];
      }
      if Meaning(parts[i], f).Ok? && Among(x, Meaning(parts[i], f).value) {
        assert longer[i] == parts[i];
      }
    }
  }

  // ---------------------------------------------------------------------------------------------
  // Days
  // ---------------------------------------------------------------------------------------------

  ghost predicate DomDenotes(raw: string, d: DayOfMonth) {
    match d
    case DomStar => raw == "*"
    case DomLast => Ascii.EqualFold(raw, "L")
    case DomSet(v) => raw != "*" && '#' !in raw && Denotes(raw, DAYS, v)
  }

  predicate DomAccepted(raw: string) {
    || raw == "*" || Ascii.EqualFold(raw, "L")
    || ('#' !in raw && 'L' !in Ascii.Upper(raw) && Accepted(raw, DAYS))
  }

  method ParseDayOfMonth(raw: string) returns (r: Result<DayOfMonth, CronError>)
    ensures r.Ok? ==> DomDenotes(raw, r.value)
    ensures r.Ok? <==> DomAccepted(raw)
  {
    if raw == "*" {
      return Ok(DomStar);
    }
    if Ascii.EqualFold(raw, "L") {
      return Ok(DomLast);
    }
    if '#' in raw || 'L' in Ascii.Upper(raw) {
      return Err(DisallowedSpecial);
    }
    hide Denotes, Accepted;
    var set_ := ParseValueSet(raw, DAYS);
    if set_.Err? {
      return Err(set_.error);
    }
    return Ok(DomSet(set_.value));
  }

  function NormaliseWeekday(v: nat): nat {
    if v == 7 then 0 else v
  }

  /** normaliseWeekdaySet: seven becomes zero, everything else stays. */
  method NormaliseWeekdaySet(v: ValueSet) returns (r: ValueSet)
    requires v.Explicit? ==> forall x :: x in v.values ==> x <= 7
    ensures r.Star? <==> v.Star?
    ensures v.Explicit? ==>
      && (v.values != [] ==> r.values != []) && (forall x :: x in r.values ==> x <= 6)
      && forall x :: Member(r, x) <==> (Member(v, x) && x != 7) || (x == 0 && Member(v, 7))
  {
    hide StrictlyAscending;
    if v.Star? {
      return v;
    }
    var values: seq<nat> := [];
    for i := 0 to |v.values|
      invariant |values| == i && forall k :: 0 <= k < i ==> values[k] == NormaliseWeekday(v.values[k])
    {
      values := values + [NormaliseWeekday(v.values[i])];
    }
    r := FromValues(values);
    forall x
      ensures Member(r, x) <==> (Member(v, x) && x != 7) || (x == 0 && Member(v, 7))
    {
      assert Member(r, x) <==> x in values;
      if x in values {
        var k :| 0 <= k < |values| && values[k] == x;
        assert v.values[k] in v.values;
      }
      if Member(v, x) && x != 7 {
        var k :| 0 <= k < |v.values| && v.values[k] == x;
        assert values[k] == x;
      }
      if x == 0 && Member(v, 7) {
        var k :| 0 <= k < |v.values| && v.values[k] == 7;
        assert values[k] == 0;
      }
    }
    assert forall x :: x in r.values ==> Member(r, x);
    assert forall k :: 0 <= k < |v.values| ==> v.values[k] in v.values;
  }

  /** Sunday is both 0 and 7; a set denotes what its text does with 7 read as 0. */
  ghost predicate DowDenotes(raw: string, d: DayOfWeek) {
    match d
    case DowStar => raw == "*"
    case DowSet(v) =>
      if Ascii.EqualFold(raw, "L") then forall x :: Member(v, x) <==> x == 6
      else
        && v.Explicit? && v.values != [] && (forall x :: x in v.values ==> x <= 6)
        && forall x :: Member(v, x) <==>
          (InUnion(Split(raw, ','), WEEKDAYS, x) && x != 7) || (x == 0 && InUnion(Split(raw, ','), WEEKDAYS, 7))
    case DowLast(weekday) =>
      && weekday <= 6 && EndsInL(raw)
      && var v := ParseIntOrAlias(raw[..|raw| - 1], WEEKDAYS); v.Ok? && weekday == NormaliseWeekday(v.value)
    case DowNth(weekday, occurrence) =>
      && weekday <= 6 && 1 <= occurrence <= 5
      && var i := IndexOf(raw, '#');
         && i.Some? && ParseUint32(Trim(raw[i.value + 1..])) == Some(occurrence)
         && var v := ParseIntOrAlias(raw[..i.value], WEEKDAYS); v.Ok? && weekday == NormaliseWeekday(v.value)
  }

  predicate EndsInL(raw: string) {
    raw != "" && Ascii.Upper(raw)[|raw| - 1] == 'L'
  }

  predicate NthAccepted(raw: string, at: nat)
    requires at < |raw|
  {
    && ParseIntOrAlias(raw[..at], WEEKDAYS).Ok?
    && var k := ParseUint32(Trim(raw[at + 1..])); k.Some? && 1 <= k.value <= 5
  }

  predicate DowAccepted(raw: string) {
    || raw == "*" || Ascii.EqualFold(raw, "L")
    || if EndsInL(raw) then ParseIntOrAlias(raw[..|raw| - 1], WEEKDAYS).Ok?
       else if '#' in raw then IndexOf(raw, '#').Some? && NthAccepted(raw, IndexOf(raw, '#').value)
       else Accepted(raw, WEEKDAYS)
  }

  method ParseDayOfWeek(raw: string) returns (r: Result<DayOfWeek, CronError>)
    ensures r.Ok? ==> DowDenotes(raw, r.value)
    ensures r.Ok? <==> DowAccepted(raw)
  {
    hide StrictlyAscending, Split;
    FieldsAreSound();
    if raw == "*" {
      return Ok(DowStar);
    }
    if Ascii.EqualFold(raw, "L") {
      var saturday := FromValues([6]);
      assert forall x :: Member(saturday, x) <==> x in [6];
      return Ok(DowSet(saturday));
    }
    if EndsInL(raw) {
      var v := ParseIntOrAlias(raw[..|raw| - 1], WEEKDAYS);
      if v.Err? {
        return Err(v.error);
      }
      return Ok(DowLast(NormaliseWeekday(v.value)));
    }
    var i := IndexOf(raw, '#');
    if i.Some? {
      r := ParseNth(raw, i.value);
      return;
    }
    var set_ := ParseValueSet(raw, WEEKDAYS);
    if set_.Err? {
      return Err(set_.error);
    }
    var normal := NormaliseWeekdaySet(set_.value);
    return Ok(DowSet(normal));
  }

  method ParseNth(raw: string, at: nat) returns (r: Result<DayOfWeek, CronError>)
    requires IndexOf(raw, '#') == Some(at)
    ensures r.Ok? ==> r.value.DowNth? && DowDenotes(raw, r.value)
    ensures r.Ok? <==> NthAccepted(raw, at)
  {
    FieldsAreSound();
    var weekday := ParseIntOrAlias(raw[..at], WEEKDAYS);
    if weekday.Err? {
      return Err(weekday.error);
    }
    var occurrence := ParseUint32(Trim(raw[at + 1..]));
    if occurrence.None? {
      return Err(InvalidValue(raw[at + 1..]));
    }
    if occurrence.value < 1 || occurrence.value > 5 {
      return Err(OutOfRange(occurrence.value));
    }
    return Ok(DowNth(NormaliseWeekday(weekday.value), occurrence.value));
  }

  // ---------------------------------------------------------------------------------------------
  // The expression
  // ---------------------------------------------------------------------------------------------

  function FieldCount(flavor: Flavor): nat {
    if flavor == Quartz6 then 6 else 5
  }

  /** Every field of the schedule denotes its part of the text; five-field expressions fire on second 0. */
  ghost predicate ScheduleDenotes(parts: seq<string>, flavor: Flavor, s: Schedule) {
    var k := if flavor == Quartz6 then 1 else 0;
    && |parts| == FieldCount(flavor)
    && (if flavor == Quartz6 then Denotes(parts[0], SECONDS, s.seconds)
        else forall x :: Member(s.seconds, x) <==> x == 0)
    && Denotes(parts[k], MINUTES, s.minutes)
    && Denotes(parts[k + 1], HOURS, s.hours)
    && DomDenotes(parts[k + 2], s.dayOfMonth)
    && Denotes(parts[k + 3], MONTHS, s.months)
    && DowDenotes(parts[k + 4], s.dayOfWeek)
  }

  predicate ExpressionAccepted(parts: seq<string>, flavor: Flavor) {
    var k := if flavor == Quartz6 then 1 else 0;
    && |parts| == FieldCount(flavor)
    && (flavor == Quartz6 ==> Accepted(parts[0], SECONDS))
    && Accepted(parts[k], MINUTES) && Accepted(parts[k + 1], HOURS) && DomAccepted(parts[k + 2])
    && Accepted(parts[k + 3], MONTHS) && DowAccepted(parts[k + 4])
  }

  /** ParseCron: it accepts exactly the expressions all of whose fields have a meaning, and the schedule it
      returns denotes the text, field by field. */
  method ParseCron(expr: string, flavor: Flavor) returns (r: Result<Schedule, CronError>)
    ensures r.Ok? ==> ScheduleDenotes(Fields(Trim(expr)), flavor, r.value)
    ensures r.Ok? <==> ExpressionAccepted(Fields(Trim(expr)), flavor)
  {
    hide Denotes, Accepted, DomAccepted, DowAccepted, DowDenotes, DomDenotes, StrictlyAscending;
    var parts := Fields(Trim(expr));
    if |parts| != FieldCount(flavor) {
      return Err(WrongFieldCount(FieldCount(flavor), |parts|));
    }
    var seconds: ValueSet;
    var k := 0;
    if flavor == Quartz6 {
      var set_ := ParseValueSet(parts[0], SECONDS);
      if set_.Err? {
        return Err(set_.error);
      }
      seconds, k := set_.value, 1;
    } else {
      seconds := FromValues([0]);
      assert forall x :: Member(seconds, x) <==> x in [0];
    }
    var minutes := ParseValueSet(parts[k], MINUTES);
    if minutes.Err? {
      return Err(minutes.error);
    }
    var hours := ParseValueSet(parts[k + 1], HOURS);
    if hours.Err? {
      return Err(hours.error);
    }
    var dom := ParseDayOfMonth(parts[k + 2]);
    if dom.Err? {
      return Err(dom.error);
    }
    var months := ParseValueSet(parts[k + 3], MONTHS);
    if months.Err? {
      return Err(months.error);
    }
    var dow := ParseDayOfWeek(parts[k + 4]);
    if dow.Err? {
      return Err(dow.error);
    }
    return Ok(Schedule(seconds, minutes.value, hours.value, dom.value, months.value, dow.value));
  }
}
