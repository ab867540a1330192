/**
 What cron components mean, stated from the other side: every list of values, ranges and steps, written down as a
 field, is accepted by the parser and denotes exactly those values (libs/scheduling-cron/parser.go:142-264).
 */
module CronRender {
  import opened Common
  import opened GoInt
  import opened Text
  import opened CronParser
  import opened ExprSyntax
  import Ascii

  /** The values a component names before its step. */
  datatype Span = Every | One(value: nat) | FromTo(first: nat, last: nat)

  datatype Component = Component(span: Span, step: Option<nat>)

  predicate Fits(c: Component, f: Field) {
    && (match c.span
        case Every => true
        case One(v) => f.min <= v <= f.max
        case FromTo(a, b) => f.min <= a <= b <= f.max)
    && (c.step.Some? ==> 1 <= c.step.value < TWO32)
  }

  /** Names start with a capital letter, so no number is mistaken for one. */
  predicate NamesAreWords(f: Field) {
    forall i :: 0 <= i < |f.aliases| ==> f.aliases[i].0 != "" && 'A' <= f.aliases[i].0[0] <= 'Z'
  }

  function SpanText(s: Span): string {
    match s
    case Every => "*"
    case One(v) => Digits(v)
    case FromTo(a, b) => Digits(a) + "-" + Digits(b)
  }

  function Written(c: Component): string {
    SpanText(c.span) + if c.step.Some? then "/" + Digits(c.step.value) else ""
  }

  /** One value with a step goes on to the end of the field, except for the step one. */
  function Intended(c: Component, f: Field): Progression {
    var step := if c.step.Some? then c.step.value else 1;
    match c.span
    case Every => Progression(f.min, f.max, step)
    case One(v) => Progression(v, if step != 1 then f.max else v, step)
    case FromTo(a, b) => Progression(a, b, step)
  }

  // ---------------------------------------------------------------------------------------------
  // Numbers
  // ---------------------------------------------------------------------------------------------

  lemma DigitsArePlain(n: nat)
    ensures Digits(n) != "" && Digits(n) != "*" && '/' !in Digits(n) && '-' !in Digits(n) && ',' !in Digits(n)
    ensures Trim(Digits(n)) == Digits(n)
  {
    var s := Digits(n);
    assert forall c :: c in s ==> IsDigit(c);
    assert IsDigit(s[0]) && IsDigit(s[|s| - 1]);
    assert TrimLeft(s) == s && TrimRight(s) == s;
  }

  lemma ParseDigits(n: nat)
    requires n < TWO32
    ensures ParseUint32(Digits(n)) == Some(n)
  {
    DigitsRoundTrip(n);
  }

  lemma {:induction false} DigitsAreNoName(aliases: seq<(string, nat)>, n: nat)
    requires forall i :: 0 <= i < |aliases| ==> aliases[i].0 != "" && 'A' <= aliases[i].0[0] <= 'Z'
    ensures AliasValue(aliases, Digits(n)) == None
    decreases |aliases|
  {
    if aliases != [] {
      var name := aliases[0].0;
      assert Ascii.Lower(name)[0] == Ascii.LowerChar(name[0]) && Ascii.Lower(Digits(n))[0] == Digits(n)[0];
      DigitsAreNoName(aliases[1..], n);
    }
  }

  lemma NumberMeans(n: nat, f: Field)
    requires f.min <= n <= f.max < TWO32 && NamesAreWords(f)
    ensures ParseIntOrAlias(Digits(n), f) == Ok(n)
  {
    hide Digits, ParseUint32, Trim, AliasValue;
    DigitsArePlain(n);
    ParseDigits(n);
    DigitsAreNoName(f.aliases, n);
  }

  // ---------------------------------------------------------------------------------------------
  // Names
  // ---------------------------------------------------------------------------------------------

  predicate Capitals(s: string) {
    forall i :: 0 <= i < |s| ==> 'A' <= s[i] <= 'Z'
  }

  /** Names are capital words, and no two are the same. */
  predicate DistinctNames(aliases: seq<(string, nat)>) {
    && (forall i :: 0 <= i < |aliases| ==> aliases[i].0 != "" && Capitals(aliases[i].0))
    && (forall i, j :: 0 <= i < j < |aliases| ==> aliases[i].0 != aliases[j].0)
  }

  lemma FoldingKeepsCapitals(a: string, b: string)
    requires Capitals(a) && Capitals(b) && Ascii.EqualFold(a, b)
    ensures a == b
  {
    assert |a| == |Ascii.Lower(a)| == |Ascii.Lower(b)| == |b|;
    forall i | 0 <= i < |a|
      ensures a[i] == b[i]
    {
      assert Ascii.Lower(a)[i] == Ascii.Lower(b)[i];
    }
  }

  /** A name, in any mixture of cases, stands for its own value. */
  lemma {:induction false} NameHasItsValue(aliases: seq<(string, nat)>, k: nat, name: string)
    requires DistinctNames(aliases) && k < |aliases| && Ascii.EqualFold(aliases[k].0, name)
    ensures AliasValue(aliases, name) == Some(aliases[k].1)
    decreases |aliases|
  {
    if k > 0 {
      if Ascii.EqualFold(aliases[0].0, name) {
        FoldingKeepsCapitals(aliases[0].0, aliases[k].0);
      }
      NameHasItsValue(aliases[1..], k - 1, name);
    }
  }

  lemma WeekdayNames()
    ensures DistinctNames(WEEKDAYS.aliases) && NamesAreWords(WEEKDAYS)
  {
  }

  lemma MonthNames()
    ensures DistinctNames(MONTHS.aliases) && NamesAreWords(MONTHS)
  {
    hide DistinctNames, NamesAreWords;
    var names := MONTHS.aliases;
    assert forall i :: 0 <= i < |names| ==> |names[i].0| == 3 && Capitals(names[i].0);
    forall i, j | 0 <= i < j < |names|
      ensures names[i].0 != names[j].0
    {
      assert names[i].0[0] != names[j].0[0] || names[i].0[1] != names[j].0[1] || names[i].0[2] != names[j].0[2];
    }
    CollectNames(MONTHS);
  }

  lemma CollectNames(f: Field)
    requires forall i :: 0 <= i < |f.aliases| ==> |f.aliases[i].0| == 3 && Capitals(f.aliases[i].0)
    requires forall i, j :: 0 <= i < j < |f.aliases| ==> f.aliases[i].0 != f.aliases[j].0
    ensures DistinctNames(f.aliases) && NamesAreWords(f)
  {
  }

  // ---------------------------------------------------------------------------------------------
  // Components
  // ---------------------------------------------------------------------------------------------

  lemma {:induction false} FirstIndex(a: string, c: char, b: string)
    requires c !in a
    ensures IndexOf(a + [c] + b, c) == Some(|a|)
    ensures (a + [c] + b)[..|a|] == a && (a + [c] + b)[|a| + 1..] == b
    decreases |a|
  {
    if a != "" {
      FirstIndex(a[1..], c, b);
      assert (a + [c] + b)[1..] == a[1..] + [c] + b && (a + [c] + b)[0] == a[0];
    }
  }

  lemma NotFound(a: string, c: char)
    requires c !in a
    ensures IndexOf(a, c) == None
  {
    hide IndexOf;
  }

  lemma SpanMeans(s: Span, step: nat, f: Field)
    requires Fits(Component(s, None), f) && f.max < TWO32 && NamesAreWords(f)
    ensures
      var p := Intended(Component(s, Some(step)), f);
      ParseRange(SpanText(s), step, f) == Ok((p.start, p.end))
  {
    hide Digits, IndexOf, ParseIntOrAlias;
    match s
    case Every =>
    case One(v) =>
      DigitsArePlain(v);
      NotFound(Digits(v), '-');
      NumberMeans(v, f);
    case FromTo(a, b) =>
      DigitsArePlain(a);
      FirstIndex(Digits(a), '-', Digits(b));
      NumberMeans(a, f);
      NumberMeans(b, f);
      assert SpanText(s)[|Digits(a)|] == '-';
      assert "*"[0] != '-' && |SpanText(s)| > 1;
  }

  lemma SpanIsPlain(s: Span)
    ensures SpanText(s) != "" && '/' !in SpanText(s) && ',' !in SpanText(s)
  {
    hide Digits;
    match s
    case Every =>
    case One(v) => DigitsArePlain(v);
    case FromTo(a, b) =>
      DigitsArePlain(a);
      DigitsArePlain(b);
  }

  /** Every component that fits the field is read back as the progression it was meant to be. */
  lemma WrittenMeans(c: Component, f: Field)
    requires Fits(c, f) && f.min <= f.max < TWO32 && NamesAreWords(f)
    ensures Meaning(Written(c), f) == Ok(Intended(c, f))
  {
    hide Digits, IndexOf, ParseRange, SpanText;
    var text := SpanText(c.span);
    SpanIsPlain(c.span);
    if c.step.Some? {
      var step := c.step.value;
      FirstIndex(text, '/', Digits(step));
      assert Written(c) == text + ['/'] + Digits(step);
      ParseDigits(step);
      SpanMeans(c.span, step, f);
      assert ParseStep(Written(c)) == Ok((text, step));
    } else {
      assert Written(c) == text;
      NotFound(text, '/');
      SpanMeans(c.span, 1, f);
      assert ParseStep(Written(c)) == Ok((text, 1));
    }
  }

  // ---------------------------------------------------------------------------------------------
  // Fields
  // ---------------------------------------------------------------------------------------------

  function AllWritten(cs: seq<Component>): (parts: seq<string>)
    ensures |parts| == |cs| && forall i :: 0 <= i < |cs| ==> parts[i] == Written(cs[i])
  {
    if cs == [] then [] else [Written(cs[0])] + AllWritten(cs[1..])
  }

  function FieldText(cs: seq<Component>): string {
    Join(AllWritten(cs), ',')
  }

  lemma WrittenIsPlain(c: Component)
    ensures ',' !in Written(c)
  {
    hide Digits, SpanText;
    SpanIsPlain(c.span);
    if c.step.Some? {
      DigitsArePlain(c.step.value);
    }
  }

  /** Splitting a joined list gives the list back. */
  lemma {:induction false} SplitOfJoin(parts: seq<string>, sep: char)
    requires parts != [] && forall i :: 0 <= i < |parts| ==> sep !in parts[i]
    ensures Split(Join(parts, sep), sep) == parts
    decreases |parts|
  {
    hide IndexOf;
    var text := Join(parts, sep);
    if |parts| == 1 {
      NotFound(text, sep);
      assert parts == [text];
    } else {
      var rest := parts[1..];
      SplitOfJoin(rest, sep);
      assert text == parts[0] + [sep] + Join(rest, sep);
      FirstIndex(parts[0], sep, Join(rest, sep));
      assert parts == [parts[0]] + rest;
    }
  }

  /** Every non-empty list of components that fit, written as a field, is accepted, and the field denotes exactly
      the values of the intended progressions. */
  lemma FieldRoundTrip(cs: seq<Component>, f: Field)
    requires cs != [] && (forall i :: 0 <= i < |cs| ==> Fits(cs[i], f))
    requires f.min <= f.max < TWO32 && NamesAreWords(f)
    ensures AllMean(Split(FieldText(cs), ','), f)
    ensures forall x :: InUnion(Split(FieldText(cs), ','), f, x) <==>
      exists i :: 0 <= i < |cs| && Among(x, Intended(cs[i], f))
  {
    hide Meaning, Split, Join, Written, Among, Fits;
    var parts := AllWritten(cs);
    forall i | 0 <= i < |cs|
      ensures ',' !in parts[i] && Meaning(parts[i], f) == Ok(Intended(cs[i], f))
    {
      WrittenIsPlain(cs[i]);
      WrittenMeans(cs[i], f);
    }
    SplitOfJoin(parts, ',');
    forall x
      ensures InUnion(parts, f, x) <==> exists i :: 0 <= i < |cs| && Among(x, Intended(cs[i], f))
    {
      if InUnion(parts, f, x) {
        var i :| 0 <= i < |parts| && Meaning(parts[i], f).Ok? && Among(x, Meaning(parts[i], f).value);
        assert Among(x, Intended(cs[i], f));
      }
      if i :| 0 <= i < |cs| && Among(x, Intended(cs[i], f)) {
        assert Meaning(parts[i], f).Ok? && Among(x, Meaning(parts[i], f).value);
      }
    }
  }

  /** In particular for the month and weekday fields, whose names cannot be mistaken for numbers. */
  lemma MonthFieldRoundTrip(cs: seq<Component>)
    requires cs != [] && (forall i :: 0 <= i < |cs| ==> Fits(cs[i], MONTHS))
    ensures Accepted(FieldText(cs), MONTHS)
    ensures forall x :: InUnion(Split(FieldText(cs), ','), MONTHS, x) <==>
      exists i :: 0 <= i < |cs| && Among(x, Intended(cs[i], MONTHS))
  {
    hide AllMean, InUnion, Among, Fits, Split, FieldText, DistinctNames, NamesAreWords;
    MonthNames();
    FieldRoundTrip(cs, MONTHS);
  }

  lemma WeekdayFieldRoundTrip(cs: seq<Component>)
    requires cs != [] && (forall i :: 0 <= i < |cs| ==> Fits(cs[i], WEEKDAYS))
    ensures Accepted(FieldText(cs), WEEKDAYS)
    ensures forall x :: InUnion(Split(FieldText(cs), ','), WEEKDAYS, x) <==>
      exists i :: 0 <= i < |cs| && Among(x, Intended(cs[i], WEEKDAYS))
  {
    hide AllMean, InUnion, Among, Fits, Split, FieldText, DistinctNames, NamesAreWords;
    WeekdayNames();
    FieldRoundTrip(cs, WEEKDAYS);
  }

  const MONTH_NAMES := ["JAN", "FEB", "MAR", "APR", "MAY", "JUN", "JUL", "AUG", "SEP", "OCT", "NOV", "DEC"]

  const WEEKDAY_NAMES := ["SUN", "MON", "TUE", "WED", "THU", "FRI", "SAT"]

  /** The name of the k-th month, in any mixture of cases, is accepted and stands for k, counted from one. */
  lemma MonthNameMeans(k: nat, name: string)
    requires k < 12 && Ascii.EqualFold(MONTH_NAMES[k], name) && Trim(name) == name && name != ""
    ensures ParseIntOrAlias(name, MONTHS) == Ok(k + 1)
  {
    assert MONTHS.aliases[k] == (MONTH_NAMES[k], k + 1);
    hide DistinctNames, NamesAreWords, Ascii.EqualFold, Trim;
    MonthNames();
    NameHasItsValue(MONTHS.aliases, k, name);
  }

  /** The name of the k-th weekday stands for k, counted from Sunday as zero. */
  lemma WeekdayNameMeans(k: nat, name: string)
    requires k < 7 && Ascii.EqualFold(WEEKDAY_NAMES[k], name) && Trim(name) == name && name != ""
    ensures ParseIntOrAlias(name, WEEKDAYS) == Ok(k)
  {
    assert WEEKDAYS.aliases[k] == (WEEKDAY_NAMES[k], k);
    hide DistinctNames, NamesAreWords, Ascii.EqualFold, Trim;
    WeekdayNames();
    NameHasItsValue(WEEKDAYS.aliases, k, name);
  }
}
