# Verified core of the OpenFoundry Go libraries

This project is a Dafny 4.11 model of the parts of the libraries whose correctness is hard to see from the
code: the cron evaluator and parser, the pipeline expression language and preview engine, three Cassandra
protocols and the read-model index, the saga runner, the optimistic state-machine store and the scheduler
tick. `dafny verify dfyconfig.toml` checks everything.

How the model is built:

- **Shared state** (tables, locks, the broker) is a value; every SQL or CQL statement and every publish is one
  atomic step on it. A run is any finite sequence of steps of any number of clients. A crash is a client that
  takes no more steps. Theorems about runs quantify over all of them.
- **Imperative code** (`Put`, `Append`, `Tick`, `WithRetry`, the saga runner, the lexer and parser, Kahn's loop,
  the hash join, the cron walk, ...) is a method or a class with the source's own loops and early returns,
  proved against a specification function or against the step relation. Methods of the protocols take an
  adversary, which runs other clients between any two of their statements.
- **Foreign code** is a parameter: time zones and `time.Date`, driver answers, JSON and UUID parsing,
  floating-point arithmetic, step bodies of a saga, transitions of a state machine. Hypotheses about it are
  written as `requires` of the theorem that needs them.

What turned out to differ from what one would expect of the code, each with its exact condition:

- A schema `Put` whose applied pointer move is reported as an error goes on to delete the row schemas_latest names;
  readers keep a valid pointer if and only if that delete fails (`SchemaStore.LostPromotionAckDangles`). Over
  any run, under any driver, schemas_latest names its row at every moment if and only if no rollback delete takes
  effect on the version it names (`SchemaStore.PointerAlwaysNamesRowIff`).
- A `Put` that does not succeed leaves its version row behind, for good, if and only if the acknowledgement of its
  insert was lost or its rollback delete failed (`SchemaPut.RefusedPutLeavesRowIff`).
- In a fall-back hour the next fire is the first in wall-clock order. Over any window around the search in which
  the clocks change once, by one hour, it is the least UTC instant exactly when the start does not straddle firing
  seconds of that hour (`NextFire.FallBackExact`). If `time.Date` picks the late side, as its documentation allows,
  early occurrences never fire, and the answer is the least UTC instant exactly when none of them lies ahead or
  something fires before that hour (`NextFire.LateOracleExact`). Outside the window the zone may do anything.
- Printing then parsing is the identity exactly on printable trees (`ExprExact.RoundTripExactly`): a negative
  integer, a quote inside a string, a name such as `not`, or a double printed without its decimals
  (`ExprExact.PointlessDoubleIsLost`) breaks it.
- Division by zero yields null where a number was inferred: a quotient is of its type if and only if the zero guard
  does not fire (`TypeSoundness.QuotientIsSoundIff`). Six catalogued functions have calls that inference accepts
  and that fail on every row; the functions the evaluator implements are the exact boundary
  (`TypeSoundness.ImplementedIsTheBoundary`).
- `actions_log` and `actions_by_object` leave the event out of their keys: two events of one action in the same
  millisecond, and for the second table on the same object, share a row, and only such events do
  (`ActionLog.SharedMillisecondOverwrites`, `ActionLog.LogRowStaysUnlessShared`,
  `ActionLog.SharedObjectOverwrites`, `ActionLog.ObjectRowStaysUnlessShared`). A blank, non-empty subject makes
  the fan-out of a repeated Append differ from the canonical row (`ActionLog.BlankSubjectDiverges`).
- A `Loaded` reused after a driver error writes its event twice (`StateMachineStore.ReusedLoadedAppliesTwice`);
  `WithRetry` can panic for base delays below three nanoseconds or above 2^62 (`StateMachineRetry.PanicsIff`).
- Steps of earlier committed saga sessions are never compensated (`SagaHistory.EarlierSessionsAreNotCompensated`).
- A saga step whose Execute body succeeds with an output that cannot be encoded is not recorded, and its body runs
  again when the step is asked for again (`SagaHistory.UnencodableRunsAgain`); how often a body succeeds is
  `SagaHistory.BodyCount`, and `SagaHistory.BodySucceedsAtMostOnceIff` says when that is at most once.
- Read-model versions of 2^63 and more are forgotten (`ReadModel.VersionIsKeptIff`). The by-parent table is exact for
  the empty parent as well if and only if no operation takes a record away from it (`ReadModel.AlwaysExactIff`).
  When an interrupted `Put` leaves the index wrong, and when repeating it repairs the index, is
  `ReadModel.InterruptedPutIndexedIff` and `ReadModel.RepetitionRepairsIff`.
- `null` ties with every value in the order, so `null <= x` and `null >= x` hold and `null < x` does not
  (`EvalMeaning.NullComparisons`).
- The migration comment says a schedule advances from its last due instant; `Tick` advances from `now`, and the
  model follows `Tick`.

## Model

| member | source | states |
|---|---|---|
| `SchemaStore.StepKeepsCore` | libs/cassandra-kernel/schema_store.go:173-302 | every statement of every Put, whatever the driver answers, keeps what its client owns and knows, and every version row is its writer's |
| `SchemaStore.StepKeepsInv` | libs/cassandra-kernel/schema_store.go:173-302 | unless the acknowledgement of a pointer move is lost, the pointer also stays backed by a successful Put |
| `SchemaStore.RunKeepsCore` | libs/cassandra-kernel/schema_store.go:173-302 | under any driver this holds after every interleaving, and pointers only move forward |
| `SchemaStore.RunKeepsInv` | libs/cassandra-kernel/schema_store.go:173-302 | the full invariant holds after every interleaving without such a loss |
| `SchemaStore.PointerAlwaysNamesRow` | libs/cassandra-kernel/schema_store.go:173-302 | in every reachable state the latest pointer names an existing version row with the same payload |
| `SchemaStore.PointerStrictlyIncreases` | libs/cassandra-kernel/schema_store.go:255-302 | under any driver, between any two moments of a run the pointer is unchanged or its version is strictly greater |
| `SchemaStore.SuccessfulPutSurvives` | libs/cassandra-kernel/schema_store.go:173-252 | under any driver, the row of a Put that returned success, with the caller's version, payload and creation time, is never removed or changed by any rollback delete |
| `SchemaStore.OneSuccessPerVersion` | libs/cassandra-kernel/schema_store.go:173-218 | at most one Put ever succeeds for a type and version |
| `SchemaStore.GivingUpMeansEightPromotions` | libs/cassandra-kernel/schema_store.go:270-302 | a Put gives up as not converged only after eight other pointer moves during its loop |
| `SchemaStore.LostPromotionAckDangles` | libs/cassandra-kernel/schema_store.go:200-218 | in every state of the protocol: after an applied pointer move whose acknowledgement is lost the Put turns to its rollback delete, and the pointer keeps its row if and only if that delete fails |
| `SchemaStore.StepNamedIff` | libs/cassandra-kernel/schema_store.go:173-302 | under any driver, a step loses the row schemas_latest names if and only if it is a rollback delete of that version |
| `SchemaStore.PointerAlwaysNamesRowIff` | libs/cassandra-kernel/schema_store.go:173-302 | for every run under any driver: schemas_latest names its row at every moment if and only if no rollback delete takes effect on the version it names |
| `SchemaStore.FaithfulNeverDeletesLatest` | libs/cassandra-kernel/schema_store.go:242-252 | when no acknowledgement of an applied pointer move is lost, no rollback delete ever hits the version schemas_latest names |
| `SchemaStore.LostAckRun` | libs/cassandra-kernel/schema_store.go:200-218 | the failure happens in a run of five steps from the empty store |
| `SchemaPut.Cluster.SelectLatestRaw` | libs/cassandra-kernel/schema_store.go:220-240 | the pointer read is one step of the protocol, against any interference |
| `SchemaPut.Cluster.Write` | libs/cassandra-kernel/schema_store.go:188-218 | a conditional write or the rollback delete is one step; its answer decides where the Put goes on |
| `SchemaPut.Cluster.PutStatements` | libs/cassandra-kernel/schema_store.go:173-218 | the statements of Put in order, with its early returns |
| `SchemaPut.Cluster.PromoteLatest` | libs/cassandra-kernel/schema_store.go:255-302 | insert-if-absent and up to eight read-and-CAS attempts follow the protocol and end in success or in the rollback with that cause |
| `SchemaPut.Cluster.Put` | libs/cassandra-kernel/schema_store.go:173-218 | Put is a run of the protocol for any adversary and any answers of the driver, lost acknowledgements included; success means that the row under the caller's type and version holds the caller's version, payload and creation time; when nobody disturbs it, it succeeds if and only if the version is in 1..2^31-1, the payload serialises, the latest version is absent or smaller and the version row is absent, and otherwise changes nothing |
| `SchemaPut.AloneSucceedsIff` | libs/cassandra-kernel/schema_store.go:173-302 | five statements finish a Put that runs alone, from any state; it succeeds exactly on acceptable tables and then both tables hold the caller's schema, field by field; otherwise nothing changes |
| `SchemaPut.QuietPutSucceedsIff` | libs/cassandra-kernel/schema_store.go:173-302 | the same of a run of the protocol from any state of the cluster |
| `SchemaPut.StepLeavesRowIff` | libs/cassandra-kernel/schema_store.go:188-218 | a statement of a Put ends it with its version row left behind if and only if it is an applied insert whose acknowledgement is lost, or a rollback delete that fails |
| `SchemaPut.RefusedPutLeavesRowIff` | libs/cassandra-kernel/schema_store.go:188-252 | over any run under any driver, a Put that did not succeed leaves its version row behind, for good, if and only if one of these happened to it |
| `Calendar.MonthFollows` | libs/scheduling-cron/evaluator.go:273-300 | each month starts when the previous one, of the right length, ends, across years and leap years |
| `Calendar.FieldsOfDate` | libs/scheduling-cron/evaluator.go:101-111 | the fields of a date built from fields are those fields |
| `Calendar.DateOfFields` | libs/scheduling-cron/evaluator.go:101-111 | every second is the date of its own fields |
| `Calendar.YearBegins` | libs/scheduling-cron/evaluator.go:144-150 | a second lies in or after a year exactly when it is not before that year's first second |
| `CronSchedule.Contains` | libs/scheduling-cron/schedule.go:63-69 | binary search finds exactly the members |
| `CronSchedule.LowerBound` | libs/scheduling-cron/schedule.go:63-69 | bisection finds the boundary between smaller and greater elements |
| `CronSchedule.NextAtOrAfter` | libs/scheduling-cron/schedule.go:73-86 | the least member in the range, or none exactly when there is none |
| `CronSchedule.DedupKeepsElements` | libs/scheduling-cron/schedule.go:168-179 | compacting a sorted slice gives a strictly ascending one with the same elements |
| `CronSchedule.DedupSorted` | libs/scheduling-cron/schedule.go:168-179 | the in-place compaction leaves exactly the first element of every run in the prefix it returns |
| `CronSchedule.FromValues` | libs/scheduling-cron/schedule.go:42-47 | the set holds exactly the given values |
| `CronEvaluator.LastDayOfMonth` | libs/scheduling-cron/evaluator.go:273-282 | the day before the first of the next month is the length of the month |
| `CronEvaluator.LastWeekdayMeaning` | libs/scheduling-cron/evaluator.go:253-262 | the last-weekday test holds exactly for the last such weekday of the month |
| `CronEvaluator.NthWeekdayMeaning` | libs/scheduling-cron/evaluator.go:263-268 | the nth-weekday test holds exactly when that many days up to this one have the weekday |
| `CronEvaluator.AdvanceToNextMonth` | libs/scheduling-cron/evaluator.go:284-300 | the first second of the next listed month, with no match skipped; none only past the cap year |
| `CronEvaluator.AdvanceToNextDay` | libs/scheduling-cron/evaluator.go:302-308 | the next midnight, or none exactly past the cap year |
| `CronEvaluator.WithHourAdvanceOne` | libs/scheduling-cron/evaluator.go:324-330 | the start of the following hour, across midnight as well |
| `CronEvaluator.WithMinuteAdvanceOne` | libs/scheduling-cron/evaluator.go:332-337 | the start of the following minute, across the hour as well |
| `CronEvaluator.SkipMonths` | libs/scheduling-cron/evaluator.go:150-160 | no second of a skipped month matches |
| `CronEvaluator.SkipDay` | libs/scheduling-cron/evaluator.go:160-168 | no later second of a day whose date does not match, matches |
| `CronEvaluator.Advance` | libs/scheduling-cron/evaluator.go:144-216 | one round of the walk strictly advances without skipping a match, stops on a match, or proves there is none |
| `CronEvaluator.FindNextMatch` | libs/scheduling-cron/evaluator.go:144-216 | the least matching second at or after the start up to the end of the cap year; none exactly when there is none; it terminates |
| `CronVixie.SameMonthIff` | libs/scheduling-cron/evaluator.go:232-282 | a day some days away lies in the same month exactly when its number is one of that month |
| `CronVixie.MonthDayMeaning` | libs/scheduling-cron/evaluator.go:232-242 | a star matches every day, a set the days whose number it lists, `L` the day whose tomorrow is in another month |
| `CronVixie.WeekdayMeaning` | libs/scheduling-cron/evaluator.go:244-271 | a set matches the days whose weekday it lists, `5L` the Friday with none of its month a week later, `5#3` the Friday with exactly two of its month before it |
| `CronVixie.OneDayFieldDecides` | libs/scheduling-cron/evaluator.go:217-230 | with a star in one day field the schedule fires when clock and month fit and the other day field matches |
| `CronVixie.EitherDayFieldSuffices` | libs/scheduling-cron/evaluator.go:217-230 | with two restricted day fields the schedule fires exactly when it would with only the first or with only the second |
| `CronVixie.FirstOfEither` | libs/scheduling-cron/evaluator.go:144-230 | for such a schedule the search finds the earlier of what it finds for each day field alone |
| `CronVixie.KnownWeekdays` | libs/scheduling-cron/evaluator.go:244-249 | Sunday is 0 and known dates have their weekdays, around leap years and centuries |
| `CronVixie.FridayComesFirst` | libs/scheduling-cron/evaluator.go:217-230 | midnight on the 13th or on Fridays first fires on Friday, January 5th from the start of 2024 |
| `CronVixie.RangesAreTheCalendar` | libs/scheduling-cron/parser.go:79-110 | the accepted range of each field is exactly the set of values that clock and calendar take, with seven as a second Sunday |
| `NextFire.ResolveWallClock` | libs/scheduling-cron/evaluator.go:119-139 | reading the six fields back decides whether a wall-clock second is skipped, unique or repeated |
| `NextFire.FireOf` | libs/scheduling-cron/evaluator.go:41-75 | the first occurrence of a wall-clock second after the argument, if any |
| `NextFire.NextFireAfter` | libs/scheduling-cron/evaluator.go:17-77 | for every zone and oracle: strictly after its argument, matching local fields, and first in wall-clock order within the window |
| `NextFire.OneSidedInverts` | libs/scheduling-cron/evaluator.go:113-139 | over any window without repeated wall-clock seconds, an oracle valid on one side of a transition finds every second |
| `NextFire.IncreasingIsUnique` | libs/scheduling-cron/evaluator.go:113-139 | where local time increases over a window two days wider on both sides, no wall-clock second of the window is repeated |
| `NextFire.LeastWhereIncreasing` | libs/scheduling-cron/evaluator.go:17-77 | over any window from the argument on in which local time increases: an answer inside it is the least UTC fire, and none means none of the window fires up to the cap year |
| `NextFire.UtcAnswer` | libs/scheduling-cron/evaluator.go:17-77 | in UTC the answer is the least matching second after the argument up to the end of the tenth following year, and none exactly when there is none |
| `NextFire.FallBackExact` | libs/scheduling-cron/evaluator.go:65-74 | over any window around the search with one fall-back: the answer is the least UTC fire if and only if the argument does not straddle firing seconds of the repeated hour |
| `NextFire.RepeatedSecondFiresTwice` | libs/scheduling-cron/evaluator.go:65-74 | likewise, after the early occurrence of a repeated second the answer is its late one |
| `NextFire.LateOracleMissesEarlyFires` | libs/scheduling-cron/evaluator.go:113-139 | with an oracle that picks the late side around a fall-back, no early occurrence is ever returned, wherever the search starts |
| `NextFire.LateOracleExact` | libs/scheduling-cron/evaluator.go:65-139 | over any such window with that oracle the answer is the least UTC fire if and only if no early occurrence of the repeated hour lies ahead or something fires before that hour |
| `CronParser.ParseIntOrAlias` | libs/scheduling-cron/parser.go:239-264 | an accepted number or name is in the field's range |
| `CronParser.Meaning` | libs/scheduling-cron/parser.go:157-228 | a component that is accepted stands for one in-range progression with a positive 32-bit step |
| `CronParser.WrapIsVisible` | libs/scheduling-cron/parser.go:228-236 | the overflow test of the loop fires exactly on sums that wrap |
| `CronParser.Expand` | libs/scheduling-cron/parser.go:228-237 | the 32-bit loop terminates with exactly the members of the progression, ascending |
| `CronParser.ParseValueSet` | libs/scheduling-cron/parser.go:142-155 | accepted exactly when every component is; the set is the sorted, duplicate-free, non-empty, in-range union of the progressions |
| `CronParser.ParseDayOfMonth` | libs/scheduling-cron/parser.go:270-287 | star, last day or the union; `#` and a stray L are refused |
| `CronParser.NormaliseWeekdaySet` | libs/scheduling-cron/parser.go:348-357 | seven is merged into zero, all other members stay, nothing above six is left |
| `CronParser.ParseDayOfWeek` | libs/scheduling-cron/parser.go:289-339 | star, Saturday, last weekday, nth weekday or the union with seven read as zero; accepted exactly then |
| `CronParser.ParseCron` | libs/scheduling-cron/parser.go:61-122 | accepts exactly the expressions whose fields all have a meaning, and the schedule denotes the text field by field |
| `CronRender.NameHasItsValue` | libs/scheduling-cron/parser.go:239-252 | a month or weekday name, in any case, stands for its own value |
| `CronRender.WrittenMeans` | libs/scheduling-cron/parser.go:157-228 | every star, value or range, with or without a step, is read back as the progression it was meant to be |
| `CronRender.SplitOfJoin` | libs/scheduling-cron/parser.go:146-152 | splitting a comma-joined list gives the list back |
| `CronRender.FieldRoundTrip` | libs/scheduling-cron/parser.go:142-237 | every list of fitting components, written as a field, is accepted and denotes exactly the values meant |
| `CronRender.MonthFieldRoundTrip` | libs/scheduling-cron/parser.go:124-155 | in particular for the month field |
| `CronRender.WeekdayFieldRoundTrip` | libs/scheduling-cron/parser.go:124-155 | and for the weekday field |
| `CronRender.MonthNameMeans` | libs/scheduling-cron/parser.go:124-128 | JAN to DEC, in any case, parse to 1 to 12 |
| `CronRender.WeekdayNameMeans` | libs/scheduling-cron/parser.go:130-132 | SUN to SAT, in any case, parse to 0 to 6 |
| `Dag.CycleInside` | libs/pipeline-expression/preview.go:232-258 | a non-empty set in which every id has a dependency contains a cycle |
| `Dag.StepKeepsKahn` | libs/pipeline-expression/preview.go:232-254 | one round of the loop keeps the invariant between order, frontier and ready ids |
| `Dag.CompleteOrderIsChain` | libs/pipeline-expression/preview.go:232-258 | a complete order has dependencies first and the target last, and the needed graph has no cycle |
| `Dag.LeftoverHasCycle` | libs/pipeline-expression/preview.go:255-258 | if the loop leaves ids over, the target reaches a cycle |
| `Dag.KahnIsComplete` | libs/pipeline-expression/preview.go:232-258 | the order is a complete chain exactly when the target reaches no cycle |
| `TopologicalChain.NeededIds` | libs/pipeline-expression/preview.go:190-204 | the breadth-first walk collects exactly the ids the target reaches |
| `TopologicalChain.BuildEdges` | libs/pipeline-expression/preview.go:206-222 | in-degrees count dependencies and the adjacency is the reversed graph, whatever the map order |
| `TopologicalChain.InitialFrontier` | libs/pipeline-expression/preview.go:224-230 | the frontier is the ids without dependencies in descending order |
| `TopologicalChain.Release` | libs/pipeline-expression/preview.go:238-252 | releasing a node lowers each dependent by its multiplicity and collects exactly the newly ready ones |
| `TopologicalChain.KahnLoop` | libs/pipeline-expression/preview.go:232-254 | the loop over mutable maps computes the deterministic Kahn order |
| `TopologicalChain.Chain` | libs/pipeline-expression/preview.go:181-259 | every needed id once, dependencies first, target last; a cycle reported exactly when there is one; independent of map order |
| `Preview.JoinKeyIsFaithful` | libs/pipeline-expression/preview.go:494-508 | equal join keys mean equal values in every join column |
| `Preview.BuildIndex` | libs/pipeline-expression/preview.go:440-446 | the index lists, per key, the matching right rows in order |
| `Preview.HashJoin` | libs/pipeline-expression/preview.go:412-470 | the indexed join is the cap-length prefix of the nested-loop join, inner and left |
| `Preview.ApplyFilter` | libs/pipeline-expression/preview.go:373-410 | the first rows up to the cap that satisfy the predicate, or the first error |
| `Preview.ApplyColumnsTransform` | libs/pipeline-expression/preview.go:306-371 | row by row conversion of the listed columns up to the cap, failing on the first bad row |
| `Preview.UnionRows` | libs/pipeline-expression/preview.go:291-301 | the cap-length prefix of the concatenated inputs |
| `Preview.ApplyTransform` | libs/pipeline-expression/preview.go:261-304 | the dispatcher computes the transform's definition |
| `Preview.TransformsRespectCap` | libs/pipeline-expression/preview.go:261-304 | no transform outputs more rows than the cap |
| `PreviewMeaning.RowSources` | libs/pipeline-expression/preview.go:449-468 | what one left row contributes: one row per right row that agrees with it in the join columns, glued so that the left values win, or the row itself when nothing agrees and the join is a left one |
| `PreviewMeaning.JoinIsExplained` | libs/pipeline-expression/preview.go:412-470 | every join row has its pair of source rows; the pairs are in the order of left and then right rows, and no agreeing pair and no unmatched left row of a left join is missing |
| `PreviewMeaning.KeptSelects` | libs/pipeline-expression/preview.go:373-410 | a filter keeps exactly the rows its predicate is true on, in order |
| `PreviewMeaning.ConvertedMeaning` | libs/pipeline-expression/preview.go:330-371 | a column transform converts the listed columns a row has, each from its own value, and leaves all others alone |
| `PreviewMeaning.ConcatMeaning` | libs/pipeline-expression/preview.go:291-301 | a union holds every row of every table, one table after the other |
| `PreviewMeaning.TransformMeaning` | libs/pipeline-expression/preview.go:261-304 | what each kind of node makes of its inputs, the kind read in any case: errors, missing defaults and the cap included |
| `PreviewNode.Evaluate` | libs/pipeline-expression/preview.go:120-160 | one entry of the forward pass gets the table the recursive definition gives it, or fails with it |
| `PreviewNode.RunChain` | libs/pipeline-expression/preview.go:120-165 | the forward pass over the chain ends with the last table, or at an entry that has none |
| `PreviewNode.FailureReachesTarget` | libs/pipeline-expression/preview.go:120-165 | a failing entry makes every entry that depends on it fail, up to the target |
| `PreviewNode.PreviewRows` | libs/pipeline-expression/preview.go:97-170 | forward evaluation equals the recursive definition of the DAG's tables; missing targets and cycles are reported exactly |
| `PreviewMeaning.SampleSize` | libs/pipeline-expression/preview.go:97-118 | the sample size is 50 000 unless fewer rows are asked for |
| `PreviewMeaning.PreviewIsTheSolution` | libs/pipeline-expression/preview.go:97-170 | any assignment of tables that satisfies every node, sources loaded and transforms applied to the dependencies in order, gives the target the table that the preview returns |
| `ExprLexer.Lexer.Next` | libs/pipeline-expression/parser.go:308-420 | the in-place lexer yields the token at the position and leaves the rest of the text |
| `ExprLexer.Tokenize` | libs/pipeline-expression/parser.go:716-735 | the token loop equals the recursive lexing of the text |
| `ExprParser.Parser.ParseOrLevel` | libs/pipeline-expression/parser.go:476-495 | the loop that rebuilds its left operand equals the grammar of this level |
| `ExprParser.Parser.ParseAndLevel` | libs/pipeline-expression/parser.go:497-516 | likewise for conjunctions |
| `ExprParser.Parser.ParseCmpLevel` | libs/pipeline-expression/parser.go:518-551 | likewise for at most one comparison |
| `ExprParser.Parser.ParseAddLevel` | libs/pipeline-expression/parser.go:553-581 | likewise for sums, grouped to the left |
| `ExprParser.Parser.ParseMulLevel` | libs/pipeline-expression/parser.go:583-611 | likewise for products |
| `ExprParser.Parser.ParseUnaryLevel` | libs/pipeline-expression/parser.go:613-636 | likewise for prefix operators |
| `ExprParser.Parser.ParsePrimaryLevel` | libs/pipeline-expression/parser.go:638-713 | likewise for literals, columns, calls and parentheses |
| `ExprParser.ParseExpr` | libs/pipeline-expression/parser.go:716-750 | lexing and parsing the whole text, with trailing tokens refused; precedence and grouping are those of ExprMinimal |
| `ExprPrinter.WriteTo` | libs/pipeline-expression/parser.go:761-836 | the builder receives the printed form after what it already held |
| `ExprRoundTrip.PrintLexes` | libs/pipeline-expression/parser.go:308-420 | the printed form of a tree lexes to the tree's tokens, whatever follows |
| `ExprRoundTrip.ToksParse` | libs/pipeline-expression/parser.go:472-713 | those tokens parse back to the tree through all precedence levels |
| `ExprRoundTrip.RoundTrip` | libs/pipeline-expression/parser.go:716-836 | parsing the printed form of a printable tree gives the tree back |
| `ExprMinimal.MinToksParse` | libs/pipeline-expression/parser.go:472-713 | at every level, the tokens of a tree printed with only the needed parentheses parse to the tree, with the loop of the level still to go on |
| `ExprMinimal.MinLexes` | libs/pipeline-expression/parser.go:308-420 | the text with only the needed parentheses lexes to those tokens |
| `ExprMinimal.MinimalRoundTrip` | libs/pipeline-expression/parser.go:472-750 | parsing the text with only the parentheses needed under left grouping and the levels or, and, comparison, sum, product, prefix gives back every printable tree |
| `ExprMinimal.ComparisonsDoNotChain` | libs/pipeline-expression/parser.go:518-551 | a second comparison after a first one is refused, whatever the operands |
| `ExprMinimal.ChainsGroupLeft` | libs/pipeline-expression/parser.go:553-581 | x - y - z is (x - y) - z, and x - (y - z) is not |
| `ExprMinimal.DoubleQuotes` | libs/pipeline-expression/parser.go:366-385 | a text in double quotes is a string as well |
| `ExprMinimal.BlanksDoNotMatter` | libs/pipeline-expression/parser.go:287-310 | white space of any kind before a token is skipped |
| `ExprMinimal.WordsInAnyCase` | libs/pipeline-expression/parser.go:476-713 | and, or, not, true, false and null are read in any case |
| `ExprMarks.OrGood` | libs/pipeline-expression/parser.go:472-713 | whatever parses is built from parser-made leaves, and its strings and doubles are those of the tokens, in order |
| `ExprExact.QuoteBreaks` | libs/pipeline-expression/parser.go:761-775 | a string literal with a quote never lexes back to the tree's own strings |
| `ExprExact.TreeMarks` | libs/pipeline-expression/parser.go:761-845 | the tokens of a printed tree carry at most its strings and doubles, and exactly them only if every double prints as one number that parses back to it |
| `ExprExact.SurvivorsArePrintable` | libs/pipeline-expression/parser.go:716-845 | a tree that comes back from its printed form is printable |
| `ExprExact.RoundTripExactly` | libs/pipeline-expression/parser.go:716-845 | for every tree, given the shape of texts strconv gives to its doubles: the round trip is the identity if and only if the tree is printable |
| `ExprExact.PointlessDoubleIsLost` | libs/pipeline-expression/parser.go:840-845 | a tree with a double printed without a point, such as an integral one, never comes back |
| `ExprExact.NegativeIsShaped` | libs/pipeline-expression/parser.go:838-849 | negative numbers have that shape as long as their text without the sign does not parse to them |
| `PipelineTypes.PromotionIsAntisymmetric` | libs/pipeline-expression/types.go:151-173 | promotion is reflexive and antisymmetric |
| `PipelineTypes.PromotionIsTransitive` | libs/pipeline-expression/types.go:151-173 | promotion is transitive, through nested arrays |
| `PipelineTypes.PromoteIsLeastUpperBound` | libs/pipeline-expression/types.go:175-199 | Promote is the least upper bound of its arguments |
| `PipelineTypes.PromoteFailsExactly` | libs/pipeline-expression/types.go:175-199 | Promote fails exactly when there is no common upper bound |
| `PipelineTypes.PromoteCommutes` | libs/pipeline-expression/types.go:175-199 | the order of the arguments does not matter |
| `PipelineTypes.PromoteIsAssociative` | libs/pipeline-expression/types.go:175-199 | nor does the grouping of three |
| `PipelineTypes.PromotionIsWidening` | libs/pipeline-expression/types.go:130-173 | a type widens to another exactly when single widenings lead there: Integer, Long, Double, Decimal; Date, Timestamp; arrays by their elements |
| `ExprInfer.ArgsWithoutErrors` | libs/pipeline-expression/infer.go:285-416 | a call without errors has typed arguments that meet their constraints |
| `ExprInfer.NoErrorsMeansTyped` | libs/pipeline-expression/infer.go:164-235 | an expression without errors has a type: the String fallback is never taken |
| `ExprInfer.Inference.InferInner` | libs/pipeline-expression/infer.go:176-235 | the pass returns the type of the definition and appends exactly its errors, in order |
| `ExprInfer.Inference.InferCall` | libs/pipeline-expression/infer.go:285-380 | likewise for calls, argument by argument |
| `ExprInfer.InferType` | libs/pipeline-expression/infer.go:164-174 | the entry point reports all errors or the type |
| `InferMeaning.BinaryAccepts` | libs/pipeline-expression/infer.go:237-283 | the accepted operand types of every operator and the result type: logic on booleans, comparisons within a family, arithmetic on numbers with the wider one as result, sums of texts |
| `InferMeaning.FunctionAccepts` | libs/pipeline-expression/catalog.go:75-153 | the accepted argument types and the result type of every catalogued function, name by name |
| `InferMeaning.InferIsTyped` | libs/pipeline-expression/infer.go:176-380 | inference answers a type without errors if and only if the expression has that type |
| `InferMeaning.InferExprIsTyped` | libs/pipeline-expression/infer.go:164-174 | InferExpr answers t exactly when the expression has type t, and reports errors exactly when it has none |
| `InferMeaning.UnknownColumnsAreReported` | libs/pipeline-expression/infer.go:164-380 | inference does not stop at the first error: the unknown columns it reports are exactly those of the parts it looks at |
| `Catalog.TypeTextParses` | libs/pipeline-expression/catalog.go:236-271 | a type written in any case with any blanks around it, arrays nested, is read as that type |
| `TypeSoundness.BinaryIsSound` | libs/pipeline-expression/eval.go:270-344 | operators on values of the inferred operand types yield values of the result type |
| `TypeSoundness.CallIsSound` | libs/pipeline-expression/eval.go:462-574 | implemented functions on values of the parameter types yield values of the result type |
| `TypeSoundness.Soundness` | libs/pipeline-expression/eval.go:208-388 | a supported, error-free expression over a conforming row evaluates to a value of its type or fails with a NaN comparison |
| `TypeSoundness.InferExprIsSound` | libs/pipeline-expression/infer.go:164-416 | the same for the public entry point; division is covered as long as its zero guard does not fire |
| `TypeSoundness.ZeroDivisionBreaksTyping` | libs/pipeline-expression/eval.go:333-341 | every well-typed quotient whose guard fires evaluates to null, of no numeric type |
| `TypeSoundness.QuotientIsSoundIff` | libs/pipeline-expression/eval.go:333-341 | a well-typed quotient of operands without zero divisions has a sound result if and only if its zero guard does not fire |
| `TypeSoundness.CataloguedButFails` | libs/pipeline-expression/catalog.go:75-153 | for each catalogued function without evaluator case there is a call that inference accepts and that fails on every conforming row; conforming rows exist |
| `TypeSoundness.ImplementedIsTheBoundary` | libs/pipeline-expression/eval.go:462-574 | apart from casts and distances, calls of a catalogued function are sound whenever inference accepts them if and only if the evaluator implements the function |
| `EvalMeaning.IntegersWrapOnce` | libs/pipeline-expression/eval.go:208-368 | sums, differences, products and negations of integers evaluate to their exact value wrapped once at 64 bits, and so exactly whenever that fits, whatever overflowed on the way |
| `EvalMeaning.QuotientMeaning` | libs/pipeline-expression/eval.go:333-344 | integer division truncates toward zero, gives null for a zero divisor and wraps only for the least integer by minus one |
| `EvalMeaning.AbsMeaning` | libs/pipeline-expression/eval.go:527-548 | abs is the distance from zero, except for the least integer |
| `EvalMeaning.TextMeaning` | libs/pipeline-expression/eval.go:346-354 | + and concat join texts in order |
| `EvalMeaning.TextFunctionMeaning` | libs/pipeline-expression/eval.go:652-670 | the text functions pass texts to the library under their names in any case, and null through |
| `EvalMeaning.NullTestMeaning` | libs/pipeline-expression/eval.go:465-482 | is_null and is_not_null tell null from every other value |
| `EvalMeaning.FormulaMeaning` | libs/pipeline-expression/eval.go:270-312 | logic and comparisons of integers, texts and truth values evaluate to their truth |
| `EvalMeaning.NullComparisons` | libs/pipeline-expression/eval.go:370-388 | null equals only null, and ties with everything in the order |
| `EvalMeaning.FailuresPropagate` | libs/pipeline-expression/eval.go:270-281 | operands are evaluated from the left and both of them always; the first failure is the answer |
| `EvalMeaning.DistanceMeaning` | libs/pipeline-expression/eval.go:588-630 | the distance functions hand over their four numbers in order, in the unit of their name |
| `EvalMeaning.RealMeaning` | libs/pipeline-expression/eval.go:270-368 | over a floating-point library without rounding, mixed integer and double arithmetic is real arithmetic |
| `EvalMeaning.RealOrder` | libs/pipeline-expression/eval.go:370-424 | and the order of such values is the order of the reals |
| `GoInt.WrapIsExactIff` | libs/pipeline-expression/eval.go:346-368 | 64-bit results keep the residue and are exact exactly when they fit |
| `GoInt.TruncDivMeaning` | libs/pipeline-expression/eval.go:333-344 | integer division has the remainder with the dividend's sign, smaller than the divisor |
| `Saga.UnwindEmits` | libs/saga/saga.go:516-537 | compensation emits one event per successful compensation and stops early only by breaking the transaction |
| `Saga.UndoneIsReversed` | libs/saga/saga.go:516-537 | compensated steps follow the reverse of the registration order |
| `Saga.StepKeepsInv` | libs/saga/saga.go:376-583 | every call, whatever fails in it, keeps the link between trace, status, steps, compensations and row |
| `Saga.EveryRunHasATraceForm` | libs/saga/saga.go:376-583 | every run of a session emits completions followed by nothing, completion, failure with compensations, or compensations with abort |
| `Saga.TerminalIsFinal` | libs/saga/saga.go:382-384 | after a terminal status nothing changes |
| `SagaRunner.Runner.RunCompensations` | libs/saga/saga.go:516-537 | the loop from the end of the chain equals the recursive unwinding |
| `SagaRunner.Runner.Emit` | libs/saga/saga.go:542-566 | an event is recorded exactly when its outbox statement works |
| `SagaRunner.Runner.SetStatus` | libs/saga/saga.go:568-583 | row and runner change status together or not at all |
| `SagaRunner.Runner.Execute` | libs/saga/saga.go:376-475 | new state and answer are those of the session function, replay, success and failure alike; a fresh answer is the body's output, and that is what runner and row keep; a replay answers what was kept |
| `SagaRunner.Runner.FinishRun` | libs/saga/saga.go:479-491 | likewise for Finish |
| `SagaRunner.Runner.AbortRun` | libs/saga/saga.go:496-510 | likewise for Abort |
| `SagaRunner.Runner.Drive` | libs/saga/saga.go:376-583 | any sequence of calls on the object is a run of the session |
| `SagaHistory.HistoryIsSound` | libs/saga/saga.go:291-338 | across sessions that commit or roll back, the row mirrors the executed steps and the outbox holds one trace of the listed forms |
| `SagaHistory.ExecutedAtMostOnce` | libs/saga/saga.go:386-450 | a step is recorded as executed at most once over all committed sessions, and the row lists exactly the recorded steps |
| `SagaHistory.BodyCount` | libs/saga/saga.go:413-450 | over all committed sessions a step's Execute body succeeds once if the step is recorded, and once more for every call whose output could not be encoded |
| `SagaHistory.BodySucceedsAtMostOnceIff` | libs/saga/saga.go:413-450 | that is at most once if and only if the output was always encodable, or failed to be encoded once and the step was never recorded |
| `SagaHistory.UnencodableRunsAgain` | libs/saga/saga.go:413-418 | for every step of every saga that can be resumed: after an unencodable output the body runs again, in the same session or in a later one |
| `SagaHistory.RecordStays` | libs/saga/saga.go:428-448 | a recorded output is never overwritten by a later session |
| `SagaHistory.ReplayIsSilent` | libs/saga/saga.go:386-402 | asking for a committed step again returns the recorded output and changes nothing |
| `SagaReplies.AnsweredIsReplayed` | libs/saga/saga.go:376-450 | through replies only: an output answered once was the body's, and every later call for the step in the session, or in any later one after a commit, is answered with the same output until the saga ends |
| `SagaReplies.ReplayWasAnswered` | libs/saga/saga.go:386-402 | what a call replays was a fresh answer of an earlier call of the session, unless the session was opened with it |
| `SagaReplies.EverythingIsUndone` | libs/saga/saga.go:452-537 | when a step fails or the saga is aborted, every step answered in the session is compensated, last first, exactly when its compensation works; the final status says whether any was |
| `SagaHistory.IdInputIsInjective` | libs/saga/saga.go:542-549 | the name an event id is derived from determines step and kind, for any step name |
| `SagaHistory.EventIdsAreDistinct` | libs/saga/saga.go:542-566 | with an injective name-based UUID all event ids of a saga are distinct, across sessions |
| `SagaHistory.EarlierSessionsAreNotCompensated` | libs/saga/saga.go:516-537 | steps of earlier committed sessions are never compensated |
| `StateMachineStore.StepKeepsInv` | libs/state-machine/state_machine.go:146-221 | every statement keeps: rows are folds, versions count commits, a level Loaded differs only by its own pending events |
| `StateMachineStore.RunKeepsInv` | libs/state-machine/state_machine.go:146-221 | so does every interleaving, and committed events are never lost or reordered |
| `StateMachineStore.ExactlyCommittedIff` | libs/state-machine/state_machine.go:193-221 | the mutations in a row are exactly its committed events if and only if every commit used a machine unmutated since load or save |
| `StateMachineStore.RowIsFoldOfCommits` | libs/state-machine/state_machine.go:146-221 | in such runs the machine is the fold of the committed events and the version is one plus their number |
| `StateMachineStore.StaleNeverCommits` | libs/state-machine/state_machine.go:193-221 | a Loaded that got a stale answer never commits later |
| `StateMachineStore.SecondWriterIsStale` | libs/state-machine/state_machine.go:193-221 | of two clients that loaded one version, the second to write gets a stale answer and changes nothing |
| `StateMachineStore.ReusedLoadedAppliesTwice` | libs/state-machine/state_machine.go:193-221 | reusing a Loaded after a driver error applies its event twice |
| `StateMachineRetry.SafeNeverPanics` | libs/state-machine/state_machine.go:266-295 | within the safe backoff no pattern of answers reaches the panicking draw |
| `StateMachineRetry.PanicsIff` | libs/state-machine/state_machine.go:266-295 | some pattern of conflicts panics if and only if the backoff is not safe |
| `StateMachineRetry.DelayIsCappedDoubling` | libs/state-machine/state_machine.go:271-293 | from the second delay on the backoff is base times a power of two, capped at one second |
| `StateMachineRetry.Client.Load` | libs/state-machine/state_machine.go:168-187 | a fresh, unmutated object level with the row; nothing only when the row is missing or the driver fails; no commit |
| `StateMachineRetry.Client.Apply` | libs/state-machine/state_machine.go:193-221 | commits exactly when it answers so, against any interference: the machine decides about rejection, the driver about errors, the row's version about the rest; a commit writes the machine's next state under the next version |
| `StateMachineRetry.Client.TryOnce` | libs/state-machine/state_machine.go:168-221 | one attempt: unless it fails for another reason than a conflict, the row is under a later version afterwards |
| `StateMachineRetry.Client.WithRetry` | libs/state-machine/state_machine.go:266-295 | Load-then-Apply commits its event exactly once if it returns a value and not at all otherwise; only the last attempt is not a conflict, and every conflict comes with somebody's commit; undisturbed, with a working driver and an accepted event, it succeeds at once with the machine's next state |
| `Scheduler.StepKeepsInv` | libs/event-scheduler/scheduler.go:58-159 | every step keeps: one lock per row, claims are current, next is past now, commits are published and ordered |
| `Scheduler.RunKeepsInv` | libs/event-scheduler/scheduler.go:58-159 | so does every interleaving with failures and crashes, and next runs only grow |
| `Scheduler.DueCommittedOnce` | libs/event-scheduler/scheduler.go:58-159 | each due instant of a schedule is committed at most once and only after it was published |
| `Scheduler.CommittedWasPublished` | libs/event-scheduler/scheduler.go:118-157 | each commit fires a published, due instant and moves past its runner's now |
| `Scheduler.NextRunMovesForward` | libs/event-scheduler/scheduler.go:139-150 | next_run_at only grows, and both time columns are those of the last commit |
| `Scheduler.NextIsPastNow` | libs/event-scheduler/scheduler.go:216-242 | the computed next fire is strictly after now, to the nanosecond |
| `SchedulerTick.SelectDue` | libs/event-scheduler/scheduler.go:69-79 | the claim query answers an enabled, due, unlocked row with the least next run, or none exactly when there is none |
| `SchedulerTick.ForeignRun` | libs/event-scheduler/scheduler.go:58-159 | other runners never touch my transaction and never make a row due for my now |
| `SchedulerTick.Ticker.ComputeNextFire` | libs/event-scheduler/scheduler.go:216-242 | the answer of the cron evaluator from now, or an aborted tick |
| `SchedulerTick.Ticker.CommitRow` | libs/event-scheduler/scheduler.go:139-155 | a commit strictly shrinks the set of due rows |
| `SchedulerTick.Ticker.TickRow` | libs/event-scheduler/scheduler.go:64-157 | one transaction: a row claimed, recomputed, published, updated and committed, or none to claim, or an abort |
| `SchedulerTick.Ticker.Tick` | libs/event-scheduler/scheduler.go:58-159 | terminates against any other runners, counts its own commits, and without an error leaves no enabled row due that is not locked; when every statement works, nobody else is active and every due row is free and has a next fire, all due rows fire, earliest first, each with one message, and nothing else changes |
| `SchedulerTick.RowGoesThrough` | libs/event-scheduler/scheduler.go:64-157 | an undisturbed transaction sends the message of the earliest due row and moves that row to its next fire |
| `SchedulerTick.NothingLeft` | libs/event-scheduler/scheduler.go:64-90 | when nothing can be claimed any more, every row that was due has fired, exactly once |
| `NextFire.AnswerOrNone` | libs/scheduling-cron/evaluator.go:17-77 | a fire and the absence of one are not both the answer |
| `ActionLog.BucketRoundTrip` | libs/cassandra-kernel/action_log_store.go:176-187 | a stored day bucket reads back as itself |
| `ActionLog.BucketContainsIff` | libs/cassandra-kernel/action_log_store.go:176-187 | a bucket contains the instants filed under it exactly when their day number fits 32 bits |
| `ActionLog.RereadIsIdentityIff` | libs/cassandra-kernel/action_log_store.go:340-351 | reading a stored row back changes nothing if and only if its subject is empty or not blank |
| `ActionLog.StepKeepsInv` | libs/cassandra-kernel/action_log_store.go:388-523 | every statement of every Append keeps: fan-out rows are copies of the canonical row under its keys |
| `ActionLog.RunKeepsInv` | libs/cassandra-kernel/action_log_store.go:388-523 | so does every interleaving with crashes and lost answers; nothing is ever deleted |
| `ActionLog.FanOutIsCanonical` | libs/cassandra-kernel/action_log_store.go:450-501 | each by-action row is its event's canonical row, for stable subjects; otherwise it differs in the subject at most |
| `ActionLog.LogIsCanonical` | libs/cassandra-kernel/action_log_store.go:450-501 | each actions_log row is the canonical row of the event it names |
| `ActionLog.ByObjectIsCanonical` | libs/cassandra-kernel/action_log_store.go:450-501 | each by-object row is the canonical row of the event it names |
| `ActionLog.OneRowPerEvent` | libs/cassandra-kernel/action_log_store.go:108-114 | the by-action table holds at most one row per event |
| `ActionLog.SuccessfulAppendStays` | libs/cassandra-kernel/action_log_store.go:506-523 | a successful Append leaves its by-action row in place for good, whatever crashed before or runs later |
| `ActionLog.LogRowStaysUnlessShared` | libs/cassandra-kernel/action_log_store.go:91-98 | its actions_log row stays unless another event has the same action and millisecond |
| `ActionLog.SharedMillisecondOverwrites` | libs/cassandra-kernel/action_log_store.go:91-98 | any two such events: the later append removes the earlier one from actions_log |
| `ActionLog.SharedObjectOverwrites` | libs/cassandra-kernel/action_log_store.go:100-106 | the same for actions_by_object when the two events concern one object |
| `ActionLog.ObjectRowStaysUnlessShared` | libs/cassandra-kernel/action_log_store.go:100-106 | after a successful Append of an event with an object its by-object row stays unless another event has the same action, millisecond and object |
| `ActionLog.BlankSubjectDiverges` | libs/cassandra-kernel/action_log_store.go:407-445 | for every blank non-empty subject, a repeated Append leaves a by-action row unlike the canonical row |
| `ActionLogStore.Store.PutEventRow` | libs/cassandra-kernel/action_log_store.go:388-402 | the conditional insert decides between own fan-out and re-reading |
| `ActionLogStore.Store.ReadEventRow` | libs/cassandra-kernel/action_log_store.go:407-445 | the canonical row exists and is fanned out as read back |
| `ActionLogStore.Store.WriteActionFanout` | libs/cassandra-kernel/action_log_store.go:450-501 | the fan-out statements run in order and report success only when all did |
| `ActionLogStore.Store.Append` | libs/cassandra-kernel/action_log_store.go:506-523 | success means the event's by-action row is stored, against any interference and failures; when no other client brought another row for the event, the stored rows hold and list as the caller's entry, column by column |
| `ActionLogListing.StepKeepsBrought` | libs/cassandra-kernel/action_log_store.go:388-523 | the canonical row of every event is the row some Append of that event brought |
| `ActionLogListing.EventIdMeaning` | libs/cassandra-kernel/action_log_store.go:252-279 | an id the caller gives decides alone which event an entry is, then the payload's id, then the name-based one |
| `ActionLogListing.OwnRowReads` | libs/cassandra-kernel/action_log_store.go:206-247 | a row built from an entry has the entry's columns and reads back as the entry, stored once or re-read; only a blank subject is lost |
| `ActionLogListing.AppendThenRead` | libs/cassandra-kernel/action_log_store.go:388-523 | over any run, after a successful Append the event's by-action row, and its actions_log row unless the millisecond is shared, list as an entry that was appended for this event |
| `ActionLogListing.AppendThenList` | libs/cassandra-kernel/action_log_store.go:388-613 | when one entry is all that was appended for its event and no other event of its action has its millisecond, the actions_log row under the entry's own day, time and action lists as that entry |
| `ActionLogListing.AppendedIsListed` | libs/cassandra-kernel/action_log_store.go:388-613 | and ListAll shows it as long as its day is in the window |
| `ActionLogListing.AppendAloneIff` | libs/cassandra-kernel/action_log_store.go:450-523 | an undisturbed Append stores a new event's row with the caller's columns and leaves a known one alone; it succeeds if and only if the canonical payload decodes as an object, and otherwise leaves the read tables untouched |
| `ActionLogPaging.ClampPageSize` | libs/cassandra-kernel/repos_shared.go:118-126 | page sizes are brought into 1..5000 and otherwise kept |
| `ActionLogPaging.FreshIsWindow` | libs/cassandra-kernel/action_log_store.go:156-172 | a fresh token stands for the buckets of the lookback window |
| `ActionLogPaging.ListRecent` | libs/cassandra-kernel/action_log_store.go:531-613 | what the given token stood for splits, in order, into the page and what the page's token stands for; a page with a token, even an empty one, has moved on |
| `ActionLogPaging.ListAll` | libs/cassandra-kernel/action_log_store.go:531-613 | following the tokens, over empty pages too, terminates and yields the window's rows once each, in order; it fails exactly when a row does not parse |
| `ReadModel.RunKeepsIndex` | libs/cassandra-kernel/read_model_store.go:156-226 | after any Puts and Deletes the by-parent table is the main table grouped by parent, for every parent but the empty one |
| `ReadModel.EmptyParentIsLeftBehind` | libs/cassandra-kernel/read_model_store.go:156-239 | an accepted Put or a Delete that takes a record away from the empty parent leaves its old by-parent row |
| `ReadModel.ExactIndexKeptIff` | libs/cassandra-kernel/read_model_store.go:156-239 | an operation keeps the grouping exact for every parent, the empty one included, if and only if it is not one of those |
| `ReadModel.AlwaysExactIff` | libs/cassandra-kernel/read_model_store.go:156-239 | over any sequence of operations the grouping is exact at every moment if and only if none of them is one of those |
| `ReadModel.InterruptedPutIndexedIff` | libs/cassandra-kernel/read_model_store.go:156-201 | a Put stopped after its first or second write leaves the index right if and only if the writes still missing had nothing to do |
| `ReadModel.InterruptedPutStays` | libs/cassandra-kernel/read_model_store.go:156-166 | repeating it is refused, without any effect, unless its version comes from a later clock |
| `ReadModel.RepetitionRepairsIff` | libs/cassandra-kernel/read_model_store.go:156-201 | after the repetition the index is right if and only if no old row was left over and the repetition was accepted or had nothing to write |
| `ReadModel.InterruptedDeleteIndexedIff` | libs/cassandra-kernel/read_model_store.go:203-226 | a Delete stopped after its first write leaves the index right if and only if the record had no parent, and repeating it changes nothing |
| `ReadModel.VersionIsKeptIff` | libs/cassandra-kernel/read_model_store.go:156-239 | an accepted version reads back as itself if and only if it fits the signed column |
| `ReadModel.VersionsGrow` | libs/cassandra-kernel/read_model_store.go:156-201 | between deletes of its key and Puts of its key with versions of 2^63 and more, a stored record is unchanged or has a strictly greater version |
| `ReadModel.PutReadsBack` | libs/cassandra-kernel/read_model_store.go:156-201 | a Put is accepted exactly when its key is new or its version above the stored one; it is read back field by field, no other key changes, and a refusal reports both versions |
| `ReadModel.RunShows` | libs/cassandra-kernel/read_model_store.go:76-226 | over any sequence of Puts and Deletes Get answers what a plain map of records would |
| `ReadModel.ListAllMeaning` | libs/cassandra-kernel/read_model_store.go:94-109 | listing by kind holds exactly the records of the scope that Get finds, in id order |
| `ReadModel.ListUnderMeaning` | libs/cassandra-kernel/read_model_store.go:94-109 | listing by parent holds exactly those with that parent |
| `ReadModel.ListUnderIsFilter` | libs/cassandra-kernel/read_model_store.go:94-109 | listing by parent equals filtering the full list, records and order |
| `ReadModelStore.Store.Get` | libs/cassandra-kernel/read_model_store.go:76-92 | the stored record as it reads back |
| `ReadModelStore.Store.Put` | libs/cassandra-kernel/read_model_store.go:156-201 | tables and answer of the specification, index kept; an error leaves the statements before it |
| `ReadModelStore.Store.Delete` | libs/cassandra-kernel/read_model_store.go:203-226 | likewise for Delete |
| `ReadModelStore.Store.List` | libs/cassandra-kernel/read_model_store.go:94-154 | both listings in id order; by parent it equals the filtered full list |

## Left out

- Postgres, Cassandra, Kafka, NATS, gRPC and Arrow clients: only the effect of each statement on an abstract table is kept.
- Driver errors after an effect: modelled for the schema store and the action log; for the saga, state-machine, scheduler and read-model stores a driver error means no effect.
- Time to live of action-log rows (90 days) and clock changes while a listing is followed: the data of a listing is frozen.
- Drivers that hand back a paging state without having moved: the driver's own position, which also counts the deleted rows it skips, is assumed to advance.
- JSON, base64, SHA and UUID internals: parameters, with inverse or injectivity hypotheses where a theorem needs them.
- Status, failure type and duration columns of actions_log: functions of the payload, which is part of the row.
- ListForObject and ListForAction: the same walk as ListRecent over other tables.
- Page tokens of the read-model list: handed through to the driver.
- Concurrent read-model writers: the source promises nothing about them; Puts and Deletes are sequential here.
- TimeoutSweep and the aggregate id of a machine: a sweep is many loads, and an id is taken to be stable.
- The in-flight step column of saga.state and the failed-step column: written, never read by the runner.
- OpenLineage headers and their timestamp text.
- GetLatest and GetVersion of the schema store: plain reads.
- Overlaps other than one hour, and two transitions within hours of one search: covered by the exact wall-clock answer of NextFireAfter, not by the theorems about UTC order.
- Unicode case mapping: names are folded as ASCII.
- Error messages and offsets of the expression and cron parsers.
- ExprExact.RoundTripExactly: rendering of doubles is a parameter; that a text lexes to the same tokens whatever follows, with at most one number with a point, is a hypothesis on it, proved for texts of digits and points with or without a sign.
- EvalMeaning.RealMeaning: rounding is not modelled; the law is about a floating-point library that is exact on finite reals, and casts are left to the library.
- TypeSoundness.Soundness: casts and haversine distances are excluded, because their results depend on text contents and on trigonometry.
- Transform signatures of the catalogue, seed rows of the preview loader and derived column lists: tables and fixtures.
- SagaRunner.Runner.Execute: the type-erased compensation closure is its step name plus whether it works.
- Object, link and session stores, geometry, auth, quotas, tiles, linter, idempotency helpers and tools: flat or best-effort code without a hard property.
