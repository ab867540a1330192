/**
 Listing the recent action log page by page (libs/cassandra-kernel/action_log_store.go:146-172, 531-613): a
 walk over day buckets, newest first, with a cursor that can be resumed between and inside buckets.
 */
module ActionLogPaging {
  import opened Common
  import opened ActionLog

  const LOOKBACK_DAYS := 90
  const MAX_PAGE := 5000

  /** A row of actions_log; `valid` says whether its payload parses. */
  datatype LogRow = LogRow(event: Option<EventId>, row: Row, valid: bool)

  /** What the driver walks over in a partition: a row, or something it skips, such as a deleted row. */
  datatype Cell = Live(row: LogRow) | Skipped

  /** The cells of each bucket in clustering order, frozen while a listing is followed. */
  type Buckets = nat -> seq<Cell>

  /** actionRecentToken; `paging` is the driver's position inside the bucket. */
  datatype Token = Token(day: nat, scanned: nat, paging: Option<nat>)

  datatype Page = Page(items: seq<Entry>, next: Option<Token>)

  /** One answer of the driver: how many cells it walked over, and whether a paging state is left over.  A page
      may come back without a row and still carry a paging state. */
  datatype Fetched = Fetched(count: nat, more: bool)

  /** (day, position, page size, call) to what comes back. */
  type Driver = (nat, nat, nat, nat) -> Fetched

  /** Without a paging state the bucket is exhausted; with one the driver's own position has moved. */
  ghost predicate Honest(driver: Driver, data: Buckets) {
    forall day: nat, at: nat, size: nat, call: nat :: at <= |data(day)| ==>
      var f := driver(day, at, size, call);
      && at + f.count <= |data(day)|
      && (!f.more ==> at + f.count == |data(day)|)
      && (f.more ==> f.count >= 1)
  }

  function LiveRows(cells: seq<Cell>): (rows: seq<LogRow>)
    ensures |rows| <= |cells|
  {
    if cells == [] then [] else
    LiveRows(cells[..|cells| - 1]) + if cells[|cells| - 1].Live? then [cells[|cells| - 1].row] else []
  }

  /** The driver never yields more rows than the page size. */
  ghost predicate Bounded(driver: Driver, data: Buckets) {
    forall day: nat, at: nat, size: nat, call: nat :: at + driver(day, at, size, call).count <= |data(day)| ==>
      |LiveRows(data(day)[at..at + driver(day, at, size, call).count])| <= size
  }

  function ClampPageSize(n: nat): (r: nat)
    ensures 1 <= r <= 5000 && (1 <= n <= 5000 ==> r == n)
  {
    if n == 0 then 1 else if n > MAX_PAGE then MAX_PAGE else n
  }

  /** entryFromRow */
  function EntryFromRow(tenant: Tenant, r: LogRow): Entry {
    Entry(tenant, r.event, r.row.actionId, r.row.kind, SubjectFrom(r.row.actor, r.row.subject),
          r.row.target, r.row.payload, r.row.appliedAt)
  }

  function Entries(tenant: Tenant, rows: seq<LogRow>): (es: seq<Entry>)
    ensures |es| == |rows| && forall i :: 0 <= i < |es| ==> es[i] == EntryFromRow(tenant, rows[i])
  {
    if rows == [] then [] else Entries(tenant, rows[..|rows| - 1]) + [EntryFromRow(tenant, rows[|rows| - 1])]
  }

  predicate AllValid(rows: seq<LogRow>) {
    forall i :: 0 <= i < |rows| ==> rows[i].valid
  }

  // ---------------------------------------------------------------------------------------------
  // What is left to list
  // ---------------------------------------------------------------------------------------------

  function Position(t: Token): nat {
    if t.paging.Some? then t.paging.value else 0
  }

  predicate InBucket(t: Token, data: Buckets) {
    Position(t) <= |data(t.day)|
  }

  /** The cells a token stands for: the rest of its bucket and the older buckets of the window. */
  function Remaining(data: Buckets, t: Token): seq<Cell>
    requires InBucket(t, data)
    decreases LOOKBACK_DAYS - t.scanned, 1
  {
    if t.scanned >= LOOKBACK_DAYS then [] else data(t.day)[Position(t)..] + Older(data, t.day, t.scanned)
  }

  function Older(data: Buckets, day: nat, scanned: nat): seq<Cell>
    requires scanned < LOOKBACK_DAYS
    decreases LOOKBACK_DAYS - scanned, 0
  {
    if day == 0 then [] else Remaining(data, Token(day - 1, scanned + 1, None))
  }

  /** The cells of the n buckets back from `today`, newest bucket first. */
  function Window(data: Buckets, today: nat, n: nat): seq<Cell>
    requires n <= today + 1
  {
    if n == 0 then [] else Window(data, today, n - 1) + data(today - (n - 1))
  }

  function WindowSize(today: nat): nat {
    Min(LOOKBACK_DAYS, today + 1)
  }

  lemma Unfold(data: Buckets, t: Token)
    requires InBucket(t, data)
    ensures Remaining(data, t) ==
      if t.scanned >= LOOKBACK_DAYS then [] else data(t.day)[Position(t)..] + Older(data, t.day, t.scanned)
  {
  }

  lemma UnfoldWindow(data: Buckets, today: nat, n: nat)
    requires 1 <= n <= today + 1
    ensures Window(data, today, n) == Window(data, today, n - 1) + data(today - (n - 1))
  {
  }

  lemma {:induction false} RemainingFollowsWindow(data: Buckets, today: nat, k: nat)
    requires k < WindowSize(today)
    ensures Window(data, today, k) + Remaining(data, Token(today - k, k, None)) ==
      Window(data, today, WindowSize(today))
    decreases WindowSize(today) - k
  {
    hide Remaining, Window;
    var t := Token(today - k, k, None);
    var bucket := data(t.day);
    assert bucket[0..] == bucket;
    Unfold(data, t);
    UnfoldWindow(data, today, k + 1);
    var so := Window(data, today, k);
    if k + 1 < WindowSize(today) {
      RemainingFollowsWindow(data, today, k + 1);
      assert so + (bucket + Older(data, t.day, t.scanned)) == (so + bucket) + Older(data, t.day, t.scanned);
    } else {
      if t.day > 0 {
        Unfold(data, Token(t.day - 1, k + 1, None));
      }
      assert Older(data, t.day, t.scanned) == [];
    }
  }

  /** A fresh token stands for exactly the window. */
  lemma FreshIsWindow(data: Buckets, today: nat)
    ensures Remaining(data, Token(today, 0, None)) == Window(data, today, WindowSize(today))
    ensures WindowSize(today) == if today < 90 then today + 1 else 90
  {
    RemainingFollowsWindow(data, today, 0);
    hide Remaining;
    assert Window(data, today, 0) == [];
  }

  // ---------------------------------------------------------------------------------------------
  // One page
  // ---------------------------------------------------------------------------------------------

  /** One bucket query: its rows as entries, or None at the first row that does not parse. */
  method ScanBucket(tenant: Tenant, rows: seq<LogRow>) returns (r: Option<seq<Entry>>)
    ensures r == if AllValid(rows) then Some(Entries(tenant, rows)) else None
  {
    var items: seq<Entry> := [];
    for i := 0 to |rows|
      invariant items == Entries(tenant, rows[..i]) && AllValid(rows[..i])
    {
      if !rows[i].valid {
        return None;
      }
      assert rows[..i + 1][..i] == rows[..i];
      items := items + [EntryFromRow(tenant, rows[i])];
    }
    assert rows[..|rows|] == rows;
    return Some(items);
  }

  ghost function Rest(data: Buckets, next: Option<Token>): seq<Cell>
    requires next.Some? ==> InBucket(next.value, data)
  {
    if next.Some? then Remaining(data, next.value) else []
  }

  /** The rows of the cells are the entries, and all of them parse. */
  ghost predicate Shows(tenant: Tenant, cells: seq<Cell>, items: seq<Entry>) {
    AllValid(LiveRows(cells)) && items == Entries(tenant, LiveRows(cells))
  }

  /** ListRecent: what the given token stood for splits into the page and what the page's token stands for, in
      order; a page with a token, even an empty one, has moved the driver's position; the call fails only
      because of a row ahead of it. */
  method ListRecent(tenant: Tenant, data: Buckets, driver: Driver, start: Token, size: nat)
    returns (r: Result<Page, ()>)
    requires Honest(driver, data) && InBucket(start, data)
    ensures r.Ok? ==>
      && (r.value.next.Some? ==> InBucket(r.value.next.value, data) && r.value.next.value.scanned < LOOKBACK_DAYS)
      && var left, rest := Remaining(data, start), Rest(data, r.value.next);
         && |rest| <= |left| && left[|left| - |rest|..] == rest
         && Shows(tenant, left[..|left| - |rest|], r.value.items)
         && (r.value.next.Some? ==> |rest| < |left|)
    ensures r.Ok? && Bounded(driver, data) ==> |r.value.items| <= ClampPageSize(size)
    ensures r.Err? ==> !AllValid(LiveRows(Remaining(data, start)))
  {
    hide Remaining, EntryFromRow, AllValid, Entries, LiveRows, ClampPageSize, Shows;
    var token := start;
    var limit := ClampPageSize(size);
    var items := [];
    ghost var listed: seq<Cell> := [];
    NothingShown(tenant);
    var call := 0;
    while |items| < limit && token.scanned < LOOKBACK_DAYS
      invariant InBucket(token, data) && (|items| < limit || token.scanned >= LOOKBACK_DAYS)
      invariant listed + Remaining(data, token) == Remaining(data, start)
      invariant Shows(tenant, listed, items)
      invariant Bounded(driver, data) ==> |items| <= limit
      decreases LOOKBACK_DAYS - token.scanned
    {
      var at := Position(token);
      var fetched := driver(token.day, at, ClampPageSize(limit - |items|), call);
      var cells := data(token.day)[at..at + fetched.count];
      ghost var before := listed;
      listed := listed + cells;
      BucketSplits(data, token, fetched.count, before, start);
      assert Bounded(driver, data) ==> |LiveRows(cells)| <= limit - |items| by {
        PageIsBounded(driver, data, token.day, at, limit - |items|, call);
      }
      call := call + 1;
      var scanned := ScanBucket(tenant, LiveRows(cells));
      if scanned.None? {
        InvalidInside(before, cells, Remaining(data, start));
        return Err(());
      }
      ShowsMore(tenant, before, items, cells, scanned.value);
      items := items + scanned.value;
      if fetched.more {
        token := token.(paging := Some(at + fetched.count));
        Cut(listed, Remaining(data, token), Remaining(data, start));
        return Ok(Page(items, Some(token)));
      }
      if token.day == 0 {
        Cut(listed, [], Remaining(data, start));
        return Ok(Page(items, None));
      }
      token := Token(token.day - 1, token.scanned + 1, None);
      if |items| >= limit && token.scanned < LOOKBACK_DAYS {
        Cut(listed, Remaining(data, token), Remaining(data, start));
        return Ok(Page(items, Some(token)));
      }
    }
    Unfold(data, token);
    Cut(listed, [], Remaining(data, start));
    return Ok(Page(items, None));
  }

  lemma PageIsBounded(driver: Driver, data: Buckets, day: nat, at: nat, size: nat, call: nat)
    requires Honest(driver, data) && at <= |data(day)| && 1 <= size <= MAX_PAGE
    ensures
      var count := driver(day, at, ClampPageSize(size), call).count;
      && at + count <= |data(day)|
      && (Bounded(driver, data) ==> |LiveRows(data(day)[at..at + count])| <= size)
  {
    hide LiveRows;
  }

  /** After walking over `count` cells of the current bucket: what is left, in each way the loop goes on. */
  lemma BucketSplits(data: Buckets, t: Token, count: nat, before: seq<Cell>, start: Token)
    requires InBucket(t, data) && InBucket(start, data) && t.scanned < LOOKBACK_DAYS
    requires Position(t) + count <= |data(t.day)|
    requires before + Remaining(data, t) == Remaining(data, start)
    ensures
      var at := Position(t);
      var listed := before + data(t.day)[at..at + count];
      && listed + Remaining(data, t.(paging := Some(at + count))) == Remaining(data, start)
      && listed <= Remaining(data, start)
      && (at + count == |data(t.day)| && t.day == 0 ==> listed == Remaining(data, start))
      && (at + count == |data(t.day)| && t.day > 0 ==>
            listed + Remaining(data, Token(t.day - 1, t.scanned + 1, None)) == Remaining(data, start))
  {
    hide Remaining, Older;
    var at := Position(t);
    var bucket := data(t.day);
    var here, rest, older := bucket[at..at + count], bucket[at + count..], Older(data, t.day, t.scanned);
    Unfold(data, t);
    Unfold(data, t.(paging := Some(at + count)));
    UnfoldOlder(data, t.day, t.scanned);
    assert bucket[at..] == here + rest;
    Regroup(before, here, rest, older, Remaining(data, start));
  }

  lemma UnfoldOlder(data: Buckets, day: nat, scanned: nat)
    requires scanned < LOOKBACK_DAYS
    ensures Older(data, day, scanned) == if day == 0 then [] else Remaining(data, Token(day - 1, scanned + 1, None))
  {
    hide Remaining;
  }

  lemma Regroup(a: seq<Cell>, b: seq<Cell>, c: seq<Cell>, d: seq<Cell>, all: seq<Cell>)
    requires a + ((b + c) + d) == all
    ensures (a + b) + (c + d) == all && a + b <= all
    ensures c == [] ==> (a + b) + d == all
    ensures c == [] && d == [] ==> a + b == all
  {
    assert (a + b) + (c + d) == a + ((b + c) + d);
    if c == [] {
      assert c + d == d;
    }
  }

  lemma EntriesConcat(tenant: Tenant, a: seq<LogRow>, b: seq<LogRow>)
    ensures Entries(tenant, a + b) == Entries(tenant, a) + Entries(tenant, b)
    ensures AllValid(a) && AllValid(b) <==> AllValid(a + b)
  {
    hide EntryFromRow;
    if AllValid(a + b) {
      assert forall i :: 0 <= i < |a| ==> (a + b)[i] == a[i];
      assert forall i :: 0 <= i < |b| ==> (a + b)[|a| + i] == b[i];
    }
  }

  lemma {:induction false} LiveConcat(a: seq<Cell>, b: seq<Cell>)
    ensures LiveRows(a + b) == LiveRows(a) + LiveRows(b)
    decreases |b|
  {
    if b == [] {
      assert a + b == a;
    } else {
      var front := b[..|b| - 1];
      assert (a + b)[..|a + b| - 1] == a + front;
      LiveConcat(a, front);
    }
  }

  lemma NothingShown(tenant: Tenant)
    ensures Shows(tenant, [], [])
  {
  }

  lemma ShowsMore(tenant: Tenant, a: seq<Cell>, items: seq<Entry>, b: seq<Cell>, more: seq<Entry>)
    requires Shows(tenant, a, items) && AllValid(LiveRows(b)) && more == Entries(tenant, LiveRows(b))
    ensures Shows(tenant, a + b, items + more) && |items| <= |a|
  {
    hide LiveRows, Entries, AllValid;
    LiveConcat(a, b);
    EntriesConcat(tenant, LiveRows(a), LiveRows(b));
  }

  /** A row that does not parse makes every listing that contains it invalid. */
  lemma InvalidInside(a: seq<Cell>, b: seq<Cell>, all: seq<Cell>)
    requires !AllValid(LiveRows(b)) && a + b <= all
    ensures !AllValid(LiveRows(all))
  {
    hide LiveRows, AllValid;
    assert all == a + b + all[|a + b|..];
    LiveConcat(a + b, all[|a + b|..]);
    LiveConcat(a, b);
    EntriesConcat("", LiveRows(a + b), LiveRows(all[|a + b|..]));
    EntriesConcat("", LiveRows(a), LiveRows(b));
  }

  lemma Cut(a: seq<Cell>, b: seq<Cell>, all: seq<Cell>)
    requires a + b == all
    ensures |a| <= |all| && all[..|a|] == a && all[|a|..] == b
  {
  }

  // ---------------------------------------------------------------------------------------------
  // The whole listing
  // ---------------------------------------------------------------------------------------------

  /** Following NextToken from a fresh listing until there is none, with any page sizes and any way the
      driver cuts its pages, empty ones included: the calls terminate, and together they yield the rows of the
      window, each once and in order; they fail if and only if some row of the window does not parse. */
  method ListAll(tenant: Tenant, data: Buckets, drivers: nat -> Driver, sizes: nat -> nat, today: nat)
    returns (r: Result<seq<Entry>, ()>, calls: nat)
    requires forall k :: Honest(drivers(k), data)
    ensures var window := Window(data, today, WindowSize(today));
      && (r.Ok? <==> AllValid(LiveRows(window)))
      && (r.Ok? ==> r.value == Entries(tenant, LiveRows(window)))
      && calls <= |window| + 1
  {
    hide Remaining, Window, EntryFromRow, Entries, LiveRows, AllValid;
    FreshIsWindow(data, today);
    ghost var window := Window(data, today, WindowSize(today));
    var token := Token(today, 0, None);
    var all: seq<Entry> := [];
    ghost var done: seq<Cell> := [];
    NothingShown(tenant);
    calls := 0;
    while true
      invariant InBucket(token, data) && done + Remaining(data, token) == window
      invariant Shows(tenant, done, all) && calls <= |done|
      decreases |Remaining(data, token)|
    {
      ghost var left := Remaining(data, token);
      var page := ListRecent(tenant, data, drivers(calls), token, sizes(calls));
      calls := calls + 1;
      if page.Err? {
        InvalidInside(done, left, window);
        return Err(()), calls;
      }
      ghost var n := |left| - |Rest(data, page.value.next)|;
      ShowsMore(tenant, done, all, left[..n], page.value.items);
      Move(done, left, n);
      done := done + left[..n];
      all := all + page.value.items;
      if page.value.next.None? {
        assert done + [] == done;
        return Ok(all), calls;
      }
      token := page.value.next.value;
    }
  }

  lemma Move(a: seq<Cell>, b: seq<Cell>, n: nat)
    requires n <= |b|
    ensures (a + b[..n]) + b[n..] == a + b
  {
  }
}
