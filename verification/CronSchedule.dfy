/**
 Value sets and the parsed schedule (libs/scheduling-cron/schedule.go).
 */
module CronSchedule {
  import opened Common

  predicate StrictlyAscending(s: seq<nat>) {
    forall i, j :: 0 <= i < j < |s| ==> s[i] < s[j]
  }

  predicate Ascending(s: seq<nat>) {
    forall i, j :: 0 <= i < j < |s| ==> s[i] <= s[j]
  }

  datatype RawSet = Star | Explicit(values: seq<nat>)

  /** The slice of a Go ValueSet is private and always sorted without duplicates. */
  type ValueSet = v: RawSet | v.Explicit? ==> StrictlyAscending(v.values) witness Star

  datatype DayOfMonth = DomStar | DomSet(set_: ValueSet) | DomLast

  datatype DayOfWeek =
    | DowStar
    | DowSet(set_: ValueSet)
    | DowLast(weekday: nat)
    | DowNth(weekday: nat, occurrence: nat)

  datatype Schedule = Schedule(
    seconds: ValueSet, minutes: ValueSet, hours: ValueSet,
    dayOfMonth: DayOfMonth, months: ValueSet, dayOfWeek: DayOfWeek)

  // ---------------------------------------------------------------------------------------------
  // Lookup
  // ---------------------------------------------------------------------------------------------

  /** Membership, the meaning of Contains. */
  predicate Member(v: ValueSet, x: int) {
    v.Star? || exists i :: 0 <= i < |v.values| && v.values[i] == x
  }

  /** sort.Search for the first element at or above x, by bisection of [lo, hi). */
  function LowerBound(s: seq<nat>, x: int, lo: nat, hi: nat): (i: nat)
    requires StrictlyAscending(s) && lo <= hi <= |s|
    requires forall k :: 0 <= k < lo ==> s[k] < x
    requires forall k :: hi <= k < |s| ==> x <= s[k]
    ensures i <= |s|
    ensures forall k :: 0 <= k < i ==> s[k] < x
    ensures forall k :: i <= k < |s| ==> x <= s[k]
    decreases hi - lo
  {
    if lo == hi then lo else
    var mid := (lo + hi) / 2;
    if s[mid] < x then LowerBound(s, x, mid + 1, hi) else LowerBound(s, x, lo, mid)
  }

  predicate Contains(v: ValueSet, x: int)
    ensures Contains(v, x) <==> Member(v, x)
  {
    if v.Star? then true else
    var i := LowerBound(v.values, x, 0, |v.values|);
    i < |v.values| && v.values[i] == x
  }

  /** NextAtOrAfter returns the least member in [x, max]. */
  method NextAtOrAfter(v: ValueSet, x: nat, max: nat) returns (r: Option<nat>)
    ensures r.Some? ==> x <= r.value <= max && Member(v, r.value)
    ensures r.Some? ==> forall y :: x <= y < r.value ==> !Member(v, y)
    ensures r.None? ==> forall y :: x <= y <= max ==> !Member(v, y)
  {
    if v.Star? {
      return if x <= max then Some(x) else None;
    }
    for i := 0 to |v.values|
      invariant forall k :: 0 <= k < i ==> v.values[k] < x || max < v.values[k]
    {
      if x <= v.values[i] <= max {
        return Some(v.values[i]);
      }
    }
    return None;
  }

  // ---------------------------------------------------------------------------------------------
  // Construction
  // ---------------------------------------------------------------------------------------------

  /** Sorting, as sort.Slice promises it. */
  function Insert(x: nat, s: seq<nat>): seq<nat> {
    if s == [] || x <= s[0] then [x] + s else [s[0]] + Insert(x, s[1..])
  }

  function Sorted(s: seq<nat>): seq<nat> {
    if s == [] then [] else Insert(s[0], Sorted(s[1..]))
  }

  predicate Same(s: seq<nat>, t: seq<nat>) {
    (forall x :: x in s ==> x in t) && (forall x :: x in t ==> x in s)
  }

  lemma PrependAscending(h: nat, r: seq<nat>)
    requires Ascending(r) && forall y :: y in r ==> h <= y
    ensures Ascending([h] + r)
  {
    forall i, j | 0 <= i < j < |r| + 1
      ensures ([h] + r)[i] <= ([h] + r)[j]
    {
      assert ([h] + r)[j] == r[j - 1] && r[j - 1] in r;
    }
  }

  lemma {:induction false} InsertIsAscending(x: nat, s: seq<nat>)
    requires Ascending(s)
    ensures Ascending(Insert(x, s))
    ensures forall y :: y in Insert(x, s) <==> y == x || y in s
  {
    if s == [] {
    } else if x <= s[0] {
      PrependAscending(x, s);
    } else {
      assert s == [s[0]] + s[1..];
      InsertIsAscending(x, s[1..]);
      PrependAscending(s[0], Insert(x, s[1..]));
    }
  }

  lemma {:induction false} SortedIsAscending(s: seq<nat>)
    ensures Ascending(Sorted(s)) && Same(s, Sorted(s))
  {
    if s == [] {
    } else {
      SortedIsAscending(s[1..]);
      InsertIsAscending(s[0], Sorted(s[1..]));
      assert s == [s[0]] + s[1..];
    }
  }

  /** The first element of every run of equal elements. */
  function Dedup(s: seq<nat>): (r: seq<nat>)
    ensures s != [] ==> r != [] && r[|r| - 1] == s[|s| - 1]
    ensures |r| <= |s|
  {
    if |s| <= 1 then s else
    var r := Dedup(s[..|s| - 1]);
    if r[|r| - 1] == s[|s| - 1] then r else r + [s[|s| - 1]]
  }

  lemma AppendStrictlyAscending(r: seq<nat>, x: nat)
    requires StrictlyAscending(r) && r != [] && r[|r| - 1] < x
    ensures StrictlyAscending(r + [x])
  {
    forall i, j | 0 <= i < j < |r| + 1
      ensures (r + [x])[i] < (r + [x])[j]
    {
      if j == |r| {
        assert r[i] <= r[|r| - 1];
      }
    }
  }

  lemma SameAppend(s: seq<nat>, r: seq<nat>, x: nat)
    requires Same(s, r)
    ensures Same(s + [x], r + [x]) && (x in r ==> Same(s + [x], r))
  {
  }

  lemma AscendingFront(s: seq<nat>)
    requires Ascending(s) && |s| >= 2
    ensures Ascending(s[..|s| - 1]) && s[|s| - 2] <= s[|s| - 1]
  {
  }

  lemma ShortIsStrict(s: seq<nat>)
    requires |s| <= 1
    ensures StrictlyAscending(s) && Same(s, s)
  {
  }

  lemma {:induction false} DedupKeepsElements(s: seq<nat>)
    requires Ascending(s)
    ensures StrictlyAscending(Dedup(s)) && Same(s, Dedup(s))
    decreases |s|
  {
    hide Ascending, StrictlyAscending, Same;
    if |s| <= 1 {
      ShortIsStrict(s);
    } else {
      var front, last := s[..|s| - 1], s[|s| - 1];
      AscendingFront(s);
      DedupKeepsElements(front);
      var r := Dedup(front);
      assert r[|r| - 1] == s[|s| - 2] <= last;
      assert s == front + [last];
      SameAppend(front, r, last);
      if r[|r| - 1] != last {
        AppendStrictlyAscending(r, last);
      }
    }
  }

  /** dedupSorted compacts a slice in place and returns the length of the trimmed prefix. */
  method DedupSorted(a: array<nat>) returns (n: nat)
    modifies a
    ensures n <= a.Length && a[..n] == Dedup(old(a[..]))
  {
    if a.Length <= 1 {
      assert a[..a.Length] == old(a[..]);
      return a.Length;
    }
    n := 1;
    ghost var s := a[..];
    assert a[..1] == Dedup(s[..1]);
    for i := 1 to a.Length
      invariant 1 <= n <= i
      invariant forall k :: i <= k < a.Length ==> a[k] == s[k]
      invariant a[..n] == Dedup(s[..i])
    {
      assert s[..i + 1][..i] == s[..i];
      if a[i] != a[n - 1] {
        a[n] := a[i];
        n := n + 1;
      }
    }
    assert s[..a.Length] == s;
  }

  /** FromValues: the set of exactly the given values. */
  method FromValues(values: seq<nat>) returns (v: ValueSet)
    ensures v.Explicit? && Same(values, v.values)
    ensures values != [] ==> v.values != []
  {
    var sorted := Sorted(values);
    SortedIsAscending(values);
    var out := new nat[|sorted|](i requires 0 <= i < |sorted| => sorted[i]);
    assert out[..] == sorted;
    DedupKeepsElements(sorted);
    var n := DedupSorted(out);
    if values != [] {
      assert values[0] in sorted;
    }
    v := Explicit(out[..n]);
  }
}
