/**
 Identifiers in the order sort.Strings gives them, and sorting.  Comparing code points one by one
 agrees with Go's comparison of UTF-8 bytes.
 */
module IdOrder {

  type Id = string

  predicate Less(a: Id, b: Id) {
    if b == [] then false
    else if a == [] then true
    else if a[0] != b[0] then a[0] < b[0]
    else Less(a[1..], b[1..])
  }

  lemma {:induction false} LessIsTotal(a: Id, b: Id)
    ensures a == b || Less(a, b) || Less(b, a)
  {
    if a != [] && b != [] && a[0] == b[0] {
      LessIsTotal(a[1..], b[1..]);
      assert a == [a[0]] + a[1..] && b == [b[0]] + b[1..];
    }
  }

  lemma {:induction false} LessIsTransitive(a: Id, b: Id, c: Id)
    requires Less(a, b) && Less(b, c)
    ensures Less(a, c)
  {
    if a != [] && a[0] == b[0] && b[0] == c[0] {
      LessIsTransitive(a[1..], b[1..], c[1..]);
    }
  }

  lemma {:induction false} LessIsIrreflexive(a: Id)
    ensures !Less(a, a)
  {
    if a != [] {
      LessIsIrreflexive(a[1..]);
    }
  }

  ghost predicate NoDuplicates<T>(s: seq<T>) {
    forall i, j :: 0 <= i < j < |s| ==> s[i] != s[j]
  }

  function Elements<T>(s: seq<T>): set<T> {
    set x | x in s
  }

  ghost predicate StrictlySorted(s: seq<Id>) {
    forall i, j :: 0 <= i < j < |s| ==> Less(s[i], s[j])
  }

  /** sort.Strings */
  function Insert(x: Id, s: seq<Id>): seq<Id> {
    if s == [] || !Less(s[0], x) then [x] + s else [s[0]] + Insert(x, s[1..])
  }

  function Sort(s: seq<Id>): seq<Id> {
    if s == [] then [] else Insert(s[0], Sort(s[1..]))
  }

  lemma PrependSorted(h: Id, r: seq<Id>)
    requires StrictlySorted(r) && forall y :: y in r ==> Less(h, y)
    ensures StrictlySorted([h] + r)
  {
    forall i, j | 0 <= i < j < |r| + 1
      ensures Less(([h] + r)[i], ([h] + r)[j])
    {
      assert ([h] + r)[j] == r[j - 1] && r[j - 1] in r;
    }
  }

  lemma {:induction false} InsertSorts(x: Id, s: seq<Id>)
    requires StrictlySorted(s) && x !in s
    ensures StrictlySorted(Insert(x, s)) && Elements(Insert(x, s)) == {x} + Elements(s)
  {
    if s == [] {
      assert Insert(x, s) == [x];
    } else if !Less(s[0], x) {
      LessIsTotal(x, s[0]);
      forall y | y in s
        ensures Less(x, y)
      {
        var k :| 0 <= k < |s| && s[k] == y;
        if k > 0 {
          LessIsTransitive(x, s[0], s[k]);
        }
      }
      PrependSorted(x, s);
    } else {
      assert s == [s[0]] + s[1..];
      InsertSorts(x, s[1..]);
      var r := Insert(x, s[1..]);
      forall y | y in r
        ensures Less(s[0], y)
      {
        assert y in Elements(r);
        assert y == x || y in s[1..];
      }
      PrependSorted(s[0], r);
      assert Elements([s[0]] + r) == {s[0]} + Elements(r);
    }
  }

  lemma {:induction false} SortSorts(s: seq<Id>)
    requires NoDuplicates(s)
    ensures StrictlySorted(Sort(s)) && Elements(Sort(s)) == Elements(s)
  {
    if s == [] {
    } else {
      assert s == [s[0]] + s[1..];
      SortSorts(s[1..]);
      assert s[0] !in s[1..];
      assert s[0] !in Elements(Sort(s[1..]));
      InsertSorts(s[0], Sort(s[1..]));
    }
  }

  /** A set has one strictly sorted listing. */
  lemma {:induction false} SortedIsUnique(s: seq<Id>, t: seq<Id>)
    requires StrictlySorted(s) && StrictlySorted(t) && Elements(s) == Elements(t)
    ensures s == t
    decreases |s|
  {
    if s == [] {
      SortedHasNoDuplicates(t);
      ElementsCount(t);
    } else {
      assert s[0] in Elements(t);
      assert t[0] in Elements(s);
      HeadIsLeast(s, t[0]);
      HeadIsLeast(t, s[0]);
      if s[0] != t[0] {
        LessIsTransitive(s[0], t[0], s[0]);
        LessIsIrreflexive(s[0]);
      }
      TailElements(s);
      TailElements(t);
      SortedIsUnique(s[1..], t[1..]);
      assert s == [s[0]] + s[1..] && t == [t[0]] + t[1..];
    }
  }

  lemma HeadIsLeast(s: seq<Id>, x: Id)
    requires StrictlySorted(s) && x in s
    ensures x == s[0] || Less(s[0], x)
  {
  }

  lemma TailElements(s: seq<Id>)
    requires StrictlySorted(s) && s != []
    ensures StrictlySorted(s[1..]) && Elements(s[1..]) == Elements(s) - {s[0]}
  {
    LessIsIrreflexive(s[0]);
    forall x | x in s && x != s[0]
      ensures x in s[1..]
    {
      var k :| 0 <= k < |s| && s[k] == x;
      assert s[1..][k - 1] == x;
    }
    forall x | x in s[1..]
      ensures x != s[0]
    {
      var k :| 0 <= k < |s| - 1 && s[1..][k] == x;
      assert Less(s[0], s[k + 1]);
    }
  }

  lemma SortedHasNoDuplicates(s: seq<Id>)
    requires StrictlySorted(s)
    ensures NoDuplicates(s)
  {
    forall i, j | 0 <= i < j < |s|
      ensures s[i] != s[j]
    {
      LessIsIrreflexive(s[i]);
    }
  }

  function Reverse<T>(s: seq<T>): (r: seq<T>)
    ensures |r| == |s| && forall i :: 0 <= i < |s| ==> r[i] == s[|s| - 1 - i]
  {
    if s == [] then [] else Reverse(s[1..]) + [s[0]]
  }

  /** A set listed in ascending order. */
  ghost function Listing(xs: set<Id>): (s: seq<Id>)
    ensures StrictlySorted(s) && Elements(s) == xs
  {
    if xs == {} then [] else
    var x :| x in xs;
    var rest := Listing(xs - {x});
    assert x !in Elements(rest);
    InsertSorts(x, rest);
    Insert(x, rest)
  }

  /** Sorting any enumeration of a set gives its listing: the enumeration order does not matter. */
  lemma SortIsListing(s: seq<Id>)
    requires NoDuplicates(s)
    ensures Sort(s) == Listing(Elements(s))
  {
    SortSorts(s);
    SortedIsUnique(Sort(s), Listing(Elements(s)));
  }

  // ---------------------------------------------------------------------------------------------
  // Counting
  // ---------------------------------------------------------------------------------------------

  lemma {:induction false} ElementsCount<T>(s: seq<T>)
    requires NoDuplicates(s)
    ensures |Elements(s)| == |s|
  {
    if s == [] {
    } else {
      var front, last := s[..|s| - 1], s[|s| - 1];
      assert s == front + [last];
      ElementsCount(front);
      assert Elements(s) == Elements(front) + {last};
      assert last !in front;
    }
  }

  lemma {:induction false} SubsetCount<T>(a: set<T>, b: set<T>)
    requires a <= b
    ensures |a| <= |b| && (|a| == |b| ==> a == b)
  {
    if a == {} {
      if b != {} {
        var x :| x in b;
        assert |b| == |b - {x}| + 1;
      }
    } else {
      var x :| x in a;
      SubsetCount(a - {x}, b - {x});
      if |a| == |b| {
        assert a == (a - {x}) + {x} && b == (b - {x}) + {x};
      }
    }
  }

  /** Pigeonhole: more entries than values means a repeated value. */
  lemma Pigeonhole<T>(s: seq<T>, values: set<T>) returns (i: nat, j: nat)
    requires Elements(s) <= values && |values| < |s|
    ensures i < j < |s| && s[i] == s[j]
  {
    if NoDuplicates(s) {
      ElementsCount(s);
      SubsetCount(Elements(s), values);
      assert false;
    }
    i, j :| 0 <= i < j < |s| && s[i] == s[j];
  }
}
