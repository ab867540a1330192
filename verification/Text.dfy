/** The string functions of Go's standard library that the code uses. */
module Text {
  import opened Common

  /** unicode.IsSpace */
  predicate IsSpace(c: char) {
    var n := c as int;
    || 9 <= n <= 13 || n == 32 || n == 0x85 || n == 0xA0 || n == 0x1680 || 0x2000 <= n <= 0x200A
    || n == 0x2028 || n == 0x2029 || n == 0x202F || n == 0x205F || n == 0x3000
  }

  function TrimLeft(s: string): (r: string)
    ensures |r| <= |s| && (r == "" || !IsSpace(r[0]))
  {
    if s != [] && IsSpace(s[0]) then TrimLeft(s[1..]) else s
  }

  function TrimRight(s: string): (r: string)
    ensures |r| <= |s| && (r == "" || !IsSpace(r[|r| - 1]))
  {
    if s != [] && IsSpace(s[|s| - 1]) then TrimRight(s[..|s| - 1]) else s
  }

  /** strings.TrimSpace */
  function Trim(s: string): (r: string)
    ensures |r| <= |s| && (r == "" || !IsSpace(r[|r| - 1]))
  {
    TrimRight(TrimLeft(s))
  }

  /** strings.Index of one character: its first position. */
  function IndexOf(s: string, c: char): (r: Option<nat>)
    ensures r.Some? ==> r.value < |s| && s[r.value] == c && c !in s[..r.value]
    ensures r.None? ==> c !in s
  {
    if s == "" then None
    else if s[0] == c then Some(0)
    else
      assert s == [s[0]] + s[1..];
      match IndexOf(s[1..], c)
      case None => None
      case Some(n) => assert s[..n + 1] == [s[0]] + s[1..][..n]; Some(n + 1)
  }

  function Join(parts: seq<string>, sep: char): string {
    if parts == [] then ""
    else if |parts| == 1 then parts[0]
    else parts[0] + [sep] + Join(parts[1..], sep)
  }

  /** strings.Split on one character: the parts between its occurrences. */
  function Split(s: string, sep: char): (parts: seq<string>)
    ensures parts != [] && Join(parts, sep) == s && forall p :: p in parts ==> sep !in p
    decreases |s|
  {
    match IndexOf(s, sep)
    case None => assert Join([s], sep) == s; [s]
    case Some(n) =>
      var rest := Split(s[n + 1..], sep);
      assert s == s[..n] + [sep] + s[n + 1..];
      assert ([s[..n]] + rest)[1..] == rest;
      [s[..n]] + rest
  }

  function Flatten(parts: seq<string>): string {
    if parts == [] then "" else parts[0] + Flatten(parts[1..])
  }

  function WithoutSpaces(s: string): string {
    if s == "" then "" else (if IsSpace(s[0]) then "" else [s[0]]) + WithoutSpaces(s[1..])
  }

  /** The length of the leading run without white space. */
  function WordLen(s: string): (n: nat)
    ensures n <= |s| && (forall i :: 0 <= i < n ==> !IsSpace(s[i])) && (n < |s| ==> IsSpace(s[n]))
  {
    if s != "" && !IsSpace(s[0]) then 1 + WordLen(s[1..]) else 0
  }

  lemma FirstKept(s: string)
    requires s != "" && !IsSpace(s[0])
    ensures WithoutSpaces(s) == [s[0]] + WithoutSpaces(s[1..])
  {
  }

  lemma {:induction false} WordsKept(s: string, n: nat)
    requires n <= |s| && forall i :: 0 <= i < n ==> !IsSpace(s[i])
    ensures WithoutSpaces(s) == s[..n] + WithoutSpaces(s[n..])
    decreases n
  {
    hide IsSpace, WithoutSpaces;
    if n == 0 {
      assert s[0..] == s;
    } else {
      var first, rest := s[0], s[1..];
      FirstKept(s);
      WordsKept(rest, n - 1);
      assert s[n..] == rest[n - 1..];
      assert s[..n] == [first] + rest[..n - 1];
      Regroup(first, rest[..n - 1], WithoutSpaces(s[n..]));
    }
  }

  lemma Regroup(c: char, a: string, b: string)
    ensures [c] + (a + b) == ([c] + a) + b
  {
  }

  /** strings.Fields: the maximal runs without white space. */
  function Fields(s: string): (parts: seq<string>)
    ensures forall p :: p in parts ==> p != "" && forall c :: c in p ==> !IsSpace(c)
    ensures Flatten(parts) == WithoutSpaces(s)
    decreases |s|
  {
    if s == "" then []
    else if IsSpace(s[0]) then Fields(s[1..])
    else
      var n := WordLen(s);
      var rest := Fields(s[n..]);
      WordsKept(s, n);
      assert ([s[..n]] + rest)[1..] == rest;
      [s[..n]] + rest
  }
}
