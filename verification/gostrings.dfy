/** The functions of Go's strings package that the DSN parser relies on, for a non-empty
    separator: Index, SplitN with a positive count, Split, Replace with no limit, and
    Contains. */
module GoStrings {

  /** `sep` occurs in `s` at position `j`. */
  predicate OccursAt(s: string, sep: string, j: int)
  {
    0 <= j && j + |sep| <= |s| && s[j..j + |sep|] == sep
  }

  /** strings.Index: the first position at which `sep` occurs in `s`, or -1. */
  function Index(s: string, sep: string): (i: int)
    requires sep != []
    ensures i == -1 || OccursAt(s, sep, i)
    ensures forall j :: 0 <= j && (i == -1 || j < i) ==> !OccursAt(s, sep, j)
    decreases |s|
  {
    if |s| < |sep| then -1
    else if s[..|sep|] == sep then 0
    else
      var k := Index(s[1..], sep);
      forall j | 1 <= j
        ensures OccursAt(s, sep, j) <==> OccursAt(s[1..], sep, j - 1)
      {
        if j + |sep| <= |s| {
          SliceShift(s, j, |sep|);
        }
      }
      if k < 0 then -1 else k + 1
  }

  /** strings.Contains. */
  function Contains(s: string, sep: string): bool
    requires sep != []
  {
    Index(s, sep) >= 0
  }

  /** The parts joined back with the separator between them. */
  function Join(parts: seq<string>, sep: string): string
  {
    if parts == [] then []
    else if |parts| == 1 then parts[0]
    else parts[0] + sep + Join(parts[1..], sep)
  }

  /** strings.SplitN with n > 0: at most n parts, split at the first n - 1 occurrences of
      `sep`; every part but the last is free of `sep`, and so is the last one when there are
      fewer than n parts. */
  function SplitN(s: string, sep: string, n: nat): (r: seq<string>)
    requires sep != [] && n >= 1
    ensures 1 <= |r| <= n
    ensures Join(r, sep) == s
    ensures forall k {:trigger Index(r[k], sep)} :: 0 <= k < |r| - 1 ==> Index(r[k], sep) == -1
    ensures |r| < n ==> Index(r[|r| - 1], sep) == -1
    decreases n
  {
    var i := Index(s, sep);
    if n == 1 || i < 0 then [s]
    else
      var rest := SplitN(s[i + |sep|..], sep, n - 1);
      PrefixFree(s, sep, i);
      JoinAt(s, sep, i);
      var r := [s[..i]] + rest;
      assert r[0] == s[..i] && r[1..] == rest;
      assert forall k :: 1 <= k < |r| ==> r[k] == rest[k - 1];
      assert Join(r, sep) == s[..i] + sep + Join(rest, sep);
      r
  }

  /** strings.Split: every part, none of which holds `sep`. */
  function Split(s: string, sep: string): (r: seq<string>)
    requires sep != []
    ensures |r| >= 1
    ensures Join(r, sep) == s
    ensures forall k {:trigger Index(r[k], sep)} :: 0 <= k < |r| ==> Index(r[k], sep) == -1
    decreases |s|
  {
    var i := Index(s, sep);
    if i < 0 then [s]
    else
      var rest := Split(s[i + |sep|..], sep);
      PrefixFree(s, sep, i);
      JoinAt(s, sep, i);
      [s[..i]] + rest
  }

  /** strings.Replace with n < 0: every occurrence of `pat`, from left to right and not
      overlapping, replaced by `sub`. */
  function Replace(s: string, pat: string, sub: string): (r: string)
    requires pat != []
    ensures Index(s, pat) == -1 ==> r == s
    decreases |s|
  {
    if |s| >= |pat| && s[..|pat|] == pat then sub + Replace(s[|pat|..], pat, sub)
    else if s == [] then []
    else
      [s[0]] + Replace(s[1..], pat, sub)
  }

  // ---------------------------------------------------------------- lemmas

  /** s is the text before an occurrence, the separator, and the text after it. */
  lemma JoinAt(s: string, sep: string, i: int)
    requires OccursAt(s, sep, i)
    ensures s == s[..i] + sep + s[i + |sep|..]
  {
    assert s == s[..i] + s[i..i + |sep|] + s[i + |sep|..];
  }

  /** A slice of s from j is the same slice of s[1..] from j - 1. */
  lemma SliceShift(s: string, j: int, m: nat)
    requires 1 <= j && j + m <= |s|
    ensures s[1..][j - 1..j - 1 + m] == s[j..j + m]
  {
  }

  /** The text before the first occurrence holds no occurrence. */
  lemma PrefixFree(s: string, sep: string, i: int)
    requires sep != [] && i == Index(s, sep) && i >= 0
    ensures Index(s[..i], sep) == -1
  {
    forall j | 0 <= j && j + |sep| <= i
      ensures !OccursAt(s[..i], sep, j)
    {
      assert s[..i][j..j + |sep|] == s[j..j + |sep|];
      assert j < i && !OccursAt(s, sep, j);
    }
  }

  /** A string without the separator's first character holds no occurrence of it. */
  lemma {:induction false} IndexWithoutFirst(x: string, sep: string)
    requires sep != [] && sep[0] !in x
    ensures Index(x, sep) == -1
  {
    forall j | 0 <= j && j + |sep| <= |x|
      ensures !OccursAt(x, sep, j)
    {
      assert x[j..j + |sep|][0] == x[j];
    }
  }

  /** Nor does a string in which the separator's first two characters never follow one
      another. */
  lemma IndexWithoutPair(x: string, sep: string)
    requires |sep| >= 2
    requires forall j :: 0 <= j < |x| - 1 ==> !(x[j] == sep[0] && x[j + 1] == sep[1])
    ensures Index(x, sep) == -1
  {
    forall j | 0 <= j && j + |sep| <= |x|
      ensures !OccursAt(x, sep, j)
    {
      assert x[j..j + |sep|][0] == x[j] && x[j..j + |sep|][1] == x[j + 1];
    }
  }

  /** The first occurrence is right after a prefix without the separator's first character. */
  lemma {:induction false} IndexAfter(x: string, sep: string, y: string)
    requires sep != [] && sep[0] !in x
    ensures Index(x + sep + y, sep) == |x|
    decreases |x|
  {
    var s := x + sep + y;
    if x == [] {
      assert s[..|sep|] == sep;
    } else {
      assert s[..|sep|][0] == x[0];
      assert s[1..] == x[1..] + sep + y;
      IndexAfter(x[1..], sep, y);
    }
  }

  /** SplitN at a prefix without the separator's first character. */
  lemma SplitNAfter(x: string, sep: string, y: string, n: nat)
    requires sep != [] && sep[0] !in x && n >= 2
    ensures SplitN(x + sep + y, sep, n) == [x] + SplitN(y, sep, n - 1)
  {
    var s := x + sep + y;
    IndexAfter(x, sep, y);
    assert s[..|x|] == x && s[|x| + |sep|..] == y;
  }

  /** SplitN of a string without the separator's first character is the string alone. */
  lemma SplitNWithout(x: string, sep: string, n: nat)
    requires sep != [] && sep[0] !in x && n >= 1
    ensures SplitN(x, sep, n) == [x]
  {
    IndexWithoutFirst(x, sep);
  }

  /** Contains of a single character is membership. */
  lemma ContainsChar(s: string, c: char)
    ensures Contains(s, [c]) <==> c in s
  {
    if c in s {
      var j :| 0 <= j < |s| && s[j] == c;
      assert s[j..j + 1] == [c];
      assert OccursAt(s, [c], j);
    } else {
      IndexWithoutFirst(s, [c]);
    }
  }

  /** Replacing a single character distributes over concatenation. */
  lemma {:induction false} ReplaceCharConcat(a: string, b: string, c: char, sub: string)
    ensures Replace(a + b, [c], sub) == Replace(a, [c], sub) + Replace(b, [c], sub)
    decreases |a|
  {
    if a == [] {
      assert a + b == b;
    } else {
      assert (a + b)[..1] == [a[0]] && a[..1] == [a[0]];
      assert (a + b)[1..] == a[1..] + b;
      ReplaceCharConcat(a[1..], b, c, sub);
    }
  }
}
