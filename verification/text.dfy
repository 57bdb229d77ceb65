/**
 Substring search and the two-way behaviour of Python's `str.split(sep)` over
 Dafny strings: `Split` cuts at the leftmost occurrence, then again in what
 follows it, exactly as the interpreter does for a non-empty separator.
 */
module Text {
  import opened Wrappers

  /** True when `pat` occurs in `s` starting at index `i`. */
  predicate OccursAt(s: string, pat: string, i: int) {
    0 <= i && i + |pat| <= |s| && s[i..i + |pat|] == pat
  }

  predicate Contains(s: string, pat: string) {
    exists i :: 0 <= i <= |s| && OccursAt(s, pat, i)
  }

  predicate OccursExactlyOnce(s: string, pat: string) {
    exists i :: 0 <= i <= |s| && OccursAt(s, pat, i) &&
      forall j :: 0 <= j <= |s| && OccursAt(s, pat, j) ==> j == i
  }

  /** A pattern whose first character never reappears in it, so that two of
      its occurrences can never overlap. */
  predicate SelfDisjoint(pat: string) {
    |pat| > 0 && forall k :: 0 < k < |pat| ==> pat[k] != pat[0]
  }

  /** The first occurrence of `pat` at or after `k` (Python's `str.find` from `k`). */
  function IndexFrom(s: string, pat: string, k: nat): (r: Option<nat>)
    requires k <= |s|
    ensures r.Some? ==> k <= r.value && OccursAt(s, pat, r.value)
    ensures r.Some? ==> forall j :: k <= j < r.value ==> !OccursAt(s, pat, j)
    ensures r.None? ==> forall j :: k <= j ==> !OccursAt(s, pat, j)
    decreases |s| - k
  {
    if k + |pat| > |s| then None
    else if s[k..k + |pat|] == pat then Some(k)
    else IndexFrom(s, pat, k + 1)
  }

  /** The leftmost occurrence of `pat` in `s`, if any. */
  function IndexOf(s: string, pat: string): (r: Option<nat>)
    ensures r.Some? ==> OccursAt(s, pat, r.value) && forall j :: 0 <= j < r.value ==> !OccursAt(s, pat, j)
    ensures r.None? ==> forall j :: !OccursAt(s, pat, j)
    ensures r.None? <==> !Contains(s, pat)
  {
    IndexFrom(s, pat, 0)
  }

  /** Glue `parts` back together with `sep` between neighbours (Python's `sep.join`). */
  function Join(parts: seq<string>, sep: string): string
    requires |parts| >= 1
  {
    if |parts| == 1 then parts[0] else parts[0] + sep + Join(parts[1..], sep)
  }

  /** Python's `s.split(sep)` for a non-empty separator. */
  function Split(s: string, sep: string): (parts: seq<string>)
    requires |sep| > 0
    ensures |parts| >= 1
    ensures Join(parts, sep) == s
    ensures forall k :: 0 <= k < |parts| ==> !Contains(parts[k], sep)
    decreases |s|
  {
    match IndexOf(s, sep)
    case None => [s]
    case Some(i) =>
      var rest := s[i + |sep|..];
      NothingBefore(s, sep, i);
      assert s == s[..i] + sep + rest by {
        assert s[i..i + |sep|] == sep;
      }
      [s[..i]] + Split(rest, sep)
  }

  /** An occurrence in a suffix is an occurrence in the whole string, shifted. */
  lemma OccursInSuffix(s: string, pat: string, m: nat, j: nat)
    requires m <= |s|
    ensures OccursAt(s[m..], pat, j) <==> OccursAt(s, pat, m + j)
  {
    if j + |pat| <= |s| - m {
      assert s[m..][j..j + |pat|] == s[m + j..m + j + |pat|];
    }
  }

  /** An occurrence in a prefix is an occurrence in the whole string that ends inside the prefix. */
  lemma OccursInPrefix(s: string, pat: string, m: nat, j: int)
    requires m <= |s|
    ensures OccursAt(s[..m], pat, j) <==> OccursAt(s, pat, j) && j + |pat| <= m
  {
    if 0 <= j && j + |pat| <= m {
      assert s[..m][j..j + |pat|] == s[j..j + |pat|];
    }
  }

  /** No occurrence starts before `i`, so none lies inside `s[..i]`. */
  lemma NothingBefore(s: string, pat: string, i: nat)
    requires |pat| > 0 && i <= |s|
    requires forall j :: 0 <= j < i ==> !OccursAt(s, pat, j)
    ensures !Contains(s[..i], pat)
  {
    forall j | OccursAt(s[..i], pat, j)
      ensures false
    {
      OccursInPrefix(s, pat, i, j);
    }
  }

  /** Inside an occurrence the string agrees with the pattern character by character. */
  lemma OccurrenceChar(s: string, pat: string, j: int, k: int)
    requires OccursAt(s, pat, j) && 0 <= k < |pat|
    ensures s[j + k] == pat[k]
  {
    assert s[j..j + |pat|][k] == s[j + k];
  }

  /** Two occurrences of a self-disjoint pattern never overlap. */
  lemma DisjointOccurrences(s: string, pat: string, i: int, j: int)
    requires SelfDisjoint(pat)
    requires OccursAt(s, pat, i) && OccursAt(s, pat, j) && i < j
    ensures i + |pat| <= j
  {
    if j - i < |pat| {
      OccurrenceChar(s, pat, i, j - i);
      OccurrenceChar(s, pat, j, 0);
    }
  }

  /** In `a + pat + b`, an occurrence of a self-disjoint pattern either is the
      middle one or lies wholly on one side of it. */
  lemma NoStraddle(a: string, pat: string, b: string, j: int)
    requires SelfDisjoint(pat)
    requires OccursAt(a + pat + b, pat, j)
    ensures j == |a| || j + |pat| <= |a| || |a| + |pat| <= j
  {
    var s := a + pat + b;
    assert OccursAt(s, pat, |a|) by {
      assert s[|a|..|a| + |pat|] == pat;
    }
    if j < |a| {
      DisjointOccurrences(s, pat, j, |a|);
    } else if j > |a| {
      DisjointOccurrences(s, pat, |a|, j);
    }
  }

  /** `a + pat + b` has its leftmost occurrence of `pat` at `|a|` when `a` holds none. */
  lemma FirstAtSeam(a: string, pat: string, b: string)
    requires SelfDisjoint(pat)
    requires !Contains(a, pat)
    ensures IndexOf(a + pat + b, pat) == Some(|a|)
  {
    var s := a + pat + b;
    assert s[|a|..|a| + |pat|] == pat;
    assert OccursAt(s, pat, |a|);
    forall j | 0 <= j < |a| && OccursAt(s, pat, j)
      ensures false
    {
      NoStraddle(a, pat, b, j);
      assert s[..|a|] == a;
      OccursInPrefix(s, pat, |a|, j);
    }
    var r := IndexOf(s, pat);
    assert r.Some?;
  }

  /** Splitting undoes joining: parts free of a self-disjoint separator come back unchanged. */
  lemma {:induction false} SplitJoin(parts: seq<string>, sep: string)
    requires SelfDisjoint(sep)
    requires |parts| >= 1
    requires forall k :: 0 <= k < |parts| ==> !Contains(parts[k], sep)
    ensures Split(Join(parts, sep), sep) == parts
    decreases |parts|
  {
    if |parts| == 1 {
      assert IndexOf(parts[0], sep).None?;
    } else {
      var rest := Join(parts[1..], sep);
      FirstAtSeam(parts[0], sep, rest);
      var s := parts[0] + sep + rest;
      assert s[|parts[0]| + |sep|..] == rest;
      assert s[..|parts[0]|] == parts[0];
      SplitJoin(parts[1..], sep);
      assert parts == [parts[0]] + parts[1..];
    }
  }

  /** A self-disjoint separator with nothing before position `i` and nothing
      after the occurrence there occurs only at `i`. */
  lemma OnlyOccurrence(s: string, sep: string, i: nat, j: nat, rest: string)
    requires SelfDisjoint(sep) && OccursAt(s, sep, i) && OccursAt(s, sep, j)
    requires forall k :: 0 <= k < i ==> !OccursAt(s, sep, k)
    requires rest == s[i + |sep|..] && forall k :: !OccursAt(rest, sep, k)
    ensures j == i
  {
    if j > i {
      DisjointOccurrences(s, sep, i, j);
      OccursInSuffix(s, sep, i + |sep|, j - i - |sep|);
    }
  }

  /** Two parts from a self-disjoint separator mean it occurred exactly once. */
  lemma TwoPartsOnce(s: string, sep: string)
    requires SelfDisjoint(sep)
    requires |Split(s, sep)| == 2
    ensures OccursExactlyOnce(s, sep)
  {
    var i := IndexOf(s, sep).value;
    var rest := s[i + |sep|..];
    assert Split(s, sep) == [s[..i]] + Split(rest, sep);
    assert IndexOf(rest, sep).None?;
    forall j | 0 <= j <= |s| && OccursAt(s, sep, j)
      ensures j == i
    {
      OnlyOccurrence(s, sep, i, j, rest);
    }
    assert 0 <= i <= |s| && OccursAt(s, sep, i);
  }

  /** A separator that occurs exactly once cuts the text in two. */
  lemma OnceTwoParts(s: string, sep: string)
    requires |sep| > 0
    requires OccursExactlyOnce(s, sep)
    ensures |Split(s, sep)| == 2
  {
    var i :| 0 <= i <= |s| && OccursAt(s, sep, i) && forall j :: 0 <= j <= |s| && OccursAt(s, sep, j) ==> j == i;
    var first := IndexOf(s, sep);
    assert first == Some(i);
    var rest := s[i + |sep|..];
    forall j | 0 <= j <= |rest| && OccursAt(rest, sep, j)
      ensures false
    {
      OccursInSuffix(s, sep, i + |sep|, j);
    }
    assert IndexOf(rest, sep).None?;
    assert Split(s, sep) == [s[..i]] + Split(rest, sep);
  }

  /** `s.split(sep)` yields exactly two parts if and only if `sep` occurs in `s`
      exactly once; the leftward direction needs the separator to be self-disjoint. */
  lemma SplitInTwo(s: string, sep: string)
    requires SelfDisjoint(sep)
    ensures |Split(s, sep)| == 2 <==> OccursExactlyOnce(s, sep)
  {
    if |Split(s, sep)| == 2 {
      TwoPartsOnce(s, sep);
    }
    if OccursExactlyOnce(s, sep) {
      OnceTwoParts(s, sep);
    }
  }
}
