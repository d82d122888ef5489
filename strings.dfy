/**
 * The handful of Python `str` operations the scripts rely on, with the
 * semantics CPython gives them: slicing `s[:n]`, `startswith`, `endswith`,
 * `split(sep)`, `replace(pat, "")` and the ordering `<=` on strings.
 */
module Strings {

  /** Python's `s[:n]`: the first `n` characters, or all of `s` when it is shorter. */
  function Take(s: string, n: nat): (r: string)
    ensures |r| == if |s| < n then |s| else n
    ensures r <= s
  {
    if |s| <= n then s else s[..n]
  }

  /** Python's `s.startswith(p)`. */
  predicate StartsWith(s: string, p: string) {
    |p| <= |s| && s[..|p|] == p
  }

  /** Python's `s.endswith(p)`. */
  predicate EndsWith(s: string, p: string) {
    |p| <= |s| && s[|s| - |p|..] == p
  }

  /** `s.startswith(p)` holds exactly when `p` is a prefix of `s`. */
  lemma StartsWithIsPrefix(s: string, p: string)
    ensures StartsWith(s, p) <==> p <= s
  {
  }

  /** `s.endswith(p)` holds exactly when `s` is some string followed by `p`. */
  lemma EndsWithIsSuffix(s: string, p: string)
    ensures EndsWith(s, p) <==> exists q :: s == q + p
  {
    if EndsWith(s, p) {
      assert s == s[..|s| - |p|] + p;
    }
    if exists q :: s == q + p {
      var q :| s == q + p;
      assert s[|s| - |p|..] == p;
    }
  }

  /** `pat` occurs in `s` starting at index `i`. */
  predicate OccursAt(s: string, pat: string, i: nat) {
    i + |pat| <= |s| && s[i..i + |pat|] == pat
  }

  /** `pat` occurs somewhere in `s`: Python's `pat in s`. */
  predicate Occurs(s: string, pat: string) {
    exists i: nat | i <= |s| :: OccursAt(s, pat, i)
  }

  // ---------------------------------------------------------------------------
  // str.split(c) and its inverse "c".join(parts)
  // ---------------------------------------------------------------------------

  /** `c.join(parts)` for a one-character separator. */
  function Join(parts: seq<string>, c: char): string
    requires |parts| >= 1
  {
    if |parts| == 1 then parts[0] else parts[0] + [c] + Join(parts[1..], c)
  }

  /**
   * Python's `s.split(c)` for a one-character separator: never empty, no
   * segment holds the separator, and joining the segments gives `s` back.
   */
  function Split(s: string, c: char): (parts: seq<string>)
    ensures |parts| >= 1
    ensures forall i :: 0 <= i < |parts| ==> c !in parts[i]
    ensures Join(parts, c) == s
  {
    if s == [] then [[]]
    else
      var rest := Split(s[1..], c);
      if s[0] == c then
        assert [[]] + rest == [[]] + rest[..];
        [[]] + rest
      else
        var parts := [[s[0]] + rest[0]] + rest[1..];
        assert parts[1..] == rest[1..];
        assert |rest| > 1 ==> Join(rest, c) == rest[0] + [c] + Join(rest[1..], c);
        parts
  }

  /** Splitting a join of separator-free segments gives the segments back. */
  lemma {:induction false} SplitJoin(parts: seq<string>, c: char)
    requires |parts| >= 1
    requires forall i :: 0 <= i < |parts| ==> c !in parts[i]
    ensures Split(Join(parts, c), c) == parts
  {
    if |parts| == 1 {
      NoSeparatorIsOneSegment(parts[0], c);
    } else {
      SplitJoin(parts[1..], c);
      SplitAfterSeparatorFree(parts[0], Join(parts[1..], c), c);
      assert Join(parts, c) == parts[0] + ([c] + Join(parts[1..], c));
    }
  }

  /** A string without the separator splits into itself alone. */
  lemma {:induction false} NoSeparatorIsOneSegment(s: string, c: char)
    requires c !in s
    ensures Split(s, c) == [s]
  {
    if s != [] {
      NoSeparatorIsOneSegment(s[1..], c);
      assert [s[0]] + s[1..] == s;
    }
  }

  /** A separator-free head `a` followed by `c` and `b` splits into `a` then the segments of `b`. */
  lemma {:induction false} SplitAfterSeparatorFree(a: string, b: string, c: char)
    requires c !in a
    ensures Split(a + ([c] + b), c) == [a] + Split(b, c)
  {
    if a == [] {
      assert a + ([c] + b) == [c] + b;
      assert ([c] + b)[1..] == b;
    } else {
      assert (a + ([c] + b))[1..] == a[1..] + ([c] + b);
      SplitAfterSeparatorFree(a[1..], b, c);
      assert [a[0]] + a[1..] == a;
    }
  }

  /** The last element of a non-empty sequence: Python's `xs[-1]`. */
  function Last<T>(xs: seq<T>): T
    requires |xs| >= 1
  {
    xs[|xs| - 1]
  }

  /** One step of `Split`: the last segment of `s` is that of `s[1..]`, unless `s[1..]` is one segment glued to a non-separator head. */
  lemma LastOfSplitStep(s: string, c: char)
    requires s != []
    ensures Last(Split(s, c)) ==
      if s[0] != c && |Split(s[1..], c)| == 1 then s else Last(Split(s[1..], c))
  {
    var rest := Split(s[1..], c);
    if s[0] != c && |rest| == 1 {
      assert rest[0] == s[1..];
      assert [s[0]] + s[1..] == s;
    }
  }

  /** A string holding the separator splits into at least two segments. */
  lemma {:induction false} SeparatorMeansTwoSegments(s: string, c: char)
    requires c in s
    ensures |Split(s, c)| >= 2
  {
    if s[0] != c {
      assert c in s[1..];
      SeparatorMeansTwoSegments(s[1..], c);
    }
  }

  /** A string that splits into one segment is that segment, so it holds no separator. */
  lemma OneSegmentIsWhole(s: string, c: char)
    requires |Split(s, c)| == 1
    ensures Split(s, c)[0] == s && c !in s
  {
  }

  /** A string that splits into two or more segments holds the separator. */
  lemma SeveralSegmentsMeanSeparator(s: string, c: char)
    requires |Split(s, c)| >= 2
    ensures c in s
  {
    var parts := Split(s, c);
    assert s == parts[0] + [c] + Join(parts[1..], c);
    assert s[|parts[0]|] == c;
  }

  /** The last segment of a `c`-free string is the whole string. */
  lemma LastSegmentWhole(s: string, c: char)
    requires s != [] && s[0] != c && |Split(s[1..], c)| == 1
    ensures Last(Split(s, c)) == s && c !in s
  {
    LastOfSplitStep(s, c);
    OneSegmentIsWhole(s[1..], c);
    assert s == [s[0]] + s[1..];
  }

  /** A suffix `r` of `s[1..]` that follows a `c` there, or that is not all of `s[1..]` when `s` starts with `c`, follows a `c` in `s`. */
  lemma SuffixAfterSeparator(s: string, r: string, c: char)
    requires s != [] && EndsWith(s[1..], r)
    requires |r| == |s| - 1 || s[1..][|s| - 1 - |r| - 1] == c
    requires s[0] == c || r != s[1..]
    ensures EndsWith(s, r) && s[|s| - |r| - 1] == c
  {
    assert s[|s| - |r|..] == s[1..][|s| - 1 - |r|..];
  }

  /** When `s` starts with `c` or `s[1..]` holds `c`, the last segment of `s` is that of `s[1..]`, and it sits after a `c` in `s`. */
  lemma LastSegmentFromTail(s: string, c: char, r: string)
    requires s != [] && !(s[0] != c && |Split(s[1..], c)| == 1)
    requires r == Last(Split(s[1..], c))
    requires EndsWith(s[1..], r) && c !in r
    requires |r| == |s| - 1 || s[1..][|s| - 1 - |r| - 1] == c
    ensures Last(Split(s, c)) == r
    ensures EndsWith(s, r) && s[|s| - |r| - 1] == c
  {
    LastOfSplitStep(s, c);
    if s[0] != c {
      SeveralSegmentsMeanSeparator(s[1..], c);
    }
    SuffixAfterSeparator(s, r, c);
  }

  /**
   * `s.split(c)[-1]` is the part of `s` after its last `c`: a suffix of `s`
   * without `c`, which is either all of `s` or preceded by a `c`.
   */
  lemma {:induction false} LastSegmentIsSuffix(s: string, c: char)
    ensures var r := Last(Split(s, c));
      && EndsWith(s, r) && c !in r
      && (|r| == |s| || s[|s| - |r| - 1] == c)
  {
    if s != [] {
      LastSegmentIsSuffix(s[1..], c);
      if s[0] != c && |Split(s[1..], c)| == 1 {
        LastSegmentWhole(s, c);
      } else {
        LastSegmentFromTail(s, c, Last(Split(s[1..], c)));
      }
    }
  }

  /** When `s[1..]` holds the separator, `s` and `s[1..]` have the same last segment. */
  lemma LastSegmentOfTail(s: string, c: char)
    requires s != [] && c in s[1..]
    ensures Last(Split(s, c)) == Last(Split(s[1..], c))
  {
    LastOfSplitStep(s, c);
    SeparatorMeansTwoSegments(s[1..], c);
  }

  /** When `b` has no `c`, the last segment of `a + [c] + b` is `b`. */
  lemma {:induction false} LastSegmentAfterLastSeparator(a: string, b: string, c: char)
    requires c !in b
    ensures Last(Split(a + [c] + b, c)) == b
  {
    var s := a + [c] + b;
    if a == [] {
      LastOfSplitStep(s, c);
      assert s[1..] == b;
      NoSeparatorIsOneSegment(b, c);
    } else {
      assert s[1..] == a[1..] + [c] + b;
      LastSegmentAfterLastSeparator(a[1..], b, c);
      assert s[1..][|a| - 1] == c;
      LastSegmentOfTail(s, c);
    }
  }

  // ---------------------------------------------------------------------------
  // str.replace(pat, "")
  // ---------------------------------------------------------------------------

  /**
   * Python's `s.replace(pat, "")`: scanning from the left, every
   * non-overlapping occurrence of `pat` is removed. An empty `pat` matches
   * between characters and is replaced by nothing, so `s` comes back as it is.
   */
  function RemoveAll(s: string, pat: string): (r: string)
    ensures |r| <= |s|
    ensures forall ch :: ch in r ==> ch in s
    decreases |s|
  {
    if pat == [] || |s| < |pat| then s
    else if s[..|pat|] == pat then
      var r := RemoveAll(s[|pat|..], pat);
      assert forall ch :: ch in s[|pat|..] ==> ch in s;
      r
    else
      var r := RemoveAll(s[1..], pat);
      assert forall ch :: ch in s[1..] ==> ch in s;
      [s[0]] + r
  }

  /** A string that does not contain `pat` is left unchanged. */
  lemma {:induction false} RemoveAllAbsent(s: string, pat: string)
    requires !Occurs(s, pat)
    ensures RemoveAll(s, pat) == s
    decreases |s|
  {
    assert !OccursAt(s, pat, 0);
    if |s| >= |pat| {
      if Occurs(s[1..], pat) {
        var i: nat :| i <= |s[1..]| && OccursAt(s[1..], pat, i);
        assert s[1..][i..i + |pat|] == s[i + 1..i + 1 + |pat|];
        assert OccursAt(s, pat, i + 1);
      }
      RemoveAllAbsent(s[1..], pat);
      assert [s[0]] + s[1..] == s;
    }
  }

  /** One step of the scan when no occurrence starts at the front. */
  lemma RemoveAllSkip(s: string, pat: string)
    requires pat != [] && |s| >= |pat| && s[..|pat|] != pat
    ensures RemoveAll(s, pat) == [s[0]] + RemoveAll(s[1..], pat)
  {
  }

  /** One step of the scan when an occurrence starts at the front. */
  lemma RemoveAllDrop(s: string, pat: string)
    requires pat != [] && |s| >= |pat| && s[..|pat|] == pat
    ensures RemoveAll(s, pat) == RemoveAll(s[|pat|..], pat)
  {
  }

  /** If `pat` occurs in `t + pat` only at the end, the same holds after dropping the first character of `t`. */
  lemma CleanPrefixTail(t: string, pat: string)
    requires t != []
    requires forall i: nat :: i < |t| ==> !OccursAt(t + pat, pat, i)
    ensures forall i: nat :: i < |t[1..]| ==> !OccursAt(t[1..] + pat, pat, i)
  {
    forall i: nat | i < |t[1..]|
      ensures !OccursAt(t[1..] + pat, pat, i)
    {
      assert !OccursAt(t + pat, pat, i + 1);
      assert (t[1..] + pat)[i..i + |pat|] == (t + pat)[i + 1..i + 1 + |pat|];
    }
  }

  /** An occurrence of `pat` at the front is dropped whatever follows it. */
  lemma RemoveAllLeading(pat: string, rest: string)
    requires pat != []
    ensures RemoveAll(pat + rest, pat) == RemoveAll(rest, pat)
  {
    var s := pat + rest;
    assert s[..|pat|] == pat && s[|pat|..] == rest;
    RemoveAllDrop(s, pat);
  }

  /** With no occurrence at the front of `t + pat`, the scan copies the first character of `t`. */
  lemma CleanPrefixStep(t: string, pat: string, rest: string)
    requires pat != [] && t != [] && !OccursAt(t + pat, pat, 0)
    ensures RemoveAll(t + pat + rest, pat) == [t[0]] + RemoveAll(t[1..] + pat + rest, pat)
  {
    var s := t + pat + rest;
    assert s[..|pat|] == (t + pat)[..|pat|] by {
      assert s == (t + pat) + rest;
    }
    RemoveAllSkip(s, pat);
    assert s[1..] == t[1..] + pat + rest;
  }

  /** If the scan copies `t[1..]` before the trailing `pat`, it copies all of `t`. */
  lemma CleanPrefixCons(t: string, pat: string, rest: string)
    requires pat != [] && t != []
    requires forall i: nat :: i < |t| ==> !OccursAt(t + pat, pat, i)
    requires RemoveAll(t[1..] + pat + rest, pat) == t[1..] + RemoveAll(rest, pat)
    ensures RemoveAll(t + pat + rest, pat) == t + RemoveAll(rest, pat)
  {
    assert !OccursAt(t + pat, pat, 0);
    CleanPrefixStep(t, pat, rest);
    assert [t[0]] + (t[1..] + RemoveAll(rest, pat)) == t + RemoveAll(rest, pat);
  }

  /**
   * When `pat` occurs in `t + pat` only at the very end, the scan copies `t`,
   * drops that copy of `pat` and carries on with what follows.
   */
  lemma {:induction false} RemoveAllKeepsCleanPrefix(t: string, pat: string, rest: string)
    requires pat != []
    requires forall i: nat :: i < |t| ==> !OccursAt(t + pat, pat, i)
    ensures RemoveAll(t + pat + rest, pat) == t + RemoveAll(rest, pat)
    decreases |t|
  {
    if t == [] {
      assert t + pat + rest == pat + rest;
      RemoveAllLeading(pat, rest);
    } else {
      CleanPrefixTail(t, pat);
      RemoveAllKeepsCleanPrefix(t[1..], pat, rest);
      CleanPrefixCons(t, pat, rest);
    }
  }

  /**
   * A pattern whose first character does not reappear in it cannot overlap
   * itself, so appended to a string that does not contain it, it occurs only
   * at the end.
   */
  lemma OccursOnlyAtEnd(t: string, pat: string)
    requires pat != [] && pat[0] !in pat[1..] && !Occurs(t, pat)
    ensures forall i: nat :: i < |t| ==> !OccursAt(t + pat, pat, i)
  {
    var s := t + pat;
    forall i: nat | i < |t|
      ensures !OccursAt(s, pat, i)
    {
      if i + |pat| <= |t| {
        assert s[i..i + |pat|] == t[i..i + |pat|];
        assert !OccursAt(t, pat, i);
      } else if i + |pat| <= |s| {
        var k := |t| - i;
        assert s[i..i + |pat|][k] == s[|t|] == pat[0];
        assert pat[1..][k - 1] == pat[k];
      }
    }
  }

  /** A string without the first character of `pat` does not contain `pat`. */
  lemma AbsentFirstCharMeansAbsent(s: string, pat: string)
    requires pat != [] && pat[0] !in s
    ensures !Occurs(s, pat)
  {
    forall i: nat | i <= |s| ensures !OccursAt(s, pat, i) {
      if i + |pat| <= |s| {
        assert s[i..i + |pat|][0] == s[i];
      }
    }
  }

  // ---------------------------------------------------------------------------
  // Python's ordering on str: code point by code point, a proper prefix first
  // ---------------------------------------------------------------------------

  /** Python's `a <= b` on strings. */
  predicate LexLe(a: string, b: string) {
    a == [] || (b != [] && (a[0] < b[0] || (a[0] == b[0] && LexLe(a[1..], b[1..]))))
  }

  /** Strings with the same first character compare as their tails do. */
  lemma LexLeSameHead(a: string, b: string)
    requires a != [] && b != [] && a[0] == b[0] && LexLe(a[1..], b[1..])
    ensures LexLe(a, b)
  {
  }

  lemma {:induction false} LexLeRefl(a: string)
    ensures LexLe(a, a)
  {
    if a != [] {
      LexLeRefl(a[1..]);
    }
  }

  lemma {:induction false} LexLeTotal(a: string, b: string)
    ensures LexLe(a, b) || LexLe(b, a)
  {
    if a != [] && b != [] && a[0] == b[0] {
      LexLeTotal(a[1..], b[1..]);
    }
  }

  lemma {:induction false} LexLeAntisymmetric(a: string, b: string)
    requires LexLe(a, b) && LexLe(b, a)
    ensures a == b
  {
    if a != [] && b != [] {
      LexLeAntisymmetric(a[1..], b[1..]);
      assert a == [a[0]] + a[1..] && b == [b[0]] + b[1..];
    }
  }

  lemma {:induction false} LexLeTransitive(a: string, b: string, c: string)
    requires LexLe(a, b) && LexLe(b, c)
    ensures LexLe(a, c)
  {
    if a != [] && b != [] && c != [] && a[0] == b[0] == c[0] {
      LexLeTransitive(a[1..], b[1..], c[1..]);
    }
  }

  /** `a` and `b` agree on their first `k` characters, and at index `k` the one of `a` is smaller. */
  predicate FirstDifferenceAt(a: string, b: string, k: nat) {
    k < |a| && k < |b| && a[..k] == b[..k] && a[k] < b[k]
  }

  /** Moving past a shared first character moves the first difference one place left. */
  lemma FirstDifferenceShift(a: string, b: string, k: nat)
    requires a != [] && b != [] && a[0] == b[0]
    ensures FirstDifferenceAt(a, b, k + 1) <==> FirstDifferenceAt(a[1..], b[1..], k)
  {
    if k + 1 < |a| && k + 1 < |b| {
      assert a[..k + 1] == [a[0]] + a[1..][..k];
      assert b[..k + 1] == [b[0]] + b[1..][..k];
      assert a[1..][..k] == a[..k + 1][1..];
      assert b[1..][..k] == b[..k + 1][1..];
    }
  }

  /** With equal first characters, `a` and `b` have a first difference exactly when their tails do. */
  lemma FirstDifferenceOfTails(a: string, b: string)
    requires a != [] && b != [] && a[0] == b[0]
    ensures (exists k: nat :: FirstDifferenceAt(a, b, k))
        <==> exists k: nat :: FirstDifferenceAt(a[1..], b[1..], k)
  {
    if exists k: nat :: FirstDifferenceAt(a, b, k) {
      var k: nat :| FirstDifferenceAt(a, b, k);
      assert k != 0;
      FirstDifferenceShift(a, b, k - 1);
    }
    if exists k: nat :: FirstDifferenceAt(a[1..], b[1..], k) {
      var k: nat :| FirstDifferenceAt(a[1..], b[1..], k);
      FirstDifferenceShift(a, b, k);
    }
  }

  /** A first character of `a` above that of `b` leaves no index where `a` is smaller first. */
  lemma NoFirstDifference(a: string, b: string)
    requires a != [] && b != [] && a[0] > b[0]
    ensures forall k: nat :: !FirstDifferenceAt(a, b, k)
  {
    forall k: nat | 0 < k < |a| && k < |b|
      ensures a[..k] != b[..k]
    {
      assert a[..k][0] != b[..k][0];
    }
  }

  /**
   * Python's order on strings, stated directly: `a <= b` exactly when `a`
   * is a prefix of `b`, or at the first index where they differ the
   * character of `a` is the smaller.
   */
  lemma {:induction false} LexLeFirstDifference(a: string, b: string)
    ensures LexLe(a, b) <==> a <= b || exists k: nat :: FirstDifferenceAt(a, b, k)
  {
    if a != [] && b != [] {
      if a[0] < b[0] {
        assert FirstDifferenceAt(a, b, 0);
      } else if a[0] > b[0] {
        NoFirstDifference(a, b);
      } else {
        LexLeFirstDifference(a[1..], b[1..]);
        FirstDifferenceOfTails(a, b);
        assert a == [a[0]] + a[1..] && b == [b[0]] + b[1..];
      }
    }
  }

  /** `b <= a` and `a != b` mean `a <= b` is false. */
  lemma LexLeStrict(a: string, b: string)
    requires LexLe(b, a) && a != b
    ensures !LexLe(a, b)
  {
    if LexLe(a, b) {
      LexLeAntisymmetric(a, b);
    }
  }

  /** Python's string order is decided after a common prefix. */
  lemma {:induction false} LexLeCommonPrefix(p: string, a: string, b: string)
    requires LexLe(a, b)
    ensures LexLe(p + a, p + b)
  {
    if p != [] {
      LexLeCommonPrefix(p[1..], a, b);
      assert (p + a)[1..] == p[1..] + a && (p + b)[1..] == p[1..] + b;
      LexLeSameHead(p + a, p + b);
    } else {
      assert p + a == a && p + b == b;
    }
  }

  /** Between strings of one width, appending a common suffix keeps the order. */
  lemma {:induction false} LexLeCommonSuffix(a: string, b: string, x: string)
    requires |a| == |b| && LexLe(a, b)
    ensures LexLe(a + x, b + x)
  {
    if a == [] {
      LexLeRefl(x);
      assert a + x == x && b + x == x;
    } else {
      assert (a + x)[1..] == a[1..] + x && (b + x)[1..] == b[1..] + x;
      if a[0] == b[0] {
        LexLeCommonSuffix(a[1..], b[1..], x);
      }
    }
  }
}
