/**
 * String helpers shared by the model: literal occurrence, the global
 * replacement performed by `String.prototype.replace` with a `g` pattern,
 * and `Array.prototype.join` / `String.prototype.split` on one character.
 */
module Strings {

  /** `w` occurs in `s` starting at index `i`. */
  predicate HasAt(s: string, i: nat, w: string) {
    i + |w| <= |s| && s[i..i + |w|] == w
  }

  /** Two adjacent occurrences form one occurrence of the concatenation, and back. */
  lemma {:induction false} HasAtConcat(s: string, i: nat, a: string, b: string)
    ensures HasAt(s, i, a + b) <==> HasAt(s, i, a) && HasAt(s, i + |a|, b)
  {
    if HasAt(s, i, a) && HasAt(s, i + |a|, b) {
      assert s[i..i + |a + b|] == s[i..i + |a|] + s[i + |a|..i + |a| + |b|];
    }
    if HasAt(s, i, a + b) {
      assert s[i..i + |a|] == (a + b)[..|a|];
      assert s[i + |a|..i + |a| + |b|] == (a + b)[|a|..];
    }
  }

  /** An occurrence begins with the first character of the word. */
  lemma {:induction false} HasAtFirst(s: string, i: nat, w: string)
    requires |w| > 0 && HasAt(s, i, w)
    ensures i < |s| && s[i] == w[0]
  {
    assert s[i..i + |w|][0] == s[i];
  }

  /** A word cannot occur where its first character is missing. */
  lemma {:induction false} NotHasAt(s: string, i: nat, w: string)
    requires |w| > 0 && i < |s| && s[i] != w[0]
    ensures !HasAt(s, i, w)
  {
    if HasAt(s, i, w) {
      HasAtFirst(s, i, w);
    }
  }

  /** No occurrence of `w` in `s` starts strictly before index `n`. */
  ghost predicate NoneBefore(s: string, w: string, n: nat) {
    forall i :: 0 <= i < n ==> !HasAt(s, i, w)
  }

  /**
   * Replaces every occurrence of `pat` in `s` by `v`, scanning left to right
   * and resuming after each replaced occurrence, as a global regular
   * expression replacement does for a pattern that matches only itself.
   */
  function ReplaceAll(s: string, pat: string, v: string): string
    requires |pat| > 0
    decreases |s|
  {
    if |s| < |pat| then s
    else if s[..|pat|] == pat then v + ReplaceAll(s[|pat|..], pat, v)
    else [s[0]] + ReplaceAll(s[1..], pat, v)
  }

  /** A string in which `pat` does not occur is left unchanged. */
  lemma {:induction false} ReplaceAllAbsent(s: string, pat: string, v: string)
    requires |pat| > 0
    requires NoneBefore(s, pat, |s| + 1)
    ensures ReplaceAll(s, pat, v) == s
  {
    if |s| >= |pat| {
      assert !HasAt(s, 0, pat);
      forall i | 0 <= i < |s[1..]| + 1 ensures !HasAt(s[1..], i, pat) {
        assert !HasAt(s, i + 1, pat);
        if i + |pat| <= |s[1..]| {
          assert s[1..][i..i + |pat|] == s[i + 1..i + 1 + |pat|];
        }
      }
      ReplaceAllAbsent(s[1..], pat, v);
    }
  }

  /** A prefix in which no occurrence of `pat` starts is copied unchanged. */
  lemma {:induction false} ReplaceAllSkip(a: string, b: string, pat: string, v: string)
    requires |pat| > 0
    requires NoneBefore(a + b, pat, |a|)
    ensures ReplaceAll(a + b, pat, v) == a + ReplaceAll(b, pat, v)
  {
    if a != [] {
      var s := a + b;
      assert !HasAt(s, 0, pat);
      assert s[1..] == a[1..] + b;
      forall i | 0 <= i < |a[1..]| ensures !HasAt(a[1..] + b, i, pat) {
        assert !HasAt(s, i + 1, pat);
        if i + |pat| <= |s[1..]| {
          assert s[1..][i..i + |pat|] == s[i + 1..i + 1 + |pat|];
        }
      }
      ReplaceAllSkip(a[1..], b, pat, v);
      if |s| >= |pat| {
        assert s[..|pat|] != pat;
        assert s[0] == a[0] && [a[0]] + a[1..] == a;
        calc {
          ReplaceAll(s, pat, v);
          [s[0]] + ReplaceAll(s[1..], pat, v);
          [a[0]] + ReplaceAll(a[1..] + b, pat, v);
          [a[0]] + (a[1..] + ReplaceAll(b, pat, v));
          a + ReplaceAll(b, pat, v);
        }
      } else {
        ReplaceAllAbsent(s, pat, v);
        ReplaceAllAbsent(b, pat, v);
        assert ReplaceAll(b, pat, v) == b by {
          assert |b| < |pat|;
        }
      }
    } else {
      assert a + b == b;
    }
  }

  /**
   * The first occurrence of `pat`, preceded by a prefix where no occurrence
   * starts, is the one replaced; scanning resumes right after it.
   */
  lemma {:induction false} ReplaceAllFirst(a: string, b: string, pat: string, v: string)
    requires |pat| > 0
    requires NoneBefore(a + pat + b, pat, |a|)
    ensures ReplaceAll(a + pat + b, pat, v) == a + v + ReplaceAll(b, pat, v)
  {
    assert a + pat + b == a + (pat + b);
    ReplaceAllSkip(a, pat + b, pat, v);
    assert (pat + b)[..|pat|] == pat;
    assert (pat + b)[|pat|..] == b;
  }

  /** `Array.prototype.join`: the parts separated by `sep`. */
  function Join(parts: seq<string>, sep: string): string
    decreases |parts|
  {
    if |parts| == 0 then ""
    else if |parts| == 1 then parts[0]
    else parts[0] + sep + Join(parts[1..], sep)
  }

  /** `String.prototype.split` on a one-character separator. */
  function Split(s: string, sep: char): (r: seq<string>)
    ensures |r| >= 1
    decreases |s|
  {
    if |s| == 0 then [""]
    else if s[0] == sep then [""] + Split(s[1..], sep)
    else
      var rest := Split(s[1..], sep);
      [[s[0]] + rest[0]] + rest[1..]
  }

  lemma {:induction false} SplitFree(p: string, sep: char)
    requires sep !in p
    ensures Split(p, sep) == [p]
  {
    if |p| > 0 {
      SplitFree(p[1..], sep);
      assert [p[0]] + p[1..] == p;
    }
  }

  lemma {:induction false} SplitCons(p: string, rest: string, sep: char)
    requires sep !in p
    ensures Split(p + [sep] + rest, sep) == [p] + Split(rest, sep)
  {
    if |p| == 0 {
      assert p + [sep] + rest == [sep] + rest;
      assert ([sep] + rest)[1..] == rest;
    } else {
      var s := p + [sep] + rest;
      assert s[0] == p[0];
      assert s[1..] == p[1..] + [sep] + rest;
      SplitCons(p[1..], rest, sep);
      assert [p[0]] + p[1..] == p;
    }
  }

  /** Splitting a join recovers the parts when no part holds the separator. */
  lemma {:induction false} SplitJoin(parts: seq<string>, sep: char)
    requires |parts| >= 1
    requires forall k :: 0 <= k < |parts| ==> sep !in parts[k]
    ensures Split(Join(parts, [sep]), sep) == parts
  {
    if |parts| == 1 {
      SplitFree(parts[0], sep);
    } else {
      SplitJoin(parts[1..], sep);
      SplitCons(parts[0], Join(parts[1..], [sep]), sep);
      assert parts == [parts[0]] + parts[1..];
    }
  }
}
