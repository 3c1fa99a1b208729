/**
 * Strings as the .NET runtime stores them: sequences of UTF-16 code units.
 * A .NET `char` is a code unit, not a Unicode scalar value, so casting an
 * unsigned 16-bit integer to `char` never fails and changes nothing.
 */
module Utf16 {

  newtype CodeUnit = x: int | 0 <= x < 0x1_0000

  type Text = seq<CodeUnit>

  /** True iff every character of a literal fits in one code unit. */
  predicate InBasicPlane(s: string) {
    forall i :: 0 <= i < |s| ==> s[i] as int < 0x1_0000
  }

  /**
   * The code units of a literal; a character in the Basic Multilingual
   * Plane is one code unit with the same value.
   */
  function FromString(s: string): (t: Text)
    ensures |t| == |s|
    ensures InBasicPlane(s) ==> forall i :: 0 <= i < |s| ==> t[i] as int == s[i] as int
  {
    seq(|s|, i requires 0 <= i < |s| => (s[i] as int % 0x1_0000) as CodeUnit)
  }

  /** True iff `pat` occurs in `s` starting at code unit `i`. */
  predicate OccursAt(s: Text, pat: Text, i: int) {
    0 <= i && i + |pat| <= |s| && s[i..i + |pat|] == pat
  }

  /** True iff `pat` has no occurrence anywhere in `s`. */
  predicate Absent(s: Text, pat: Text) {
    forall i :: 0 <= i <= |s| - |pat| ==> !OccursAt(s, pat, i)
  }

  /**
   * Ordinal String.Replace: scans left to right and replaces every
   * non-overlapping occurrence of `pat` by `rep`; the scan resumes after the
   * inserted text, so a replacement is never itself rescanned. The runtime
   * rejects an empty `pat`.
   */
  function Replace(s: Text, pat: Text, rep: Text): (r: Text)
    requires |pat| > 0
    decreases |s|
  {
    if |s| < |pat| then s
    else if s[..|pat|] == pat then rep + Replace(s[|pat|..], pat, rep)
    else [s[0]] + Replace(s[1..], pat, rep)
  }

  /** A text in which the pattern does not occur comes back unchanged. */
  lemma {:induction false} ReplaceAbsent(s: Text, pat: Text, rep: Text)
    requires |pat| > 0
    requires Absent(s, pat)
    ensures Replace(s, pat, rep) == s
    decreases |s|
  {
    if |s| < |pat| {
    } else {
      assert !OccursAt(s, pat, 0);
      var t := s[1..];
      forall i | 0 <= i <= |t| - |pat|
        ensures !OccursAt(t, pat, i)
      {
        assert !OccursAt(s, pat, i + 1);
        assert t[i..i + |pat|] == s[i + 1..i + 1 + |pat|];
      }
      ReplaceAbsent(t, pat, rep);
    }
  }

  /** A text that never contains the pattern's first code unit contains no occurrence of it. */
  lemma AbsentWithoutHead(s: Text, pat: Text)
    requires |pat| > 0
    requires forall i :: 0 <= i < |s| ==> s[i] != pat[0]
    ensures Absent(s, pat)
  {
    forall i | 0 <= i <= |s| - |pat|
      ensures !OccursAt(s, pat, i)
    {
      assert s[i..i + |pat|][0] == s[i];
    }
  }

  /** True iff the first code unit of `pat` occurs nowhere else in it. */
  predicate UniqueHead(pat: Text) {
    |pat| > 0 && forall i :: 0 < i < |pat| ==> pat[i] != pat[0]
  }

  /**
   * The scan copies a prefix without an occurrence, replaces the occurrence
   * that follows it and carries on after it, so every occurrence is
   * replaced.
   */
  lemma {:induction false} ReplaceNextOccurrence(a: Text, pat: Text, rep: Text, b: Text)
    requires UniqueHead(pat)
    requires Absent(a, pat)
    ensures Replace(a + pat + b, pat, rep) == a + rep + Replace(b, pat, rep)
    decreases |a|
  {
    var s := a + pat + b;
    if |a| == 0 {
      assert s == pat + b;
      assert s[..|pat|] == pat;
      assert s[|pat|..] == b;
    } else {
      var t := a[1..];
      NoOccurrenceBeforePattern(a, pat, b);
      AbsentInSuffix(a, pat);
      assert s[1..] == t + pat + b;
      ReplaceMismatchStep(s, pat, rep);
      ReplaceNextOccurrence(t, pat, rep, b);
      var tail := rep + Replace(b, pat, rep);
      assert t + pat + b == t + (pat + b);
      assert Replace(s, pat, rep) == [a[0]] + (t + tail);
      assert a + rep + Replace(b, pat, rep) == [a[0]] + (t + tail);
    }
  }

  /** A text that does not start with the pattern keeps its first code unit and the scan moves on. */
  lemma ReplaceMismatchStep(s: Text, pat: Text, rep: Text)
    requires |pat| > 0
    requires |s| >= |pat| && s[..|pat|] != pat
    ensures Replace(s, pat, rep) == [s[0]] + Replace(s[1..], pat, rep)
  {
  }

  /**
   * A non-empty prefix without an occurrence, followed by the pattern, does
   * not start with the pattern: an occurrence at 0 would either lie inside
   * the prefix or straddle into `pat`, putting its unique first code unit
   * at a later position.
   */
  lemma NoOccurrenceBeforePattern(a: Text, pat: Text, b: Text)
    requires UniqueHead(pat)
    requires Absent(a, pat)
    requires |a| > 0
    ensures (a + pat + b)[..|pat|] != pat
  {
    var s := a + pat + b;
    if |a| >= |pat| {
      assert !OccursAt(a, pat, 0);
      assert s[..|pat|] == a[..|pat|];
    } else {
      assert s[..|pat|][|a|] == pat[0];
      assert pat[|a|] != pat[0];
    }
  }

  /** Dropping the first code unit keeps the pattern absent. */
  lemma AbsentInSuffix(a: Text, pat: Text)
    requires |a| > 0
    requires Absent(a, pat)
    ensures Absent(a[1..], pat)
  {
    var t := a[1..];
    forall i | 0 <= i <= |t| - |pat|
      ensures !OccursAt(t, pat, i)
    {
      assert !OccursAt(a, pat, i + 1);
      assert t[i..i + |pat|] == a[i + 1..i + 1 + |pat|];
    }
  }

  /** Replacing keeps the first code unit when the replacement starts like the pattern. */
  lemma ReplaceKeepsHead(s: Text, pat: Text, rep: Text)
    requires |pat| > 0 && |rep| > 0 && rep[0] == pat[0]
    requires |s| > 0
    ensures |Replace(s, pat, rep)| > 0 && Replace(s, pat, rep)[0] == s[0]
  {
  }

  /**
   * No occurrence can start inside a prefix that lacks the pattern's first
   * code unit, so that prefix is copied through unchanged.
   */
  lemma {:induction false} ReplaceSkipsPrefix(s: Text, pat: Text, rep: Text, m: nat)
    requires |pat| > 0
    requires m <= |s|
    requires forall i :: 0 <= i < m ==> s[i] != pat[0]
    ensures Replace(s, pat, rep) == s[..m] + Replace(s[m..], pat, rep)
    decreases m
  {
    if m == 0 {
      assert s[m..] == s;
    } else if |s| < |pat| {
      // Too short to hold an occurrence: both sides are `s`.
      ReplaceAbsentShort(s[m..], pat, rep);
      assert s[..m] + s[m..] == s;
    } else {
      var t := s[1..];
      var tail := Replace(s[m..], pat, rep);
      ReplaceCopiesNonHead(s, pat, rep);
      ReplaceSkipsPrefix(t, pat, rep, m - 1);
      assert t[m - 1..] == s[m..];
      assert [s[0]] + (t[..m - 1] + tail) == ([s[0]] + t[..m - 1]) + tail;
      assert [s[0]] + t[..m - 1] == s[..m];
    }
  }

  /** A code unit other than the pattern's first is copied and the scan moves on. */
  lemma ReplaceCopiesNonHead(s: Text, pat: Text, rep: Text)
    requires |pat| > 0
    requires |s| >= |pat| && s[0] != pat[0]
    ensures Replace(s, pat, rep) == [s[0]] + Replace(s[1..], pat, rep)
  {
    assert s[..|pat|][0] == s[0];
  }

  /** A text shorter than the pattern comes back unchanged. */
  lemma ReplaceAbsentShort(s: Text, pat: Text, rep: Text)
    requires |pat| > 0
    requires |s| < |pat|
    ensures Replace(s, pat, rep) == s
  {
  }

  /**
   * When `rep` extends `pat` and the pattern's first code unit is unique in
   * it, a text that does not start with the pattern is not turned into one
   * that does.
   */
  lemma NoNewLeadingOccurrence(s: Text, pat: Text, rep: Text)
    requires UniqueHead(pat)
    requires |rep| >= |pat| && rep[..|pat|] == pat
    requires |s| >= |pat| && s[..|pat|] != pat
    ensures var r := Replace(s, pat, rep); |r| < |pat| || r[..|pat|] != pat
  {
    var r := Replace(s, pat, rep);
    // The first position where `s` departs from the pattern.
    var j :| 0 <= j < |pat| && s[j] != pat[j] && forall k :: 0 <= k < j ==> s[k] == pat[k] by {
      FirstMismatch(s, pat);
    }
    if j == 0 {
      ReplaceKeepsHead(s, pat, rep);
      assert r[0] != pat[0];
    } else {
      forall k | 0 <= k < j - 1
        ensures s[1..][k] != pat[0]
      {
        assert s[1..][k] == pat[k + 1];
      }
      ReplaceSkipsPrefix(s[1..], pat, rep, j - 1);
      assert s[1..][j - 1..] == s[j..];
      assert r == [s[0]] + (s[1..][..j - 1] + Replace(s[j..], pat, rep));
      ReplaceKeepsHead(s[j..], pat, rep);
      assert r[j] == s[j];
      if |r| >= |pat| {
        assert r[..|pat|][j] == r[j];
      }
    }
  }

  /** Two texts of which the first does not start with the second differ somewhere in that prefix. */
  lemma FirstMismatch(s: Text, pat: Text)
    requires |s| >= |pat| && s[..|pat|] != pat
    ensures exists j :: 0 <= j < |pat| && s[j] != pat[j] && forall k :: 0 <= k < j ==> s[k] == pat[k]
  {
    var j := 0;
    while j < |pat| && s[j] == pat[j]
      invariant 0 <= j <= |pat|
      invariant forall k :: 0 <= k < j ==> s[k] == pat[k]
    {
      j := j + 1;
    }
    PrefixFromUnits(s, pat);
  }

  /** A text agreeing with `pat` on its first |pat| code units starts with `pat`. */
  lemma PrefixFromUnits(s: Text, pat: Text)
    requires |s| >= |pat|
    ensures (forall k :: 0 <= k < |pat| ==> s[k] == pat[k]) ==> s[..|pat|] == pat
  {
  }

  /**
   * Replacing `pat` by `pat + tail` loses nothing: replacing `pat + tail`
   * back by `pat` recovers the original text, provided the pattern's first
   * code unit occurs nowhere else in it.
   */
  lemma {:induction false} ReplaceReversible(s: Text, pat: Text, tail: Text)
    requires UniqueHead(pat)
    ensures Replace(Replace(s, pat, pat + tail), pat + tail, pat) == s
    decreases |s|
  {
    var rep := pat + tail;
    var f := Replace(s, pat, rep);
    if |s| < |pat| {
    } else if s[..|pat|] == pat {
      var rest := s[|pat|..];
      ReplaceReversible(rest, pat, tail);
      assert f == rep + Replace(rest, pat, rep);
      assert f[..|rep|] == rep;
      assert f[|rep|..] == Replace(rest, pat, rep);
      assert pat + rest == s;
    } else {
      var t := s[1..];
      ReplaceReversible(t, pat, tail);
      assert f == [s[0]] + Replace(t, pat, rep);
      assert rep[..|pat|] == pat;
      NoNewLeadingOccurrence(s, pat, rep);
      if |f| < |rep| {
        // Too short for `rep`: `Replace(t)` is too, so it equals `t`.
        assert Replace(Replace(t, pat, rep), rep, pat) == Replace(t, pat, rep);
      } else {
        assert f[..|rep|][..|pat|] == f[..|pat|];
        assert f[..|rep|] != rep;
        assert f[1..] == Replace(t, pat, rep);
        assert [s[0]] + t == s;
      }
    }
  }
}
