/**
 The Python `str` operations the project manager relies on, over `string`
 (a sequence of Unicode code points): `startswith`, `endswith`, `in`,
 `replace`, `strip`, `rfind` and the `<` ordering used by `sorted`.
 */
module PyStr {

  /** `s.startswith(p)` */
  predicate StartsWith(s: string, p: string) {
    |p| <= |s| && s[..|p|] == p
  }

  /** `s.endswith(p)` */
  predicate EndsWith(s: string, p: string) {
    |p| <= |s| && s[|s| - |p|..] == p
  }

  /** `p` occurs in `s` starting at index `i`. */
  predicate OccursAt(s: string, p: string, i: int) {
    0 <= i && i + |p| <= |s| && s[i..i + |p|] == p
  }

  /** `p in s` */
  predicate Contains(s: string, p: string) {
    exists i :: 0 <= i <= |s| - |p| && OccursAt(s, p, i)
  }

  /** `s.rfind(c)`: the index of the last `c` in `s`, or -1 when there is none. */
  function RFind(s: string, c: char): (i: int)
    ensures -1 <= i < |s|
    ensures i >= 0 ==> s[i] == c
    ensures forall k :: i < k < |s| ==> s[k] != c
  {
    if |s| == 0 then -1
    else if s[|s| - 1] == c then |s| - 1
    else RFind(s[..|s| - 1], c)
  }

  // ---------------------------------------------------------------------------
  // str.replace

  /**
   `s.replace(pat, rep)` for a non-empty `pat`: occurrences are found from
   left to right, never overlap, and each one is replaced by `rep`.
   */
  function ReplaceAll(s: string, pat: string, rep: string): (r: string)
    requires |pat| > 0
    ensures |rep| <= |pat| ==> |r| <= |s|
    ensures |rep| == |pat| ==> |r| == |s|
    ensures |s| < |pat| ==> r == s
    decreases |s|
  {
    if |s| < |pat| then s
    else if s[..|pat|] == pat then rep + ReplaceAll(s[|pat|..], pat, rep)
    else [s[0]] + ReplaceAll(s[1..], pat, rep)
  }

  /** Replacing a pattern that does not occur changes nothing. */
  lemma {:induction false} ReplaceAbsent(s: string, pat: string, rep: string)
    requires |pat| > 0
    ensures !Contains(s, pat) ==> ReplaceAll(s, pat, rep) == s
    decreases |s|
  {
    if |s| < |pat| {
    } else if s[..|pat|] == pat {
      assert OccursAt(s, pat, 0);
    } else {
      if !Contains(s, pat) {
        forall i | OccursAt(s[1..], pat, i)
          ensures OccursAt(s, pat, i + 1)
        {
          assert s[i + 1..i + 1 + |pat|] == s[1..][i..i + |pat|];
        }
        ReplaceAbsent(s[1..], pat, rep);
      }
    }
  }

  /** Removing every occurrence never lengthens a string, and shortens it exactly when the pattern occurs. */
  lemma {:induction false} RemoveShortens(s: string, pat: string)
    requires |pat| > 0
    ensures |ReplaceAll(s, pat, "")| <= |s|
    ensures |ReplaceAll(s, pat, "")| < |s| <==> Contains(s, pat)
    decreases |s|
  {
    if |s| < |pat| {
      ReplaceAbsent(s, pat, "");
    } else if s[..|pat|] == pat {
      assert OccursAt(s, pat, 0);
      RemoveShortens(s[|pat|..], pat);
    } else {
      RemoveShortens(s[1..], pat);
      if Contains(s, pat) {
        var i :| 0 <= i <= |s| - |pat| && OccursAt(s, pat, i);
        assert OccursAt(s, pat, i);
        assert i != 0;
        var j := i - 1;
        assert s[1..][j..j + |pat|] == s[i..i + |pat|];
        assert OccursAt(s[1..], pat, j);
      } else {
        ReplaceAbsent(s, pat, "");
      }
    }
  }

  /** Replacing a one-character pattern by one character maps the string character by character. */
  lemma {:induction false} ReplaceCharPointwise(s: string, pat: string, rep: string)
    requires |pat| == 1 && |rep| == 1
    ensures |ReplaceAll(s, pat, rep)| == |s|
    ensures forall k :: 0 <= k < |s| ==>
              ReplaceAll(s, pat, rep)[k] == if s[k] == pat[0] then rep[0] else s[k]
    decreases |s|
  {
    if |s| == 0 {
    } else {
      ReplaceCharPointwise(s[1..], pat, rep);
      var r := ReplaceAll(s, pat, rep);
      var tail := ReplaceAll(s[1..], pat, rep);
      if s[..1] == pat {
        assert r == rep + tail;
      } else {
        assert s[0] != pat[0] by { assert s[..1] == [s[0]]; }
        assert r == [s[0]] + tail;
      }
    }
  }

  /** No proper suffix of `p` is also a prefix of it: occurrences of `p` can never overlap. */
  predicate Unbordered(p: string) {
    forall k :: 0 < k < |p| ==> p[k..] != p[..|p| - k]
  }

  /**
   For an unbordered pattern, no occurrence straddles the end of `b` and an
   appended copy of the pattern, so that copy is replaced on its own.
   */
  lemma {:induction false} ReplaceAppended(b: string, pat: string, rep: string)
    requires |pat| > 0 && Unbordered(pat)
    ensures ReplaceAll(b + pat, pat, rep) == ReplaceAll(b, pat, rep) + rep
    decreases |b|
  {
    var s := b + pat;
    if |b| == 0 {
      assert s == pat;
      assert s[|pat|..] == [];
    } else if |b| < |pat| {
      NoStraddle(b, pat);
      assert s[1..] == b[1..] + pat;
      ReplaceAppended(b[1..], pat, rep);
    } else {
      assert s[..|pat|] == b[..|pat|];
      if b[..|pat|] == pat {
        assert s[|pat|..] == b[|pat|..] + pat;
        ReplaceAppended(b[|pat|..], pat, rep);
      } else {
        assert s[1..] == b[1..] + pat;
        ReplaceAppended(b[1..], pat, rep);
      }
    }
  }

  /** A non-empty text shorter than an unbordered pattern, followed by the pattern, does not start with it. */
  lemma NoStraddle(b: string, pat: string)
    requires 0 < |b| < |pat| && Unbordered(pat)
    ensures (b + pat)[..|pat|] != pat
  {
    var s := b + pat;
    var k := |b|;
    assert s[k..|pat|] == pat[..|pat| - k];
    assert pat[k..] != pat[..|pat| - k];
    assert s[..|pat|][k..] == s[k..|pat|];
  }

  // ---------------------------------------------------------------------------
  // str.strip

  /** `c.isspace()`: the code points Python treats as whitespace. */
  predicate IsSpace(c: char) {
    || ('\t' <= c <= '\r')
    || ('\U{1C}' <= c <= ' ')
    || c == '\U{85}' || c == '\U{A0}' || c == '\U{1680}'
    || ('\U{2000}' <= c <= '\U{200A}')
    || c == '\U{2028}' || c == '\U{2029}' || c == '\U{202F}' || c == '\U{205F}' || c == '\U{3000}'
  }

  /** Length of the leading whitespace run of `s`. */
  function LeadingSpace(s: string): (n: nat)
    ensures n <= |s|
    ensures forall k :: 0 <= k < n ==> IsSpace(s[k])
    ensures n < |s| ==> !IsSpace(s[n])
  {
    if |s| == 0 || !IsSpace(s[0]) then 0 else 1 + LeadingSpace(s[1..])
  }

  /** Length of the trailing whitespace run of `s`. */
  function TrailingSpace(s: string): (n: nat)
    ensures n <= |s|
    ensures forall k :: |s| - n <= k < |s| ==> IsSpace(s[k])
    ensures n < |s| ==> !IsSpace(s[|s| - n - 1])
  {
    if |s| == 0 || !IsSpace(s[|s| - 1]) then 0 else 1 + TrailingSpace(s[..|s| - 1])
  }

  /** `r` is `s` with the all-whitespace runs `s[..i]` and `s[i + |r|..]` cut from its ends. */
  ghost predicate TrimmedAt(s: string, r: string, i: int) {
    && 0 <= i <= i + |r| <= |s|
    && r == s[i..i + |r|]
    && (forall k :: 0 <= k < i ==> IsSpace(s[k]))
    && (forall k :: i + |r| <= k < |s| ==> IsSpace(s[k]))
  }

  /** `s.strip()` with no argument: leading and trailing whitespace removed. */
  function Strip(s: string): (r: string)
    ensures exists i :: TrimmedAt(s, r, i)
    ensures r != [] ==> !IsSpace(r[0]) && !IsSpace(r[|r| - 1])
    ensures r == [] <==> forall k :: 0 <= k < |s| ==> IsSpace(s[k])
  {
    var i := LeadingSpace(s);
    var j := |s| - TrailingSpace(s);
    if j <= i then
      assert TrimmedAt(s, [], i);
      []
    else
      assert TrimmedAt(s, s[i..j], i);
      s[i..j]
  }

  // ---------------------------------------------------------------------------
  // String ordering

  /** `a < b` on Python strings: lexicographic by code point, a proper prefix first. */
  predicate LexLt(a: string, b: string)
    decreases |a|
  {
    if |a| == 0 then |b| > 0
    else if |b| == 0 then false
    else a[0] < b[0] || (a[0] == b[0] && LexLt(a[1..], b[1..]))
  }

  /** `a` is a proper prefix of `b`. */
  predicate ProperPrefix(a: string, b: string) {
    |a| < |b| && a == b[..|a|]
  }

  /** At the first position where `a` and `b` differ, `a` has the smaller code point. */
  predicate SmallerAtFirstDifference(a: string, b: string) {
    exists k :: 0 <= k < |a| && k < |b| && a[..k] == b[..k] && a[k] < b[k]
  }

  /**
   `a < b` holds exactly when `a` is a proper prefix of `b`, or when at the
   first position where they differ `a` has the smaller code point.
   */
  lemma {:induction false} LexLtIsFirstDifference(a: string, b: string)
    ensures LexLt(a, b) <==> ProperPrefix(a, b) || SmallerAtFirstDifference(a, b)
    decreases |a|
  {
    if |a| > 0 && |b| > 0 {
      if a[0] == b[0] {
        LexLtIsFirstDifference(a[1..], b[1..]);
        SameHeadPrefix(a, b);
        SameHeadDifference(a, b);
      } else {
        DifferentHeads(a, b);
      }
    }
  }

  lemma SameHeadPrefix(a: string, b: string)
    requires |a| > 0 && |b| > 0 && a[0] == b[0]
    ensures ProperPrefix(a, b) <==> ProperPrefix(a[1..], b[1..])
  {
    if ProperPrefix(a, b) {
      assert a[1..] == b[1..][..|a| - 1];
    }
    if ProperPrefix(a[1..], b[1..]) {
      assert a == [a[0]] + a[1..];
      assert b[..|a|] == [b[0]] + b[1..][..|a| - 1];
    }
  }

  lemma SameHeadDifference(a: string, b: string)
    requires |a| > 0 && |b| > 0 && a[0] == b[0]
    ensures SmallerAtFirstDifference(a, b) <==> SmallerAtFirstDifference(a[1..], b[1..])
  {
    if SmallerAtFirstDifference(a[1..], b[1..]) {
      var k :| 0 <= k < |a| - 1 && k < |b| - 1 && a[1..][..k] == b[1..][..k] && a[1..][k] < b[1..][k];
      assert a[..k + 1] == [a[0]] + a[1..][..k];
      assert b[..k + 1] == [b[0]] + b[1..][..k];
      assert a[k + 1] < b[k + 1];
    }
    if SmallerAtFirstDifference(a, b) {
      var k :| 0 <= k < |a| && k < |b| && a[..k] == b[..k] && a[k] < b[k];
      assert k > 0;
      assert a[1..][..k - 1] == a[..k][1..];
      assert b[1..][..k - 1] == b[..k][1..];
      assert a[1..][k - 1] < b[1..][k - 1];
    }
  }

  lemma DifferentHeads(a: string, b: string)
    requires |a| > 0 && |b| > 0 && a[0] != b[0]
    ensures !ProperPrefix(a, b)
    ensures SmallerAtFirstDifference(a, b) <==> a[0] < b[0]
  {
    if a[0] < b[0] {
      assert a[..0] == b[..0];
    }
  }

  /** `a <= b` on Python strings. */
  predicate LexLe(a: string, b: string) {
    a == b || LexLt(a, b)
  }

  lemma {:induction false} LexLtIrreflexive(a: string)
    ensures !LexLt(a, a)
    decreases |a|
  {
    if |a| > 0 {
      LexLtIrreflexive(a[1..]);
    }
  }

  lemma {:induction false} LexLtTransitive(a: string, b: string, c: string)
    ensures LexLt(a, b) && LexLt(b, c) ==> LexLt(a, c)
    decreases |a|
  {
    if |a| > 0 && |b| > 0 && |c| > 0 {
      LexLtTransitive(a[1..], b[1..], c[1..]);
    }
  }

  /** Any two distinct strings are ordered one way or the other. */
  lemma {:induction false} LexLtTotal(a: string, b: string)
    ensures a == b || LexLt(a, b) || LexLt(b, a)
    decreases |a|
  {
    if |a| > 0 && |b| > 0 && a[0] == b[0] {
      LexLtTotal(a[1..], b[1..]);
      if a[1..] == b[1..] {
        assert a == [a[0]] + a[1..] && b == [b[0]] + b[1..];
      }
    }
  }
}
