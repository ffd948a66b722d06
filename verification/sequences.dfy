/** Counting and filtering over sequences, independent of what the elements are. */
module Sequences {
  import opened Wrappers

  /** How many elements satisfy `p`, counted front to back. */
  function CountWhere<T>(s: seq<T>, p: T -> bool): (n: nat)
    ensures n <= |s|
  {
    if |s| == 0 then 0
    else CountWhere(s[..|s| - 1], p) + (if p(s[|s| - 1]) then 1 else 0)
  }

  /** The positions holding an element that satisfies `p`. */
  ghost function PositionsWhere<T>(s: seq<T>, p: T -> bool): set<int> {
    set i | 0 <= i < |s| && p(s[i])
  }

  /** The count is the number of positions whose element satisfies `p`. */
  lemma {:induction false} CountWhereIsPositions<T>(s: seq<T>, p: T -> bool)
    ensures CountWhere(s, p) == |PositionsWhere(s, p)|
  {
    if |s| > 0 {
      var n := |s| - 1;
      var init := s[..n];
      CountWhereIsPositions(init, p);
      assert n !in PositionsWhere(init, p);
      if p(s[n]) {
        assert PositionsWhere(s, p) == PositionsWhere(init, p) + {n};
      } else {
        assert PositionsWhere(s, p) == PositionsWhere(init, p);
      }
    }
  }

  /** The values `f` yields, in order, skipping the elements it maps to `None`. */
  function FilterMap<A, B>(s: seq<A>, f: A -> Option<B>): (r: seq<B>)
    ensures |r| <= |s|
  {
    if |s| == 0 then []
    else
      var init := FilterMap(s[..|s| - 1], f);
      match f(s[|s| - 1])
      case Some(v) => init + [v]
      case None => init
  }

  /** The positions where `f` yields a value, in increasing order. */
  function SomePositions<A, B>(s: seq<A>, f: A -> Option<B>): (ix: seq<int>)
    ensures forall k :: 0 <= k < |ix| ==> 0 <= ix[k] < |s| && f(s[ix[k]]).Some?
    ensures forall k, m :: 0 <= k < m < |ix| ==> ix[k] < ix[m]
    ensures forall i :: 0 <= i < |s| && f(s[i]).Some? ==> i in ix
  {
    if |s| == 0 then []
    else
      var n := |s| - 1;
      var init := SomePositions(s[..n], f);
      assert forall i :: 0 <= i < n ==> s[..n][i] == s[i];
      if f(s[n]).Some? then init + [n] else init
  }

  /** `FilterMap` is the subsequence of successes: its k-th value comes from the k-th success. */
  lemma {:induction false} FilterMapIsSubsequence<A, B>(s: seq<A>, f: A -> Option<B>)
    ensures var ix := SomePositions(s, f);
            && |FilterMap(s, f)| == |ix|
            && forall k :: 0 <= k < |ix| ==> f(s[ix[k]]) == Some(FilterMap(s, f)[k])
  {
    if |s| > 0 {
      var n := |s| - 1;
      var init := s[..n];
      FilterMapIsSubsequence(init, f);
      var ix0, r0 := SomePositions(init, f), FilterMap(init, f);
      forall k | 0 <= k < |ix0|
        ensures ix0[k] < n && f(s[ix0[k]]) == Some(r0[k])
      {
        assert init[ix0[k]] == s[ix0[k]];
      }
      SubsequenceStep(s, f, ix0, r0);
    }
  }

  /** Extending the subsequence of the first `|s| - 1` elements by the last one. */
  lemma SubsequenceStep<A, B>(s: seq<A>, f: A -> Option<B>, ix0: seq<int>, r0: seq<B>)
    requires |s| > 0
    requires ix0 == SomePositions(s[..|s| - 1], f) && r0 == FilterMap(s[..|s| - 1], f)
    requires |r0| == |ix0|
    requires forall k :: 0 <= k < |ix0| ==> ix0[k] < |s| - 1 && f(s[ix0[k]]) == Some(r0[k])
    ensures |FilterMap(s, f)| == |SomePositions(s, f)|
    ensures forall k :: 0 <= k < |SomePositions(s, f)| ==>
              f(s[SomePositions(s, f)[k]]) == Some(FilterMap(s, f)[k])
  {
    var n := |s| - 1;
    var ix, r := SomePositions(s, f), FilterMap(s, f);
    if f(s[n]).Some? {
      assert ix == ix0 + [n];
      assert r == r0 + [f(s[n]).value];
      assert forall k :: 0 <= k < |ix0| ==> ix[k] == ix0[k] && r[k] == r0[k];
    } else {
      assert ix == ix0 && r == r0;
    }
  }

  /** The elements `f` yields a value for. */
  function IsSome<A, B>(f: A -> Option<B>): A -> bool {
    (x: A) => f(x).Some?
  }

  /** `FilterMap` yields one value for each element `f` accepts. */
  lemma {:induction false} FilterMapCountsAccepted<A, B>(s: seq<A>, f: A -> Option<B>)
    ensures |FilterMap(s, f)| == CountWhere(s, IsSome(f))
  {
    if |s| > 0 {
      FilterMapCountsAccepted(s[..|s| - 1], f);
    }
  }

  /** `FilterMap` distributes over concatenation. */
  lemma {:induction false} FilterMapAppend<A, B>(a: seq<A>, b: seq<A>, f: A -> Option<B>)
    ensures FilterMap(a + b, f) == FilterMap(a, f) + FilterMap(b, f)
    decreases |b|
  {
    if |b| == 0 {
      assert a + b == a;
    } else {
      var n := |b| - 1;
      assert (a + b)[..|a + b| - 1] == a + b[..n];
      FilterMapAppend(a, b[..n], f);
    }
  }

  /** Every value `f` yields is at least one element that `p` accepts, so there are no more values than such elements. */
  lemma {:induction false} FilterMapAtMostCount<A, B>(s: seq<A>, f: A -> Option<B>, p: A -> bool)
    requires forall x :: f(x).Some? ==> p(x)
    ensures |FilterMap(s, f)| <= CountWhere(s, p)
  {
    if |s| > 0 {
      FilterMapAtMostCount(s[..|s| - 1], f, p);
    }
  }

  /** No value occurs twice. */
  predicate NoDuplicates<T(==)>(s: seq<T>) {
    forall i, j :: 0 <= i < j < |s| ==> s[i] != s[j]
  }

  lemma {:induction false} NoDuplicatesCountsOnce<T>(s: seq<T>, x: T)
    requires NoDuplicates(s)
    ensures multiset(s)[x] <= 1
  {
    if |s| > 0 {
      assert s == [s[0]] + s[1..];
      NoDuplicatesCountsOnce(s[1..], x);
      if x == s[0] {
        assert x !in s[1..];
      }
    }
  }

  /** A permutation of a duplicate-free sequence is duplicate-free. */
  lemma PermutationKeepsNoDuplicates<T>(s: seq<T>, t: seq<T>)
    requires multiset(s) == multiset(t)
    requires NoDuplicates(s)
    ensures NoDuplicates(t)
  {
    forall i, j | 0 <= i < j < |t|
      ensures t[i] != t[j]
    {
      NoDuplicatesCountsOnce(s, t[i]);
      assert t == t[..j] + t[j..];
      assert t[i] in t[..j];
      assert t[j] in t[j..];
      assert multiset(t)[t[j]] == multiset(t[..j])[t[j]] + multiset(t[j..])[t[j]];
    }
  }

  /** Every value `f` yields on an element is kept. */
  lemma {:induction false} FilterMapKeeps<A, B>(s: seq<A>, f: A -> Option<B>, i: int)
    requires 0 <= i < |s| && f(s[i]).Some?
    ensures f(s[i]).value in FilterMap(s, f)
  {
    var n := |s| - 1;
    if i < n {
      assert s[..n][i] == s[i];
      FilterMapKeeps(s[..n], f, i);
    }
  }

  /** Every kept value is what `f` yields on some element. */
  lemma {:induction false} FilterMapSource<A, B>(s: seq<A>, f: A -> Option<B>, v: B)
    requires v in FilterMap(s, f)
    ensures exists i :: 0 <= i < |s| && f(s[i]) == Some(v)
  {
    var n := |s| - 1;
    if f(s[n]) != Some(v) {
      FilterMapSource(s[..n], f, v);
      var i :| 0 <= i < n && f(s[..n][i]) == Some(v);
      assert s[..n][i] == s[i];
    }
  }

  /** When `f` never yields the same value for two elements, `FilterMap` has no duplicates. */
  lemma FilterMapNoDuplicates<A, B>(s: seq<A>, f: A -> Option<B>)
    requires forall i, j :: 0 <= i < j < |s| && f(s[i]).Some? && f(s[j]).Some? ==> f(s[i]) != f(s[j])
    ensures NoDuplicates(FilterMap(s, f))
  {
    FilterMapIsSubsequence(s, f);
  }

  /**
   A reordering of `FilterMap(s, f)` in which every value carries the name
   of the element it came from: when the names are distinct, each accepted
   element shows up under exactly one position and every other element
   under none.
   */
  lemma PermutedFilterMapKeyedOnce<A, B, K>(s: seq<A>, f: A -> Option<B>, t: seq<B>, name: A -> K, key: B -> K)
    requires forall x :: f(x).Some? ==> key(f(x).value) == name(x)
    requires forall i, j :: 0 <= i < j < |s| ==> name(s[i]) != name(s[j])
    requires multiset(t) == multiset(FilterMap(s, f))
    ensures forall a, b :: 0 <= a < b < |t| ==> key(t[a]) != key(t[b])
    ensures forall i :: 0 <= i < |s| ==> ((exists a :: 0 <= a < |t| && key(t[a]) == name(s[i])) <==> f(s[i]).Some?)
  {
    FilterMapNoDuplicates(s, f);
    PermutationKeepsNoDuplicates(FilterMap(s, f), t);
    forall a, b | 0 <= a < b < |t|
      ensures key(t[a]) != key(t[b])
    {
      var i := SourceOf(s, f, t, a);
      var j := SourceOf(s, f, t, b);
      assert t[a] != t[b];
      assert i != j;
    }
    forall i | 0 <= i < |s|
      ensures (exists a :: 0 <= a < |t| && key(t[a]) == name(s[i])) <==> f(s[i]).Some?
    {
      if f(s[i]).Some? {
        FilterMapKeeps(s, f, i);
        var v := f(s[i]).value;
        assert v in multiset(t);
        var a :| 0 <= a < |t| && t[a] == v;
        assert key(t[a]) == name(s[i]);
      } else {
        forall a | 0 <= a < |t|
          ensures key(t[a]) != name(s[i])
        {
          var j := SourceOf(s, f, t, a);
          assert j != i;
        }
      }
    }
  }

  /** The position of `s` whose value sits at position `a` of the reordering. */
  lemma SourceOf<A, B>(s: seq<A>, f: A -> Option<B>, t: seq<B>, a: int) returns (i: int)
    requires multiset(t) == multiset(FilterMap(s, f))
    requires 0 <= a < |t|
    ensures 0 <= i < |s| && f(s[i]) == Some(t[a])
  {
    assert t[a] in multiset(FilterMap(s, f));
    FilterMapSource(s, f, t[a]);
    i :| 0 <= i < |s| && f(s[i]) == Some(t[a]);
  }
}
