/**
 The stable sort behind Python's `sorted(xs, key=..., reverse=...)`, written
 as an insertion sort parameterised by a strict "comes before" relation.
 */
module Sorting {
  import opened Wrappers
  import opened Sequences

  ghost predicate Irreflexive<T(!new)>(before: (T, T) -> bool) {
    forall a :: !before(a, a)
  }

  ghost predicate Transitive<T(!new)>(before: (T, T) -> bool) {
    forall a, b, c :: before(a, b) && before(b, c) ==> before(a, c)
  }

  /** `before` is a strict order: what `<` on a sort key gives. */
  ghost predicate StrictOrder<T(!new)>(before: (T, T) -> bool) {
    Irreflexive(before) && Transitive(before)
  }

  /**
   Whenever `a` comes before `c`, any `b` comes after `a` or before `c`: the
   order compares through a key, as `sorted(..., key=...)` does, so elements
   that neither precede nor follow each other share a key.
   */
  ghost predicate NegativelyTransitive<T(!new)>(before: (T, T) -> bool) {
    forall a, b, c :: before(a, c) ==> before(a, b) || before(b, c)
  }

  /** `a` and `b` sort as equal: neither comes before the other. */
  predicate Tied<T>(before: (T, T) -> bool, a: T, b: T) {
    !before(a, b) && !before(b, a)
  }

  /** `y` when it sorts as equal to `x`, nothing otherwise. */
  function TieOf<T>(before: (T, T) -> bool, x: T): T -> Option<T> {
    (y: T) => if Tied(before, y, x) then Some(y) else None
  }

  /** The elements of `s` that sort as equal to `x`, in their order in `s`. */
  function Ties<T>(s: seq<T>, before: (T, T) -> bool, x: T): seq<T> {
    FilterMap(s, TieOf(before, x))
  }

  /** No element comes strictly before an element that precedes it. */
  predicate Sorted<T>(s: seq<T>, before: (T, T) -> bool) {
    forall i, j :: 0 <= i < j < |s| ==> !before(s[j], s[i])
  }

  /** Puts `x` just ahead of the first element it comes strictly before, so equal keys keep their order. */
  function Insert<T(!new)>(t: seq<T>, x: T, before: (T, T) -> bool): (r: seq<T>)
    ensures multiset(r) == multiset(t) + multiset{x}
  {
    if |t| == 0 then [x]
    else if before(x, t[0]) then
      assert t == [t[0]] + t[1..];
      [x] + t
    else
      assert t == [t[0]] + t[1..];
      [t[0]] + Insert(t[1..], x, before)
  }

  /** Inserting into a sorted sequence keeps it sorted. */
  lemma {:induction false} InsertKeepsSorted<T(!new)>(t: seq<T>, x: T, before: (T, T) -> bool)
    requires StrictOrder(before)
    requires Sorted(t, before)
    ensures Sorted(Insert(t, x, before), before)
  {
    if |t| > 0 && !before(x, t[0]) {
      var rest := Insert(t[1..], x, before);
      InsertKeepsSorted(t[1..], x, before);
      forall e | e in rest
        ensures !before(e, t[0])
      {
        assert e in multiset(rest);
        if e != x {
          assert e in t[1..];
        }
      }
    }
  }

  /** `sorted(s)` under the order `before`. */
  function SortBy<T(!new)>(s: seq<T>, before: (T, T) -> bool): (r: seq<T>)
    ensures multiset(r) == multiset(s)
    ensures StrictOrder(before) ==> Sorted(r, before)
  {
    if |s| == 0 then []
    else
      assert s == s[..|s| - 1] + [s[|s| - 1]];
      var sortedInit := SortBy(s[..|s| - 1], before);
      assert StrictOrder(before) ==> Sorted(Insert(sortedInit, s[|s| - 1], before), before) by {
        if StrictOrder(before) {
          InsertKeepsSorted(sortedInit, s[|s| - 1], before);
        }
      }
      Insert(sortedInit, s[|s| - 1], before)
  }

  /** Keeping the ties of `x` distributes over concatenation. */
  lemma TiesAppend<T>(a: seq<T>, b: seq<T>, before: (T, T) -> bool, x: T)
    ensures Ties(a + b, before, x) == Ties(a, before, x) + Ties(b, before, x)
  {
    FilterMapAppend(a, b, TieOf(before, x));
  }

  /** A sequence none of whose elements ties with `x` keeps no ties of `x`. */
  lemma {:induction false} NoTies<T>(s: seq<T>, before: (T, T) -> bool, x: T)
    requires forall j :: 0 <= j < |s| ==> !Tied(before, s[j], x)
    ensures Ties(s, before, x) == []
  {
    if |s| > 0 {
      NoTies(s[..|s| - 1], before, x);
    }
  }

  /**
   Inserting `y` into a sorted sequence adds `y` at the end of the ties of
   `x` when it ties with `x`, and leaves those ties alone otherwise: `y` is
   placed after every element it ties with.
   */
  lemma {:induction false} InsertTies<T(!new)>(t: seq<T>, y: T, before: (T, T) -> bool, x: T)
    requires StrictOrder(before) && NegativelyTransitive(before)
    requires Sorted(t, before)
    ensures Ties(Insert(t, y, before), before, x)
         == Ties(t, before, x) + (if Tied(before, y, x) then [y] else [])
  {
    if |t| == 0 {
    } else if before(y, t[0]) {
      assert Insert(t, y, before) == [y] + t;
      TiesAppend([y], t, before, x);
      if Tied(before, y, x) {
        forall j | 0 <= j < |t|
          ensures !Tied(before, t[j], x)
        {
          FollowsTied(t, y, before, x, j);
        }
        NoTies(t, before, x);
      }
    } else {
      var rest := Insert(t[1..], y, before);
      assert Insert(t, y, before) == [t[0]] + rest;
      InsertTies(t[1..], y, before, x);
      TiesAppend([t[0]], rest, before, x);
      assert t == [t[0]] + t[1..];
      TiesAppend([t[0]], t[1..], before, x);
    }
  }

  /** In a sorted `t` whose head comes after `y`, every element comes after anything tied with `y`. */
  lemma FollowsTied<T(!new)>(t: seq<T>, y: T, before: (T, T) -> bool, x: T, j: int)
    requires StrictOrder(before) && NegativelyTransitive(before)
    requires Sorted(t, before)
    requires 0 <= j < |t| && before(y, t[0]) && Tied(before, y, x)
    ensures before(x, t[j])
  {
    assert j > 0 ==> !before(t[j], t[0]);
    assert before(y, t[j]);
  }

  /** `sorted` is stable: elements that sort as equal keep their relative order. */
  lemma {:induction false} SortByIsStable<T(!new)>(s: seq<T>, before: (T, T) -> bool, x: T)
    requires StrictOrder(before) && NegativelyTransitive(before)
    ensures Ties(SortBy(s, before), before, x) == Ties(s, before, x)
  {
    if |s| > 0 {
      var n := |s| - 1;
      SortByIsStable(s[..n], before, x);
      SortBySnoc(s, before);
      TiesSnoc(s, before, x);
      InsertTies(SortBy(s[..n], before), s[n], before, x);
    }
  }

  /** `SortBy` inserts the last element into the sorted rest. */
  lemma SortBySnoc<T(!new)>(s: seq<T>, before: (T, T) -> bool)
    requires |s| > 0
    ensures SortBy(s, before) == Insert(SortBy(s[..|s| - 1], before), s[|s| - 1], before)
  {
  }

  /** The ties of a sequence are those of its front followed by its last element, if it ties. */
  lemma TiesSnoc<T>(s: seq<T>, before: (T, T) -> bool, x: T)
    requires |s| > 0
    ensures Ties(s, before, x)
         == Ties(s[..|s| - 1], before, x) + (if Tied(before, s[|s| - 1], x) then [s[|s| - 1]] else [])
  {
  }
}
