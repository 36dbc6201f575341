/**
 * `Array.prototype.sort(compareFn)`: an in-place sort that ECMAScript
 * (since 2019) requires to be stable. The comparator is abstracted as
 * `before(a, b)`, "compareFn(a, b) < 0": a must come strictly ahead of b.
 * The result of any stable sort under a consistent comparator is unique,
 * so a stable insertion sort stands for the engine's algorithm.
 */
module StableSort {

  predicate Transitive3<T>(before: (T, T) -> bool, a: T, b: T, c: T)
  {
    before(a, b) && before(b, c) ==> before(a, c)
  }

  predicate NegativelyTransitive3<T>(before: (T, T) -> bool, a: T, b: T, c: T)
  {
    !before(a, b) && !before(b, c) ==> !before(a, c)
  }

  /**
   * The comparator is consistent: a strict weak order. (The transitivity
   * laws are instantiated on demand, through their named predicates.)
   */
  ghost predicate StrictWeakOrder<T(!new)>(before: (T, T) -> bool)
  {
    && (forall a :: !before(a, a))
    && (forall a, b, c {:trigger Transitive3(before, a, b, c)} :: Transitive3(before, a, b, c))
    && (forall a, b, c {:trigger NegativelyTransitive3(before, a, b, c)} :: NegativelyTransitive3(before, a, b, c))
  }

  /** Neither element goes ahead of the other (compareFn returns 0). */
  predicate Tied<T>(before: (T, T) -> bool, a: T, b: T)
  {
    !before(a, b) && !before(b, a)
  }

  /** No element is required to go ahead of an earlier one. */
  ghost predicate SortedBy<T>(s: seq<T>, before: (T, T) -> bool)
  {
    forall i, j :: 0 <= i < j < |s| ==> !before(s[j], s[i])
  }

  /** The elements of s tied with x, in their order in s. */
  function TiedWith<T>(s: seq<T>, x: T, before: (T, T) -> bool): seq<T>
  {
    if |s| == 0 then []
    else (if Tied(before, s[0], x) then [s[0]] else []) + TiedWith(s[1..], x, before)
  }

  lemma {:induction false} TiedWithAppend<T>(a: seq<T>, b: seq<T>, x: T, before: (T, T) -> bool)
    ensures TiedWith(a + b, x, before) == TiedWith(a, x, before) + TiedWith(b, x, before)
  {
    if |a| > 0 {
      assert (a + b)[1..] == a[1..] + b;
      TiedWithAppend(a[1..], b, x, before);
    } else {
      assert a + b == b;
    }
  }

  /**
   * Where a new last element x lands when inserted into s: after every
   * element it does not have to go ahead of, seen from the end.
   */
  function InsertionPoint<T>(s: seq<T>, x: T, before: (T, T) -> bool): (j: nat)
    ensures j <= |s|
    ensures forall m :: j <= m < |s| ==> before(x, s[m])
    ensures j == 0 || !before(x, s[j - 1])
  {
    if |s| == 0 then 0
    else if before(x, s[|s| - 1]) then InsertionPoint(s[..|s| - 1], x, before)
    else |s|
  }

  /** The insertion point is the only position with those two properties. */
  lemma {:induction false} InsertionPointUnique<T>(s: seq<T>, x: T, j: nat, before: (T, T) -> bool)
    requires j <= |s|
    requires forall m :: j <= m < |s| ==> before(x, s[m])
    requires j == 0 || !before(x, s[j - 1])
    ensures InsertionPoint(s, x, before) == j
  {
    if j < |s| {
      InsertionPointUnique(s[..|s| - 1], x, j, before);
    }
  }

  function InsertLast<T>(s: seq<T>, x: T, before: (T, T) -> bool): seq<T>
  {
    var j := InsertionPoint(s, x, before);
    s[..j] + [x] + s[j..]
  }

  /** The stably sorted permutation of s. */
  function Sort<T>(s: seq<T>, before: (T, T) -> bool): seq<T>
  {
    if |s| == 0 then []
    else InsertLast(Sort(s[..|s| - 1], before), s[|s| - 1], before)
  }

  /** Sort's result is a permutation of its input. */
  lemma {:induction false} SortIsPermutation<T>(s: seq<T>, before: (T, T) -> bool)
    ensures multiset(Sort(s, before)) == multiset(s)
  {
    if |s| > 0 {
      var init, y := s[..|s| - 1], s[|s| - 1];
      assert multiset(s) == multiset(init) + multiset{y} by {
        assert s == init + [y];
      }
      SortIsPermutation(init, before);
      InsertLastPermutation(Sort(init, before), y, before);
    }
  }

  lemma InsertLastPermutation<T>(s: seq<T>, x: T, before: (T, T) -> bool)
    ensures multiset(InsertLast(s, x, before)) == multiset(s) + multiset{x}
  {
    var j := InsertionPoint(s, x, before);
    assert s == s[..j] + s[j..];
    assert multiset(s) == multiset(s[..j]) + multiset(s[j..]);
  }

  lemma SortSnoc<T>(s: seq<T>, i: nat, before: (T, T) -> bool)
    requires i < |s|
    ensures Sort(s[..i + 1], before) == InsertLast(Sort(s[..i], before), s[i], before)
  {
    assert s[..i + 1][..i] == s[..i];
  }

  lemma InsertLastSorted<T(!new)>(s: seq<T>, x: T, before: (T, T) -> bool)
    requires StrictWeakOrder(before)
    requires SortedBy(s, before)
    ensures SortedBy(InsertLast(s, x, before), before)
  {
    var j := InsertionPoint(s, x, before);
    var r := InsertLast(s, x, before);
    forall a, b | 0 <= a < b < |r|
      ensures !before(r[b], r[a])
    {
      if b == j {
        // r[a] == s[a] with a < j: x need not go ahead of s[j - 1], nor s[j - 1] of s[a].
        assert !before(x, s[j - 1]);
        assert a == j - 1 || !before(s[j - 1], s[a]);
        assert NegativelyTransitive3(before, x, s[j - 1], s[a]);
      } else if a == j {
        // r[b] == s[b - 1], which x must go ahead of.
        assert before(x, s[b - 1]);
        assert Transitive3(before, x, s[b - 1], x);
      }
    }
  }

  /** Sort's result is sorted under any consistent comparator. */
  lemma {:induction false} SortIsSorted<T(!new)>(s: seq<T>, before: (T, T) -> bool)
    requires StrictWeakOrder(before)
    ensures SortedBy(Sort(s, before), before)
  {
    if |s| > 0 {
      SortIsSorted(s[..|s| - 1], before);
      InsertLastSorted(Sort(s[..|s| - 1], before), s[|s| - 1], before);
    }
  }

  /** Sort is stable: the elements tied with any x keep their relative order. */
  lemma {:induction false} SortIsStable<T(!new)>(s: seq<T>, x: T, before: (T, T) -> bool)
    requires StrictWeakOrder(before)
    ensures TiedWith(Sort(s, before), x, before) == TiedWith(s, x, before)
  {
    if |s| > 0 {
      var init, y := s[..|s| - 1], s[|s| - 1];
      assert s == init + [y];
      var sorted := Sort(init, before);
      var k := InsertionPoint(sorted, y, before);
      var head, tail := sorted[..k], sorted[k..];
      assert sorted == head + tail;
      assert Sort(s, before) == head + ([y] + tail);
      SortIsStable(init, x, before);
      TiedWithNone(tail, y, x, before);
      StableInsert(head, y, tail, init, x, before);
    }
  }

  /** One insertion keeps the tied elements in order: the step of SortIsStable. */
  lemma StableInsert<T>(head: seq<T>, y: T, tail: seq<T>, init: seq<T>, x: T, before: (T, T) -> bool)
    requires TiedWith(head + tail, x, before) == TiedWith(init, x, before)
    requires Tied(before, y, x) ==> TiedWith(tail, x, before) == []
    ensures TiedWith(head + ([y] + tail), x, before) == TiedWith(init + [y], x, before)
  {
    TiedWithAppend(head, [y] + tail, x, before);
    TiedWithAppend([y], tail, x, before);
    TiedWithAppend(head, tail, x, before);
    TiedWithAppend(init, [y], x, before);
    if Tied(before, y, x) {
      calc {
        TiedWith(head + ([y] + tail), x, before);
        TiedWith(head, x, before) + ([y] + []);
        TiedWith(head, x, before) + [y];
      }
      assert TiedWith(head + tail, x, before) == TiedWith(head, x, before) + [];
    } else {
      assert TiedWith([y], x, before) == [];
      calc {
        TiedWith(head + ([y] + tail), x, before);
        TiedWith(head, x, before) + ([] + TiedWith(tail, x, before));
        TiedWith(head + tail, x, before);
      }
    }
  }

  /** When y is tied with x, nothing that y must go ahead of is tied with x. */
  lemma {:induction false} TiedWithNone<T(!new)>(t: seq<T>, y: T, x: T, before: (T, T) -> bool)
    requires StrictWeakOrder(before)
    requires forall m :: 0 <= m < |t| ==> before(y, t[m])
    ensures Tied(before, y, x) ==> TiedWith(t, x, before) == []
  {
    if |t| > 0 && Tied(before, y, x) {
      TiedWithNone(t[1..], y, x, before);
      // !before(y, x) and !before(x, t[0]) would give !before(y, t[0]).
      assert before(y, t[0]);
      assert NegativelyTransitive3(before, y, x, t[0]);
    }
  }

  /**
   * One pass of the insertion sort: a[i] moves left past every element of
   * the sorted prefix a[..i] that it must go ahead of.
   */
  method InsertStep<T>(a: array<T>, i: nat, before: (T, T) -> bool)
    requires i < a.Length
    modifies a
    ensures a[..i + 1] == InsertLast(old(a[..i]), old(a[i]), before)
    ensures a[i + 1..] == old(a[i + 1..])
  {
    ghost var sorted := a[..i];
    var x := a[i];
    var j := i;
    assert a[..i + 1] == sorted[..j] + [x] + sorted[j..];
    while j > 0 && before(x, a[j - 1])
      invariant 0 <= j <= i
      invariant a[..i + 1] == sorted[..j] + [x] + sorted[j..]
      invariant forall m :: j <= m < i ==> before(x, sorted[m])
      invariant a[i + 1..] == old(a[i + 1..])
    {
      assert a[j - 1] == sorted[j - 1] && a[j] == x;
      a[j - 1], a[j] := a[j], a[j - 1];
      j := j - 1;
      assert a[..i + 1] == sorted[..j] + [x] + sorted[j..];
    }
    InsertionPointUnique(sorted, x, j, before);
  }

  /**
   * `a.sort(compareFn)`, in place: a stable insertion sort. The result is
   * Sort of the original contents.
   */
  method SortInPlace<T>(a: array<T>, before: (T, T) -> bool)
    modifies a
    ensures a[..] == Sort(old(a[..]), before)
  {
    ghost var input := a[..];
    for i := 0 to a.Length
      invariant a[..i] == Sort(input[..i], before)
      invariant a[i..] == input[i..]
    {
      ghost var prefix := a[..i];
      assert a[i] == input[i];
      SortSnoc(input, i, before);
      InsertStep(a, i, before);
      assert a[..i + 1] == InsertLast(prefix, input[i], before);
    }
    assert input[..a.Length] == input;
  }
}
