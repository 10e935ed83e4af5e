/** Stable insertion sort, the specification of list.sort and sorted wherever records or names are ranked. */
module Sorting {
  /** Inserts behind everything that may stand before x. */
  function Insert<T>(before: (T, T) -> bool, sorted: seq<T>, x: T): seq<T> {
    if sorted == [] then [x]
    else if before(sorted[|sorted| - 1], x) then sorted + [x]
    else Insert(before, sorted[..|sorted| - 1], x) + [sorted[|sorted| - 1]]
  }

  function Sorted<T>(before: (T, T) -> bool, xs: seq<T>): seq<T> {
    if xs == [] then [] else Insert(before, Sorted(before, xs[..|xs| - 1]), xs[|xs| - 1])
  }

  ghost predicate InOrder<T>(before: (T, T) -> bool, xs: seq<T>) {
    forall i, j | 0 <= i < j < |xs| :: before(xs[i], xs[j])
  }

  ghost predicate IsOrder<T(!new)>(before: (T, T) -> bool) {
    && (forall a, b :: before(a, b) || before(b, a))
    && (forall a, b, c | before(a, b) && before(b, c) :: before(a, c))
  }

  lemma {:induction false} InsertHolds<T(!new)>(before: (T, T) -> bool, sorted: seq<T>, x: T)
    ensures multiset(Insert(before, sorted, x)) == multiset(sorted) + multiset{x}
  {
    if sorted != [] && !before(sorted[|sorted| - 1], x) {
      var shorter, last := sorted[..|sorted| - 1], sorted[|sorted| - 1];
      InsertHolds(before, shorter, x);
      assert sorted == shorter + [last];
    }
  }

  lemma Either<T(!new)>(before: (T, T) -> bool, a: T, b: T)
    requires IsOrder(before) && !before(a, b)
    ensures before(b, a)
  {}

  lemma Chain<T(!new)>(before: (T, T) -> bool, a: T, b: T, c: T)
    requires IsOrder(before) && before(a, b) && before(b, c)
    ensures before(a, c)
  {}

  lemma {:induction false} InsertSorts<T(!new)>(before: (T, T) -> bool, sorted: seq<T>, x: T)
    requires IsOrder(before) && InOrder(before, sorted)
    ensures InOrder(before, Insert(before, sorted, x))
  {
    hide IsOrder;
    if sorted == [] {
    } else if before(sorted[|sorted| - 1], x) {
      forall i | 0 <= i < |sorted| ensures before(sorted[i], x) {
        if i < |sorted| - 1 { Chain(before, sorted[i], sorted[|sorted| - 1], x); }
      }
    } else {
      var shorter, last := sorted[..|sorted| - 1], sorted[|sorted| - 1];
      InsertSorts(before, shorter, x);
      InsertHolds(before, shorter, x);
      Either(before, last, x);
      var inner := Insert(before, shorter, x);
      assert Insert(before, sorted, x) == inner + [last];
      hide Insert;
      forall i | 0 <= i < |inner| ensures before(inner[i], last) {
        assert inner[i] in multiset(inner);
      }
    }
  }

  /** The result is in order and holds the same elements. */
  lemma {:induction false} SortedSorts<T(!new)>(before: (T, T) -> bool, xs: seq<T>)
    requires IsOrder(before)
    ensures InOrder(before, Sorted(before, xs)) && multiset(Sorted(before, xs)) == multiset(xs)
  {
    hide Insert, IsOrder;
    if xs != [] {
      var shorter, last := xs[..|xs| - 1], xs[|xs| - 1];
      SortedSorts(before, shorter);
      InsertSorts(before, Sorted(before, shorter), last);
      InsertHolds(before, Sorted(before, shorter), last);
      assert xs == shorter + [last];
    }
  }
}
