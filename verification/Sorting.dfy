/** Python's `sorted` and `list.sort`: a stable sort by a total preorder. */
module Sorting {

  ghost predicate TotalPreorder<T(!new)>(leq: (T, T) -> bool) {
    && (forall a, b :: leq(a, b) || leq(b, a))
    && (forall a, b, c :: leq(a, b) && leq(b, c) ==> leq(a, c))
  }

  ghost predicate InOrder<T>(leq: (T, T) -> bool, xs: seq<T>) {
    forall i, j :: 0 <= i < j < |xs| ==> leq(xs[i], xs[j])
  }

  /** Stable: an element goes after those it ties with. */
  function Insert<T>(leq: (T, T) -> bool, xs: seq<T>, x: T): seq<T> {
    if xs == [] || leq(xs[|xs| - 1], x) then xs + [x]
    else Insert(leq, xs[..|xs| - 1], x) + [xs[|xs| - 1]]
  }

  function Sorted<T>(leq: (T, T) -> bool, xs: seq<T>): seq<T> {
    if xs == [] then [] else Insert(leq, Sorted(leq, xs[..|xs| - 1]), xs[|xs| - 1])
  }

  lemma {:induction false} InsertKeepsAll<T>(leq: (T, T) -> bool, xs: seq<T>, x: T)
    ensures multiset(Insert(leq, xs, x)) == multiset(xs) + multiset{x}
  {
    if xs != [] {
      assert xs == xs[..|xs| - 1] + [xs[|xs| - 1]];
      if !leq(xs[|xs| - 1], x) { InsertKeepsAll(leq, xs[..|xs| - 1], x); }
    }
  }

  lemma {:induction false} InsertKeepsOrder<T(!new)>(leq: (T, T) -> bool, xs: seq<T>, x: T)
    requires TotalPreorder(leq) && InOrder(leq, xs)
    ensures InOrder(leq, Insert(leq, xs, x))
  {
    if xs != [] && !leq(xs[|xs| - 1], x) {
      var front, last := xs[..|xs| - 1], xs[|xs| - 1];
      InsertKeepsOrder(leq, front, x);
      InsertKeepsAll(leq, front, x);
      forall y | y in Insert(leq, front, x) ensures leq(y, last) {
        assert y in multiset(Insert(leq, front, x));
        assert y == x || y in front;
      }
    }
  }

  lemma {:induction false} SortedKeepsAll<T>(leq: (T, T) -> bool, xs: seq<T>)
    ensures multiset(Sorted(leq, xs)) == multiset(xs)
    decreases |xs|
  {
    if xs != [] {
      var front, last := xs[..|xs| - 1], xs[|xs| - 1];
      SortedKeepsAll(leq, front);
      InsertKeepsAll(leq, Sorted(leq, front), last);
      assert xs == front + [last];
    }
  }

  lemma {:induction false} SortedInOrder<T(!new)>(leq: (T, T) -> bool, xs: seq<T>)
    requires TotalPreorder(leq)
    ensures InOrder(leq, Sorted(leq, xs))
    decreases |xs|
  {
    if xs != [] {
      SortedInOrder(leq, xs[..|xs| - 1]);
      InsertKeepsOrder(leq, Sorted(leq, xs[..|xs| - 1]), xs[|xs| - 1]);
    }
  }

  /** The result is in order and holds exactly the same elements. */
  lemma SortedIsOrderedPermutation<T(!new)>(leq: (T, T) -> bool, xs: seq<T>)
    requires TotalPreorder(leq)
    ensures multiset(Sorted(leq, xs)) == multiset(xs) && InOrder(leq, Sorted(leq, xs))
  {
    SortedKeepsAll(leq, xs);
    SortedInOrder(leq, xs);
  }

  predicate Ties<T>(leq: (T, T) -> bool, x: T, y: T) {
    leq(x, y) && leq(y, x)
  }

  /** The elements that tie with `x`, in order. */
  function Tied<T>(leq: (T, T) -> bool, xs: seq<T>, x: T): seq<T> {
    if xs == [] then []
    else Tied(leq, xs[..|xs| - 1], x) + if Ties(leq, xs[|xs| - 1], x) then [xs[|xs| - 1]] else []
  }

  lemma TiedSnoc<T>(leq: (T, T) -> bool, xs: seq<T>, y: T, x: T)
    ensures Tied(leq, xs + [y], x) == Tied(leq, xs, x) + if Ties(leq, y, x) then [y] else []
  {
    assert (xs + [y])[..|xs|] == xs;
  }

  lemma NotBothTied<T(!new)>(leq: (T, T) -> bool, a: T, b: T, x: T)
    requires TotalPreorder(leq) && !leq(a, b)
    ensures !(Ties(leq, a, x) && Ties(leq, b, x))
  {
    assert leq(a, x) && leq(x, b) ==> leq(a, b);
  }

  /** What ties with `x` after `y` was inserted. */
  ghost predicate InsertedLast<T>(leq: (T, T) -> bool, xs: seq<T>, y: T, x: T) {
    Tied(leq, Insert(leq, xs, y), x) == Tied(leq, xs, x) + if Ties(leq, y, x) then [y] else []
  }

  lemma InsertBefore<T>(leq: (T, T) -> bool, front: seq<T>, last: T, y: T, x: T)
    requires !leq(last, y) && InsertedLast(leq, front, y, x) && !(Ties(leq, last, x) && Ties(leq, y, x))
    ensures InsertedLast(leq, front + [last], y, x)
  {
    TiedSnoc(leq, Insert(leq, front, y), last, x);
    TiedSnoc(leq, front, last, x);
    var xs := front + [last];
    assert xs[..|xs| - 1] == front && xs[|xs| - 1] == last;
    assert Insert(leq, xs, y) == Insert(leq, front, y) + [last];
  }

  lemma {:induction false} InsertIsStable<T(!new)>(leq: (T, T) -> bool, xs: seq<T>, y: T, x: T)
    requires TotalPreorder(leq)
    ensures InsertedLast(leq, xs, y, x)
    decreases |xs|
  {
    if xs == [] || leq(xs[|xs| - 1], y) {
      TiedSnoc(leq, xs, y, x);
    } else {
      var front, last := xs[..|xs| - 1], xs[|xs| - 1];
      InsertIsStable(leq, front, y, x);
      NotBothTied(leq, last, y, x);
      InsertBefore(leq, front, last, y, x);
      assert xs == front + [last];
    }
  }

  predicate SameTies<T(==)>(leq: (T, T) -> bool, xs: seq<T>, ys: seq<T>, x: T) {
    Tied(leq, xs, x) == Tied(leq, ys, x)
  }

  /** Elements that tie keep the order they had. */
  lemma {:induction false} SortedIsStable<T(!new)>(leq: (T, T) -> bool, xs: seq<T>, x: T)
    requires TotalPreorder(leq)
    ensures SameTies(leq, Sorted(leq, xs), xs, x)
    decreases |xs|
  {
    if xs != [] {
      SortedIsStable(leq, xs[..|xs| - 1], x);
      InsertIsStable(leq, Sorted(leq, xs[..|xs| - 1]), xs[|xs| - 1], x);
    }
  }
}
