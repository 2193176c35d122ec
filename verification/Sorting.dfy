/** Stable insertion sort, the meaning of the program's `sort_by`. */
module Sorting {

  function Insert<T>(before: (T, T) -> bool, sorted: seq<T>, x: T): seq<T> {
    if sorted == [] || before(x, sorted[0]) then [x] + sorted else [sorted[0]] + Insert(before, sorted[1..], x)
  }

  function Sort<T>(before: (T, T) -> bool, s: seq<T>): seq<T> {
    if s == [] then [] else Insert(before, Sort(before, s[..|s| - 1]), s[|s| - 1])
  }

  ghost predicate Ordered<T(!new)>(atMost: (T, T) -> bool, s: seq<T>) {
    forall i, j | 0 <= i < j < |s| :: atMost(s[i], s[j])
  }

  /** An order, total where `before` is silent, that `before` never contradicts. */
  ghost predicate Respects<T(!new)>(before: (T, T) -> bool, atMost: (T, T) -> bool) {
    && (forall a, b :: if before(a, b) then atMost(a, b) else atMost(b, a))
    && forall a, b, c :: atMost(a, b) && atMost(b, c) ==> atMost(a, c)
  }

  lemma PrependOrdered<T(!new)>(atMost: (T, T) -> bool, x: T, sorted: seq<T>)
    requires Ordered(atMost, sorted) && forall y <- sorted :: atMost(x, y)
    ensures Ordered(atMost, [x] + sorted)
  {
  }

  lemma {:induction false} InsertOrders<T(!new)>(before: (T, T) -> bool, atMost: (T, T) -> bool, sorted: seq<T>, x: T)
    requires Respects(before, atMost) && Ordered(atMost, sorted)
    ensures multiset(Insert(before, sorted, x)) == multiset(sorted) + multiset{x}
    ensures Ordered(atMost, Insert(before, sorted, x))
  {
    if sorted == [] || before(x, sorted[0]) {
      PrependOrdered(atMost, x, sorted);
    } else {
      var head, tail := sorted[0], Insert(before, sorted[1..], x);
      InsertOrders(before, atMost, sorted[1..], x);
      assert sorted == [head] + sorted[1..];
      forall y <- tail ensures atMost(head, y) {
        assert y in multiset(tail);
        assert y == x || y in sorted[1..];
      }
      PrependOrdered(atMost, head, tail);
    }
  }

  /** Sorting keeps every element, and puts none before one that must not come after it. */
  lemma {:induction false} SortOrders<T(!new)>(before: (T, T) -> bool, atMost: (T, T) -> bool, s: seq<T>)
    requires Respects(before, atMost)
    ensures multiset(Sort(before, s)) == multiset(s) && Ordered(atMost, Sort(before, s))
  {
    hide Respects, Insert;
    if s != [] {
      var earlier, last := s[..|s| - 1], s[|s| - 1];
      SortOrders(before, atMost, earlier);
      InsertOrders(before, atMost, Sort(before, earlier), last);
      assert s == earlier + [last];
    }
  }
}
