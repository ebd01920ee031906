/** std::sort, as a function: for an order on the elements, an ordered list of the same elements. */
module Sorting {

  ghost predicate IsOrder<T(!new)>(less: (T, T) -> bool) {
    && (forall a, b :: less(a, b) ==> !less(b, a))
    && (forall a, b, c :: !less(b, a) && !less(c, b) ==> !less(c, a))
  }

  ghost predicate Ordered<T>(s: seq<T>, less: (T, T) -> bool) {
    forall i, j | 0 <= i < j < |s| :: !less(s[j], s[i])
  }

  lemma Prepend<T(!new)>(first: T, rest: seq<T>, less: (T, T) -> bool)
    requires IsOrder(less) && Ordered(rest, less) && (rest == [] || !less(rest[0], first))
    ensures Ordered([first] + rest, less)
  {}

  function Insert<T(!new)>(x: T, sorted: seq<T>, less: (T, T) -> bool): (r: seq<T>)
    requires IsOrder(less) && Ordered(sorted, less)
    ensures Ordered(r, less) && multiset(r) == multiset(sorted) + multiset{x}
    ensures r != [] && (r[0] == x || (sorted != [] && r[0] == sorted[0]))
    decreases |sorted|
  {
    if |sorted| == 0 || !less(sorted[0], x) then
      Prepend(x, sorted, less);
      [x] + sorted
    else
      assert sorted == [sorted[0]] + sorted[1..];
      Prepend(sorted[0], Insert(x, sorted[1..], less), less);
      [sorted[0]] + Insert(x, sorted[1..], less)
  }

  function Sort<T(!new)>(s: seq<T>, less: (T, T) -> bool): (r: seq<T>)
    requires IsOrder(less)
    ensures Ordered(r, less) && multiset(r) == multiset(s)
  {
    if |s| == 0 then []
    else
      assert s == [s[0]] + s[1..];
      Insert(s[0], Sort(s[1..], less), less)
  }

  lemma SortKeeps<T(!new)>(s: seq<T>, less: (T, T) -> bool)
    requires IsOrder(less)
    ensures forall x :: x in Sort(s, less) <==> x in s
  {
    forall x ensures x in Sort(s, less) <==> x in s {
      assert x in multiset(Sort(s, less)) <==> x in multiset(s);
    }
  }
}
