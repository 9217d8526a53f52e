/**
 * `sorted(set(xs))`: the distinct elements of a list in ascending order,
 * for any strict total order (month keys, category names).
 */
module Ordered {

  ghost predicate StrictTotalOrder<T(!new)>(lt: (T, T) -> bool) {
    && (forall x :: !lt(x, x))
    && (forall x, y, z :: lt(x, y) && lt(y, z) ==> lt(x, z))
    && (forall x, y :: x != y ==> lt(x, y) || lt(y, x))
  }

  ghost predicate StrictlyAscending<T>(s: seq<T>, lt: (T, T) -> bool) {
    forall i, j :: 0 <= i < j < |s| ==> lt(s[i], s[j])
  }

  /** Insert `x` into an ascending list of distinct elements, unless it is already there. */
  function InsertSorted<T(==,!new)>(x: T, s: seq<T>, lt: (T, T) -> bool): (r: seq<T>)
    requires StrictTotalOrder(lt) && StrictlyAscending(s, lt)
    ensures StrictlyAscending(r, lt)
    ensures forall y :: y in r <==> y in s || y == x
  {
    if |s| == 0 then [x]
    else if x == s[0] then s
    else if lt(x, s[0]) then [x] + s
    else
      var tail := InsertSorted(x, s[1..], lt);
      assert forall y :: y in tail ==> lt(s[0], y) by {
        assert forall y :: y in s[1..] ==> lt(s[0], y);
      }
      [s[0]] + tail
  }

  /** `sorted(set(xs))` */
  function SortedSet<T(==,!new)>(xs: seq<T>, lt: (T, T) -> bool): (r: seq<T>)
    requires StrictTotalOrder(lt)
    ensures StrictlyAscending(r, lt)
    ensures forall y :: y in r <==> y in xs
  {
    if |xs| == 0 then []
    else InsertSorted(xs[|xs| - 1], SortedSet(xs[..|xs| - 1], lt), lt)
  }
}
