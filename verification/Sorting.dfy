// Sorting with a comparison, as slices.SortFunc and sort.Slice of the Go standard library
// promise it. An insertion sort stands in for their algorithms.
module Sorting {

  ghost predicate StrictOrder<T(!new)>(before: (T, T) -> bool) {
    && (forall a, b :: before(a, b) ==> !before(b, a))
    && (forall a, b, c :: before(a, b) && before(b, c) ==> before(a, c))
  }

  ghost predicate Sorted<T>(s: seq<T>, before: (T, T) -> bool) {
    forall i, j :: 0 <= i < j < |s| ==> !before(s[j], s[i])
  }

  predicate Distinct<T(==)>(s: seq<T>) {
    forall i, j :: 0 <= i < j < |s| ==> s[i] != s[j]
  }

  // In order under the comparison, and the same elements.
  method Sort<T(!new, ==)>(unsorted: seq<T>, before: (T, T) -> bool) returns (sorted: seq<T>)
    requires StrictOrder(before)
    ensures Sorted(sorted, before) && |sorted| == |unsorted|
    ensures forall x :: x in sorted <==> x in unsorted
    ensures Distinct(unsorted) ==> Distinct(sorted)
  {
    sorted := [];
    for i := 0 to |unsorted|
      invariant Sorted(sorted, before) && |sorted| == i
      invariant forall x :: x in sorted <==> x in unsorted[..i]
      invariant Distinct(unsorted) ==> Distinct(sorted)
    {
      var x := unsorted[i];
      assert unsorted[..i + 1] == unsorted[..i] + [x];
      assert Distinct(unsorted) ==> x !in unsorted[..i];
      var j := 0;
      while j < |sorted| && !before(x, sorted[j])
        invariant 0 <= j <= |sorted| && forall k :: 0 <= k < j ==> !before(x, sorted[k])
      {
        j := j + 1;
      }
      InsertKeepsOrder(sorted, j, x, before);
      sorted := sorted[..j] + [x] + sorted[j..];
    }
    assert unsorted[..|unsorted|] == unsorted;
  }

  lemma InsertKeepsOrder<T(!new)>(sorted: seq<T>, j: nat, x: T, before: (T, T) -> bool)
    requires StrictOrder(before) && Sorted(sorted, before) && j <= |sorted|
    requires forall k :: 0 <= k < j ==> !before(x, sorted[k])
    requires j < |sorted| ==> before(x, sorted[j])
    ensures Sorted(sorted[..j] + [x] + sorted[j..], before)
  {
    forall k | j <= k < |sorted|
      ensures !before(sorted[k], x)
    {
      var y, z := sorted[j], sorted[k];
      assert before(z, x) && before(x, y) ==> before(z, y);
    }
  }
}
