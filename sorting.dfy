/** `list.sort()` on a list of strings: an in-place insertion sort. */
module Sorting {
  import opened TextOrder

  /** The first `n` elements are in ascending order. */
  ghost predicate SortedUpTo(s: seq<string>, n: int)
    requires 0 <= n <= |s|
  {
    forall k, l :: 0 <= k < l < n ==> LessEq(s[k], s[l])
  }

  /** Within `s[..hi + 1]`, every pair avoiding position `j` is in order. */
  ghost predicate SortedExcept(s: seq<string>, hi: int, j: int)
    requires 0 <= j <= hi < |s|
  {
    forall k, l :: 0 <= k < l <= hi && k != j && l != j ==> LessEq(s[k], s[l])
  }

  /** The element at `j` is at most everything after it, up to `hi`. */
  ghost predicate BelowRest(s: seq<string>, hi: int, j: int)
    requires 0 <= j <= hi < |s|
  {
    forall l :: j < l <= hi ==> LessEq(s[j], s[l])
  }

  /** Swapping an out-of-order element one place left keeps the insertion invariant. */
  lemma SwapStep(s: seq<string>, hi: int, j: int)
    requires 0 < j <= hi < |s|
    requires SortedExcept(s, hi, j) && BelowRest(s, hi, j)
    requires !LessEq(s[j - 1], s[j])
    ensures SortedExcept(s[j - 1 := s[j]][j := s[j - 1]], hi, j - 1)
    ensures BelowRest(s[j - 1 := s[j]][j := s[j - 1]], hi, j - 1)
    ensures multiset(s[j - 1 := s[j]][j := s[j - 1]]) == multiset(s)
  {
    LessEqTotal(s[j - 1], s[j]);
  }

  /** Once the element stops moving, the first `hi + 1` elements are sorted. */
  lemma InsertionDone(s: seq<string>, hi: int, j: int)
    requires 0 <= j <= hi < |s|
    requires SortedExcept(s, hi, j) && BelowRest(s, hi, j)
    requires j == 0 || LessEq(s[j - 1], s[j])
    ensures SortedUpTo(s, hi + 1)
  {
    forall k, l | 0 <= k < l <= hi
      ensures LessEq(s[k], s[l])
    {
      if l == j && k < j - 1 {
        LessEqTransitive(s[k], s[j - 1], s[j]);
      }
    }
  }

  method SortInPlace(a: array<string>)
    modifies a
    ensures Sorted(a[..])
    ensures multiset(a[..]) == old(multiset(a[..]))
  {
    var i := 0;
    while i < a.Length
      invariant 0 <= i <= a.Length
      invariant SortedUpTo(a[..], i)
      invariant multiset(a[..]) == old(multiset(a[..]))
    {
      var j := i;
      while j > 0 && !LessEq(a[j - 1], a[j])
        invariant 0 <= j <= i < a.Length
        invariant SortedExcept(a[..], i, j) && BelowRest(a[..], i, j)
        invariant multiset(a[..]) == old(multiset(a[..]))
      {
        SwapStep(a[..], i, j);
        a[j - 1], a[j] := a[j], a[j - 1];
        j := j - 1;
      }
      InsertionDone(a[..], i, j);
      i := i + 1;
    }
  }
}
