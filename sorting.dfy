/** What Go's sort.Slice guarantees: afterwards the slice is a permutation of what
    it held, and no element is `less` than one before it. Go's algorithm is not
    stable; the selection sort below is one admissible implementation, and
    callers rely only on its contract. The order is given as `le(x, y) == !less(y, x)`. */
module Sorting {

  ghost predicate TotalPreorder<T(!new)>(le: (T, T) -> bool)
  {
    && (forall x, y :: le(x, y) || le(y, x))
    && (forall x, y, z :: le(x, y) && le(y, z) ==> le(x, z))
  }

  ghost predicate SortedBy<T>(s: seq<T>, le: (T, T) -> bool)
  {
    forall i, j :: 0 <= i < j < |s| ==> le(s[i], s[j])
  }

  /** The position of a least element of `a[from..]`. */
  method IndexOfLeast<T(!new)>(a: array<T>, from: nat, le: (T, T) -> bool) returns (m: nat)
    requires TotalPreorder(le)
    requires from < a.Length
    ensures from <= m < a.Length
    ensures forall y :: from <= y < a.Length ==> le(a[m], a[y])
  {
    m := from;
    var j := from + 1;
    while j < a.Length
      invariant from <= m < j <= a.Length
      invariant forall y :: from <= y < j ==> le(a[m], a[y])
    {
      if !le(a[m], a[j]) {
        m := j;
      }
      j := j + 1;
    }
  }

  method Swap<T>(a: array<T>, i: nat, j: nat)
    requires i < a.Length && j < a.Length
    modifies a
    ensures a[i] == old(a[j]) && a[j] == old(a[i])
    ensures forall k :: 0 <= k < a.Length && k != i && k != j ==> a[k] == old(a[k])
    ensures multiset(a[..]) == multiset(old(a[..]))
  {
    a[i], a[j] := a[j], a[i];
  }

  /** Sorts `a` in place into a permutation that is ascending under `le`. */
  method SortBy<T(!new)>(a: array<T>, le: (T, T) -> bool)
    requires TotalPreorder(le)
    modifies a
    ensures SortedBy(a[..], le)
    ensures multiset(a[..]) == multiset(old(a[..]))
  {
    var i := 0;
    while i < a.Length
      invariant 0 <= i <= a.Length
      invariant forall x, y :: 0 <= x < y < i ==> le(a[x], a[y])
      invariant forall x, y :: 0 <= x < i <= y < a.Length ==> le(a[x], a[y])
      invariant multiset(a[..]) == multiset(old(a[..]))
    {
      var m := IndexOfLeast(a, i, le);
      Swap(a, i, m);
      i := i + 1;
    }
  }
}
