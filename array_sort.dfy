/**
 * `Array.prototype.sort(compareFn)`: the dashboard sorts its private copy of the
 * visible rows in place with a three-way comparator. The host's algorithm is
 * not fixed by the language, so it is modelled by an insertion sort, and what
 * the program relies on is its postcondition: for a consistent comparator the
 * array ends up in comparator order and holds the same elements.
 */
module ArraySort {

  /** Any two elements can be ordered: at least one may precede the other. */
  ghost predicate Total<T(!new)>(cmp: (T, T) -> int)
  {
    forall x, y :: cmp(x, y) <= 0 || cmp(y, x) <= 0
  }

  /** "May precede" (a non-positive answer) is transitive. */
  ghost predicate Transitive<T(!new)>(cmp: (T, T) -> int)
  {
    forall x, y, z :: cmp(x, y) <= 0 && cmp(y, z) <= 0 ==> cmp(x, z) <= 0
  }

  /** The first `n` elements of `s` are in comparator order. */
  ghost predicate SortedPrefix<T>(s: seq<T>, n: int, cmp: (T, T) -> int)
    requires 0 <= n <= |s|
  {
    forall p, q :: 0 <= p < q < n ==> cmp(s[p], s[q]) <= 0
  }

  /** `s` with the neighbours at `k` and `k + 1` exchanged. */
  function Swapped<T>(s: seq<T>, k: int): (r: seq<T>)
    requires 0 <= k < |s| - 1
    ensures |r| == |s| && r[k] == s[k + 1] && r[k + 1] == s[k]
    ensures forall m :: 0 <= m < |s| && m != k && m != k + 1 ==> r[m] == s[m]
    ensures multiset(r) == multiset(s)
  {
    s[k := s[k + 1]][k + 1 := s[k]]
  }

  /** The state of one insertion: the element at `j` is on its way down, the
      others of `s[..i + 1]` are in order, and it may precede all those above it. */
  ghost predicate Sinking<T>(s: seq<T>, i: int, j: int, cmp: (T, T) -> int)
    requires 0 <= j <= i < |s|
  {
    (forall p, q :: 0 <= p < q <= i && p != j && q != j ==> cmp(s[p], s[q]) <= 0) &&
    (forall q :: j < q <= i ==> cmp(s[j], s[q]) <= 0)
  }

  /** Exchanging the sinking element with a larger left neighbour keeps the insertion state. */
  lemma SinkStep<T(!new)>(s: seq<T>, i: int, j: int, cmp: (T, T) -> int)
    requires Total(cmp)
    requires 0 < j <= i < |s| && Sinking(s, i, j, cmp) && cmp(s[j - 1], s[j]) > 0
    ensures Sinking(Swapped(s, j - 1), i, j - 1, cmp)
  {
    assert cmp(s[j], s[j - 1]) <= 0;
  }

  /** Once the left neighbour may precede the sinking element, the prefix is sorted. */
  lemma SinkDone<T(!new)>(s: seq<T>, i: int, j: int, cmp: (T, T) -> int)
    requires Transitive(cmp)
    requires 0 <= j <= i < |s| && Sinking(s, i, j, cmp)
    requires j == 0 || cmp(s[j - 1], s[j]) <= 0
    ensures SortedPrefix(s, i + 1, cmp)
  {
    forall p, q | 0 <= p < q <= i
      ensures cmp(s[p], s[q]) <= 0
    {
      if q == j && p < j - 1 {
        assert cmp(s[p], s[j - 1]) <= 0;
      }
    }
  }

  /** Moves `a[i]` down into the sorted prefix `a[..i]`, so that `a[..i + 1]` is sorted. */
  method InsertIntoPrefix<T(!new)>(a: array<T>, i: int, cmp: (T, T) -> int)
    requires Total(cmp) && Transitive(cmp)
    requires 0 <= i < a.Length
    requires SortedPrefix(a[..], i, cmp)
    modifies a
    ensures SortedPrefix(a[..], i + 1, cmp)
    ensures multiset(a[..]) == multiset(old(a[..]))
  {
    var j := i;
    ghost var s := a[..];
    while j > 0 && cmp(a[j - 1], a[j]) > 0
      invariant 0 <= j <= i
      invariant a[..] == s
      invariant Sinking(s, i, j, cmp)
      invariant multiset(s) == multiset(old(a[..]))
    {
      SinkStep(s, i, j, cmp);
      a[j - 1], a[j] := a[j], a[j - 1];
      s := Swapped(s, j - 1);
      j := j - 1;
    }
    SinkDone(s, i, j, cmp);
  }

  /** Sorts `a` in place with the comparator `cmp`. */
  method SortInPlace<T(!new)>(a: array<T>, cmp: (T, T) -> int)
    requires Total(cmp) && Transitive(cmp)
    modifies a
    ensures forall p, q :: 0 <= p < q < a.Length ==> cmp(a[p], a[q]) <= 0
    ensures multiset(a[..]) == multiset(old(a[..]))
  {
    var i := 0;
    while i < a.Length
      invariant 0 <= i <= a.Length
      invariant SortedPrefix(a[..], i, cmp)
      invariant multiset(a[..]) == multiset(old(a[..]))
    {
      InsertIntoPrefix(a, i, cmp);
      i := i + 1;
    }
  }
}
