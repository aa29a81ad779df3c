/** The C library's heapsort and binary search. Heap positions are counted from 1. */
module Sorting {

  /** A strcmp-like comparison: antisymmetric in sign and transitive. */
  ghost predicate Consistent<T(!new)>(compare: (T, T) -> int) {
    && (forall x, y :: compare(x, y) < 0 <==> compare(y, x) > 0)
    && forall x, y, z :: compare(x, y) <= 0 && compare(y, z) <= 0 ==> compare(x, z) <= 0
  }

  ghost predicate Sorted<T>(compare: (T, T) -> int, s: seq<T>) {
    forall i, j | 0 <= i < j < |s| :: compare(s[i], s[j]) <= 0
  }

  /** Position `j` is not below its children among the first `n` positions. */
  ghost predicate HeapAt<T>(compare: (T, T) -> int, s: seq<T>, j: nat, n: nat)
    requires 1 <= j && n <= |s|
  {
    && (2 * j <= n ==> compare(s[2 * j - 1], s[j - 1]) <= 0)
    && (2 * j + 1 <= n ==> compare(s[2 * j], s[j - 1]) <= 0)
  }

  ghost predicate HeapFrom<T>(compare: (T, T) -> int, s: seq<T>, from: nat, n: nat)
    requires n <= |s|
  {
    forall j: nat | 1 <= j && from <= j <= n :: HeapAt(compare, s, j, n)
  }

  function Swapped<T>(s: seq<T>, i: nat, j: nat): (r: seq<T>)
    requires i < |s| && j < |s|
  {
    s[i := s[j]][j := s[i]]
  }

  /** What heapify leaves alone: the members of the first `n` positions as a whole, and the rest. */
  ghost predicate Rearranged<T>(s: seq<T>, r: seq<T>, n: nat)
    requires n <= |s|
  {
    |r| == |s| && multiset(r[..n]) == multiset(s[..n]) && r[n..] == s[n..]
  }

  lemma SwapRearranges<T>(s: seq<T>, i: nat, j: nat, n: nat)
    requires i < n && j < n && n <= |s|
    ensures Rearranged(s, Swapped(s, i, j), n)
  {
    var r := Swapped(s, i, j);
    assert r[..n] == s[..n][i := s[j]][j := s[i]];
    assert r[n..] == s[n..];
  }

  // ---------------------------------------------------------------- heapify

  /** All of `from`..`n` is a heap, except that position `i` may be below its children; those are
      not above `i`'s parent. */
  ghost predicate Sinking<T>(compare: (T, T) -> int, s: seq<T>, from: nat, i: nat, n: nat)
    requires 1 <= from <= i && n <= |s|
  {
    && (forall j: nat | from <= j <= n && j != i :: HeapAt(compare, s, j, n))
    && (from <= i / 2 && i <= n ==> ChildrenBelow(compare, s, i, n))
  }

  ghost predicate ChildrenBelow<T>(compare: (T, T) -> int, s: seq<T>, i: nat, n: nat)
    requires 2 <= i <= n <= |s|
  {
    && (2 * i <= n ==> compare(s[2 * i - 1], s[i / 2 - 1]) <= 0)
    && (2 * i + 1 <= n ==> compare(s[2 * i], s[i / 2 - 1]) <= 0)
  }

  /** The position of the largest of `i` and its children. */
  function Largest<T>(compare: (T, T) -> int, s: seq<T>, i: nat, n: nat): (m: nat)
    requires 1 <= i <= n <= |s|
    ensures m == i || (m == 2 * i && m <= n) || (m == 2 * i + 1 && m <= n)
  {
    var m := if 2 * i <= n && compare(s[2 * i - 1], s[i - 1]) > 0 then 2 * i else i;
    if 2 * i + 1 <= n && compare(s[2 * i], s[m - 1]) > 0 then 2 * i + 1 else m
  }

  lemma LargestIsTop<T(!new)>(compare: (T, T) -> int, s: seq<T>, i: nat, n: nat)
    requires Consistent(compare) && 1 <= i <= n <= |s|
    ensures var m := Largest(compare, s, i, n);
            && compare(s[i - 1], s[m - 1]) <= 0
            && (2 * i <= n ==> compare(s[2 * i - 1], s[m - 1]) <= 0)
            && (2 * i + 1 <= n ==> compare(s[2 * i], s[m - 1]) <= 0)
  {
    assert forall x :: compare(x, x) == 0;
  }

  /** Swapping with the largest child moves the trouble one level down. */
  lemma SinkStep<T(!new)>(compare: (T, T) -> int, s: seq<T>, from: nat, i: nat, n: nat)
    requires Consistent(compare) && 1 <= from <= i <= n <= |s| && Sinking(compare, s, from, i, n)
    ensures var m := Largest(compare, s, i, n);
            if m == i then HeapFrom(compare, s, from, n) else Sinking(compare, Swapped(s, i - 1, m - 1), from, m, n)
  {
    hide Consistent;
    LargestIsTop(compare, s, i, n);
    var m := Largest(compare, s, i, n);
    hide Largest;
    if m == i {
      assert HeapAt(compare, s, i, n);
      hide HeapAt;
    } else {
      var r := Swapped(s, i - 1, m - 1);
      assert HeapAt(compare, s, m, n);
      assert ChildrenBelow(compare, r, m, n) by {
        assert m / 2 == i;
      }
      hide HeapAt;
      hide Swapped;
      hide ChildrenBelow;
      forall j: nat | from <= j <= n && j != m ensures HeapAt(compare, r, j, n) {
        SinkAt(compare, s, from, i, m, j, n);
      }
    }
  }

  lemma SinkAt<T(!new)>(compare: (T, T) -> int, s: seq<T>, from: nat, i: nat, m: nat, j: nat, n: nat)
    requires 1 <= from <= i <= n <= |s| && Sinking(compare, s, from, i, n) && from <= j <= n && j != m
    requires (m == 2 * i || m == 2 * i + 1) && m <= n && compare(s[i - 1], s[m - 1]) <= 0
    requires (2 * i <= n ==> compare(s[2 * i - 1], s[m - 1]) <= 0) && (2 * i + 1 <= n ==> compare(s[2 * i], s[m - 1]) <= 0)
    ensures HeapAt(compare, Swapped(s, i - 1, m - 1), j, n)
  {
    var r := Swapped(s, i - 1, m - 1);
    if j != i {
      assert HeapAt(compare, s, j, n);
      if j == i / 2 {
        ParentOf(compare, s, r, i, m, j, n);
      } else {
        assert 2 * j != i && 2 * j + 1 != i && 2 * j != m && 2 * j + 1 != m;
      }
    }
  }

  /** The parent of the position that received a child's element. */
  lemma ParentOf<T(!new)>(compare: (T, T) -> int, s: seq<T>, r: seq<T>, i: nat, m: nat, j: nat, n: nat)
    requires 1 <= j == i / 2 && 1 <= i <= n <= |s| && (m == 2 * i || m == 2 * i + 1) && m <= n
    requires r == Swapped(s, i - 1, m - 1) && HeapAt(compare, s, j, n) && ChildrenBelow(compare, s, i, n)
    ensures HeapAt(compare, r, j, n)
  {
  }

  method LargestOf<T>(a: array<T>, i: nat, n: nat, compare: (T, T) -> int) returns (max: nat)
    requires 1 <= i <= n <= a.Length
    ensures max == Largest(compare, a[..], i, n)
  {
    var left, right := 2 * i, 2 * i + 1;
    max := i;
    if left <= n && compare(a[left - 1], a[max - 1]) > 0 {
      max := left;
    }
    if right <= n && compare(a[right - 1], a[max - 1]) > 0 {
      max := right;
    }
  }

  lemma SwapIs<T>(s: seq<T>, r: seq<T>, i: nat, j: nat)
    requires i < |s| && j < |s| && |r| == |s| && r[i] == s[j] && r[j] == s[i]
    requires forall k | 0 <= k < |s| && k != i && k != j :: r[k] == s[k]
    ensures r == Swapped(s, i, j)
  {
  }

  lemma HeapPast<T>(compare: (T, T) -> int, s: seq<T>, from: nat, n: nat)
    requires n <= |s| && n < from
    ensures HeapFrom(compare, s, from, n)
  {
  }

  /** do_swap. */
  method Exchange<T>(a: array<T>, i: nat, j: nat)
    requires i < a.Length && j < a.Length
    modifies a
    ensures a[..] == Swapped(old(a[..]), i, j)
  {
    a[i], a[j] := a[j], a[i];
    SwapIs(old(a[..]), a[..], i, j);
  }

  /** heapify: floats the element at position `from` down until it is not below its children. */
  method Heapify<T(!new)>(a: array<T>, from: nat, n: nat, compare: (T, T) -> int)
    requires Consistent(compare) && 1 <= from && n <= a.Length && HeapFrom(compare, a[..], from + 1, n)
    modifies a
    ensures HeapFrom(compare, a[..], from, n) && Rearranged(old(a[..]), a[..], n)
  {
    hide *;
    RearrangedSame(a[..], n);
    var i := from;
    if i > n {
      HeapPast(compare, a[..], from, n);
      return;
    }
    SinkStarts(compare, a[..], from, n);
    while true
      invariant from <= i <= n && Sinking(compare, a[..], from, i, n) && Rearranged(old(a[..]), a[..], n)
      decreases n - i
    {
      ghost var before := a[..];
      var max := LargestOf(a, i, n, compare);
      SinkStep(compare, before, from, i, n);
      if max == i {
        break;
      }
      SwapRearranges(before, i - 1, max - 1, n);
      Exchange(a, i - 1, max - 1);
      RearrangedChain(old(a[..]), before, a[..], n);
      i := max;
    }
  }

  lemma RearrangedSame<T>(s: seq<T>, n: nat)
    requires n <= |s|
    ensures Rearranged(s, s, n)
  {
  }

  lemma RearrangedChain<T>(s: seq<T>, r: seq<T>, q: seq<T>, n: nat)
    requires n <= |s| && Rearranged(s, r, n) && Rearranged(r, q, n)
    ensures Rearranged(s, q, n)
  {
  }

  lemma SinkStarts<T>(compare: (T, T) -> int, s: seq<T>, from: nat, n: nat)
    requires 1 <= from <= n <= |s| && HeapFrom(compare, s, from + 1, n)
    ensures Sinking(compare, s, from, from, n)
  {
    hide HeapAt;
  }

  // ---------------------------------------------------------------- sort

  /** The top of a heap is not below any of it. */
  lemma {:induction false} TopIsLargest<T(!new)>(compare: (T, T) -> int, s: seq<T>, n: nat, j: nat)
    requires Consistent(compare) && n <= |s| && HeapFrom(compare, s, 1, n) && 1 <= j <= n
    ensures compare(s[j - 1], s[0]) <= 0
  {
    if j > 1 {
      TopIsLargest(compare, s, n, j / 2);
      assert HeapAt(compare, s, j / 2, n);
      assert compare(s[j - 1], s[j / 2 - 1]) <= 0;
    } else {
      assert forall x :: compare(x, x) == 0;
    }
  }

  /** Everything in the first `n` positions is at most everything behind them, which is sorted. */
  ghost predicate TailSorted<T>(compare: (T, T) -> int, s: seq<T>, n: nat)
    requires n <= |s|
  {
    && Sorted(compare, s[n..])
    && forall i, j | 0 <= i < n <= j < |s| :: compare(s[i], s[j]) <= 0
  }

  lemma MemberOfPrefix<T>(s: seq<T>, r: seq<T>, n: nat, i: nat) returns (k: nat)
    requires n <= |s| && Rearranged(s, r, n) && i < n
    ensures k < n && r[i] == s[k]
  {
    assert r[i] in multiset(r[..n]) by { assert r[..n][i] == r[i]; }
    assert r[i] in s[..n];
    k :| 0 <= k < n && s[..n][k] == r[i];
  }

  lemma RearrangedTail<T>(compare: (T, T) -> int, s: seq<T>, r: seq<T>, n: nat)
    requires n <= |s| && TailSorted(compare, s, n) && Rearranged(s, r, n)
    ensures TailSorted(compare, r, n)
  {
    forall i, j | 0 <= i < n <= j < |r| ensures compare(r[i], r[j]) <= 0 {
      var k := MemberOfPrefix(s, r, n, i);
      assert r[j] == r[n..][j - n] == s[n..][j - n] == s[j];
    }
  }

  /** Moving the top of the heap behind the rest extends the sorted tail. */
  lemma TopToTail<T(!new)>(compare: (T, T) -> int, s: seq<T>, n: nat)
    requires Consistent(compare) && 2 <= n <= |s| && HeapFrom(compare, s, 1, n) && TailSorted(compare, s, n)
    ensures var r := Swapped(s, 0, n - 1);
            TailSorted(compare, r, n - 1) && HeapFrom(compare, r, 2, n - 1) && Rearranged(s, r, n)
  {
    hide Consistent;
    hide HeapFrom;
    hide TailSorted;
    hide Swapped;
    SwapRearranges(s, 0, n - 1, n);
    TopSortsTail(compare, s, n);
    TopKeepsHeap(compare, s, n);
  }

  lemma TopSortsTail<T(!new)>(compare: (T, T) -> int, s: seq<T>, n: nat)
    requires Consistent(compare) && 2 <= n <= |s| && HeapFrom(compare, s, 1, n) && TailSorted(compare, s, n)
    ensures TailSorted(compare, Swapped(s, 0, n - 1), n - 1)
  {
    hide Consistent;
    hide HeapFrom;
    var r := Swapped(s, 0, n - 1);
    forall i, j | 0 <= i < n - 1 <= j < |r| ensures compare(r[i], r[j]) <= 0 {
      if j == n - 1 {
        TopIsLargest(compare, s, n, if i == 0 then n else i + 1);
      }
    }
    assert Sorted(compare, r[n - 1..]) by {
      assert r[n - 1..] == [s[0]] + s[n..];
      assert forall j | 0 <= j < |s[n..]| :: s[n..][j] == s[n + j];
    }
  }

  lemma TopKeepsHeap<T>(compare: (T, T) -> int, s: seq<T>, n: nat)
    requires 2 <= n <= |s| && HeapFrom(compare, s, 1, n)
    ensures HeapFrom(compare, Swapped(s, 0, n - 1), 2, n - 1)
  {
    var r, m := Swapped(s, 0, n - 1), n - 1;
    forall j: nat | 2 <= j <= m ensures HeapAt(compare, r, j, m) {
      assert HeapAt(compare, s, j, n);
    }
  }

  lemma RearrangedAll<T>(s: seq<T>, r: seq<T>, n: nat)
    requires n <= |s| && Rearranged(s, r, n)
    ensures multiset(r) == multiset(s)
  {
    assert s == s[..n] + s[n..] && r == r[..n] + r[n..];
  }

  /** sort: an ordered permutation. */
  method Sort<T(!new)>(a: array<T>, compare: (T, T) -> int)
    requires Consistent(compare)
    modifies a
    ensures Sorted(compare, a[..]) && multiset(a[..]) == multiset(old(a[..]))
  {
    hide Consistent;
    hide HeapAt;
    hide HeapFrom;
    hide TailSorted;
    hide Sorted;
    hide Rearranged;
    var n := a.Length;
    var i := n / 2;
    LeavesAreHeap(compare, a[..], n);
    while i > 0
      invariant 0 <= i <= n / 2 && HeapFrom(compare, a[..], i + 1, n) && multiset(a[..]) == multiset(old(a[..]))
    {
      ghost var before := a[..];
      Heapify(a, i, n, compare);
      RearrangedAll(before, a[..], n);
      i := i - 1;
    }
    EmptyTail(compare, a[..]);
    i := n;
    while i > 1
      invariant 0 <= i <= n && HeapFrom(compare, a[..], 1, i) && TailSorted(compare, a[..], i)
      invariant multiset(a[..]) == multiset(old(a[..]))
    {
      ghost var before := a[..];
      TopToTail(compare, a[..], i);
      Exchange(a, 0, i - 1);
      ghost var middle := a[..];
      RearrangedAll(before, middle, i);
      Heapify(a, 1, i - 1, compare);
      RearrangedAll(middle, a[..], i - 1);
      RearrangedTail(compare, middle, a[..], i - 1);
      i := i - 1;
    }
    AllSorted(compare, a[..], i);
  }

  /** Positions without children are heaps. */
  lemma LeavesAreHeap<T>(compare: (T, T) -> int, s: seq<T>, n: nat)
    requires n <= |s|
    ensures HeapFrom(compare, s, n / 2 + 1, n)
  {
  }

  lemma EmptyTail<T>(compare: (T, T) -> int, s: seq<T>)
    ensures TailSorted(compare, s, |s|)
  {
  }

  lemma AllSorted<T>(compare: (T, T) -> int, s: seq<T>, n: nat)
    requires n <= |s| && n <= 1 && TailSorted(compare, s, n)
    ensures Sorted(compare, s)
  {
    assert forall j | n <= j < |s| :: s[j] == s[n..][j - n];
  }

  /** binary_search: an index of a match, and none exactly when the sorted array has none. */
  method BinarySearch<T(!new)>(a: array<T>, key: T, compare: (T, T) -> int) returns (found: bool, k: nat)
    requires Consistent(compare) && Sorted(compare, a[..])
    ensures found ==> k < a.Length && compare(key, a[k]) == 0
    ensures found <==> exists i :: 0 <= i < a.Length && compare(key, a[i]) == 0
  {
    var first, last := 0, a.Length;
    while first < last
      invariant 0 <= first <= last <= a.Length
      invariant forall i | 0 <= i < first :: compare(key, a[i]) > 0
      invariant forall i | last <= i < a.Length :: compare(key, a[i]) < 0
    {
      var middle := first + (last - first) / 2;
      var c := compare(key, a[middle]);
      if c == 0 {
        return true, middle;
      }
      SearchHalf(compare, a[..], key, middle);
      if c < 0 {
        last := middle;
      } else {
        first := middle + 1;
      }
    }
    return false, 0;
  }

  lemma SearchHalf<T(!new)>(compare: (T, T) -> int, s: seq<T>, key: T, m: nat)
    requires Consistent(compare) && Sorted(compare, s) && m < |s|
    ensures compare(key, s[m]) < 0 ==> forall i | m <= i < |s| :: compare(key, s[i]) < 0
    ensures compare(key, s[m]) > 0 ==> forall i | 0 <= i <= m :: compare(key, s[i]) > 0
  {
    if compare(key, s[m]) < 0 {
      forall i | m < i < |s| ensures compare(key, s[i]) < 0 {
        var x, y := s[m], s[i];
        assert compare(x, y) <= 0;
        assert compare(key, y) >= 0 ==> compare(y, key) <= 0;
        assert compare(y, key) <= 0 ==> compare(x, key) <= 0;
      }
    } else if compare(key, s[m]) > 0 {
      forall i | 0 <= i < m ensures compare(key, s[i]) > 0 {
        assert compare(s[i], s[m]) <= 0;
      }
    }
  }
}
