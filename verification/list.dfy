/** The kernel's intrusive doubly linked list: elements with `prev` and `next` links
    between two header elements, rewired in place.

    A chain is the sequence head, interior elements, tail. The primitives take the chain
    and the positions of their arguments as ghost parameters, since the code itself
    sees only the elements. */
module KernelList {
  import opened Collections
  import opened Ordering

  class ListElem {
    var prev: ListElem?
    var next: ListElem?

    constructor ()
      ensures prev == null && next == null
    {
      prev, next := null, null;
    }
  }

  /** Both directions of links spell out the chain `c`, and nothing hangs off its ends. */
  ghost predicate Linked(c: seq<ListElem>)
    reads c
  {
    && |c| >= 2
    && Distinct(c)
    && c[0].prev == null
    && c[|c| - 1].next == null
    && (forall i {:trigger c[i].next} | 0 <= i < |c| - 1 :: c[i].next == c[i + 1])
    && (forall i {:trigger c[i].prev} | 0 < i < |c| :: c[i].prev == c[i - 1])
  }

  /** Inserts `elem` just before `before`, which may be the tail. */
  method InsertBefore(before: ListElem, elem: ListElem, ghost c: seq<ListElem>, ghost k: nat)
    requires Linked(c) && 0 < k < |c| && c[k] == before && elem !in c
    modifies c[k - 1], before, elem
    ensures Linked(c[..k] + [elem] + c[k..])
  {
    elem.prev := before.prev;
    elem.next := before;
    before.prev.next := elem;
    before.prev := elem;
  }

  /** Unlinks `elem`, which keeps its own stale links, and returns its successor. */
  method Remove(elem: ListElem, ghost c: seq<ListElem>, ghost k: nat) returns (next: ListElem)
    requires Linked(c) && 0 < k < |c| - 1 && c[k] == elem
    modifies c[k - 1], c[k + 1]
    ensures Linked(c[..k] + c[k + 1..])
    ensures next == c[k + 1]
  {
    elem.prev.next := elem.next;
    elem.next.prev := elem.prev;
    next := elem.next;
  }

  /** Consecutive elements of `s` link to each other. */
  ghost predicate Segment(s: seq<ListElem>)
    reads s
  {
    && (forall i {:trigger s[i].next} | 0 <= i < |s| - 1 :: s[i].next == s[i + 1])
    && (forall i {:trigger s[i].prev} | 0 < i < |s| :: s[i].prev == s[i - 1])
  }

  /** Two nonempty segments that link to each other make one segment. */
  lemma JoinSegments(s: seq<ListElem>, t: seq<ListElem>)
    requires Segment(s) && Segment(t) && s != [] && t != []
    requires s[|s| - 1].next == t[0] && t[0].prev == s[|s| - 1]
    ensures Segment(s + t)
  {
  }

  /** The chain `c` without the range `i..j`, link by link. */
  lemma CutOut(c: seq<ListElem>, i: nat, j: nat)
    requires 0 < i < j < |c| && Distinct(c) && c[0].prev == null && c[|c| - 1].next == null
    requires Segment(c[..i]) && Segment(c[j..]) && c[i - 1].next == c[j] && c[j].prev == c[i - 1]
    ensures Linked(c[..i] + c[j..])
  {
    JoinSegments(c[..i], c[j..]);
  }

  /** The chain `d` with the range `s` in front of position `k`, link by link. */
  lemma PutIn(d: seq<ListElem>, k: nat, s: seq<ListElem>)
    requires 0 < k < |d| && s != [] && Distinct(d) && Distinct(s) && (forall x | x in d :: x !in s)
    requires d[0].prev == null && d[|d| - 1].next == null && Segment(d[..k]) && Segment(s) && Segment(d[k..])
    requires d[k - 1].next == s[0] && s[0].prev == d[k - 1]
    requires s[|s| - 1].next == d[k] && d[k].prev == s[|s| - 1]
    ensures Linked(d[..k] + s + d[k..])
  {
    var r := d[..k] + s + d[k..];
    JoinSegments(d[..k], s);
    JoinSegments(d[..k] + s, d[k..]);
    assert Distinct(r) by {
      assert forall x | x in s :: x !in d;
      assert forall n | 0 <= n < k :: r[n] == d[n];
      assert forall n | k <= n < k + |s| :: r[n] == s[n - k] && r[n] in s;
      assert forall n | k + |s| <= n < |r| :: r[n] == d[n - |s|];
    }
  }

  ghost predicate Disjoint(c: seq<ListElem>, d: seq<ListElem>) {
    forall x | x in d :: x !in c
  }

  /** Moves `first` up to but excluding `last` to just before `before`, which is in another list or
      in the same one outside that range; `d` is the list without the range that `before` is in. */
  method Splice(before: ListElem, first: ListElem, last: ListElem,
                ghost c: seq<ListElem>, ghost i: nat, ghost j: nat, ghost d: seq<ListElem>, ghost k: nat)
    requires Linked(c) && 0 < i <= j < |c| && c[i] == first && c[j] == last
    requires d == c[..i] + c[j..] || (Linked(d) && Disjoint(c, d))
    requires 0 < k < |d| && d[k] == before
    modifies c[i - 1], c[i], c[j - 1], c[j], d[k - 1], d[k]
    ensures Linked(d[..k] + c[i..j] + d[k..])
    ensures Disjoint(c, d) ==> Linked(c[..i] + c[j..])
  {
    hide Linked;
    hide Segment;
    Position(c, i, j);
    Position(c, j, i);
    if first == last {
      assert c[..i] + c[j..] == c && d[..k] + c[i..j] + d[k..] == d;
    } else {
      var last' := last.prev;
      RangeApart(c, i, j, d);
      Detach(first, last', c, i, j);
      assert d[k - 1] in d && d[k] in d;
      assert Disjoint(c, d) ==> forall x | x in c[..i] + c[j..] :: x != d[k - 1] && x != d[k] && x != first && x != last';
      Attach(before, first, last', d, k, c[i..j]);
    }
  }

  lemma RangeApart(c: seq<ListElem>, i: nat, j: nat, d: seq<ListElem>)
    requires Linked(c) && 0 < i < j < |c| && (d == c[..i] + c[j..] || Disjoint(c, d))
    ensures Distinct(c[i..j]) && forall x | x in d :: x !in c[i..j]
    ensures Disjoint(c, d) ==> c[i - 1] !in d && c[j] !in d && forall x | x in c[..i] + c[j..] :: x !in d && x !in c[i..j]
    ensures c[i] in c[i..j] && c[j - 1] in c[i..j]
  {
    assert c[i - 1] in c && c[j] in c && c[i..j][0] == c[i] && c[i..j][j - 1 - i] == c[j - 1];
    assert forall x | x in c[..i] + c[j..] :: x in c;
  }

  /** The first half of list_splice: closes the gap the range leaves. */
  method Detach(first: ListElem, last: ListElem, ghost c: seq<ListElem>, ghost i: nat, ghost j: nat)
    requires Linked(c) && 0 < i < j < |c| && c[i] == first && c[j - 1] == last
    modifies c[i - 1], c[j]
    ensures Linked(c[..i] + c[j..]) && Segment(c[i..j])
  {
    first.prev.next := last.next;
    last.next.prev := first.prev;
    CutOut(c, i, j);
  }

  /** The second half: splices the range in. */
  method Attach(before: ListElem, first: ListElem, last: ListElem, ghost d: seq<ListElem>, ghost k: nat, ghost s: seq<ListElem>)
    requires Linked(d) && 0 < k < |d| && d[k] == before
    requires Segment(s) && s != [] && s[0] == first && s[|s| - 1] == last && Distinct(s) && forall x | x in d :: x !in s
    modifies d[k - 1], d[k], first, last
    ensures Linked(d[..k] + s + d[k..])
  {
    assert forall n | 0 <= n < |d| :: d[n] != first && d[n] != last by {
      assert forall n | 0 <= n < |d| :: d[n] in d;
      assert s[0] in s && s[|s| - 1] in s;
    }
    assert forall n | 0 <= n < |s| :: s[n] != before && s[n] != d[k - 1] by {
      assert forall n | 0 <= n < |s| :: s[n] in s;
      assert before in d && d[k - 1] in d;
    }
    first.prev := before.prev;
    last.next := before;
    before.prev.next := first;
    before.prev := last;
    PutIn(d, k, s);
  }

  /** The exclusive end of the run of non-decreasing elements that starts at `a`. */
  method FindEndOfRun(a: ListElem, b: ListElem, less: (ListElem, ListElem) -> bool,
                      ghost c: seq<ListElem>, ghost i: nat, ghost j: nat)
      returns (e: ListElem, ghost k: nat)
    requires Linked(c) && 0 < i < j < |c| && c[i] == a && c[j] == b
    ensures i < k <= j && c[k] == e && (e == b <==> k == j)
    ensures Descents(less, c[i..k]) == 0
    ensures k < j ==> less(c[k], c[k - 1])
  {
    e, k := a.next, i + 1;
    while e != b && !less(e, e.prev)
      invariant i < k <= j && c[k] == e
      invariant Descents(less, c[i..k]) == 0
      decreases j - k
    {
      assert c[i..k + 1][..k - i] == c[i..k];
      e, k := e.next, k + 1;
    }
  }

  /** The chain after moving the element at `q` back in front of position `p`. */
  ghost function Moved<T>(d: seq<T>, p: nat, q: nat): (r: seq<T>)
    requires p <= q < |d|
    ensures |r| == |d|
  {
    d[..p] + d[q..q + 1] + d[p..q] + d[q + 1..]
  }

  lemma MovedIsSpliced<T>(d: seq<T>, p: nat, q: nat)
    requires p <= q < |d|
    ensures var rest := d[..q] + d[q + 1..]; Moved(d, p, q) == rest[..p] + d[q..q + 1] + rest[p..]
  {
  }

  /** Merges the adjacent sorted runs `a0..a1b0` and `a1b0..b1` in place. */
  method InplaceMerge(a0: ListElem, a1b0: ListElem, b1: ListElem, less: (ListElem, ListElem) -> bool,
                      ghost c: seq<ListElem>, ghost i: nat, ghost m: nat, ghost j: nat, ghost nodes: set<ListElem>)
      returns (ghost c': seq<ListElem>)
    requires Linked(c) && 0 < i < m < j < |c| && Within(c, nodes)
    requires c[i] == a0 && c[m] == a1b0 && c[j] == b1
    modifies nodes
    ensures c' == MergeResult(less, c, i, m, j)
    ensures Linked(c') && Within(c', nodes)
  {
    hide Linked;
    hide MergeResult;
    var a, b := a0, a1b0;
    ghost var p, q, d := i, m, c;
    while a != b && b != b1
      invariant Linked(d) && |d| == |c| && Within(d, nodes)
      invariant 0 < p <= q <= j && d[p] == a && d[q] == b && d[j] == b1
      invariant MergeResult(less, d, p, q, j) == MergeResult(less, c, i, m, j)
      decreases j - p
    {
      Position(d, p, q);
      Position(d, q, j);
      if !less(b, a) {
        MergeTakesLeft(less, d, p, q, j);
        a, p := a.next, p + 1;
      } else {
        MergeTakesRight(less, d, p, q, j);
        b := b.next;
        Position(d, q + 1, j);
        Splice(a, b.prev, b, d, q, q + 1, d[..q] + d[q + 1..], p);
        MovedIsSpliced(d, p, q);
        d, p, q := Moved(d, p, q), p + 1, q + 1;
      }
    }
    Position(d, p, q);
    Position(d, q, j);
    MergeDone(less, d, p, q, j);
    c' := d;
  }

  lemma Ends(c: seq<ListElem>)
    requires Linked(c)
    ensures |c| >= 2
  {
  }

  /** Elements identify positions, and links lead to the neighbouring positions. */
  lemma Position(c: seq<ListElem>, i: nat, j: nat)
    requires Linked(c) && i < |c| && j < |c|
    ensures c[i] == c[j] <==> i == j
    ensures i < |c| - 1 ==> c[i].next == c[i + 1]
    ensures i > 0 ==> c[i].prev == c[i - 1]
  {
  }

  /** The chain that remains to be produced when the runs `p..q` and `q..j` are still to merge. */
  ghost function MergeResult(less: (ListElem, ListElem) -> bool, d: seq<ListElem>, p: nat, q: nat, j: nat): (r: seq<ListElem>)
    requires p <= q <= j <= |d|
    ensures |r| == |d|
  {
    d[..p] + Merge(less, d[p..q], d[q..j]) + d[j..]
  }

  lemma MergeDone(less: (ListElem, ListElem) -> bool, d: seq<ListElem>, p: nat, q: nat, j: nat)
    requires p <= q <= j <= |d| && (p == q || q == j)
    ensures MergeResult(less, d, p, q, j) == d
  {
    assert d[..p] + d[p..j] + d[j..] == d;
    assert p == q ==> d[p..q] == [] && d[q..j] == d[p..j];
    assert q == j ==> d[q..j] == [] && d[p..q] == d[p..j];
  }

  lemma MergeTakesLeft(less: (ListElem, ListElem) -> bool, d: seq<ListElem>, p: nat, q: nat, j: nat)
    requires p < q < j < |d| && !less(d[q], d[p])
    ensures MergeResult(less, d, p + 1, q, j) == MergeResult(less, d, p, q, j)
  {
    assert d[p..q][1..] == d[p + 1..q];
    assert d[..p] + [d[p]] == d[..p + 1];
  }

  /** Taking the head of the right run: what the merge promises is unchanged by the splice. */
  lemma MergeTakesRight(less: (ListElem, ListElem) -> bool, d: seq<ListElem>, p: nat, q: nat, j: nat)
    requires p < q < j < |d| && less(d[q], d[p])
    ensures var d' := Moved(d, p, q);
            && d'[p + 1] == d[p] && d'[q + 1] == d[q + 1] && d'[j] == d[j]
            && (forall x | x in d' :: x in d)
            && MergeResult(less, d', p + 1, q + 1, j) == MergeResult(less, d, p, q, j)
  {
    var d' := Moved(d, p, q);
    assert d'[..p + 1] == d[..p] + [d[q]];
    assert d'[p + 1..q + 1] == d[p..q];
    assert d'[q + 1..j] == d[q + 1..j] == d[q..j][1..];
    assert d'[j..] == d[j..];
  }

  lemma ChainInsert<T>(head: T, s: seq<T>, tail: T, k: nat, x: T)
    requires k <= |s|
    ensures var c := [head] + s + [tail];
            c[..k + 1] + [x] + c[k + 1..] == [head] + (s[..k] + [x] + s[k..]) + [tail]
  {
  }

  lemma NothingReversed()
    ensures Reversed<ListElem>([]) == []
  {
  }

  lemma ReversedTwice<T>(s: seq<T>)
    ensures Reversed(Reversed(s)) == s
  {
  }

  /** The interior positions before `p` have their links swapped; all other links are in place. */
  ghost predicate HalfSwapped(c: seq<ListElem>, p: nat)
    reads c
  {
    && |c| >= 2 && Distinct(c) && c[0].prev == null && c[|c| - 1].next == null
    && c[0].next == c[1] && c[|c| - 1].prev == c[|c| - 2]
    && (forall i {:trigger c[i].next} | 0 < i < |c| - 1 :: c[i].next == if i < p then c[i - 1] else c[i + 1])
    && (forall i {:trigger c[i].prev} | 0 < i < |c| - 1 :: c[i].prev == if i < p then c[i + 1] else c[i - 1])
  }

  /** The loop of list_reverse. */
  method SwapLinks(head: ListElem, tail: ListElem, ghost c: seq<ListElem>)
    requires Linked(c) && |c| > 2 && c[0] == head && c[|c| - 1] == tail
    modifies c
    ensures HalfSwapped(c, |c| - 1)
  {
    var e := head.next;
    ghost var p := 1;
    while e != tail
      invariant 0 < p < |c| && c[p] == e && HalfSwapped(c, p)
      decreases |c| - p
    {
      e.prev, e.next := e.next, e.prev;
      e, p := e.prev, p + 1;
    }
  }

  /** The rest of list_reverse. */
  method SwapHeaders(head: ListElem, tail: ListElem, ghost c: seq<ListElem>)
    requires |c| > 2 && HalfSwapped(c, |c| - 1) && c[0] == head && c[|c| - 1] == tail
    modifies c
    ensures Linked([head] + Reversed(Interior(c)) + [tail])
  {
    head.next, tail.prev := tail.prev, head.next;
    head.next.prev, tail.prev.next := tail.prev.next, head.next.prev;
    ReverseLinks(c);
  }

  lemma ReverseLinks(c: seq<ListElem>)
    requires |c| > 2 && Distinct(c)
    requires forall i {:trigger c[i].next} | 1 < i < |c| - 1 :: c[i].next == c[i - 1]
    requires forall i {:trigger c[i].prev} | 0 < i < |c| - 2 :: c[i].prev == c[i + 1]
    requires c[0].prev == null && c[0].next == c[|c| - 2] && c[|c| - 2].prev == c[0]
    requires c[|c| - 1].next == null && c[|c| - 1].prev == c[1] && c[1].next == c[|c| - 1]
    ensures Linked([c[0]] + Reversed(Interior(c)) + [c[|c| - 1]])
  {
    var n := |c| - 1;
    var r := [c[0]] + Reversed(Interior(c)) + [c[n]];
    assert forall i | 0 < i < n :: r[i] == c[n - i];
  }

  class List {
    const head: ListElem
    const tail: ListElem
    /** The interior elements, front to back. */
    ghost var elems: seq<ListElem>

    ghost function Chain(): (c: seq<ListElem>)
      reads this
      ensures |c| == |elems| + 2 && c[1..|elems| + 1] == elems && c[0] == head && c[|c| - 1] == tail
    {
      [head] + elems + [tail]
    }

    ghost predicate Valid()
      reads this, Chain()
    {
      Linked(Chain())
    }

    constructor ()
      ensures Valid() && elems == [] && fresh(head) && fresh(tail)
    {
      head := new ListElem();
      tail := new ListElem();
      elems := [];
      new;
      head.prev := null;
      head.next := tail;
      tail.prev := head;
      tail.next := null;
    }

    /** Scans for the element in front of which `elem` belongs. */
    method FindPosition(elem: ListElem, less: (ListElem, ListElem) -> bool) returns (e: ListElem, ghost k: nat)
      requires Valid()
      ensures k == InsertAt(less, elems, elem) && Chain()[k + 1] == e
    {
      e, k := head.next, 0;
      while e != tail && !less(elem, e)
        invariant 0 <= k <= |elems| && Chain()[k + 1] == e
        invariant forall i | 0 <= i < k :: !less(elem, elems[i])
        decreases |elems| - k
      {
        e, k := e.next, k + 1;
      }
    }

    /** Places `elem` before the first element it is less than. */
    method InsertOrdered(elem: ListElem, less: (ListElem, ListElem) -> bool)
      requires Valid() && elem !in Chain()
      modifies this, Chain(), elem
      ensures Valid()
      ensures elems == Ordering.InsertOrdered(less, old(elems), elem)
    {
      hide Linked;
      var e, k := FindPosition(elem, less);
      ghost var c := Chain();
      assert c[k] in c && c[k + 1] in c;
      InsertBefore(e, elem, c, k + 1);
      ChainInsert(head, elems, tail, k, elem);
      elems := elems[..k] + [elem] + elems[k..];
    }

    /** Swaps the links of every element, then those of and into the headers. */
    method Reverse()
      requires Valid()
      modifies this, Chain()
      ensures Valid() && elems == Reversed(old(elems))
    {
      hide Linked;
      hide HalfSwapped;
      hide Reversed;
      ghost var c := Chain();
      assert Interior(c) == elems;
      Position(c, 0, 0);
      Position(c, 1, |c| - 1);
      NothingReversed();
      if head.next != tail {
        SwapLinks(head, tail, c);
        SwapHeaders(head, tail, c);
      }
      elems := Reversed(elems);
    }

    /** Natural merge sort: passes over the list until one run is left. */
    method Sort(less: (ListElem, ListElem) -> bool)
      requires Valid() && StrictWeak(less, set x | x in elems)
      modifies this, Chain()
      ensures Valid()
      ensures Sorted(less, elems)
      ensures StablePermutation(less, old(elems), elems, set x | x in old(elems))
      ensures elems == StableSort(less, old(elems))
    {
      hide *;
      ghost var dom, nodes := set x | x in elems, set x | x in Chain();
      ghost var s := Chain();
      WithinDomain(this);
      var outputRuns, c := Pass(head, tail, less, s, dom, nodes);
      while outputRuns > 1
        invariant Linked(c) && |c| == |s| && c[0] == head && c[|c| - 1] == tail && Within(c, nodes)
        invariant StablePermutation(less, Interior(s), Interior(c), dom)
        invariant outputRuns <= 1 ==> Descents(less, Interior(c)) == 0
        decreases Descents(less, Interior(c)), outputRuns
      {
        ghost var d := c;
        StableWithin(less, Interior(s), Interior(c), dom);
        outputRuns, c := Pass(head, tail, less, c, dom, nodes);
        StableTransitive(less, Interior(s), Interior(d), Interior(c), dom);
      }
      SortedResult(less, s, c, dom);
      elems := Interior(c);
      IsValid(this, c);
    }
  }

  lemma WithinDomain(list: List)
    requires list.Valid()
    ensures Linked(list.Chain()) && Interior(list.Chain()) == list.elems
    ensures Within(list.elems, set x | x in list.elems) && Within(list.Chain(), set x | x in list.Chain())
  {
  }

  lemma IsValid(list: List, c: seq<ListElem>)
    requires Linked(c) && c[0] == list.head && c[|c| - 1] == list.tail && list.elems == Interior(c)
    ensures list.Valid()
  {
    assert list.Chain() == c;
  }

  lemma StableWithin<T>(less: (T, T) -> bool, s: seq<T>, t: seq<T>, dom: set<T>)
    requires StablePermutation(less, s, t, dom)
    ensures Within(t, dom)
  {
  }

  /** A chain without descents is the stable sort of the chain it permutes. */
  lemma SortedResult(less: (ListElem, ListElem) -> bool, s: seq<ListElem>, c: seq<ListElem>, dom: set<ListElem>)
    requires |s| == |c| >= 2 && StrictWeak(less, dom)
    requires StablePermutation(less, Interior(s), Interior(c), dom) && Descents(less, Interior(c)) == 0
    ensures Sorted(less, Interior(c)) && Interior(c) == StableSort(less, Interior(s))
  {
    NoDescentsSorted(less, Interior(c), dom);
    StableSortCorrect(less, Interior(s), dom);
    StableSortUnique(less, Interior(c), StableSort(less, Interior(s)), dom);
  }

  ghost function Interior<T>(c: seq<T>): (r: seq<T>)
    requires |c| >= 2
  {
    c[1..|c| - 1]
  }

  /** One pass of the sort: merges each pair of adjacent runs and counts the runs it leaves.
      Unless one run is left, strictly fewer descents remain. */
  method Pass(head: ListElem, tail: ListElem, less: (ListElem, ListElem) -> bool,
              ghost s: seq<ListElem>, ghost dom: set<ListElem>, ghost nodes: set<ListElem>)
      returns (outputRuns: nat, ghost c: seq<ListElem>)
    requires Linked(s) && s[0] == head && s[|s| - 1] == tail && Within(s, nodes)
    requires StrictWeak(less, dom) && Within(Interior(s), dom)
    modifies nodes
    ensures Linked(c) && |c| == |s| && c[0] == head && c[|c| - 1] == tail && Within(c, nodes)
    ensures StablePermutation(less, Interior(s), Interior(c), dom)
    ensures Descents(less, Interior(c)) <= Descents(less, Interior(s))
    ensures outputRuns > 1 ==> Descents(less, Interior(c)) < Descents(less, Interior(s))
    ensures outputRuns <= 1 ==> Descents(less, Interior(c)) == 0
  {
    hide *;
    outputRuns := 0;
    Ends(s);
    Position(s, 0, 1);
    Position(s, 1, |s| - 1);
    var a0 := head.next;
    ghost var i := 1;
    c := s;
    PassStarts(less, s, dom);
    while a0 != tail
      invariant Linked(c) && |c| == |s| && Within(c, nodes)
      invariant c[0] == head && c[|c| - 1] == tail
      invariant 1 <= i < |c| && c[i] == a0 && (a0 == tail <==> i == |c| - 1)
      invariant PassState(less, s, c, i, outputRuns, dom)
      decreases |s| - i
    {
      outputRuns := outputRuns + 1;
      var a1b0, m := FindEndOfRun(a0, tail, less, c, i, |c| - 1);
      if a1b0 == tail {
        PassEnds(less, s, c, i, outputRuns - 1, dom);
        return;
      }
      var b1, j := FindEndOfRun(a1b0, tail, less, c, m, |c| - 1);
      MergeStep(less, s, c, i, m, j, outputRuns - 1, dom);
      c := InplaceMerge(a0, a1b0, b1, less, c, i, m, j, nodes);
      a0, i := b1, j;
    }
    PassEnds(less, s, c, i, outputRuns, dom);
  }

  /** State of a pass over the chain `s` that has reached position `i` and left `k` runs,
      `e` being the chain so far: two runs of `s` went into each run of `e`. */
  ghost predicate PassState(less: (ListElem, ListElem) -> bool, s: seq<ListElem>, e: seq<ListElem>,
                            i: nat, k: nat, dom: set<ListElem>) {
    && 2 <= |s| == |e| && 1 <= i <= |s| - 1
    && StablePermutation(less, Interior(s), Interior(e), dom)
    && e[0] == s[0] && (forall n | i <= n < |s| :: e[n] == s[n])
    && (i == 1 <==> k == 0)
    && (i > 1 ==> Descents(less, e[1..i]) < k && Descents(less, s[1..i]) == 2 * k - 1)
    && (1 < i < |s| - 1 ==> less(s[i], s[i - 1]))
  }

  lemma PassStarts(less: (ListElem, ListElem) -> bool, s: seq<ListElem>, dom: set<ListElem>)
    requires |s| >= 2 && Within(Interior(s), dom)
    ensures PassState(less, s, s, 1, 0, dom)
  {
  }

  /** The pass ends at the tail or with one unpaired run: fewer descents are left, none if
      a single run is. */
  lemma PassEnds(less: (ListElem, ListElem) -> bool, s: seq<ListElem>, e: seq<ListElem>,
                 i: nat, k: nat, dom: set<ListElem>)
    requires PassState(less, s, e, i, k, dom) && (i == |s| - 1 || Descents(less, e[i..|s| - 1]) == 0)
    ensures StablePermutation(less, Interior(s), Interior(e), dom)
    ensures var runs := if i == |s| - 1 then k else k + 1;
            var d0, d1 := Descents(less, Interior(s)), Descents(less, Interior(e));
            d1 <= d0 && (runs > 1 ==> d1 < d0) && (runs <= 1 ==> d1 == 0)
  {
    hide StablePermutation;
    hide Descents;
    var n := |s| - 1;
    assert e[i..n] == s[i..n];
    assert e[1..n] == e[1..i] + e[i..n] && s[1..n] == s[1..i] + s[i..n];
    if 1 < i < n {
      DescentsConcat(less, e[1..i], e[i..n]);
      DescentsConcat(less, s[1..i], s[i..n]);
    } else if i == 1 {
      EmptyDescents<ListElem>(less);
      assert i == n ==> e[i..n] == [];
      assert e[1..n] == e[i..n] && s[1..n] == s[i..n];
    } else {
      assert e[1..n] == e[1..i] && s[1..n] == s[1..i];
    }
  }

  lemma InteriorSplit<T>(e: seq<T>, i: nat, g: seq<T>, j: nat)
    requires 1 <= i <= j < |e|
    ensures Interior(e[..i] + g + e[j..]) == e[1..i] + g + e[j..|e| - 1]
  {
    var x, y := e[..i] + g + e[j..], e[1..i] + g + e[j..|e| - 1];
    assert |x| - 2 == |y|;
    assert forall k | 0 <= k < |y| :: x[k + 1] == y[k];
  }

  lemma MergedRunsStable(less: (ListElem, ListElem) -> bool, e: seq<ListElem>, i: nat, m: nat, j: nat, dom: set<ListElem>)
    requires 1 <= i < m < j <= |e| - 1 && StrictWeak(less, dom) && Within(Interior(e), dom)
    requires Descents(less, e[i..m]) == 0 && Descents(less, e[m..j]) == 0
    ensures StablePermutation(less, Interior(e), Interior(MergeResult(less, e, i, m, j)), dom)
    ensures Descents(less, Merge(less, e[i..m], e[m..j])) == 0
  {
    var n := |e| - 1;
    var a, b := e[i..m], e[m..j];
    var g := Merge(less, a, b);
    assert a + b == e[i..j];
    assert e[1..n] == e[1..i] + e[i..j] + e[j..n];
    InteriorSplit(e, i, g, j);
    assert Within(a, dom) && Within(b, dom) && Within(e[1..i], dom) && Within(e[j..n], dom);
    hide *;
    NoDescentsSorted(less, a, dom);
    NoDescentsSorted(less, b, dom);
    MergeStable(less, a, b, dom);
    MergeSorted(less, a, b, dom);
    SortedNoDescents(less, g);
    StableInContext(less, e[1..i], a + b, g, e[j..n], dom);
  }

  /** Merging the runs `i..m` and `m..j` advances the pass. */
  lemma MergeStep(less: (ListElem, ListElem) -> bool, s: seq<ListElem>, e: seq<ListElem>,
                  i: nat, m: nat, j: nat, k: nat, dom: set<ListElem>)
    requires StrictWeak(less, dom)
    requires PassState(less, s, e, i, k, dom) && i < m < j <= |s| - 1
    requires Descents(less, e[i..m]) == 0 && Descents(less, e[m..j]) == 0 && less(e[m], e[m - 1])
    requires j < |s| - 1 ==> less(e[j], e[j - 1])
    ensures PassState(less, s, MergeResult(less, e, i, m, j), j, k + 1, dom)
    ensures var r := MergeResult(less, e, i, m, j);
            r[0] == e[0] && r[j] == e[j] && r[|e| - 1] == e[|e| - 1]
  {
    hide StrictWeak;
    hide Merge;
    hide Descents;
    var g := Merge(less, e[i..m], e[m..j]);
    var e' := MergeResult(less, e, i, m, j);
    assert Descents(less, g) == 0 && StablePermutation(less, Interior(s), Interior(e'), dom) by {
      MergedRunsStable(less, e, i, m, j, dom);
      StableTransitive(less, Interior(s), Interior(e), Interior(e'), dom);
    }
    hide StablePermutation;
    assert forall n | j <= n < |s| :: e'[n] == s[n];
    assert Descents(less, s[1..j]) == 2 * k + 1 by {
      hide MergeResult;
      assert s[i..j] == e[i..m] + e[m..j];
      ConsumedRuns(less, s, e[i..m], e[m..j], i, j);
    }
    MergedDescents(less, e, i, g, j, k);
    assert e'[1..j] == e[1..i] + g;
  }

  lemma MergedDescents(less: (ListElem, ListElem) -> bool, e: seq<ListElem>, i: nat, g: seq<ListElem>, j: nat, k: nat)
    requires 1 <= i <= j <= |e| && g != [] && Descents(less, g) == 0 && (i > 1 ==> Descents(less, e[1..i]) < k)
    ensures Descents(less, e[1..i] + g) < k + 1
  {
    if i > 1 {
      DescentsConcat(less, e[1..i], g);
    } else {
      assert e[1..i] + g == g;
    }
  }

  lemma ConsumedRuns(less: (ListElem, ListElem) -> bool, s: seq<ListElem>, a: seq<ListElem>, b: seq<ListElem>, i: nat, j: nat)
    requires 1 <= i < j <= |s| && s[i..j] == a + b && a != [] && b != []
    requires Descents(less, a) == 0 && Descents(less, b) == 0 && less(b[0], a[|a| - 1])
    requires i > 1 ==> less(s[i], s[i - 1])
    ensures Descents(less, s[1..j]) == if i == 1 then 1 else Descents(less, s[1..i]) + 2
  {
    DescentsConcat(less, a, b);
    assert s[1..j] == s[1..i] + s[i..j];
    if i > 1 {
      DescentsConcat(less, s[1..i], s[i..j]);
      assert s[i..j][0] == s[i];
    } else {
      assert s[1..j] == s[i..j];
    }
  }
}
