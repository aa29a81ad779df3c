/** The scheduler's lists with their links. A thread is on a list through the element embedded in
    it, which `entry` leads back from, and the operations of list.c on the elements do to the
    threads what the transition system says of its sequences. */
module ThreadLists {
  import opened Collections
  import opened Ordering
  import opened KernelList
  import opened Scheduler

  ghost function Mapped<E, T>(f: E -> T, s: seq<E>): (r: seq<T>)
    ensures |r| == |s| && forall i | 0 <= i < |s| :: r[i] == f(s[i])
  {
    seq(|s|, i requires 0 <= i < |s| => f(s[i]))
  }

  /** The comparator on elements that compares their threads. */
  function By<E, T>(less: (T, T) -> bool, f: E -> T): (r: (E, E) -> bool) {
    (a, b) => less(f(a), f(b))
  }

  lemma {:induction false} InsertAtMapped<E, T>(less: (T, T) -> bool, f: E -> T, s: seq<E>, x: E)
    ensures InsertAt(By(less, f), s, x) == InsertAt(less, Mapped(f, s), f(x))
  {
    if s != [] {
      InsertAtMapped(less, f, s[1..], x);
      assert Mapped(f, s)[1..] == Mapped(f, s[1..]);
    }
  }

  lemma InsertMapped<E, T>(less: (T, T) -> bool, f: E -> T, s: seq<E>, x: E)
    ensures Mapped(f, InsertOrdered(By(less, f), s, x)) == InsertOrdered(less, Mapped(f, s), f(x))
  {
    InsertAtMapped(less, f, s, x);
  }

  lemma {:induction false} SortMapped<E, T>(less: (T, T) -> bool, f: E -> T, s: seq<E>)
    ensures Mapped(f, StableSort(By(less, f), s)) == StableSort(less, Mapped(f, s))
  {
    hide InsertOrdered;
    if s != [] {
      var n := |s| - 1;
      SortMapped(less, f, s[..n]);
      InsertMapped(less, f, StableSort(By(less, f), s[..n]), s[n]);
      assert Mapped(f, s)[..n] == Mapped(f, s[..n]);
    }
  }

  lemma ByStrictWeak(ts: map<Tid, Thread>, entry: ListElem -> Tid, dom: set<ListElem>)
    ensures StrictWeak(By<ListElem, Tid>(Higher(ts), entry), dom)
  {
  }

  /** list_insert_ordered of a thread, by priority or by wake-up tick. */
  method InsertThread(list: List, elem: ListElem, less: (Tid, Tid) -> bool, entry: ListElem -> Tid)
    requires list.Valid() && elem !in list.Chain()
    modifies list, list.Chain(), elem
    ensures list.Valid()
    ensures Mapped(entry, list.elems) == InsertOrdered(less, Mapped(entry, old(list.elems)), entry(elem))
  {
    hide *;
    InsertMapped(less, entry, list.elems, elem);
    list.InsertOrdered(elem, By<ListElem, Tid>(less, entry));
  }

  /** list_remove of the element at `k`. */
  method RemoveAt(list: List, elem: ListElem, ghost k: nat)
    requires list.Valid() && k < |list.elems| && list.elems[k] == elem
    modifies list, list.Chain()
    ensures list.Valid() && list.elems == old(list.elems[..k] + list.elems[k + 1..])
    ensures elem !in list.Chain()
  {
    hide Linked;
    hide Distinct;
    ghost var c, r := list.Chain(), list.elems[..k] + list.elems[k + 1..];
    LinkedDistinct(c);
    ChainRemove(list.head, list.elems, list.tail, k);
    var _ := Remove(elem, c, k + 1);
    list.elems := r;
  }

  lemma LinkedDistinct(c: seq<ListElem>)
    requires Linked(c)
    ensures Distinct(c)
  {
  }

  lemma ChainRemove<T>(head: T, s: seq<T>, tail: T, k: nat)
    requires k < |s| && Distinct([head] + s + [tail])
    ensures var c, r := [head] + s + [tail], [head] + (s[..k] + s[k + 1..]) + [tail];
            c[k + 1] == s[k] && c[k] in c && c[k + 2] in c && c[..k + 1] + c[k + 2..] == r && s[k] !in r
  {
    var c := [head] + s + [tail];
    assert s[k] == c[k + 1] && s[k] !in c[..k + 1] && s[k] !in c[k + 2..];
  }

  lemma RemovedMapped<E, T>(f: E -> T, s: seq<E>, k: nat)
    requires k < |s| && Distinct(Mapped(f, s))
    ensures Mapped(f, s[..k] + s[k + 1..]) == Without(Mapped(f, s), f(s[k]))
  {
    WithoutOne(Mapped(f, s), k);
  }

  lemma PoppedMapped<E, T>(f: E -> T, s: seq<E>)
    requires s != []
    ensures [f(s[0])] + Mapped(f, s[..0] + s[0 + 1..]) == Mapped(f, s)
  {
  }

  /** list_pop_front. */
  method PopThread(list: List, entry: ListElem -> Tid) returns (elem: ListElem)
    requires list.Valid() && list.elems != []
    modifies list, list.Chain()
    ensures list.Valid()
    ensures [entry(elem)] + Mapped(entry, list.elems) == Mapped(entry, old(list.elems))
  {
    hide Linked;
    hide Mapped;
    PoppedMapped(entry, list.elems);
    elem := Front(list);
    RemoveAt(list, elem, 0);
  }

  method Front(list: List) returns (elem: ListElem)
    requires list.Valid() && list.elems != []
    ensures elem == list.elems[0]
  {
    Position(list.Chain(), 0, 0);
    elem := list.head.next;
  }

  lemma ChainWithin<T>(head: T, s: seq<T>, t: seq<T>, tail: T)
    requires forall x | x in t :: x in s
    ensures var c, d := [head] + s + [tail], [head] + t + [tail];
            forall i | 0 <= i < |d| :: d[i] in c
  {
    var c, d := [head] + s + [tail], [head] + t + [tail];
    forall i | 0 <= i < |d| ensures d[i] in c {
      assert 0 < i < |d| - 1 ==> d[i] == t[i - 1] && t[i - 1] in t;
      assert head == c[0] && tail == c[|s| + 1];
    }
  }

  /** The list part of sema_up: sorts the waiters by priority and takes the front. */
  method PopHighest(list: List, ts: map<Tid, Thread>, entry: ListElem -> Tid) returns (elem: ListElem)
    requires list.Valid() && list.elems != []
    modifies list, list.Chain()
    ensures list.Valid()
    ensures [entry(elem)] + Mapped(entry, list.elems) == StableSort(Higher(ts), Mapped(entry, old(list.elems)))
  {
    hide StableSort;
    hide Linked;
    hide StrictWeak;
    hide Sorted;
    hide StablePermutation;
    hide By;
    hide Mapped;
    ghost var s := list.elems;
    var less := By<ListElem, Tid>(Higher(ts), entry);
    ByStrictWeak(ts, entry, set x | x in s);
    SortMapped<ListElem, Tid>(Higher(ts), entry, s);
    list.Sort(less);
    StableWithin<ListElem>(less, s, list.elems, set x | x in s);
    ChainWithin(list.head, s, list.elems, list.tail);
    elem := PopThread(list, entry);
  }

  /** The list part of a donation to a ready thread: out of the list, and back in by its new
      priority. */
  method Reposition(list: List, elem: ListElem, ts: map<Tid, Thread>, entry: ListElem -> Tid, ghost k: nat)
    requires list.Valid() && k < |list.elems| && list.elems[k] == elem && Distinct(Mapped(entry, list.elems))
    modifies list, list.Chain()
    ensures list.Valid()
    ensures Mapped(entry, list.elems) ==
            InsertOrdered(Higher(ts), Without(Mapped(entry, old(list.elems)), entry(elem)), entry(elem))
  {
    hide InsertOrdered;
    hide Without;
    hide Linked;
    assert elem in list.Chain();
    RemovedMapped(entry, list.elems, k);
    RemoveAt(list, elem, k);
    InsertThread(list, elem, Higher(ts), entry);
  }
}
