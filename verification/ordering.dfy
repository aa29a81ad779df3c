/** Sequences ordered by a comparator, as the kernel's lists use them: strict weak
    orders, stable permutations, ordered insertion and stable merging.

    All notions are relative to a finite domain `dom` of elements on which the
    comparator is a strict weak order, because list elements are references. */
module Ordering {
  import opened Collections


  ghost predicate StrictWeak<T>(less: (T, T) -> bool, dom: set<T>) {
    && (forall x, y | x in dom && y in dom && less(x, y) :: !less(y, x))
    && (forall x, y, z | x in dom && y in dom && z in dom && less(x, y) :: less(x, z) || less(z, y))
  }

  ghost predicate Within<T>(s: seq<T>, dom: set<T>) {
    forall x | x in s :: x in dom
  }

  /** Non-decreasing order: no later element is less than an earlier one. */
  ghost predicate Sorted<T>(less: (T, T) -> bool, s: seq<T>) {
    forall i, j | 0 <= i < j < |s| :: !less(s[j], s[i])
  }

  predicate Equivalent<T>(less: (T, T) -> bool, x: T, y: T) {
    !less(x, y) && !less(y, x)
  }

  /** The elements of `s` that are equivalent to `x`, in the order they have in `s`. */
  ghost function Class<T>(less: (T, T) -> bool, x: T, s: seq<T>): (c: seq<T>) {
    if s == [] then []
    else (if Equivalent(less, x, s[0]) then [s[0]] else []) + Class(less, x, s[1..])
  }

  /** `t` is a permutation of `s` that keeps equivalent elements in their order. */
  ghost predicate StablePermutation<T>(less: (T, T) -> bool, s: seq<T>, t: seq<T>, dom: set<T>) {
    && Within(s, dom) && Within(t, dom) && |s| == |t|
    && forall x | x in dom :: Class(less, x, s) == Class(less, x, t)
  }

  lemma ClassCons<T>(less: (T, T) -> bool, x: T, h: T, s: seq<T>)
    ensures Class(less, x, [h] + s) == (if Equivalent(less, x, h) then [h] else []) + Class(less, x, s)
  {
    assert ([h] + s)[1..] == s;
  }

  lemma NoClass<T>(less: (T, T) -> bool, x: T)
    ensures Class(less, x, []) == []
  {
  }

  lemma Regroup<T>(a: seq<T>, b: seq<T>, c: seq<T>)
    ensures a + (b + c) == (a + b) + c
  {
  }

  lemma SwapEmpty<T>(a: seq<T>, b: seq<T>, c: seq<T>)
    requires a == [] || b == []
    ensures a + (b + c) == b + (a + c)
  {
    assert [] + c == c;
    assert [] + (a + c) == a + c && [] + (b + c) == b + c;
  }

  lemma HeadTail<T>(s: seq<T>)
    requires s != []
    ensures s == [s[0]] + s[1..]
  {
  }

  lemma {:induction false} ClassConcat<T>(less: (T, T) -> bool, x: T, s: seq<T>, t: seq<T>)
    ensures Class(less, x, s + t) == Class(less, x, s) + Class(less, x, t)
  {
    hide *;
    if s == [] {
      NoClass(less, x);
      assert s + t == t && [] + Class(less, x, t) == Class(less, x, t);
    } else {
      HeadTail(s);
      Regroup([s[0]], s[1..], t);
      ClassConcat(less, x, s[1..], t);
      ClassCons(less, x, s[0], s[1..] + t);
      ClassCons(less, x, s[0], s[1..]);
      Regroup(if Equivalent(less, x, s[0]) then [s[0]] else [], Class(less, x, s[1..]), Class(less, x, t));
    }
  }

  /** The head of a class is the first equivalent element of the sequence. */
  lemma {:induction false} ClassHead<T>(less: (T, T) -> bool, x: T, s: seq<T>) returns (k: nat)
    requires Class(less, x, s) != []
    ensures k < |s| && s[k] == Class(less, x, s)[0] && Equivalent(less, x, s[k])
    ensures forall j | 0 <= j < k :: !Equivalent(less, x, s[j])
  {
    if Equivalent(less, x, s[0]) {
      k := 0;
    } else {
      k := ClassHead(less, x, s[1..]);
      k := k + 1;
    }
  }

  /** A class holds exactly the equivalent elements, as often as the sequence does. */
  lemma {:induction false} ClassCount<T>(less: (T, T) -> bool, x: T, y: T, s: seq<T>)
    ensures multiset(Class(less, x, s))[y] == if Equivalent(less, x, y) then multiset(s)[y] else 0
  {
    if s != [] {
      ClassCount(less, x, y, s[1..]);
      assert s == [s[0]] + s[1..];
      var head := if Equivalent(less, x, s[0]) then [s[0]] else [];
      assert multiset(Class(less, x, s)) == multiset(head) + multiset(Class(less, x, s[1..]));
    }
  }

  /** A stable permutation is a permutation. */
  lemma StableIsPermutation<T>(less: (T, T) -> bool, s: seq<T>, t: seq<T>, dom: set<T>)
    requires StrictWeak(less, dom) && StablePermutation(less, s, t, dom)
    ensures multiset(s) == multiset(t)
  {
    forall x ensures multiset(s)[x] == multiset(t)[x] {
      if x in dom {
        ClassCount(less, x, x, s);
        ClassCount(less, x, x, t);
        assert !less(x, x);
      } else {
        assert x !in s && x !in t;
      }
    }
  }

  lemma StableHeads<T>(less: (T, T) -> bool, s: seq<T>, t: seq<T>, dom: set<T>)
    requires StrictWeak(less, dom) && StablePermutation(less, s, t, dom)
    requires Sorted(less, s) && Sorted(less, t) && s != []
    ensures t != [] && s[0] == t[0] && Within(s, dom) && Within(t, dom)
  {
    StableIsPermutation(less, s, t, dom);
    var x, y := s[0], t[0];
    assert x in multiset(t) && y in multiset(s);
    assert x in t && y in s;
    assert Equivalent(less, x, y);
    assert !less(x, x) && !less(y, y);
    assert Class(less, x, s)[0] == x && Class(less, x, t)[0] == y;
  }

  lemma StableTails<T>(less: (T, T) -> bool, x: T, s: seq<T>, t: seq<T>, dom: set<T>)
    requires StablePermutation(less, [x] + s, [x] + t, dom)
    ensures StablePermutation(less, s, t, dom)
  {
    hide Class;
    hide Equivalent;
    assert forall y :: y in s || y in t ==> y in [x] + s || y in [x] + t;
    forall z | z in dom ensures Class(less, z, s) == Class(less, z, t) {
      ClassCons(less, z, x, s);
      ClassCons(less, z, x, t);
      var head := if Equivalent(less, z, x) then [x] else [];
      assert (head + Class(less, z, s))[|head|..] == Class(less, z, s);
      assert (head + Class(less, z, t))[|head|..] == Class(less, z, t);
    }
  }

  /** Sorted stable permutations are unique: sortedness and stability determine the result. */
  lemma {:induction false} StableSortUnique<T>(less: (T, T) -> bool, s: seq<T>, t: seq<T>, dom: set<T>)
    requires StrictWeak(less, dom) && StablePermutation(less, s, t, dom)
    requires Sorted(less, s) && Sorted(less, t)
    ensures s == t
    decreases |s|
  {
    if s != [] {
      StableHeads(less, s, t, dom);
      hide *;
      var x := s[0];
      assert s == [x] + s[1..] && t == [x] + t[1..];
      StableTails(less, x, s[1..], t[1..], dom);
      SortedTail(less, s, dom);
      SortedTail(less, t, dom);
      StableSortUnique(less, s[1..], t[1..], dom);
    }
  }

  lemma StableTransitive<T>(less: (T, T) -> bool, s: seq<T>, t: seq<T>, u: seq<T>, dom: set<T>)
    requires StablePermutation(less, s, t, dom) && StablePermutation(less, t, u, dom)
    ensures StablePermutation(less, s, u, dom)
  {
  }

  /** Comparators that agree have the same classes. */
  lemma {:induction false} ClassAgrees<T>(less: (T, T) -> bool, less': (T, T) -> bool, x: T, s: seq<T>)
    requires forall y | y in s :: less(x, y) == less'(x, y) && less(y, x) == less'(y, x)
    ensures Class(less, x, s) == Class(less', x, s)
  {
    if s != [] {
      assert s[0] in s && forall y | y in s[1..] :: y in s;
      ClassAgrees(less, less', x, s[1..]);
    }
  }

  lemma StableAgrees<T>(less: (T, T) -> bool, less': (T, T) -> bool, s: seq<T>, t: seq<T>, dom: set<T>)
    requires StablePermutation(less, s, t, dom)
    requires forall x, y | x in dom && y in dom :: less(x, y) == less'(x, y)
    ensures StablePermutation(less', s, t, dom)
  {
    forall x | x in dom ensures Class(less', x, s) == Class(less', x, t) {
      ClassAgrees(less, less', x, s);
      ClassAgrees(less, less', x, t);
    }
  }

  /** Replacing a middle section by a stable permutation of it is a stable permutation. */
  lemma StableInContext<T>(less: (T, T) -> bool, pre: seq<T>, s: seq<T>, t: seq<T>, post: seq<T>, dom: set<T>)
    requires StablePermutation(less, s, t, dom) && Within(pre, dom) && Within(post, dom)
    ensures StablePermutation(less, pre + s + post, pre + t + post, dom)
  {
    forall x | x in dom ensures Class(less, x, pre + s + post) == Class(less, x, pre + t + post) {
      ClassConcat(less, x, pre + s, post);
      ClassConcat(less, x, pre, s);
      ClassConcat(less, x, pre + t, post);
      ClassConcat(less, x, pre, t);
    }
  }

  // ---------------------------------------------------------------- merging

  /** The stable merge of two sorted sequences: ties go to `a`. */
  ghost function Merge<T>(less: (T, T) -> bool, a: seq<T>, b: seq<T>): (m: seq<T>)
    ensures |m| == |a| + |b|
    decreases |a| + |b|
  {
    if a == [] then b
    else if b == [] then a
    else if !less(b[0], a[0]) then [a[0]] + Merge(less, a[1..], b)
    else [b[0]] + Merge(less, a, b[1..])
  }

  lemma MergeFirst<T>(less: (T, T) -> bool, a: seq<T>, b: seq<T>)
    requires a != [] && b != []
    ensures !less(b[0], a[0]) ==> Merge(less, a, b) == [a[0]] + Merge(less, a[1..], b)
    ensures less(b[0], a[0]) ==> Merge(less, a, b) == [b[0]] + Merge(less, a, b[1..])
    ensures a == [a[0]] + a[1..] && b == [b[0]] + b[1..]
  {
  }

  lemma {:induction false} MergeElements<T>(less: (T, T) -> bool, a: seq<T>, b: seq<T>)
    ensures multiset(Merge(less, a, b)) == multiset(a) + multiset(b)
    decreases |a| + |b|
  {
    if a != [] && b != [] {
      MergeFirst(less, a, b);
      hide Merge;
      if !less(b[0], a[0]) {
        MergeElements(less, a[1..], b);
        assert multiset(a) == multiset{a[0]} + multiset(a[1..]);
      } else {
        MergeElements(less, a, b[1..]);
        assert multiset(b) == multiset{b[0]} + multiset(b[1..]);
      }
    }
  }

  lemma MergeMembers<T>(less: (T, T) -> bool, a: seq<T>, b: seq<T>)
    ensures forall y | y in Merge(less, a, b) :: y in a || y in b
  {
    MergeElements(less, a, b);
    forall y | y in Merge(less, a, b) ensures y in a || y in b {
      assert y in multiset(Merge(less, a, b));
    }
  }

  lemma SortedTail<T>(less: (T, T) -> bool, s: seq<T>, dom: set<T>)
    requires StrictWeak(less, dom) && Within(s, dom) && Sorted(less, s) && s != []
    ensures Sorted(less, s[1..]) && Within(s[1..], dom) && s[0] in dom
    ensures forall y | y in s :: y in dom && !less(y, s[0])
  {
    assert !less(s[0], s[0]);
  }

  lemma SortedCons<T>(less: (T, T) -> bool, x: T, s: seq<T>)
    requires Sorted(less, s) && forall y | y in s :: !less(y, x)
    ensures Sorted(less, [x] + s)
  {
  }

  lemma {:induction false} MergeSorted<T>(less: (T, T) -> bool, a: seq<T>, b: seq<T>, dom: set<T>)
    requires StrictWeak(less, dom) && Within(a, dom) && Within(b, dom)
    requires Sorted(less, a) && Sorted(less, b)
    ensures Sorted(less, Merge(less, a, b))
    decreases |a| + |b|
  {
    if a != [] && b != [] {
      SortedTail(less, a, dom);
      SortedTail(less, b, dom);
      MergeFirst(less, a, b);
      hide Merge;
      hide Sorted;
      if !less(b[0], a[0]) {
        MergeSorted(less, a[1..], b, dom);
        MergeMembers(less, a[1..], b);
        forall y | y in Merge(less, a[1..], b) ensures !less(y, a[0]) {
          assert y in a || y in b;
        }
        SortedCons(less, a[0], Merge(less, a[1..], b));
      } else {
        MergeSorted(less, a, b[1..], dom);
        MergeMembers(less, a, b[1..]);
        forall y | y in Merge(less, a, b[1..]) ensures !less(y, b[0]) {
          assert y in a || y in b;
        }
        SortedCons(less, b[0], Merge(less, a, b[1..]));
      }
    }
  }

  /** Every class of the merge is that class of `a` followed by that class of `b`. */
  lemma {:induction false} MergeClass<T>(less: (T, T) -> bool, a: seq<T>, b: seq<T>, x: T, dom: set<T>)
    requires StrictWeak(less, dom) && Within(a, dom) && Within(b, dom) && x in dom
    requires Sorted(less, a) && Sorted(less, b)
    ensures Class(less, x, Merge(less, a, b)) == Class(less, x, a) + Class(less, x, b)
    decreases |a| + |b|
  {
    hide *;
    if a != [] && b != [] {
      MergeFirst(less, a, b);
      SortedTail(less, a, dom);
      SortedTail(less, b, dom);
      if !less(b[0], a[0]) {
        var h := if Equivalent(less, x, a[0]) then [a[0]] else [];
        MergeClass(less, a[1..], b, x, dom);
        ClassCons(less, x, a[0], a[1..]);
        ClassCons(less, x, a[0], Merge(less, a[1..], b));
        Regroup(h, Class(less, x, a[1..]), Class(less, x, b));
      } else {
        var h := if Equivalent(less, x, b[0]) then [b[0]] else [];
        MergeClass(less, a, b[1..], x, dom);
        ClassCons(less, x, b[0], b[1..]);
        ClassCons(less, x, b[0], Merge(less, a, b[1..]));
        if Equivalent(less, x, b[0]) {
          NoneBelow(less, a, b[0], x, dom);
        }
        SwapEmpty(h, Class(less, x, a), Class(less, x, b[1..]));
      }
    } else {
      MergeNothing(less, a, b);
      NoClass(less, x);
      assert [] + Class(less, x, b) == Class(less, x, b) && Class(less, x, a) + [] == Class(less, x, a);
    }
  }

  lemma MergeNothing<T>(less: (T, T) -> bool, a: seq<T>, b: seq<T>)
    requires a == [] || b == []
    ensures Merge(less, a, b) == if a == [] then b else a
  {
  }

  /** Nothing in a sorted list above `y` is equivalent to something that is equivalent to `y`. */
  lemma NoneBelow<T>(less: (T, T) -> bool, a: seq<T>, y: T, x: T, dom: set<T>)
    requires StrictWeak(less, dom) && Within(a, dom) && x in dom && y in dom
    requires Sorted(less, a) && a != [] && less(y, a[0]) && Equivalent(less, x, y)
    ensures Class(less, x, a) == []
  {
    forall k | 0 <= k < |a| ensures !Equivalent(less, x, a[k]) {
      assert less(y, a[k]) by {
        assert k > 0 ==> !less(a[k], a[0]);
        assert less(y, a[0]);
      }
    }
    ClassEmpty(less, x, a);
  }

  lemma {:induction false} ClassEmpty<T>(less: (T, T) -> bool, x: T, s: seq<T>)
    requires forall k | 0 <= k < |s| :: !Equivalent(less, x, s[k])
    ensures Class(less, x, s) == []
  {
    if s != [] {
      ClassEmpty(less, x, s[1..]);
    }
  }

  lemma MergeStable<T>(less: (T, T) -> bool, a: seq<T>, b: seq<T>, dom: set<T>)
    requires StrictWeak(less, dom) && Within(a, dom) && Within(b, dom)
    requires Sorted(less, a) && Sorted(less, b)
    ensures StablePermutation(less, a + b, Merge(less, a, b), dom)
  {
    hide Class;
    hide Merge;
    forall x | x in dom ensures Class(less, x, a + b) == Class(less, x, Merge(less, a, b)) {
      MergeClass(less, a, b, x, dom);
      ClassConcat(less, x, a, b);
    }
    MergeMembers(less, a, b);
  }

  // ---------------------------------------------------------------- runs

  /** Number of places where an element is less than the one before it. */
  ghost function Descents<T>(less: (T, T) -> bool, s: seq<T>): (n: nat) {
    if |s| < 2 then 0
    else Descents(less, s[..|s| - 1]) + (if less(s[|s| - 1], s[|s| - 2]) then 1 else 0)
  }

  lemma EmptyDescents<T>(less: (T, T) -> bool)
    ensures Descents(less, []) == 0
  {
  }

  /** Descents of a concatenation: those of the parts, and possibly one at the seam. */
  lemma {:induction false} DescentsConcat<T>(less: (T, T) -> bool, s: seq<T>, t: seq<T>)
    requires s != [] && t != []
    ensures Descents(less, s + t)
         == Descents(less, s) + Descents(less, t) + (if less(t[0], s[|s| - 1]) then 1 else 0)
    decreases |t|
  {
    var u := s + t;
    if |t| == 1 {
      assert u[..|u| - 1] == s;
    } else {
      var t' := t[..|t| - 1];
      assert u[..|u| - 1] == s + t';
      DescentsConcat(less, s, t');
    }
  }

  /** Without descents the whole sequence is sorted. */
  lemma {:induction false} NoDescentsSorted<T>(less: (T, T) -> bool, s: seq<T>, dom: set<T>)
    requires StrictWeak(less, dom) && Within(s, dom) && Descents(less, s) == 0
    ensures Sorted(less, s)
    decreases |s|
  {
    if |s| >= 2 {
      var n := |s| - 1;
      NoDescentsSorted(less, s[..n], dom);
      forall i | 0 <= i < n ensures !less(s[n], s[i]) {
        assert s[n] in s && s[n - 1] in s && s[i] in s;
        assert i < n - 1 ==> !less(s[..n][n - 1], s[..n][i]);
        assert !less(s[n], s[n - 1]);
      }
    }
  }

  lemma {:induction false} SortedNoDescents<T>(less: (T, T) -> bool, s: seq<T>)
    requires Sorted(less, s)
    ensures Descents(less, s) == 0
    decreases |s|
  {
    if |s| >= 2 {
      SortedNoDescents(less, s[..|s| - 1]);
    }
  }

  // ---------------------------------------------------------------- ordered insertion

  /** Index before which `list_insert_ordered` places `x`: the first element `x` is less than. */
  function InsertAt<T>(less: (T, T) -> bool, s: seq<T>, x: T): (k: nat)
    ensures k <= |s|
    ensures forall i | 0 <= i < k :: !less(x, s[i])
    ensures k < |s| ==> less(x, s[k])
  {
    if s == [] || less(x, s[0]) then 0 else 1 + InsertAt(less, s[1..], x)
  }

  function InsertOrdered<T>(less: (T, T) -> bool, s: seq<T>, x: T): (r: seq<T>)
    ensures |r| == |s| + 1
  {
    var k := InsertAt(less, s, x);
    s[..k] + [x] + s[k..]
  }

  lemma InsertOrderedElements<T>(less: (T, T) -> bool, s: seq<T>, x: T)
    ensures multiset(InsertOrdered(less, s, x)) == multiset(s) + multiset{x}
  {
    var k := InsertAt(less, s, x);
    assert s == s[..k] + s[k..];
  }

  lemma InsertAtBound<T>(less: (T, T) -> bool, s: seq<T>, x: T, dom: set<T>)
    requires StrictWeak(less, dom) && Within(s, dom) && x in dom && Sorted(less, s)
    ensures forall j | InsertAt(less, s, x) <= j < |s| :: less(x, s[j])
  {
    var k := InsertAt(less, s, x);
    forall j | k <= j < |s| ensures less(x, s[j]) {
      assert s[j] in s && s[k] in s;
      assert j > k ==> !less(s[j], s[k]);
    }
  }

  lemma ClassSwap<T>(less: (T, T) -> bool, lo: seq<T>, x: T, hi: seq<T>, y: T)
    requires Class(less, y, [x]) == [] || Class(less, y, hi) == []
    ensures Class(less, y, lo + hi + [x]) == Class(less, y, lo + [x] + hi)
  {
    ClassConcat(less, y, lo + hi, [x]);
    ClassConcat(less, y, lo, hi);
    ClassConcat(less, y, lo + [x], hi);
    ClassConcat(less, y, lo, [x]);
  }

  lemma LessNotEquivalent<T>(less: (T, T) -> bool, x: T, y: T, z: T, dom: set<T>)
    requires StrictWeak(less, dom) && x in dom && y in dom && z in dom
    requires less(x, z) && Equivalent(less, y, x)
    ensures !Equivalent(less, y, z)
  {
  }

  lemma InsertOrderedClass<T>(less: (T, T) -> bool, s: seq<T>, x: T, y: T, dom: set<T>)
    requires StrictWeak(less, dom) && Within(s, dom) && x in dom && y in dom && Sorted(less, s)
    ensures Class(less, y, s + [x]) == Class(less, y, InsertOrdered(less, s, x))
  {
    hide Class;
    var k := InsertAt(less, s, x);
    var lo, hi := s[..k], s[k..];
    if Equivalent(less, y, x) {
      InsertAtBound(less, s, x, dom);
      AboveEmpty(less, hi, x, y, dom);
    } else {
      ClassEmpty(less, y, [x]);
    }
    assert s == lo + hi;
    ClassSwap(less, lo, x, hi, y);
  }

  lemma AboveEmpty<T>(less: (T, T) -> bool, hi: seq<T>, x: T, y: T, dom: set<T>)
    requires StrictWeak(less, dom) && Within(hi, dom) && x in dom && y in dom && Equivalent(less, y, x)
    requires forall j | 0 <= j < |hi| :: less(x, hi[j])
    ensures Class(less, y, hi) == []
  {
    hide Class;
    forall j | 0 <= j < |hi| ensures !Equivalent(less, y, hi[j]) {
      assert hi[j] in hi;
      LessNotEquivalent(less, x, y, hi[j], dom);
    }
    ClassEmpty(less, y, hi);
  }

  /** Inserting into a sorted sequence keeps it sorted, with `x` after its equals. */
  lemma InsertOrderedSorted<T>(less: (T, T) -> bool, s: seq<T>, x: T, dom: set<T>)
    requires StrictWeak(less, dom) && Within(s, dom) && x in dom && Sorted(less, s)
    ensures Sorted(less, InsertOrdered(less, s, x))
    ensures StablePermutation(less, s + [x], InsertOrdered(less, s, x), dom)
  {
    InsertKeepsSorted(less, s, x, dom);
    hide InsertOrdered;
    hide Sorted;
    forall y | y in InsertOrdered(less, s, x) ensures y in dom {
      InsertOrderedMembers(less, s, x);
    }
    forall y | y in dom ensures Class(less, y, s + [x]) == Class(less, y, InsertOrdered(less, s, x)) {
      InsertOrderedClass(less, s, x, y, dom);
    }
  }

  lemma InsertKeepsSorted<T>(less: (T, T) -> bool, s: seq<T>, x: T, dom: set<T>)
    requires StrictWeak(less, dom) && Within(s, dom) && x in dom && Sorted(less, s)
    ensures Sorted(less, InsertOrdered(less, s, x))
  {
    InsertAtBound(less, s, x, dom);
  }

  lemma InsertOrderedMembers<T>(less: (T, T) -> bool, s: seq<T>, x: T)
    ensures forall y :: y in InsertOrdered(less, s, x) <==> y in s || y == x
    ensures Distinct(s) && x !in s ==> Distinct(InsertOrdered(less, s, x))
  {
    var k := InsertAt(less, s, x);
    hide InsertAt;
    hide Distinct;
    assert s == s[..k] + s[k..];
    InsertedDistinct(s, k, x);
  }

  lemma InsertedDistinct<T>(s: seq<T>, k: nat, x: T)
    requires k <= |s|
    ensures Distinct(s) && x !in s ==> Distinct(s[..k] + [x] + s[k..])
  {
    var r := s[..k] + [x] + s[k..];
    assert forall i | 0 <= i < |r| :: r[i] == if i < k then s[i] else if i == k then x else s[i - 1];
  }

  /** Being free of repetitions depends only on the elements, not on their order. */
  lemma DistinctCount<T>(s: seq<T>)
    ensures Distinct(s) <==> forall x :: multiset(s)[x] <= 1
  {
    if Distinct(s) {
      forall x ensures multiset(s)[x] <= 1 {
        CountAtMostOne(s, x);
      }
    } else {
      var i, j :| 0 <= i < j < |s| && s[i] == s[j];
      assert s == s[..j] + [s[j]] + s[j + 1..];
      assert s[i] in s[..j];
      assert multiset(s)[s[i]] > 1;
    }
  }

  lemma {:induction false} CountAtMostOne<T>(s: seq<T>, x: T)
    requires Distinct(s)
    ensures multiset(s)[x] <= 1
    decreases |s|
  {
    if s != [] {
      var n := |s| - 1;
      assert s == s[..n] + [s[n]];
      CountAtMostOne(s[..n], x);
      assert x == s[n] ==> x !in s[..n];
    }
  }

  /** Stable sort as repeated ordered insertion: the reference for every sorted kernel list. */
  function StableSort<T>(less: (T, T) -> bool, s: seq<T>): (r: seq<T>)
    ensures |r| == |s|
  {
    if s == [] then []
    else
      var n := |s| - 1;
      InsertOrdered(less, StableSort(less, s[..n]), s[n])
  }

  lemma {:induction false} StableSortElements<T>(less: (T, T) -> bool, s: seq<T>)
    ensures multiset(StableSort(less, s)) == multiset(s)
    decreases |s|
  {
    if s != [] {
      var n := |s| - 1;
      assert s == s[..n] + [s[n]];
      StableSortElements(less, s[..n]);
      InsertOrderedElements(less, StableSort(less, s[..n]), s[n]);
    }
  }

  lemma StableSortMembers<T>(less: (T, T) -> bool, s: seq<T>)
    ensures forall y :: y in StableSort(less, s) <==> y in s
    ensures Distinct(s) <==> Distinct(StableSort(less, s))
  {
    StableSortElements(less, s);
    forall y ensures y in StableSort(less, s) <==> y in s {
      assert y in StableSort(less, s) <==> y in multiset(StableSort(less, s));
    }
    DistinctCount(s);
    DistinctCount(StableSort(less, s));
  }

  lemma StableSortStep<T>(less: (T, T) -> bool, s: seq<T>)
    requires s != []
    ensures var n := |s| - 1;
            StableSort(less, s) == InsertOrdered(less, StableSort(less, s[..n]), s[n])
  {
    hide InsertOrdered;
  }

  lemma LastPart<T>(s: seq<T>, dom: set<T>)
    requires s != [] && Within(s, dom)
    ensures var n := |s| - 1; s == s[..n] + [s[n]] && s[n] in dom && Within(s[..n], dom)
  {
    assert s[|s| - 1] in s;
  }

  /** Appending the same element to both sides keeps a stable permutation. */
  lemma StableAppend<T>(less: (T, T) -> bool, s: seq<T>, t: seq<T>, x: T, dom: set<T>)
    requires StablePermutation(less, s, t, dom) && x in dom
    ensures StablePermutation(less, s + [x], t + [x], dom) && Within(t, dom)
  {
    StableInContext(less, [], s, t, [x], dom);
    assert [] + s + [x] == s + [x] && [] + t + [x] == t + [x];
  }

  lemma {:induction false} StableSortCorrect<T>(less: (T, T) -> bool, s: seq<T>, dom: set<T>)
    requires StrictWeak(less, dom) && Within(s, dom)
    ensures Sorted(less, StableSort(less, s))
    ensures StablePermutation(less, s, StableSort(less, s), dom)
    decreases |s|
  {
    if s != [] {
      hide *;
      StableSortStep(less, s);
      LastPart(s, dom);
      var n := |s| - 1;
      var t := StableSort(less, s[..n]);
      StableSortCorrect(less, s[..n], dom);
      StableAppend(less, s[..n], t, s[n], dom);
      InsertOrderedSorted(less, t, s[n], dom);
      StableTransitive(less, s, t + [s[n]], InsertOrdered(less, t, s[n]), dom);
    }
  }
}
