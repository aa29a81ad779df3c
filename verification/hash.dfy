/** The resizing hash table: chained buckets that refine a set keyed by the `less` equivalence. */
module HashTable {
  import opened Collections
  import opened Ordering
  import opened Arithmetic

  // ---------------------------------------------------------------- masks and powers of two

  /** Bitwise and. */
  function And(x: nat, y: nat): (z: nat)
    ensures z <= x && z <= y
  {
    if x == 0 || y == 0 then 0 else 2 * And(x / 2, y / 2) + x % 2 * (y % 2)
  }

  predicate IsPowerOf2(n: nat) {
    n != 0 && And(n, n - 1) == 0
  }

  lemma HalfPower(k: nat)
    requires k > 0
    ensures Pow2(k) / 2 == Pow2(k - 1) && Pow2(k) % 2 == 0
  {
  }

  /** x & (x - 1) drops the lowest one bit; the highest survives unless it is the only one. */
  lemma {:induction false} DropsLowest(x: nat, k: nat)
    requires Pow2(k) <= x < 2 * Pow2(k)
    ensures x == Pow2(k) ==> And(x, x - 1) == 0
    ensures x != Pow2(k) ==> Pow2(k) <= And(x, x - 1) < x
    decreases k
  {
    if k > 0 {
      HalfPower(k);
      if x % 2 == 1 {
        assert (x - 1) / 2 == x / 2;
        AndSelf(x / 2);
        assert And(x, x - 1) == 2 * (x / 2);
      } else {
        DropsLowest(x / 2, k - 1);
        assert (x - 1) / 2 == x / 2 - 1 && (x - 1) % 2 == 1;
        assert And(x, x - 1) == 2 * And(x / 2, x / 2 - 1);
      }
    }
  }

  lemma {:induction false} AndSelf(x: nat)
    ensures And(x, x) == x
  {
    if x > 0 {
      AndSelf(x / 2);
    }
  }

  /** Masking with a power of two minus one is the remainder. */
  lemma {:induction false} MaskIsRemainder(h: nat, k: nat)
    ensures And(h, Pow2(k) - 1) == h % Pow2(k)
    decreases k
  {
    MaskZero(h);
    hide And;
    if k > 0 {
      HalfPower(k);
      MaskIsRemainder(h / 2, k - 1);
      HalfRemainder(h, Pow2(k - 1));
      MaskStep(h, Pow2(k - 1));
    }
  }

  lemma MaskZero(h: nat)
    ensures And(h, 0) == 0
  {
  }

  lemma MaskStep(h: nat, p: nat)
    requires p > 0
    ensures And(h, 2 * p - 1) == 2 * And(h / 2, p - 1) + h % 2
  {
    assert (2 * p - 1) / 2 == p - 1 && (2 * p - 1) % 2 == 1;
  }

  lemma HalfRemainder(h: nat, p: nat)
    requires p > 0
    ensures h % (2 * p) == 2 * (h / 2 % p) + h % 2
  {
    var q := h / 2 / p;
    QuotientBound(h / 2, p);
    assert h / 2 == q * p + h / 2 % p;
    assert q * (2 * p) == 2 * (q * p) && (q + 1) * (2 * p) == q * (2 * p) + 2 * p;
    QuotientUnique(h, 2 * p, q);
    assert h == h / (2 * p) * (2 * p) + h % (2 * p);
  }

  ghost predicate Power(n: nat) {
    exists k: nat :: n == Pow2(k)
  }

  lemma {:induction false} HighBit(n: nat) returns (k: nat)
    requires n > 0
    ensures Pow2(k) <= n < 2 * Pow2(k)
  {
    if n == 1 {
      k := 0;
    } else {
      var j := HighBit(n / 2);
      k := j + 1;
    }
  }

  /** The number of buckets rehash aims for: the largest power of two that is at most half the
      elements, and at least 4. */
  method BucketCount(count: nat) returns (n: nat)
    ensures Power(n) && 4 <= n && n <= (if count / 2 < 4 then 4 else count / 2) < 2 * n
  {
    n := count / 2;
    if n < 4 {
      n := 4;
    }
    ghost var start := n;
    ghost var k := HighBit(n);
    assert Pow2(2) == 4;
    FourBelow(n, k);
    while !IsPowerOf2(n)
      invariant Pow2(k) <= n <= start < 2 * Pow2(k)
      decreases n
    {
      DropsLowest(n, k);
      n := And(n, n - 1);
    }
    DropsLowest(n, k);
  }

  lemma FourBelow(n: nat, k: nat)
    requires 4 <= n && Pow2(k) <= n < 2 * Pow2(k)
    ensures 4 <= Pow2(k)
  {
    assert Pow2(0) == 1 && Pow2(1) == 2;
    if k >= 2 {
      PowMonotone(2, k);
      assert Pow2(2) == 4;
    }
  }

  // ---------------------------------------------------------------- buckets

  /** Everything in the buckets. */
  function All<E>(bs: seq<seq<E>>): (s: set<E>) {
    set i, e | 0 <= i < |bs| && e in bs[i] :: e
  }

  /** Every element sits in its hash's bucket, once. */
  ghost predicate Placed<E>(hash: E -> nat, bs: seq<seq<E>>) {
    && (forall i, e | 0 <= i < |bs| && e in bs[i] :: hash(e) % |bs| == i)
    && forall i | 0 <= i < |bs| :: Distinct(bs[i])
  }

  /** What the caller's functions must satisfy: `less` is a strict weak order, and equivalent
      elements hash alike. */
  ghost predicate Coherent<E(!new)>(hash: E -> nat, less: (E, E) -> bool) {
    && (forall a :: !less(a, a))
    && (forall a, b, c :: Equivalent(less, a, b) && Equivalent(less, b, c) ==> Equivalent(less, a, c))
    && forall a, b :: Equivalent(less, a, b) ==> hash(a) == hash(b)
  }

  /** At most one element per equivalence class. */
  ghost predicate Keyed<E>(less: (E, E) -> bool, s: set<E>) {
    forall a, b | a in s && b in s && Equivalent(less, a, b) :: a == b
  }

  lemma AllAt<E>(bs: seq<seq<E>>, i: nat, e: E)
    requires i < |bs| && e in bs[i]
    ensures e in All(bs)
  {
  }

  /** Pushing a new element on its bucket. */
  lemma Pushed<E>(hash: E -> nat, bs: seq<seq<E>>, e: E)
    requires |bs| > 0 && Placed(hash, bs) && e !in All(bs)
    ensures var i := hash(e) % |bs|;
            var r := bs[i := [e] + bs[i]];
            Placed(hash, r) && All(r) == All(bs) + {e}
  {
    var i := hash(e) % |bs|;
    var r := bs[i := [e] + bs[i]];
    assert forall k | 0 <= k < |bs| && k != i :: r[k] == bs[k];
    assert forall x :: x in r[i] <==> x == e || x in bs[i];
    assert e in r[i];
    forall x ensures x in All(r) <==> x in All(bs) || x == e {
      if x in All(bs) {
        var k :| 0 <= k < |bs| && x in bs[k];
        assert x in r[k];
      }
    }
    assert Distinct(r[i]) by {
      assert forall k | 0 <= k < |bs[i]| :: bs[i][k] in bs[i];
      assert forall k | 0 <= k < |bs[i]| :: bs[i][k] in All(bs);
    }
  }

  /** Taking the element at position `k` out of bucket `i`. */
  lemma Pulled<E>(hash: E -> nat, bs: seq<seq<E>>, i: nat, k: nat)
    requires i < |bs| && k < |bs[i]| && Placed(hash, bs)
    ensures var r := bs[i := bs[i][..k] + bs[i][k + 1..]];
            Placed(hash, r) && All(r) == All(bs) - {bs[i][k]} && bs[i][k] in All(bs)
  {
    var e := bs[i][k];
    var r := bs[i := bs[i][..k] + bs[i][k + 1..]];
    assert e in bs[i];
    assert forall m | 0 <= m < |bs| && m != i :: r[m] == bs[m];
    WithoutOne(bs[i], k);
    forall x ensures x in All(r) <==> x in All(bs) && x != e {
      if x in All(bs) && x != e {
        var m :| 0 <= m < |bs| && x in bs[m];
        assert x in r[m];
      }
      if x in All(r) {
        var m :| 0 <= m < |r| && x in r[m];
        assert x in bs[m];
        assert hash(x) % |bs| == m && hash(e) % |bs| == i;
      }
    }
  }

  lemma WithoutOne<E>(s: seq<E>, k: nat)
    requires k < |s| && Distinct(s)
    ensures Distinct(s[..k] + s[k + 1..]) && forall x :: x in s[..k] + s[k + 1..] <==> x in s && x != s[k]
  {
    var r := s[..k] + s[k + 1..];
    forall x ensures x in r <==> x in s && x != s[k] {
      if x in s && x != s[k] {
        var m :| 0 <= m < |s| && s[m] == x;
        assert r[if m < k then m else m - 1] == x;
      }
    }
  }

  class Table<E(==,!new)> {
    const hash: E -> nat
    const less: (E, E) -> bool
    var buckets: seq<seq<E>>
    var count: nat

    ghost predicate Valid()
      reads this
    {
      && Coherent(hash, less) && Power(|buckets|) && 4 <= |buckets|
      && Placed(hash, buckets) && Keyed(less, All(buckets)) && count == |All(buckets)|
    }

    ghost function Elements(): (s: set<E>)
      reads this
    {
      All(buckets)
    }

    constructor (hash: E -> nat, less: (E, E) -> bool)
      requires Coherent(hash, less)
      ensures Valid() && Elements() == {} && this.hash == hash && this.less == less
    {
      this.hash, this.less := hash, less;
      buckets, count := [[], [], [], []], 0;
      new;
      assert Pow2(2) == 4;
      assert Elements() == {};
    }

    /** find_bucket: the hash under the mask. */
    method FindBucket(e: E) returns (i: nat)
      requires Power(|buckets|)
      ensures |buckets| > 0 && i == hash(e) % |buckets| < |buckets|
    {
      ghost var k: nat :| |buckets| == Pow2(k);
      MaskIsRemainder(hash(e), k);
      i := And(hash(e), |buckets| - 1);
    }

    /** find_elem: the first element of the bucket that neither orders before the other. */
    method FindElem(i: nat, e: E) returns (found: bool, k: nat)
      requires i < |buckets|
      ensures found ==> k < |buckets[i]| && Equivalent(less, buckets[i][k], e)
      ensures !found ==> forall x | x in buckets[i] :: !Equivalent(less, x, e)
    {
      for m := 0 to |buckets[i]|
        invariant forall n | 0 <= n < m :: !Equivalent(less, buckets[i][n], e)
      {
        if !less(buckets[i][m], e) && !less(e, buckets[i][m]) {
          return true, m;
        }
      }
      return false, 0;
    }

    /** Whether the set holds an equivalent element, and which. */
    ghost predicate Holds(s: set<E>, e: E, r: Option<E>)
      reads this
    {
      match r
      case Some(x) => x in s && Equivalent(less, x, e)
      case None => forall x | x in s :: !Equivalent(less, x, e)
    }

    method Search(e: E) returns (i: nat, found: bool, k: nat)
      requires Valid()
      ensures i < |buckets| && i == hash(e) % |buckets|
      ensures found ==> k < |buckets[i]| && Equivalent(less, buckets[i][k], e) && buckets[i][k] in Elements()
      ensures !found ==> forall x | x in Elements() :: !Equivalent(less, x, e)
    {
      i := FindBucket(e);
      found, k := FindElem(i, e);
      if found {
        AllAt(buckets, i, buckets[i][k]);
      } else {
        NoneElsewhere(hash, less, buckets, e);
      }
    }

    method Find(e: E) returns (r: Option<E>)
      requires Valid()
      ensures Holds(Elements(), e, r)
    {
      var i, found, k := Search(e);
      r := if found then Some(buckets[i][k]) else None;
    }

    /** insert_elem. */
    method Push(i: nat, e: E)
      requires Valid() && i < |buckets| && i == hash(e) % |buckets| && e !in Elements()
      requires forall x | x in Elements() :: !Equivalent(less, x, e)
      modifies this
      ensures Valid() && Elements() == old(Elements()) + {e}
    {
      Pushed(hash, buckets, e);
      Symmetric(less, Elements(), e);
      count := count + 1;
      buckets := buckets[i := [e] + buckets[i]];
    }

    /** remove_elem. */
    method Pull(i: nat, k: nat)
      requires Valid() && i < |buckets| && k < |buckets[i]|
      modifies this
      ensures Valid() && |buckets| == |old(buckets)|
      ensures Elements() == old(Elements()) - {old(buckets[i][k])} && old(buckets[i][k]) in old(Elements())
    {
      Pulled(hash, buckets, i, k);
      count := count - 1;
      buckets := buckets[i := buckets[i][..k] + buckets[i][k + 1..]];
    }

    /** hash_insert: an equivalent element stays and is returned; otherwise `e` goes in. `memory`
        says whether a resize finds room for new buckets. */
    method Insert(e: E, memory: bool) returns (r: Option<E>)
      requires Valid()
      modifies this
      ensures Valid() && Holds(old(Elements()), e, r)
      ensures Elements() == if r.Some? then old(Elements()) else old(Elements()) + {e}
      ensures memory ==> count < 4 * |buckets|
    {
      var i, found, k := Search(e);
      r := if found then Some(buckets[i][k]) else None;
      if !found {
        Push(i, e);
      }
      Rehash(memory);
    }

    /** hash_replace: the equivalent element, if any, gives way. */
    method Replace(e: E, memory: bool) returns (r: Option<E>)
      requires Valid()
      modifies this
      ensures Valid() && Holds(old(Elements()), e, r)
      ensures Elements() == (if r.Some? then old(Elements()) - {r.value} else old(Elements())) + {e}
      ensures memory ==> count < 4 * |buckets|
    {
      var i, found, k := Search(e);
      r := if found then Some(buckets[i][k]) else None;
      if found {
        OnlyOne(less, hash, Elements(), buckets[i][k], e);
        Pull(i, k);
      }
      Push(i, e);
      Rehash(memory);
    }

    /** hash_delete. */
    method Delete(e: E, memory: bool) returns (r: Option<E>)
      requires Valid()
      modifies this
      ensures Valid() && Holds(old(Elements()), e, r)
      ensures Elements() == if r.Some? then old(Elements()) - {r.value} else old(Elements())
      ensures r.Some? && memory ==> count < 4 * |buckets|
    {
      var i, found, k := Search(e);
      r := if found then Some(buckets[i][k]) else None;
      if found {
        Pull(i, k);
        Rehash(memory);
      }
    }

    /** rehash: the same elements in the number of buckets that suits them, unless there is no
        memory for it. */
    method Rehash(memory: bool)
      requires Valid()
      modifies this
      ensures Valid() && Elements() == old(Elements()) && count == old(count)
      ensures memory ==> count < 4 * |buckets|
    {
      var n := BucketCount(count);
      if n == |buckets| || !memory {
        return;
      }
      var moved := MoveAll(n);
      buckets := moved;
    }

    /** Each element of each old bucket goes to the front of its new bucket. */
    method MoveAll(n: nat) returns (moved: seq<seq<E>>)
      requires Placed(hash, buckets) && Power(n) && n > 0
      ensures |moved| == n && Placed(hash, moved) && All(moved) == All(buckets)
    {
      hide Placed;
      hide All;
      ghost var p: nat :| n == Pow2(p);
      moved := seq(n, _ => []);
      var rest := buckets;
      MovingStarts(hash, buckets, n);
      for i := 0 to |buckets|
        invariant Moving(hash, buckets, rest, moved, n) && forall k | 0 <= k < i :: rest[k] == []
      {
        while rest[i] != []
          invariant Moving(hash, buckets, rest, moved, n) && forall k | 0 <= k < i :: rest[k] == []
          decreases |rest[i]|
        {
          MoveFront(hash, buckets, rest, moved, n, i);
          var e := rest[i][0];
          rest := rest[i := rest[i][1..]];
          MaskIsRemainder(hash(e), p);
          var b := And(hash(e), n - 1);
          moved := moved[b := [e] + moved[b]];
        }
      }
      MovingEnds(hash, buckets, rest, moved, n);
    }

    /** hash_next: from position `i` of bucket `b` (-1 is in front of the first) to the next
        element, skipping empty buckets. */
    method Next(b: nat, i: int) returns (found: bool, b': nat, i': int)
      requires b < |buckets| && -1 <= i < |buckets[b]|
      ensures found ==> b' < |buckets| && 0 <= i' < |buckets[b']| && Rank(buckets, b', i') == Rank(buckets, b, i) + 1
      ensures found ==> 0 <= Rank(buckets, b', i') < |Flatten(buckets)|
                        && buckets[b'][i'] == Flatten(buckets)[Rank(buckets, b', i')]
      ensures !found ==> Rank(buckets, b, i) + 1 == |Flatten(buckets)|
    {
      b', i' := b, i + 1;
      while i' == |buckets[b']|
        invariant b' < |buckets| && 0 <= i' <= |buckets[b']| && Rank(buckets, b', i') == Rank(buckets, b, i) + 1
        decreases |buckets| - b'
      {
        assert buckets[..b' + 1][..b'] == buckets[..b'];
        if b' + 1 >= |buckets| {
          assert buckets[..b' + 1] == buckets;
          return false, b', i';
        }
        b', i' := b' + 1, 0;
      }
      RankAt(buckets, b', i');
      found := true;
    }
  }

  /** The elements in the order an iteration meets them. */
  function Flatten<E>(bs: seq<seq<E>>): (s: seq<E>) {
    if bs == [] then [] else Flatten(bs[..|bs| - 1]) + bs[|bs| - 1]
  }

  /** How many elements come before position `i` of bucket `b`. */
  function Rank<E>(bs: seq<seq<E>>, b: nat, i: int): (r: int)
    requires b < |bs|
  {
    |Flatten(bs[..b])| + i
  }

  lemma {:induction false} RankAt<E>(bs: seq<seq<E>>, b: nat, i: nat)
    requires b < |bs| && i < |bs[b]|
    ensures Rank(bs, b, i) < |Flatten(bs)| && Flatten(bs)[Rank(bs, b, i)] == bs[b][i]
    decreases |bs|
  {
    var n := |bs| - 1;
    if b < n {
      RankAt(bs[..n], b, i);
      assert bs[..n][..b] == bs[..b];
    }
  }

  /** An iteration meets every element exactly once. */
  lemma {:induction false} FlattenOnce<E>(hash: E -> nat, bs: seq<seq<E>>)
    requires Placed(hash, bs)
    ensures Distinct(Flatten(bs)) && forall e :: e in Flatten(bs) <==> e in All(bs)
  {
    FlattenPart(hash, bs, |bs|);
    assert bs[..|bs|] == bs;
    assert forall e :: Within(bs, |bs|, e) <==> e in All(bs);
  }

  predicate Within<E(==)>(bs: seq<seq<E>>, n: nat, e: E)
    requires n <= |bs|
  {
    exists i :: 0 <= i < n && e in bs[i]
  }

  lemma {:induction false} FlattenPart<E>(hash: E -> nat, bs: seq<seq<E>>, n: nat)
    requires Placed(hash, bs) && n <= |bs|
    ensures Distinct(Flatten(bs[..n])) && forall e :: e in Flatten(bs[..n]) <==> Within(bs, n, e)
  {
    if n > 0 {
      FlattenPart(hash, bs, n - 1);
      assert bs[..n][..n - 1] == bs[..n - 1];
      var a, b := Flatten(bs[..n - 1]), bs[n - 1];
      assert Flatten(bs[..n]) == a + b;
      forall e | e in a ensures e !in b {
        assert Within(bs, n - 1, e);
        var i :| 0 <= i < n - 1 && e in bs[i];
        assert hash(e) % |bs| == i;
      }
      assert forall i | 0 <= i < |a| :: a[i] in a;
      assert forall i | 0 <= i < |b| :: b[i] in b;
      assert Distinct(b);
    }
  }

  lemma NoneElsewhere<E(!new)>(hash: E -> nat, less: (E, E) -> bool, bs: seq<seq<E>>, e: E)
    requires Coherent(hash, less) && Placed(hash, bs) && |bs| > 0
    requires forall x | x in bs[hash(e) % |bs|] :: !Equivalent(less, x, e)
    ensures forall x | x in All(bs) :: !Equivalent(less, x, e)
  {
    forall x | x in All(bs) ensures !Equivalent(less, x, e) {
      var m :| 0 <= m < |bs| && x in bs[m];
      assert Equivalent(less, x, e) ==> hash(x) == hash(e);
    }
  }

  /** Between the old buckets `bs` and the new ones: every element is in `rest` or in `moved`. */
  ghost predicate Moving<E>(hash: E -> nat, bs: seq<seq<E>>, rest: seq<seq<E>>, moved: seq<seq<E>>, n: nat) {
    && |rest| == |bs| && |moved| == n > 0 && Placed(hash, moved) && Placed(hash, rest)
    && All(moved) + All(rest) == All(bs) && All(moved) !! All(rest)
  }

  lemma MovingStarts<E>(hash: E -> nat, bs: seq<seq<E>>, n: nat)
    requires Placed(hash, bs) && n > 0
    ensures Moving(hash, bs, bs, seq(n, _ => []), n)
  {
    var empty: seq<seq<E>> := seq(n, _ => []);
    assert All(empty) == {};
  }

  lemma MoveFront<E>(hash: E -> nat, bs: seq<seq<E>>, rest: seq<seq<E>>, moved: seq<seq<E>>, n: nat, i: nat)
    requires Moving(hash, bs, rest, moved, n) && i < |rest| && rest[i] != []
    ensures var e := rest[i][0];
            var b := hash(e) % n;
            Moving(hash, bs, rest[i := rest[i][1..]], moved[b := [e] + moved[b]], n)
  {
    assert rest[i][..0] + rest[i][1..] == rest[i][1..];
    Pulled(hash, rest, i, 0);
    Pushed(hash, moved, rest[i][0]);
  }

  lemma MovingEnds<E>(hash: E -> nat, bs: seq<seq<E>>, rest: seq<seq<E>>, moved: seq<seq<E>>, n: nat)
    requires Moving(hash, bs, rest, moved, n) && forall k | 0 <= k < |rest| :: rest[k] == []
    ensures Placed(hash, moved) && All(moved) == All(bs)
  {
    assert All(rest) == {};
  }

  lemma Symmetric<E(!new)>(less: (E, E) -> bool, s: set<E>, e: E)
    requires Keyed(less, s) && forall x | x in s :: !Equivalent(less, x, e)
    ensures Keyed(less, s + {e})
  {
    assert forall x | x in s :: !Equivalent(less, e, x);
  }

  /** Without the one equivalent element, none is left. */
  lemma OnlyOne<E(!new)>(less: (E, E) -> bool, hash: E -> nat, s: set<E>, x: E, e: E)
    requires Coherent(hash, less) && Keyed(less, s) && x in s && Equivalent(less, x, e)
    ensures forall y | y in s - {x} :: !Equivalent(less, y, e)
  {
    forall y | y in s - {x} ensures !Equivalent(less, y, e) {
      assert Equivalent(less, e, x);
      assert Equivalent(less, y, e) ==> Equivalent(less, y, x);
    }
  }

  /** hash_init, which fails when there is no room for its four buckets. */
  method Init<E(==,!new)>(hash: E -> nat, less: (E, E) -> bool, memory: bool) returns (h: Option<Table<E>>)
    requires Coherent(hash, less)
    ensures h.Some? <==> memory
    ensures h.Some? ==> fresh(h.value) && h.value.Valid() && h.value.Elements() == {}
    ensures h.Some? ==> h.value.hash == hash && h.value.less == less
  {
    if !memory {
      return None;
    }
    var table := new Table<E>(hash, less);
    return Some(table);
  }
}
