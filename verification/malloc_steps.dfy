/** Single list operations and header writes, as steps of the represented heap. */
module MallocSteps {
  import opened Collections
  import opened Arithmetic
  import opened DiskFormat
  import opened Malloc
  import opened MallocInvariant
  import opened MallocWords
  import opened MallocCode
  import opened MallocLayout

  // ---------------------------------------------------------------- a change to one list

  /** Elements of one free list that no caller has. */
  ghost predicate Links(h: Heap, d: nat, c: seq<int>) {
    forall i | 0 <= i < |c| :: ElemOf(h, d, c[i]) && (InClass(h, c[i], d) ==> c[i] !in h.live)
  }

  lemma ElemsSame(m: Memory, m': Memory, c: seq<int>, a: int, n: int)
    requires OnlyElems(m, m', c) && forall i | 0 <= i < |c| :: Apart(c[i], ELEM, a, n)
    ensures Same(m, m', a, n)
  {
  }

  lemma ElemsOnlyOverhead(m: Memory, m': Memory, h: Heap, d: nat, c: seq<int>)
    requires OnlyElems(m, m', c) && Links(h, d, c)
    ensures OnlyOverhead(m, m', h)
  {
    hide Overhead;
    hide ElemOf;
    hide InClass;
    forall x | m'(x) != m(x) ensures Overhead(h, x) {
      var i :| 0 <= i < |c| && c[i] <= x < c[i] + ELEM;
      ElemIsOverhead(h, d, c[i], x);
    }
  }

  /** Memory that differs only in elements of list `d` still holds everything else. */
  lemma ListStep(m: Memory, m': Memory, h: Heap, h': Heap, d: nat, c: seq<int>)
    requires Sound(h) && FreeOK(h') && h'.arenas == h.arenas && d < CLASSES && h'.free == h.free[d := h'.free[d]]
    requires Represents(m, h) && Chain(m', ChainOf(h', d)) && OnlyElems(m, m', c) && Links(h, d, c)
    ensures Represents(m', h')
  {
    hide ElemOf;
    hide InClass;
    hide Chain;
    hide OnlyElems;
    hide HeaderOK;
    ListDescs(m, m', h, d, c);
    forall p | p in h'.arenas ensures HeaderOK(m', h', p) {
      ListHeader(m, m', h, d, c, p);
      HeaderOfArenas(m', h, h', p);
    }
    forall k | 0 <= k < CLASSES ensures Chain(m', ChainOf(h', k)) {
      if k != d {
        OtherChain(m, m', h, d, c, k);
        assert ChainOf(h', k) == ChainOf(h, k);
      }
    }
  }

  lemma HeaderOfArenas(m: Memory, h: Heap, h': Heap, p: nat)
    requires p in h.arenas && p in h'.arenas && h'.arenas[p] == h.arenas[p] && HeaderOK(m, h, p)
    ensures HeaderOK(m, h', p)
  {
  }

  lemma ListDescs(m: Memory, m': Memory, h: Heap, d: nat, c: seq<int>)
    requires ArenasOK(h) && DescsOK(m) && OnlyElems(m, m', c) && Links(h, d, c)
    ensures DescsOK(m')
  {
    hide ArenasOK;
    hide ElemOf;
    hide InClass;
    hide DescsOK;
    hide OnlyElems;
    forall k | 0 <= k < CLASSES ensures Same(m, m', Desc(k), 8) {
      forall i | 0 <= i < |c| ensures Apart(c[i], ELEM, Desc(k), 8) {
        ElemDesc(h, d, c[i], k);
      }
      ElemsSame(m, m', c, Desc(k), 8);
    }
    SameDescs(m, m');
  }

  lemma ElemDesc(h: Heap, d: nat, e: int, k: nat)
    requires ArenasOK(h) && ElemOf(h, d, e) && k < CLASSES
    ensures Apart(e, ELEM, Desc(k), 8)
  {
    ElemPlace(h, d, e);
  }

  lemma ListHeader(m: Memory, m': Memory, h: Heap, d: nat, c: seq<int>, p: nat)
    requires ArenasOK(h) && p in h.arenas && HeaderOK(m, h, p) && OnlyElems(m, m', c) && Links(h, d, c)
    ensures HeaderOK(m', h, p)
  {
    hide ArenasOK;
    hide ElemOf;
    hide InClass;
    hide OnlyElems;
    hide HeaderOK;
    forall i | 0 <= i < |c| ensures Apart(c[i], ELEM, p * PGSIZE, HEADER) {
      ElemHeader(h, d, c[i], p);
    }
    ElemsSame(m, m', c, p * PGSIZE, HEADER);
    SameHeader(m, m', h, p);
  }

  lemma OtherChain(m: Memory, m': Memory, h: Heap, d: nat, c: seq<int>, k: nat)
    requires ArenasOK(h) && FreeOK(h) && k < CLASSES && k != d && Chain(m, ChainOf(h, k)) && OnlyElems(m, m', c) && Links(h, d, c)
    ensures Chain(m', ChainOf(h, k))
  {
    HeapShape(h);
    hide ArenasOK;
    hide FreeOK;
    hide ElemOf;
    hide InClass;
    hide OnlyElems;
    hide Chain;
    var f := ChainOf(h, k);
    ChainElems(h, k);
    hide ChainOf;
    forall j | 0 <= j < |f| ensures Same(m, m', f[j], ELEM) {
      forall i | 0 <= i < |c| ensures Apart(c[i], ELEM, f[j], ELEM) {
        ElemsApart(h, d, c[i], k, f[j]);
      }
      ElemsSame(m, m', c, f[j], ELEM);
    }
    SameChain(m, m', f);
  }

  // ---------------------------------------------------------------- insertion and removal

  function Inserting(h: Heap, d: nat, k: nat, b: int): (r: Heap)
    requires d < CLASSES == |h.free| && k <= |h.free[d]|
  {
    h.(free := h.free[d := h.free[d][..k] + [b] + h.free[d][k..]])
  }

  function Removing(h: Heap, d: nat, k: nat): (r: Heap)
    requires d < CLASSES == |h.free| && k < |h.free[d]|
  {
    h.(free := h.free[d := h.free[d][..k] + h.free[d][k + 1..]])
  }

  /** A block that nobody has goes on a list. */
  lemma InsertingSound(h: Heap, d: nat, k: nat, b: int)
    requires Sound(h) && InClass(h, b, d) && b !in h.live && b !in h.free[d] && k <= |h.free[d]|
    ensures Sound(Inserting(h, d, k, b))
  {
    var r := Inserting(h, d, k, b);
    hide IsBlock;
    assert ArenasOK(r) by {
      SameCovers(h, r);
    }
    assert forall x :: x in r.free[d] ==> x == b || x in h.free[d];
    forall c | 0 <= c < CLASSES ensures Distinct(r.free[c]) && forall x | x in r.free[c] :: InClass(r, x, c) && x !in r.live {
      forall x | x in r.free[c] ensures InClass(r, x, c) && x !in r.live {
        assert x == b || (x in h.free[c] && InClass(h, x, c));
      }
      if c == d {
        DistinctInsert(h.free[d], k, b);
      }
    }
    assert LiveOK(r) by {
      forall x | x in r.live ensures PageOf(x) in r.arenas && LiveBlock(r, x) {
        assert PageOf(x) in h.arenas && LiveBlock(h, x);
      }
    }
  }

  lemma DistinctInsert(s: seq<int>, k: nat, x: int)
    requires Distinct(s) && x !in s && k <= |s|
    ensures Distinct(s[..k] + [x] + s[k..])
  {
  }

  lemma RemovingSound(h: Heap, d: nat, k: nat)
    requires Sound(h) && d < CLASSES && k < |h.free[d]|
    ensures Sound(Removing(h, d, k)) && h.free[d][k] !in Removing(h, d, k).free[d]
  {
    var r := Removing(h, d, k);
    hide IsBlock;
    assert ArenasOK(r) by {
      SameCovers(h, r);
    }
    forall c | 0 <= c < CLASSES ensures Distinct(r.free[c]) && forall x | x in r.free[c] :: InClass(r, x, c) && x !in r.live {
      forall x | x in r.free[c] ensures InClass(r, x, c) && x !in r.live {
        assert x in h.free[c] && InClass(h, x, c);
      }
    }
    assert LiveOK(r) by {
      forall x | x in r.live ensures PageOf(x) in r.arenas && LiveBlock(r, x) {
        assert PageOf(x) in h.arenas && LiveBlock(h, x);
      }
    }
  }

  lemma ChainLinks(h: Heap, d: nat)
    requires Sound(h) && d < CLASSES
    ensures Links(h, d, ChainOf(h, d))
  {
    ChainElems(h, d);
    hide ElemOf;
    hide InClass;
    forall i | 0 <= i < |ChainOf(h, d)| ensures InClass(h, ChainOf(h, d)[i], d) ==> ChainOf(h, d)[i] !in h.live {
      FreeNotLive(h, d, i);
    }
  }

  /** list_insert of a spare block before position `k` of a free list, in memory and in the heap. */
  lemma InsertStep(m: Memory, h: Heap, d: nat, k: nat, b: int)
    requires Sound(h) && Represents(m, h) && InClass(h, b, d) && b !in h.live && b !in h.free[d] && k <= |h.free[d]|
    ensures var before, r := ChainOf(h, d)[k + 1], Inserting(h, d, k, b);
            && Insert(m, before, b).Some? && Sound(r)
            && Represents(Insert(m, before, b).value, r) && OnlyOverhead(m, Insert(m, before, b).value, h)
  {
    InsertingSound(h, d, k, b);
    assert Chain(m, ChainOf(h, d));
    ChainSpaced(h, d);
    NewElemApart(h, d, b);
    BlockPlace(h, d, b);
    assert 0 < b < WORD && d < CLASSES;
    var c, r := ChainOf(h, d), Inserting(h, d, k, b);
    hide Chain;
    hide Spaced;
    hide Insert;
    hide Links;
    hide OnlyElems;
    hide OnlyOverhead;
    hide InClass;
    hide Represents;
    hide ChainOf;
    hide ArenasOK;
    hide FreeOK;
    hide LiveOK;
    InsertInto(m, c, k + 1, b);
    InsertedChain(h, d, k, b);
    NewLinks(h, d, k, b);
    var m' := Insert(m, c[k + 1], b).value;
    ListStep(m, m', h, r, d, c[..k + 1] + [b] + c[k + 1..]);
    ElemsOnlyOverhead(m, m', h, d, c[..k + 1] + [b] + c[k + 1..]);
  }

  lemma InsertInto(m: Memory, c: seq<int>, k: nat, b: int)
    requires Chain(m, c) && Spaced(c) && 0 < k < |c| && 0 < b < WORD && forall i | 0 <= i < |c| :: Apart(c[i], ELEM, b, ELEM)
    ensures Insert(m, c[k], b).Some?
    ensures var m', c' := Insert(m, c[k], b).value, c[..k] + [b] + c[k..]; Chain(m', c') && OnlyElems(m, m', c')
  {
    SpacedPair(c, k, k);
    InsertAsserts(m, c, k);
    InsertChain(m, c, k, b);
  }

  lemma InsertAsserts(m: Memory, c: seq<int>, k: nat)
    requires Chain(m, c) && Spaced(c) && 0 < k < |c|
    ensures IsInterior(m, c[k]) || IsTail(m, c[k])
    ensures k < |c| - 1 ==> IsInterior(m, c[k])
  {
    hide Get;
    assert LinkedAt(m, c, k);
    SpacedPair(c, k, k);
    SpacedPair(c, k - 1, k - 1);
    if k + 1 < |c| {
      SpacedPair(c, k + 1, k + 1);
    }
  }

  lemma NewElemApart(h: Heap, d: nat, b: int)
    requires Sound(h) && InClass(h, b, d) && b !in h.free[d]
    ensures forall i | 0 <= i < |ChainOf(h, d)| :: Apart(ChainOf(h, d)[i], ELEM, b, ELEM)
  {
    var c := ChainOf(h, d);
    ChainElems(h, d);
    BlockPlace(h, d, b);
    forall i | 0 <= i < |c| ensures Apart(c[i], ELEM, b, ELEM) {
      assert 0 < i < |c| - 1 ==> c[i] == h.free[d][i - 1];
      ElemsApart(h, d, c[i], d, b);
    }
  }

  lemma InsertedChain(h: Heap, d: nat, k: nat, b: int)
    requires d < CLASSES == |h.free| && k <= |h.free[d]|
    ensures var c := ChainOf(h, d); c[..k + 1] + [b] + c[k + 1..] == ChainOf(Inserting(h, d, k, b), d)
  {
  }

  lemma NewLinks(h: Heap, d: nat, k: nat, b: int)
    requires Sound(h) && InClass(h, b, d) && b !in h.live && k <= |h.free[d]|
    ensures var c := ChainOf(h, d); Links(h, d, c[..k + 1] + [b] + c[k + 1..])
  {
    ChainLinks(h, d);
    var c := ChainOf(h, d);
    var c' := c[..k + 1] + [b] + c[k + 1..];
    hide IsBlock;
    forall i | 0 <= i < |c'| ensures ElemOf(h, d, c'[i]) && (InClass(h, c'[i], d) ==> c'[i] !in h.live) {
      var j := if i <= k then i else i - 1;
      assert i != k + 1 ==> c'[i] == c[j];
    }
  }

  /** list_remove of position `k`. */
  lemma RemoveStep(m: Memory, h: Heap, d: nat, k: nat)
    requires Sound(h) && Represents(m, h) && d < CLASSES && k < |h.free[d]|
    ensures var b, r := h.free[d][k], Removing(h, d, k);
            && Remove(m, b).Some? && Sound(r)
            && Represents(Remove(m, b).value, r) && OnlyOverhead(m, Remove(m, b).value, h)
  {
    hide IsInterior;
    hide ListRemove;
    hide InClass;
    hide Links;
    hide OnlyElems;
    hide OnlyOverhead;
    hide Spaced;
    RemovingSound(h, d, k);
    var c, r, b := ChainOf(h, d), Removing(h, d, k), h.free[d][k];
    RemovedChain(h, d, k);
    ChainSpaced(h, d);
    assert Chain(m, c);
    hide Chain;
    hide ChainOf;
    SpacedPair(c, k + 1, k + 1);
    InsertAsserts(m, c, k + 1);
    RemoveChain(m, c, k + 1);
    ChainLinks(h, d);
    ListStep(m, ListRemove(m, b), h, r, d, c);
    ElemsOnlyOverhead(m, ListRemove(m, b), h, d, c);
  }

  lemma RemovedChain(h: Heap, d: nat, k: nat)
    requires d < CLASSES == |h.free| && k < |h.free[d]|
    ensures var c := ChainOf(h, d); c[k + 1] == h.free[d][k] && c[..k + 1] + c[k + 2..] == ChainOf(Removing(h, d, k), d)
  {
  }

  // ---------------------------------------------------------------- a header

  /** Memory that differs only in the header of arena `p`. */
  lemma HeaderStep(m: Memory, m': Memory, h: Heap, h': Heap, p: nat)
    requires Sound(h') && Represents(m, h) && h'.free == h.free && p in h'.arenas && HeaderOK(m', h', p)
    requires forall q | q in h'.arenas && q != p :: q in h.arenas && h'.arenas[q] == h.arenas[q]
    requires forall x | !(p * PGSIZE <= x < p * PGSIZE + HEADER) :: m'(x) == m(x)
    ensures Represents(m', h') && OnlyOverhead(m, m', h')
  {
    hide Chain;
    hide IsBlock;
    hide HeaderOK;
    hide ChainOf;
    HeapShape(h');
    NotCovered(h', p);
    assert p > 0;
    SameDescs(m, m');
    hide FreeOK;
    hide LiveOK;
    hide ArenasOK;
    forall x | p * PGSIZE <= x < p * PGSIZE + HEADER ensures Overhead(h', x) {
      HeaderIsOverhead(h', p, x);
    }
    hide Overhead;
    forall q | q in h'.arenas ensures HeaderOK(m', h', q) {
      if q != p {
        HeaderOfArenas(m, h, h', q);
        assert Same(m, m', q * PGSIZE, HEADER);
        SameHeader(m, m', h', q);
      }
    }
    forall d | 0 <= d < CLASSES ensures Chain(m', ChainOf(h', d)) {
      SameChainOf(h, h', d);
      HeaderChain(m, m', h', p, d);
    }
  }

  lemma SameChainOf(h: Heap, h': Heap, d: nat)
    requires d < CLASSES == |h.free| && h'.free == h.free
    ensures ChainOf(h', d) == ChainOf(h, d)
  {
  }

  lemma HeaderChain(m: Memory, m': Memory, h: Heap, p: nat, d: nat)
    requires ArenasOK(h) && FreeOK(h) && p in h.arenas && d < CLASSES && Chain(m, ChainOf(h, d))
    requires forall x | !(p * PGSIZE <= x < p * PGSIZE + HEADER) :: m'(x) == m(x)
    ensures Chain(m', ChainOf(h, d))
  {
    HeapShape(h);
    hide ArenasOK;
    hide FreeOK;
    hide ElemOf;
    hide Chain;
    var c := ChainOf(h, d);
    ChainElems(h, d);
    hide ChainOf;
    forall i | 0 <= i < |c| ensures Same(m, m', c[i], ELEM) {
      ElemHeader(h, d, c[i], p);
    }
    SameChain(m, m', c);
  }

  /** A stored header reads back. */
  lemma HeaderReads(m: Memory, a: int, desc: nat, n: nat)
    requires desc < WORD && n < WORD
    ensures var r := SetHeader(m, a, desc, n);
            && MagicIn(r, a) == ARENA_MAGIC && DescIn(r, a) == desc && CountIn(r, a) == n
            && forall x | !(a <= x < a + HEADER) :: r(x) == m(x)
  {
    var m1 := Put(m, a, ARENA_MAGIC);
    var m2 := Put(m1, a + 4, desc);
    PutGets(m, a, ARENA_MAGIC);
    PutGets(m1, a + 4, desc);
    PutGets(m2, a + 8, n);
    hide Get;
    hide Put;
  }

  lemma CountReads(m: Memory, a: int, n: nat)
    requires n < WORD
    ensures var r := SetCount(m, a, n);
            && MagicIn(r, a) == MagicIn(m, a) && DescIn(r, a) == DescIn(m, a) && CountIn(r, a) == n
            && forall x | !(a <= x < a + HEADER) :: r(x) == m(x)
  {
    PutGets(m, a + 8, n);
    hide Get;
    hide Put;
  }

  function Counting(h: Heap, p: nat, n: nat): (r: Heap)
    requires p in h.arenas && h.arenas[p].Small?
  {
    h.(arenas := h.arenas[p := h.arenas[p].(freeCount := n)])
  }

  lemma CountingSound(h: Heap, p: nat, n: nat)
    requires Sound(h) && p in h.arenas && h.arenas[p].Small?
    ensures Sound(Counting(h, p, n))
  {
    var r := Counting(h, p, n);
    hide IsBlock;
    assert ArenasOK(r) by {
      SameCovers(h, r);
    }
    assert FreeOK(r) by {
      assert forall d, b | 0 <= d < CLASSES && b in h.free[d] :: InClass(h, b, d);
    }
    forall b | b in r.live ensures PageOf(b) in r.arenas && LiveBlock(r, b) {
      assert PageOf(b) in h.arenas && LiveBlock(h, b);
    }
  }

  lemma CountedHeader(m: Memory, h: Heap, p: nat, n: nat)
    requires Represents(m, h) && p in h.arenas && h.arenas[p].Small? && n < WORD
    ensures HeaderOK(SetCount(m, p * PGSIZE, n), Counting(h, p, n), p)
  {
    hide Get;
    hide SetCount;
    CountReads(m, p * PGSIZE, n);
    assert HeaderOK(m, h, p);
  }

  /** A store to an arena's free_cnt. */
  lemma CountStep(m: Memory, h: Heap, p: nat, n: nat)
    requires Sound(h) && Represents(m, h) && p in h.arenas && h.arenas[p].Small? && n < WORD
    ensures var m', r := SetCount(m, p * PGSIZE, n), Counting(h, p, n);
            Sound(r) && Represents(m', r) && OnlyOverhead(m, m', h)
  {
    hide Sound;
    hide Get;
    hide SetCount;
    hide Overhead;
    hide Represents;
    var m', r := SetCount(m, p * PGSIZE, n), Counting(h, p, n);
    CountingSound(h, p, n);
    CountReads(m, p * PGSIZE, n);
    CountedHeader(m, h, p, n);
    HeaderStep(m, m', h, r, p);
    forall x | !Overhead(h, x) ensures m'(x) == m(x) {
      if p * PGSIZE <= x < p * PGSIZE + HEADER {
        HeaderIsOverhead(h, p, x);
      }
    }
  }

  /** Handing a block out or taking it back is no change of memory. */
  lemma LiveStep(m: Memory, h: Heap, h': Heap)
    requires Represents(m, h) && h'.arenas == h.arenas && h'.free == h.free
    ensures Represents(m, h')
  {
    hide HeaderOK;
    hide Chain;
    forall p | p in h'.arenas ensures HeaderOK(m, h', p) {
      HeaderOfArenas(m, h, h', p);
    }
    forall d | 0 <= d < CLASSES ensures Chain(m, ChainOf(h', d)) {
      SameChainOf(h, h', d);
    }
  }

  /** Blocks lie where they lie, however counts and lists change. */
  lemma SameOverhead(m: Memory, m': Memory, h: Heap, r: Heap)
    requires OnlyOverhead(m, m', h) && h.live.Keys == r.live.Keys && h.arenas.Keys == r.arenas.Keys
    requires forall p | p in h.arenas && h.arenas[p].Small? :: r.arenas[p].Small? && r.arenas[p].desc == h.arenas[p].desc
    ensures OnlyOverhead(m, m', r)
  {
    hide IsBlock;
    forall x | !Overhead(r, x) ensures !Overhead(h, x) {
      forall b, d | 0 <= d < CLASSES ensures !SpareByte(h, b, d, x) {
        assert !SpareByte(r, b, d, x);
      }
    }
  }

  lemma OverheadTwice(m: Memory, m1: Memory, m2: Memory, h: Heap)
    requires OnlyOverhead(m, m1, h) && OnlyOverhead(m1, m2, h)
    ensures OnlyOverhead(m, m2, h)
  {
  }
}
