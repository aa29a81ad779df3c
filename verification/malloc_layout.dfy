/** How the heap lies in memory: descriptors, arena headers and the links in free blocks are
    exactly what the abstract heap says, and they take up bytes no caller has. */
module MallocLayout {
  import opened Arithmetic
  import opened DiskFormat
  import opened Malloc
  import opened MallocInvariant
  import opened MallocRuns
  import opened MallocWords
  import opened MallocCode

  // ---------------------------------------------------------------- what memory holds

  ghost predicate DescsOK(m: Memory) {
    forall d | 0 <= d < CLASSES :: BlockSizeIn(m, Desc(d)) == BlockSize(d) && PerArenaIn(m, Desc(d)) == PerArena(d)
  }

  /** The header the allocator last stored for an arena. */
  ghost predicate HeaderOK(m: Memory, h: Heap, p: nat)
    requires p in h.arenas
  {
    var a := p * PGSIZE;
    && MagicIn(m, a) == ARENA_MAGIC
    && (match h.arenas[p]
        case Small(d, n) => DescIn(m, a) == Desc(d) && CountIn(m, a) == n
        case Big(n) => DescIn(m, a) == 0 && CountIn(m, a) == n)
  }

  /** A free list with its head and its tail. */
  function ChainOf(h: Heap, d: nat): (c: seq<int>)
    requires d < CLASSES == |h.free|
    ensures |c| == |h.free[d]| + 2
  {
    [Head(Desc(d))] + h.free[d] + [Tail(Desc(d))]
  }

  ghost predicate HeadersOK(m: Memory, h: Heap) {
    forall p | p in h.arenas :: HeaderOK(m, h, p)
  }

  ghost predicate ChainsOK(m: Memory, h: Heap) {
    |h.free| == CLASSES && forall d | 0 <= d < CLASSES :: Chain(m, ChainOf(h, d))
  }

  ghost predicate Represents(m: Memory, h: Heap) {
    DescsOK(m) && HeadersOK(m, h) && ChainsOK(m, h)
  }

  // ---------------------------------------------------------------- which bytes those are

  predicate InDescs(x: int) {
    DESCS <= x < DESCS + CLASSES * DESC
  }

  ghost predicate InHeader(h: Heap, x: int) {
    exists p :: p in h.arenas && p * PGSIZE <= x < p * PGSIZE + HEADER
  }

  /** A byte of a block that no caller has. */
  ghost predicate InSpare(h: Heap, x: int) {
    exists b, d :: 0 <= d < CLASSES && SpareByte(h, b, d, x)
  }

  predicate SpareByte(h: Heap, b: int, d: nat, x: int)
    requires d < CLASSES
  {
    InClass(h, b, d) && b !in h.live && b <= x < b + BlockSize(d)
  }

  ghost predicate Overhead(h: Heap, x: int) {
    InDescs(x) || InHeader(h, x) || InSpare(h, x)
  }

  /** Nothing but the allocator's own bytes differs. */
  ghost predicate OnlyOverhead(m: Memory, m': Memory, h: Heap) {
    forall x | !Overhead(h, x) :: m'(x) == m(x)
  }

  predicate InBlock(h: Heap, b: int, x: int) {
    CanFree(h, b) && b <= x < b + Capacity(h, b)
  }

  // ---------------------------------------------------------------- elements and headers lie apart

  /** An element of the free list of class `d`: its head, its tail, or a block of the class. */
  ghost predicate ElemOf(h: Heap, d: nat, e: int) {
    d < CLASSES && (e == Head(Desc(d)) || e == Tail(Desc(d)) || InClass(h, e, d))
  }

  lemma BlockPlace(h: Heap, d: nat, b: int)
    requires ArenasOK(h) && InClass(h, b, d)
    ensures var p := PageOf(b); p > 0 && p * PGSIZE + HEADER <= b && b + BlockSize(d) <= (p + 1) * PGSIZE <= WORD
  {
    InsidePage(b, d);
    assert Covers(h, PageOf(b), PageOf(b));
  }

  /** Two blocks of small arenas share no byte. */
  lemma BlocksApart(h: Heap, d: nat, b: int, c: nat, e: int)
    requires ArenasOK(h) && InClass(h, b, d) && InClass(h, e, c) && b != e
    ensures Apart(b, BlockSize(d), e, BlockSize(c))
  {
    BlockPlace(h, d, b);
    BlockPlace(h, c, e);
    hide IsBlock;
    if PageOf(b) == PageOf(e) {
      BlockOfArena(b, d);
      BlockOfArena(e, d);
      var i, j := Index(b, d), Index(e, d);
      if i < j { SamePageApart(PageOf(b), d, i, j); } else if j < i { SamePageApart(PageOf(b), d, j, i); }
    }
  }

  lemma ElemPlace(h: Heap, d: nat, e: int)
    requires ArenasOK(h) && ElemOf(h, d, e)
    ensures InClass(h, e, d) || Desc(d) + 8 <= e <= Desc(d) + 16
    ensures 0 < e && e + ELEM <= WORD && (InClass(h, e, d) <==> e >= PGSIZE)
  {
    if InClass(h, e, d) {
      BlockPlace(h, d, e);
    }
  }

  lemma ElemsApart(h: Heap, d: nat, e: int, c: nat, f: int)
    requires ArenasOK(h) && ElemOf(h, d, e) && ElemOf(h, c, f) && (d != c || e != f)
    ensures Apart(e, ELEM, f, ELEM)
  {
    ElemPlace(h, d, e);
    ElemPlace(h, c, f);
    hide IsBlock;
    if InClass(h, e, d) && InClass(h, f, c) {
      BlocksApart(h, d, e, c, f);
    }
  }

  lemma ElemHeader(h: Heap, d: nat, e: int, p: nat)
    requires ArenasOK(h) && ElemOf(h, d, e) && p in h.arenas
    ensures Apart(e, ELEM, p * PGSIZE, HEADER)
  {
    ElemPlace(h, d, e);
    assert p > 0 by { NotCovered(h, p); }
    if InClass(h, e, d) {
      BlockPlace(h, d, e);
      BehindHeader(PageOf(e), e, p);
    }
  }

  lemma BehindHeader(q: int, e: int, p: int)
    requires q * PGSIZE + HEADER <= e && e + ELEM <= (q + 1) * PGSIZE
    ensures Apart(e, ELEM, p * PGSIZE, HEADER)
  {
    if p < q {
      assert p * PGSIZE + PGSIZE <= q * PGSIZE;
    }
  }

  lemma ChainElems(h: Heap, d: nat)
    requires FreeOK(h) && d < CLASSES
    ensures forall i | 0 <= i < |ChainOf(h, d)| :: ElemOf(h, d, ChainOf(h, d)[i])
  {
    hide IsBlock;
    forall i | 0 <= i < |ChainOf(h, d)| ensures ElemOf(h, d, ChainOf(h, d)[i]) {
      assert 0 < i < |ChainOf(h, d)| - 1 ==> ChainOf(h, d)[i] == h.free[d][i - 1];
    }
  }

  lemma ChainDistinct(h: Heap, d: nat, i: nat, j: nat)
    requires ArenasOK(h) && FreeOK(h) && d < CLASSES && i < j < |ChainOf(h, d)|
    ensures ChainOf(h, d)[i] != ChainOf(h, d)[j]
  {
    var c, f := ChainOf(h, d), h.free[d];
    if i > 0 {
      assert c[i] == f[i - 1] && InClass(h, f[i - 1], d);
      BlockPlace(h, d, f[i - 1]);
    }
    if j < |c| - 1 {
      assert c[j] == f[j - 1] && InClass(h, f[j - 1], d);
      BlockPlace(h, d, f[j - 1]);
    }
  }

  lemma ChainSpaced(h: Heap, d: nat)
    requires ArenasOK(h) && FreeOK(h) && d < CLASSES
    ensures Spaced(ChainOf(h, d))
  {
    HeapShape(h);
    hide ArenasOK;
    hide FreeOK;
    hide ElemOf;
    var c := ChainOf(h, d);
    ChainElems(h, d);
    hide ChainOf;
    forall i | 0 <= i < |c| ensures 0 < c[i] < WORD {
      ElemPlace(h, d, c[i]);
    }
    forall i, j | 0 <= i < j < |c| ensures Apart(c[i], ELEM, c[j], ELEM) {
      ChainDistinct(h, d, i, j);
      ElemsApart(h, d, c[i], d, c[j]);
    }
  }

  // ---------------------------------------------------------------- the rest of memory does not matter

  /** Bytes of an element or a header are the allocator's. */
  lemma ElemIsOverhead(h: Heap, d: nat, e: int, x: int)
    requires ElemOf(h, d, e) && (InClass(h, e, d) ==> e !in h.live) && e <= x < e + ELEM
    ensures Overhead(h, x)
  {
    if InClass(h, e, d) {
      assert SpareByte(h, e, d, x);
    }
  }

  lemma HeaderIsOverhead(h: Heap, p: nat, x: int)
    requires p in h.arenas && p * PGSIZE <= x < p * PGSIZE + HEADER
    ensures Overhead(h, x)
  {
  }

  lemma DescWords(d: nat, x: int)
    requires d < CLASSES && Desc(d) <= x < Desc(d) + DESC
    ensures InDescs(x)
  {
  }

  lemma SameDescs(m: Memory, m': Memory)
    requires DescsOK(m) && forall d | 0 <= d < CLASSES :: Same(m, m', Desc(d), 8)
    ensures DescsOK(m')
  {
    hide Get;
    forall d | 0 <= d < CLASSES ensures BlockSizeIn(m', Desc(d)) == BlockSize(d) && PerArenaIn(m', Desc(d)) == PerArena(d) {
      assert Same(m, m', Desc(d), 8);
      SameGet(m, m', Desc(d));
      SameGet(m, m', Desc(d) + 4);
    }
  }

  lemma SameHeader(m: Memory, m': Memory, h: Heap, p: nat)
    requires p in h.arenas && HeaderOK(m, h, p) && Same(m, m', p * PGSIZE, HEADER)
    ensures HeaderOK(m', h, p)
  {
    hide Get;
    SameGet(m, m', p * PGSIZE);
    SameGet(m, m', p * PGSIZE + 4);
    SameGet(m, m', p * PGSIZE + 8);
  }

  lemma OverheadBytes(h: Heap, m: Memory, m': Memory)
    requires Sound(h) && forall x | Overhead(h, x) :: m'(x) == m(x)
    ensures forall d | 0 <= d < CLASSES :: Same(m, m', Desc(d), 8)
    ensures forall p | p in h.arenas :: Same(m, m', p * PGSIZE, HEADER)
    ensures forall d, i | 0 <= d < CLASSES && 0 <= i < |ChainOf(h, d)| :: Same(m, m', ChainOf(h, d)[i], ELEM)
  {
    hide Overhead;
    hide IsBlock;
    forall d, x | 0 <= d < CLASSES && Desc(d) <= x < Desc(d) + 8 ensures m'(x) == m(x) {
      DescWords(d, x);
      assert Overhead(h, x) by { InDescsIsOverhead(h, x); }
    }
    forall p, x | p in h.arenas && p * PGSIZE <= x < p * PGSIZE + HEADER ensures m'(x) == m(x) {
      HeaderIsOverhead(h, p, x);
    }
    forall d, i | 0 <= d < CLASSES && 0 <= i < |ChainOf(h, d)| ensures Same(m, m', ChainOf(h, d)[i], ELEM) {
      var e := ChainOf(h, d)[i];
      ChainElems(h, d);
      FreeNotLive(h, d, i);
      forall x | e <= x < e + ELEM ensures m'(x) == m(x) {
        ElemIsOverhead(h, d, e, x);
      }
    }
  }

  lemma InDescsIsOverhead(h: Heap, x: int)
    requires InDescs(x)
    ensures Overhead(h, x)
  {
  }

  lemma FreeNotLive(h: Heap, d: nat, i: nat)
    requires Sound(h) && d < CLASSES && i < |ChainOf(h, d)|
    ensures var e := ChainOf(h, d)[i]; InClass(h, e, d) ==> e !in h.live
  {
    var e := ChainOf(h, d)[i];
    if InClass(h, e, d) {
      BlockPlace(h, d, e);
      assert 0 < i < |ChainOf(h, d)| - 1 && e == h.free[d][i - 1];
    }
  }

  /** The heap is represented by the allocator's own bytes alone. */
  lemma SameRepresents(m: Memory, m': Memory, h: Heap)
    requires Sound(h) && Represents(m, h) && forall x | Overhead(h, x) :: m'(x) == m(x)
    ensures Represents(m', h)
  {
    OverheadBytes(h, m, m');
    hide Sound;
    hide Overhead;
    hide Same;
    hide Chain;
    hide ChainOf;
    SameDescs(m, m');
    forall p | p in h.arenas ensures HeaderOK(m', h, p) {
      SameHeader(m, m', h, p);
    }
    forall d | 0 <= d < CLASSES ensures Chain(m', ChainOf(h, d)) {
      SameChain(m, m', ChainOf(h, d));
    }
  }

  /** A block in a caller's hands holds none of them. */
  lemma LiveNotOverhead(h: Heap, b: int, x: int)
    requires Sound(h) && b in h.live && InBlock(h, b, x)
    ensures !Overhead(h, x)
  {
    InsideArena(h, b);
    hide IsBlock;
    assert !InDescs(x) by { assert Covers(h, PageOf(b), PageOf(b)); }
    assert !InHeader(h, x) by {
      forall p | p in h.arenas ensures Apart(b, Capacity(h, b), p * PGSIZE, HEADER) {
        HeaderApart(h, b, p);
      }
    }
    forall c, d | 0 <= d < CLASSES ensures !SpareByte(h, c, d, x) {
      if SpareByte(h, c, d, x) {
        LiveSpareApart(h, b, d, c);
      }
    }
  }

  lemma LiveSpareApart(h: Heap, b: int, d: nat, c: int)
    requires Sound(h) && b in h.live && InClass(h, c, d) && c !in h.live
    ensures CanFree(h, b) && Apart(b, Capacity(h, b), c, BlockSize(d))
  {
    InsideArena(h, b);
    BlockPlace(h, d, c);
    hide IsBlock;
    assert LiveBlock(h, b);
    var p, q := PageOf(b), PageOf(c);
    if p != q {
      var n := match h.arenas[p] case Small(_, _) => 1 case Big(n) => n;
      assert forall k: int :: q <= k < q + 1 <==> Covers(h, q, k);
      ArenasApart(h, p, n, q, 1);
    } else {
      BlocksApart(h, d, b, d, c);
    }
  }
}
