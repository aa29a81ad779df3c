/** malloc_init leaves the empty heap in memory. */
module MallocInit {
  import opened Arithmetic
  import opened DiskFormat
  import opened Malloc
  import opened MallocInvariant
  import opened MallocRuns
  import opened MallocWords
  import opened MallocCode
  import opened MallocLayout

  function Empty(): (h: Heap) {
    Heap(map[], [[], [], [], [], [], [], []], map[])
  }

  lemma EmptyHeap()
    ensures Inv(Empty()) && SizesOK(Empty())
  {
  }

  /** A descriptor with its sizes and an empty list. */
  ghost predicate Fresh(m: Memory, d: nat)
    requires d < CLASSES
  {
    var a := Desc(d);
    && Get(m, a) == BlockSize(d) && Get(m, a + 4) == PerArena(d)
    && Get(m, a + 8) == 0 && Get(m, a + 12) == a + 16 && Get(m, a + 16) == a + 8 && Get(m, a + 20) == 0
  }

  /** Three words in a row read back, and nothing else changes. */
  lemma ThreeWords(m: Memory, a: int, u: nat, v: nat, w: nat)
    requires u < WORD && v < WORD && w < WORD
    ensures var r := Put(Put(Put(m, a, u), a + 4, v), a + 8, w);
            && Get(r, a) == u && Get(r, a + 4) == v && Get(r, a + 8) == w
            && forall x | !(a <= x < a + 12) :: r(x) == m(x)
  {
    hide Put;
    hide Get;
    var m1 := Put(m, a, u);
    var m2 := Put(m1, a + 4, v);
    PutGets(m, a, u);
    PutGets(m1, a + 4, v);
    PutGets(m2, a + 8, w);
    assert Apart(a + 4, 4, a, 4) && Apart(a + 8, 4, a, 4) && Apart(a + 8, 4, a + 4, 4);
  }

  lemma InitDescIs(m: Memory, d: nat)
    requires d < CLASSES
    ensures Fresh(InitDesc(m, d), d)
    ensures forall x | !(Desc(d) <= x < Desc(d) + 24) :: InitDesc(m, d)(x) == m(x)
  {
    hide Put;
    hide Get;
    hide PerArena;
    hide BlockSize;
    hide Desc;
    var a := Desc(d);
    DescFits(d);
    var m1 := Put(Put(Put(m, a, BlockSize(d)), a + 4, PerArena(d)), a + 8, 0);
    ThreeWords(m, a, BlockSize(d), PerArena(d), 0);
    ThreeWords(m1, a + 12, a + 16, a + 8, 0);
    var r := InitDesc(m, d);
    assert r == Put(Put(Put(m1, a + 12, a + 16), a + 12 + 4, a + 8), a + 12 + 8, 0);
    hide InitDesc;
    SameWord(m1, r, a);
    SameWord(m1, r, a + 4);
    SameWord(m1, r, a + 8);
  }

  lemma DescFits(d: nat)
    requires d < CLASSES
    ensures Desc(d) + 24 < WORD && PerArena(d) < WORD && BlockSize(d) < WORD
  {
  }

  lemma SameWord(m: Memory, m': Memory, a: int)
    requires forall x | a <= x < a + 4 :: m'(x) == m(x)
    ensures Get(m', a) == Get(m, a)
  {
    SameGet(m, m', a);
  }

  lemma SameFresh(m: Memory, m': Memory, d: nat)
    requires d < CLASSES && Fresh(m, d) && Same(m, m', Desc(d), 24)
    ensures Fresh(m', d)
  {
    hide Get;
    hide Desc;
    var a := Desc(d);
    SameGet(m, m', a);
    SameGet(m, m', a + 4);
    SameGet(m, m', a + 8);
    SameGet(m, m', a + 12);
    SameGet(m, m', a + 16);
    SameGet(m, m', a + 20);
  }

  /** The first `n` descriptors are filled in, and nothing but descriptors changes. */
  lemma {:induction false} InitDescsAre(m: Memory, n: nat)
    requires n <= CLASSES
    ensures forall d | 0 <= d < n :: Fresh(InitDescs(m, n), d)
    ensures forall x | !(DESCS <= x < DESCS + n * DESC) :: InitDescs(m, n)(x) == m(x)
  {
    hide InitDesc;
    hide Fresh;
    if n > 0 {
      InitDescsAre(m, n - 1);
      var m1, r := InitDescs(m, n - 1), InitDescs(m, n);
      InitDescIs(m1, n - 1);
      assert r == InitDesc(m1, n - 1);
      hide InitDescs;
      forall d | 0 <= d < n ensures Fresh(r, d) {
        if d < n - 1 {
          SameFresh(m1, r, d);
        }
      }
    }
  }

  lemma FreshChain(m: Memory, d: nat)
    requires d < CLASSES && Fresh(m, d)
    ensures BlockSizeIn(m, Desc(d)) == BlockSize(d) && PerArenaIn(m, Desc(d)) == PerArena(d)
    ensures Chain(m, ChainOf(Empty(), d))
  {
    hide Get;
    hide Desc;
    hide PerArena;
    hide BlockSize;
    var c, a := ChainOf(Empty(), d), Desc(d);
    assert c == [a + 8, a + 16];
    hide ChainOf;
    assert LinkedAt(m, c, 0) && LinkedAt(m, c, 1);
  }

  /** Whatever memory held before, malloc_init leaves the empty heap in it. */
  lemma InitRepresents(m: Memory)
    ensures Represents(InitDescs(m, CLASSES), Empty())
  {
    hide InitDescs;
    hide Fresh;
    hide Chain;
    hide ChainOf;
    InitDescsAre(m, CLASSES);
    var r := InitDescs(m, CLASSES);
    forall d | 0 <= d < CLASSES
      ensures BlockSizeIn(r, Desc(d)) == BlockSize(d) && PerArenaIn(r, Desc(d)) == PerArena(d) && Chain(r, ChainOf(Empty(), d))
    {
      FreshChain(r, d);
    }
  }
}
