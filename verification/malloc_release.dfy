/** free on memory does what it does to the heap that memory represents. */
module MallocRelease {
  import opened Collections
  import opened DiskFormat
  import opened Malloc
  import opened MallocInvariant
  import opened MallocWords
  import opened MallocCode
  import opened MallocLayout
  import opened MallocSteps
  import opened MallocAllocation

  // ---------------------------------------------------------------- taking an arena's blocks off their list

  /** A free list after the first `n` blocks of page `p` were taken off. */
  function Shrunk(bs: seq<int>, p: nat, d: nat, n: nat): (r: seq<int>)
    requires d < CLASSES
  {
    if n == 0 then bs else Without(Shrunk(bs, p, d, n - 1), Block(p, d, n - 1))
  }

  predicate Among(b: int, p: nat, d: nat, n: nat)
    requires d < CLASSES
  {
    exists i: nat :: i < n && Block(p, d, i) == b
  }

  lemma {:induction false} ShrunkCons(b: int, bs: seq<int>, p: nat, d: nat, n: nat)
    requires d < CLASSES
    ensures Shrunk([b] + bs, p, d, n) == (if Among(b, p, d, n) then [] else [b]) + Shrunk(bs, p, d, n)
  {
    hide Block;
    if n > 0 {
      ShrunkCons(b, bs, p, d, n - 1);
      var x, rest := Block(p, d, n - 1), Shrunk(bs, p, d, n - 1);
      assert Among(b, p, d, n) <==> Among(b, p, d, n - 1) || x == b;
      if !Among(b, p, d, n - 1) {
        assert ([b] + rest)[1..] == rest;
      } else {
        assert [] + rest == rest;
      }
    }
  }

  /** A block not among those taken off is still there. */
  lemma {:induction false} ShrunkHas(bs: seq<int>, p: nat, d: nat, n: nat, b: int)
    requires d < CLASSES && b in bs && !Among(b, p, d, n)
    ensures b in Shrunk(bs, p, d, n)
  {
    assert bs == [bs[0]] + bs[1..];
    ShrunkCons(bs[0], bs[1..], p, d, n);
    hide Among;
    if b != bs[0] {
      ShrunkHas(bs[1..], p, d, n, b);
    }
  }

  lemma {:induction false} ShrunkEmpty(p: nat, d: nat, n: nat)
    requires d < CLASSES
    ensures Shrunk([], p, d, n) == []
  {
    if n > 0 {
      ShrunkEmpty(p, d, n - 1);
    }
  }

  /** All of them off leaves the blocks outside the page. */
  lemma {:induction false} ShrunkAll(bs: seq<int>, p: nat, d: nat)
    requires d < CLASSES && forall b | b in bs :: b >= 0 && IsBlock(b, d)
    ensures Shrunk(bs, p, d, PerArena(d)) == Outside(bs, p)
  {
    hide Block;
    hide IsBlock;
    hide PerArena;
    if bs == [] {
      ShrunkEmpty(p, d, PerArena(d));
    } else {
      assert bs == [bs[0]] + bs[1..] && bs[0] in bs;
      ShrunkCons(bs[0], bs[1..], p, d, PerArena(d));
      assert forall b | b in bs[1..] :: b in bs;
      ShrunkAll(bs[1..], p, d);
      AmongIsPage(bs[0], p, d);
    }
  }

  lemma AmongIsPage(b: int, p: nat, d: nat)
    requires d < CLASSES && IsBlock(b, d)
    ensures Among(b, p, d, PerArena(d)) <==> PageOf(b) == p
  {
    hide Block;
    hide PerArena;
    BlockOfArena(b, d);
    hide IsBlock;
    if Among(b, p, d, PerArena(d)) {
      var i: nat :| i < PerArena(d) && Block(p, d, i) == b;
      ArenaOfBlock(p, d, i);
    }
  }

  function Shrinking(h: Heap, d: nat, p: nat, n: nat): (r: Heap)
    requires d < CLASSES == |h.free|
  {
    h.(free := h.free[d := Shrunk(h.free[d], p, d, n)])
  }

  /** An arena all of whose blocks are on its list. */
  ghost predicate AllFree(h: Heap, d: nat, p: nat) {
    && d < CLASSES == |h.free| && p in h.arenas && h.arenas[p].Small? && h.arenas[p].desc == d
    && forall i: nat | i < PerArena(d) :: Block(p, d, i) in h.free[d]
  }

  ghost predicate Shrinks(m: Memory, h: Heap, d: nat, p: nat, n: nat)
    requires d < CLASSES == |h.free|
  {
    var m', r := RemoveBlocks(m, p * PGSIZE, n), Shrinking(h, d, p, n);
    m'.Some? && Sound(r) && Represents(m'.value, r) && OnlyOverhead(m, m'.value, h)
  }

  lemma {:induction false} RemoveRefines(m: Memory, h: Heap, d: nat, p: nat, n: nat)
    requires Sound(h) && Represents(m, h) && AllFree(h, d, p) && n <= PerArena(d)
    ensures Shrinks(m, h, d, p, n)
  {
    hide Sound;
    hide Represents;
    hide Shrinks;
    hide PerArena;
    if n == 0 {
      RemoveNone(m, h, d, p);
    } else {
      RemoveRefines(m, h, d, p, n - 1);
      RemoveOne(m, h, d, p, n);
    }
  }

  lemma RemoveNone(m: Memory, h: Heap, d: nat, p: nat)
    requires Sound(h) && Represents(m, h) && d < CLASSES == |h.free|
    ensures Shrinks(m, h, d, p, 0)
  {
    hide Sound;
    hide Represents;
    hide Overhead;
    assert h.free[d := h.free[d]] == h.free;
  }

  lemma RemoveOne(m: Memory, h: Heap, d: nat, p: nat, n: nat)
    requires AllFree(h, d, p) && 0 < n <= PerArena(d) && Shrinks(m, h, d, p, n - 1)
    ensures Shrinks(m, h, d, p, n)
  {
    hide Represents;
    hide OnlyOverhead;
    hide Sound;
    hide Block;
    hide InClass;
    hide Remove;
    hide BlockAsserts;
    hide BlockAt;
    hide PerArena;
    hide Among;
    var m1, r := RemoveBlocks(m, p * PGSIZE, n - 1).value, Shrinking(h, d, p, n - 1);
    var b := Block(p, d, n - 1);
    BlockReads(m1, r, d, p, n - 1);
    NotYet(p, d, n - 1);
    ShrunkHas(h.free[d], p, d, n - 1, b);
    hide Shrunk;
    var k :| 0 <= k < |r.free[d]| && r.free[d][k] == b;
    RemoveStep(m1, r, d, k);
    ShrinkingOne(h, d, p, n, k);
    hide Removing;
    var m2 := Remove(m1, b).value;
    SameOverhead(m1, m2, r, h);
    OverheadTwice(m, m1, m2, h);
    assert RemoveBlocks(m, p * PGSIZE, n) == Some(m2);
  }

  lemma ShrinkingOne(h: Heap, d: nat, p: nat, n: nat, k: nat)
    requires d < CLASSES == |h.free| && n > 0 && Sound(Shrinking(h, d, p, n - 1))
    requires var bs := Shrunk(h.free[d], p, d, n - 1); k < |bs| && bs[k] == Block(p, d, n - 1)
    ensures Removing(Shrinking(h, d, p, n - 1), d, k) == Shrinking(h, d, p, n)
  {
    hide Block;
    var bs := Shrinking(h, d, p, n - 1).free[d];
    assert Distinct(bs);
    WithoutOne(bs, k);
    assert Removing(Shrinking(h, d, p, n - 1), d, k).free == Shrinking(h, d, p, n).free;
  }

  lemma NotYet(p: nat, d: nat, n: nat)
    requires d < CLASSES && n < PerArena(d)
    ensures !Among(Block(p, d, n), p, d, n)
  {
    hide Block;
    hide IsBlock;
    hide PerArena;
    ArenaOfBlock(p, d, n);
    forall i: nat | i < n ensures Block(p, d, i) != Block(p, d, n) {
      ArenaOfBlock(p, d, i);
    }
  }

  // ---------------------------------------------------------------- giving pages back

  /** An arena without blocks on a list or handed out goes back, its pages filled. */
  lemma DropArena(m: Memory, h: Heap, p: nat, n: nat)
    requires Sound(h) && Represents(m, h) && p in h.arenas && forall k: int :: p <= k < p + n <==> Covers(h, p, k)
    requires Sound(h.(arenas := h.arenas - {p}))
    ensures Represents(Filled(m, p * PGSIZE, n * PGSIZE, JUNK), h.(arenas := h.arenas - {p}))
  {
    hide Represents;
    hide Sound;
    hide Overhead;
    var m', r := Filled(m, p * PGSIZE, n * PGSIZE, JUNK), h.(arenas := h.arenas - {p});
    DropHeader(m, h, p);
    forall x | Overhead(r, x) ensures m'(x) == m(x) {
      if p * PGSIZE <= x < p * PGSIZE + n * PGSIZE {
        DropClear(h, p, x);
      }
    }
    SameRepresents(m, m', r);
  }

  lemma DropClear(h: Heap, p: nat, x: int)
    requires Sound(h) && Sound(h.(arenas := h.arenas - {p})) && Covers(h, p, PageOf(x))
    ensures !Overhead(h.(arenas := h.arenas - {p}), x)
  {
    hide Overhead;
    hide FreeOK;
    hide LiveOK;
    var r := h.(arenas := h.arenas - {p});
    assert forall q | Covers(r, q, PageOf(x)) :: q != p && Covers(h, q, PageOf(x));
    if Overhead(r, x) {
      OverheadPage(r, x);
    }
  }

  lemma DropHeader(m: Memory, h: Heap, p: nat)
    requires Represents(m, h)
    ensures Represents(m, h.(arenas := h.arenas - {p}))
  {
    hide HeaderOK;
    hide Chain;
    var r := h.(arenas := h.arenas - {p});
    forall q | q in r.arenas ensures HeaderOK(m, r, q) {
      HeaderOfArenas(m, h, r, q);
    }
    forall d | 0 <= d < CLASSES ensures Chain(m, ChainOf(r, d)) {
      SameChainOf(h, r, d);
    }
  }

  /** The allocator's bytes are in the descriptors or in pages of its arenas. */
  lemma OverheadPage(h: Heap, x: int)
    requires Sound(h) && Overhead(h, x)
    ensures InDescs(x) || exists q :: Covers(h, q, PageOf(x))
    ensures InDescs(x) ==> PageOf(x) == 0
  {
    hide IsBlock;
    if InHeader(h, x) {
      var q :| q in h.arenas && q * PGSIZE <= x < q * PGSIZE + HEADER;
      NotCovered(h, q);
      assert PageOf(x) == q;
    } else if InSpare(h, x) {
      var b, d :| 0 <= d < CLASSES && SpareByte(h, b, d, x);
      BlockPlace(h, d, b);
      assert PageOf(x) == PageOf(b) && Covers(h, PageOf(b), PageOf(b));
    }
  }

  // ---------------------------------------------------------------- free

  /** The heap free works on: the block is nobody's any more. */
  function Retired(h: Heap, b: int): (r: Heap) {
    h.(live := h.live - {b})
  }

  lemma RetiredSound(h: Heap, b: int)
    requires Sound(h)
    ensures Sound(Retired(h, b))
  {
    var r := Retired(h, b);
    hide IsBlock;
    assert forall p, q :: Covers(r, p, q) <==> Covers(h, p, q);
    forall d, x | 0 <= d < CLASSES && x in r.free[d] ensures InClass(r, x, d) && x !in r.live {
      assert InClass(h, x, d);
    }
    forall x | x in r.live ensures PageOf(x) in r.arenas && LiveBlock(r, x) {
      assert LiveBlock(h, x);
    }
  }

  /** Only the allocator's bytes, and pages that go back, differ. */
  ghost predicate FreeFrame(m: Memory, m': Memory, h: Heap, b: int)
    requires CanFree(h, b)
  {
    forall x | !Overhead(Retired(h, b), x) && !(Returned(h, b) > 0 && Covers(h, PageOf(b), PageOf(x))) :: m'(x) == m(x)
  }

  ghost predicate Frees(r: Outcome, m: Memory, h: Heap, b: int)
    requires CanFree(h, b)
  {
    r.Done? && r.block == None && Represents(r.mem, Free(h, b)) && FreeFrame(m, r.mem, h, b)
  }

  lemma PageRange(p: int, n: nat, x: int)
    ensures p * PGSIZE <= x < p * PGSIZE + n * PGSIZE <==> p <= PageOf(x) < p + n
  {
  }

  /** block_to_arena finds the header of a big block. */
  lemma BigReads(m: Memory, h: Heap, b: int)
    requires Sound(h) && Represents(m, h) && b in h.live && CanFree(h, b) && h.arenas[PageOf(b)].Big?
    ensures b != 0 && ArenaAsserts(m, b) && PageStart(b) == PageOf(b) * PGSIZE
    ensures DescIn(m, PageStart(b)) == 0 && CountIn(m, PageStart(b)) == h.arenas[PageOf(b)].pages
  {
    hide Get;
    StartIs(b);
    assert LiveBlock(h, b) && HeaderOK(m, h, PageOf(b));
    NotCovered(h, PageOf(b));
    assert PageOf(b) > 0;
  }

  /** A big block: its pages go back. */
  lemma BigFrees(m: Memory, h: Heap, b: int)
    requires Inv(h) && Represents(m, h) && b in h.live && CanFree(h, b) && h.arenas[PageOf(b)].Big?
    ensures Frees(ExecFree(m, b), m, h, b)
  {
    hide Represents;
    hide CountsOK;
    hide Sound;
    hide ArenaAsserts;
    hide Overhead;
    var p, n, r := PageOf(b), h.arenas[PageOf(b)].pages, Retired(h, b);
    BigReads(m, h, b);
    FreeBigKeeps(h, b);
    RetiredSound(h, b);
    LiveStep(m, h, r);
    assert forall k: int :: p <= k < p + n <==> Covers(r, p, k);
    DropArena(m, r, p, n);
    assert r.(arenas := r.arenas - {p}) == Free(h, b);
    var m' := ExecFree(m, b).mem;
    assert m' == Filled(m, p * PGSIZE, n * PGSIZE, JUNK);
    forall x | !(Returned(h, b) > 0 && Covers(h, p, PageOf(x))) ensures m'(x) == m(x) {
      PageRange(p, n, x);
    }
  }

  /** A block of a small arena goes back on its list. */
  lemma PutRefines(m: Memory, h: Heap, b: int)
    requires Inv(h) && Represents(m, h) && b in h.live && CanFree(h, b) && h.arenas[PageOf(b)].Small?
    ensures var p := PageOf(b);
            var m' := PutBack(m, p * PGSIZE, Desc(h.arenas[p].desc), b);
            m'.Some? && Represents(m'.value, PutBlock(h, b)) && OnlyOverhead(m, m'.value, Retired(h, b))
  {
    hide Represents;
    hide CountsOK;
    hide Sound;
    hide Insert;
    hide OnlyOverhead;
    hide SetCount;
    hide Filled;
    hide Next;
    hide CountIn;
    hide BlockSizeIn;
    hide Inserting;
    hide PutBlock;
    var p, r := PageOf(b), Retired(h, b);
    var d := h.arenas[p].desc;
    RetiredSound(h, b);
    FillRefines(m, h, b);
    var m1 := Filled(m, b, BlockSize(d), JUNK);
    InsertBack(m1, h, b);
    var m2 := Insert(m1, Next(m1, Head(Desc(d))), b).value;
    CountBack(m2, h, b);
    var m3 := SetCount(m2, p * PGSIZE, (CountIn(m2, p * PGSIZE) + 1) % WORD);
    OverheadTwice(m, m1, m2, r);
    OverheadTwice(m, m2, m3, r);
  }

  lemma InsertBack(m: Memory, h: Heap, b: int)
    requires Sound(h) && b in h.live && CanFree(h, b) && h.arenas[PageOf(b)].Small? && Represents(m, Retired(h, b))
    ensures var d, r := h.arenas[PageOf(b)].desc, Retired(h, b);
            var m', r' := Insert(m, Next(m, Head(Desc(d))), b), Inserting(r, d, 0, b);
            m'.Some? && Sound(r') && Represents(m'.value, r') && OnlyOverhead(m, m'.value, r)
  {
    hide Represents;
    hide Sound;
    hide Insert;
    hide OnlyOverhead;
    hide ChainOf;
    hide InClass;
    hide Next;
    var d, r := h.arenas[PageOf(b)].desc, Retired(h, b);
    RetiredSound(h, b);
    LiveInClass(h, b);
    FrontIs(m, r, d);
    InsertStep(m, r, d, 0, b);
  }

  lemma CountBack(m: Memory, h: Heap, b: int)
    requires Inv(h) && CanFree(h, b) && h.arenas[PageOf(b)].Small?
    requires var r := Inserting(Retired(h, b), h.arenas[PageOf(b)].desc, 0, b); Sound(r) && Represents(m, r)
    ensures var a := PageOf(b) * PGSIZE;
            var m' := SetCount(m, a, (CountIn(m, a) + 1) % WORD);
            Represents(m', PutBlock(h, b)) && OnlyOverhead(m, m', Retired(h, b))
  {
    hide Represents;
    hide CountsOK;
    hide Sound;
    hide OnlyOverhead;
    hide SetCount;
    hide CountIn;
    hide PerArena;
    var p := PageOf(b);
    var r, n := Inserting(Retired(h, b), h.arenas[p].desc, 0, b), h.arenas[p].freeCount + 1;
    CountFits(h, p);
    SmallCount(m, r, p);
    CountStep(m, r, p, n);
    PutIs(h, b);
    SameOverhead(m, SetCount(m, p * PGSIZE, n), r, Retired(h, b));
  }

  /** Filling a block its owner gave up: only that block's bytes change. */
  lemma FillRefines(m: Memory, h: Heap, b: int)
    requires Sound(h) && Represents(m, h) && b in h.live && CanFree(h, b) && h.arenas[PageOf(b)].Small?
    ensures var d := h.arenas[PageOf(b)].desc;
            var m' := Filled(m, b, BlockSize(d), JUNK);
            && BlockSizeIn(m, Desc(d)) == BlockSize(d)
            && Represents(m', Retired(h, b)) && OnlyOverhead(m, m', Retired(h, b))
  {
    var d := h.arenas[PageOf(b)].desc;
    var m', r := Filled(m, b, BlockSize(d), JUNK), Retired(h, b);
    assert BlockSizeIn(m, Desc(d)) == BlockSize(d);
    LiveInClass(h, b);
    hide Represents;
    hide Sound;
    hide InClass;
    forall x | b <= x < b + BlockSize(d) ensures !Overhead(h, x) && Overhead(r, x) {
      LiveNotOverhead(h, b, x);
      assert Overhead(r, x) by { assert SpareByte(r, b, d, x); }
    }
    hide Overhead;
    SameRepresents(m, m', h);
    LiveStep(m', h, r);
  }

  lemma LiveInClass(h: Heap, b: int)
    requires Sound(h) && b in h.live && CanFree(h, b) && h.arenas[PageOf(b)].Small?
    ensures var d := h.arenas[PageOf(b)].desc; InClass(h, b, d) && InClass(Retired(h, b), b, d) && b !in h.free[d]
  {
    assert LiveBlock(h, b);
  }

  lemma CountFits(h: Heap, p: nat)
    requires Inv(h) && p in h.arenas && h.arenas[p].Small?
    ensures h.arenas[p].desc < CLASSES && 0 <= h.arenas[p].freeCount < PerArena(h.arenas[p].desc) < WORD - 1
  {
    var d := h.arenas[p].desc;
    assert ArenaCount(h, p, d, false);
    SmallPerArena(d);
  }

  lemma SmallPerArena(d: nat)
    requires d < CLASSES
    ensures PerArena(d) < WORD - 1
  {
  }

  lemma SmallCount(m: Memory, h: Heap, p: nat)
    requires Represents(m, h) && p in h.arenas && h.arenas[p].Small?
    ensures CountIn(m, p * PGSIZE) == h.arenas[p].freeCount && DescIn(m, p * PGSIZE) == Desc(h.arenas[p].desc)
    ensures h.arenas[p].desc < CLASSES ==> PerArenaIn(m, Desc(h.arenas[p].desc)) == PerArena(h.arenas[p].desc)
  {
    assert HeaderOK(m, h, p);
  }

  lemma PutIs(h: Heap, b: int)
    requires CanFree(h, b) && h.arenas[PageOf(b)].Small? && h.arenas[PageOf(b)].freeCount >= 0
    ensures var p := PageOf(b);
            Counting(Inserting(Retired(h, b), h.arenas[p].desc, 0, b), p, h.arenas[p].freeCount + 1) == PutBlock(h, b)
  {
    var d := h.arenas[PageOf(b)].desc;
    assert h.free[d][..0] + [b] + h.free[d][0..] == [b] + h.free[d];
  }

  lemma SmallFrees(m: Memory, h: Heap, b: int)
    requires Inv(h) && Represents(m, h) && b in h.live && CanFree(h, b) && h.arenas[PageOf(b)].Small?
    ensures Frees(ExecFree(m, b), m, h, b)
  {
    hide Represents;
    hide CountsOK;
    hide Sound;
    hide OnlyOverhead;
    hide ArenaAsserts;
    hide InClass;
    hide PerArena;
    hide PutBack;
    hide PutBlock;
    hide RemoveArena;
    hide RemoveBlocks;
    hide FreeFrame;
    var p := PageOf(b);
    var d := h.arenas[p].desc;
    LiveInClass(h, b);
    ArenaReads(m, h, d, b);
    PutRefines(m, h, b);
    var m1 := PutBack(m, p * PGSIZE, Desc(d), b).value;
    PutSmall(h, b);
    SmallCount(m1, PutBlock(h, b), p);
    CountFits(h, p);
    if h.arenas[p].freeCount + 1 < PerArena(d) {
      FrameOf(m, m1, h, b);
    } else {
      DissolveRefines(m1, h, b);
      var m2 := RemoveBlocks(m1, p * PGSIZE, PerArena(d)).value;
      OverheadTwice(m, m1, m2, Retired(h, b));
      FilledFrame(m, m2, h, b);
    }
  }

  lemma PutSmall(h: Heap, b: int)
    requires CanFree(h, b) && h.arenas[PageOf(b)].Small?
    ensures var p, r := PageOf(b), PutBlock(h, b);
            p in r.arenas && r.arenas[p] == Small(h.arenas[p].desc, h.arenas[p].freeCount + 1)
  {
  }

  lemma FrameOf(m: Memory, m': Memory, h: Heap, b: int)
    requires CanFree(h, b) && OnlyOverhead(m, m', Retired(h, b))
    ensures FreeFrame(m, m', h, b)
  {
    hide Overhead;
  }

  lemma FilledFrame(m: Memory, m': Memory, h: Heap, b: int)
    requires CanFree(h, b) && h.arenas[PageOf(b)].Small? && Returned(h, b) > 0 && OnlyOverhead(m, m', Retired(h, b))
    ensures FreeFrame(m, Filled(m', PageOf(b) * PGSIZE, PGSIZE, JUNK), h, b)
  {
    hide Overhead;
    forall x | !Covers(h, PageOf(b), PageOf(x)) ensures !(PageOf(b) * PGSIZE <= x < PageOf(b) * PGSIZE + PGSIZE) {
      PageRange(PageOf(b), 1, x);
    }
  }

  /** The last block of an arena is back: all leave their list, and the page goes back. */
  lemma DissolveRefines(m: Memory, h: Heap, b: int)
    requires Inv(h) && b in h.live && CanFree(h, b) && h.arenas[PageOf(b)].Small?
    requires h.arenas[PageOf(b)].freeCount + 1 >= PerArena(h.arenas[PageOf(b)].desc) && Represents(m, PutBlock(h, b))
    ensures var a, d := PageOf(b) * PGSIZE, h.arenas[PageOf(b)].desc;
            var m' := RemoveBlocks(m, a, PerArena(d));
            && m'.Some? && Represents(Filled(m'.value, a, PGSIZE, JUNK), Free(h, b))
            && OnlyOverhead(m, m'.value, Retired(h, b))
  {
    hide Represents;
    hide CountsOK;
    hide Sound;
    hide OnlyOverhead;
    hide InClass;
    hide PerArena;
    hide RemoveBlocks;
    hide Filled;
    hide Outside;
    hide Shrunk;
    var p, r := PageOf(b), PutBlock(h, b);
    var d := h.arenas[p].desc;
    PutKeeps(h, b);
    RemoveKeeps(r, p);
    AllBack(r, p);
    RemoveRefines(m, r, d, p, PerArena(d));
    var m', r' := RemoveBlocks(m, p * PGSIZE, PerArena(d)).value, Shrinking(r, d, p, PerArena(d));
    AllShrunk(r, d, p);
    SameOverhead(m, m', r, Retired(h, b));
    assert forall k: int :: p <= k < p + 1 <==> Covers(r', p, k);
    assert r'.(arenas := r'.arenas - {p}) == Free(h, b);
    DropArena(m', r', p, 1);
  }

  lemma AllBack(h: Heap, p: nat)
    requires HeapOK(h, {p}) && p in h.arenas && h.arenas[p].Small? && h.arenas[p].freeCount == PerArena(h.arenas[p].desc)
    ensures AllFree(h, h.arenas[p].desc, p)
  {
    var d := h.arenas[p].desc;
    forall i: nat | i < PerArena(d) ensures Block(p, d, i) in h.free[d] {
      ArenaOfBlock(p, d, i);
      FullHasAll(h, p, Block(p, d, i));
    }
  }

  lemma AllShrunk(h: Heap, d: nat, p: nat)
    requires Sound(h) && d < CLASSES
    ensures Shrinking(h, d, p, PerArena(d)).free == h.free[d := Outside(h.free[d], p)]
  {
    forall b | b in h.free[d] ensures b >= 0 && IsBlock(b, d) {
      assert InClass(h, b, d);
    }
    ShrunkAll(h.free[d], p, d);
  }

  /** free on memory: no assertion fails, the new heap is the one specified, and only the
      allocator's bytes and the pages that go back change. */
  lemma FreeRefines(m: Memory, h: Heap, b: int)
    requires Inv(h) && Represents(m, h) && b in h.live
    ensures CanFree(h, b) && Frees(ExecFree(m, b), m, h, b)
  {
    hide Represents;
    hide Frees;
    FreeKeeps(h, b);
    hide Inv;
    if h.arenas[PageOf(b)].Big? {
      BigFrees(m, h, b);
    } else {
      SmallFrees(m, h, b);
    }
  }
}
