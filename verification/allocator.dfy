/** malloc, free and realloc as they store to memory, statement by statement; the code's assertions
    are asserted where it makes them. */
module Allocator {
  import opened Collections
  import opened DiskFormat
  import opened Malloc
  import opened MallocInvariant
  import opened MallocWords
  import opened MallocCode
  import opened MallocLayout
  import opened MallocAllocation
  import opened MallocRelease
  import opened MallocInit
  import opened MallocMemory

  class BlockAllocator {
    var mem: Memory
    ghost var heap: Heap

    /** Memory holds the heap, and the heap is a proper one. */
    ghost predicate Valid()
      reads this
    {
      Inv(heap) && Represents(mem, heap)
    }

    /** malloc_init, which doubles the block size from one descriptor to the next. */
    constructor (m: Memory)
      ensures Valid() && heap == Empty()
      ensures forall x | !InDescs(x) :: mem(x) == m(x)
    {
      mem, heap := m, Empty();
      new;
      hide Put;
      hide Represents;
      hide Inv;
      var size, d := 16, 0;
      while size < PGSIZE / 2
        invariant d <= CLASSES && size == if d < CLASSES then BlockSize(d) else PGSIZE / 2
        invariant heap == Empty() && mem == InitDescs(m, d)
        decreases PGSIZE - size
      {
        var desc := Desc(d);
        assert (PGSIZE - HEADER) / size == PerArena(d);
        mem := Put(mem, desc, size);
        mem := Put(mem, desc + 4, (PGSIZE - HEADER) / size);
        mem := SetPrev(mem, Head(desc), 0);
        mem := SetNext(mem, Head(desc), Tail(desc));
        mem := SetPrev(mem, Tail(desc), Head(desc));
        mem := SetNext(mem, Tail(desc), 0);
        size, d := size * 2, d + 1;
      }
      InitRepresents(m);
      InitDescsAre(m, CLASSES);
      EmptyHeap();
    }

    /** The first descriptor whose blocks are large enough. */
    method FindClass(size: nat) returns (d: nat)
      requires Represents(mem, heap)
      ensures d == ClassFor(size)
    {
      hide Represents;
      hide BlockSizeIn;
      ClassFound(mem, heap, size);
      d := 0;
      while d < CLASSES && BlockSizeIn(mem, Desc(d)) < size
        invariant d <= CLASSES && FindDesc(mem, size, d) == ClassFor(size)
      {
        d := d + 1;
      }
    }

    method Insert(before: int, elem: int)
      requires MallocCode.Insert(mem, before, elem).Some?
      modifies this`mem
      ensures MallocCode.Insert(old(mem), before, elem) == Some(mem)
    {
      assert IsInterior(mem, before) || IsTail(mem, before);
      mem := SetPrev(mem, elem, Prev(mem, before));
      mem := SetNext(mem, elem, before);
      mem := SetNext(mem, Prev(mem, before), elem);
      mem := SetPrev(mem, before, elem);
    }

    method Remove(elem: int)
      requires MallocCode.Remove(mem, elem).Some?
      modifies this`mem
      ensures MallocCode.Remove(old(mem), elem) == Some(mem)
    {
      assert IsInterior(mem, elem);
      mem := SetNext(mem, Prev(mem, elem), Next(mem, elem));
      mem := SetPrev(mem, Next(mem, elem), Prev(mem, elem));
    }

    /** A page becomes an arena; its blocks go on the free list one by one. */
    method NewArena(d: nat, p: nat)
      requires Valid() && d < CLASSES && Granted(heap, Some(p), 1)
      modifies this`mem
      ensures MallocCode.NewArena(old(mem), Desc(d), p * PGSIZE) == Some(mem)
      ensures |heap.free| == CLASSES && Represents(mem, AddArena(heap, d, p))
    {
      hide Inv;
      hide Represents;
      hide MallocCode.Insert;
      hide BlockAsserts;
      hide BlockAt;
      hide Put;
      hide Granted;
      var desc, a := Desc(d), p * PGSIZE;
      ArenaSteps(mem, heap, d, p);
      var n := PerArenaIn(mem, desc);
      mem := Put(mem, a, ARENA_MAGIC);
      mem := Put(mem, a + 4, desc);
      mem := Put(mem, a + 8, n);
      ghost var m := mem;
      assert m == SetHeader(old(mem), a, desc, n);
      hide SetHeader;
      for i := 0 to n
        invariant PushBlocks(m, desc, a, i) == Some(mem)
      {
        assert PushBlocks(m, desc, a, i + 1).Some?;
        assert BlockAsserts(mem, a, i);
        Insert(Tail(desc), BlockAt(mem, a, i));
      }
      InvSound(heap);
      ArenaRefines(old(mem), heap, d, p);
    }

    /** Pops the front block of a free list and counts it as handed out. */
    method Take(desc: int) returns (b: int)
      requires TakeFront(mem, desc).Done?
      modifies this`mem
      ensures TakeFront(old(mem), desc) == Done(mem, Some(b))
    {
      hide MallocCode.Remove;
      hide ArenaAsserts;
      hide Next;
      assert Next(mem, Head(desc)) != Tail(desc);
      b := Next(mem, Head(desc));
      Remove(b);
      assert ArenaAsserts(mem, b);
      mem := SetCount(mem, PageStart(b), (CountIn(mem, PageStart(b)) + WORD - 1) % WORD);
    }

    /** malloc; `page` is what the page allocator answers if it is asked. */
    method Malloc(size: nat, page: Option<nat>) returns (b: Option<int>)
      requires Valid() && Granted(heap, page, WantedPages(heap, size))
      modifies this
      ensures Ready(old(heap), size) && b == MallocResult(old(heap), size, page)
      ensures heap == Allocate(old(heap), size, page) && Valid()
      ensures ExecMalloc(old(mem), size, page) == Done(mem, b)
    {
      hide Inv;
      hide Represents;
      hide Granted;
      hide TakeFront;
      hide MallocCode.NewArena;
      hide SetHeader;
      hide OnlyOverhead;
      hide Allocate;
      hide MallocResult;
      hide Next;
      MallocKeeps(heap, size, page);
      MallocRefines(mem, heap, size, page);
      ClassFound(mem, heap, size);
      ghost var h := Allocate(heap, size, page);
      if size == 0 {
        b := None;
      } else {
        var d := FindClass(size);
        if d == CLASSES {
          if page.None? {
            b := None;
          } else {
            mem := SetHeader(mem, page.value * PGSIZE, 0, BigPages(size));
            b := Some(page.value * PGSIZE + HEADER);
          }
        } else if Next(mem, Head(Desc(d))) == Tail(Desc(d)) && page.None? {
          b := None;
        } else {
          if Next(mem, Head(Desc(d))) == Tail(Desc(d)) {
            WantsOne(mem, heap, size, page);
            NewArena(d, page.value);
          }
          var block := Take(Desc(d));
          b := Some(block);
        }
      }
      heap := h;
    }

    /** Takes every block of an arena off its free list. */
    method RemoveBlocks(a: int, n: nat)
      requires forall i: nat | i <= n :: MallocCode.RemoveBlocks(mem, a, i).Some?
      modifies this`mem
      ensures MallocCode.RemoveBlocks(old(mem), a, n) == Some(mem)
    {
      hide MallocCode.Remove;
      hide BlockAsserts;
      hide BlockAt;
      ghost var m := mem;
      for i := 0 to n
        invariant MallocCode.RemoveBlocks(m, a, i) == Some(mem)
      {
        assert MallocCode.RemoveBlocks(m, a, i + 1).Some?;
        assert BlockAsserts(mem, a, i);
        Remove(BlockAt(mem, a, i));
      }
    }

    /** Fills a block, puts it on the front of its list and counts it as free. */
    method PutBack(a: int, desc: int, b: int)
      requires MallocCode.PutBack(mem, a, desc, b).Some?
      modifies this`mem
      ensures MallocCode.PutBack(old(mem), a, desc, b) == Some(mem)
    {
      hide MallocCode.Insert;
      hide Filled;
      hide Next;
      hide Put;
      mem := Filled(mem, b, BlockSizeIn(mem, desc), JUNK);
      Insert(Next(mem, Head(desc)), b);
      mem := SetCount(mem, a, (CountIn(mem, a) + 1) % WORD);
    }

    /** free of a block that is not null. */
    method Release(b: int)
      requires Valid() && b in heap.live
      modifies this
      ensures CanFree(old(heap), b) && heap == Free(old(heap), b) && Valid()
      ensures ExecFree(old(mem), b) == Done(mem, None)
    {
      hide Inv;
      hide Represents;
      hide Filled;
      hide Free;
      hide FreeFrame;
      hide MallocCode.PutBack;
      hide MallocCode.RemoveBlocks;
      hide ArenaAsserts;
      hide Get;
      FreeKeeps(heap, b);
      FreeRefines(mem, heap, b);
      ghost var h := Free(heap, b);
      LiveAddress(mem, heap, b);
      assert ArenaAsserts(mem, b);
      var a := PageStart(b);
      var desc := DescIn(mem, a);
      if desc != 0 {
        FreeSteps(mem, heap, b);
        PutBack(a, desc, b);
        if CountIn(mem, a) >= PerArenaIn(mem, desc) {
          assert CountIn(mem, a) == PerArenaIn(mem, desc);
          RemoveBlocks(a, PerArenaIn(mem, desc));
          mem := Filled(mem, a, PGSIZE, JUNK);
        }
      } else {
        mem := Filled(mem, a, CountIn(mem, a) * PGSIZE, JUNK);
      }
      heap := h;
    }

    /** realloc of a block that is not null, by a call that is contained: allocate, copy, free. */
    method Realloc(b: int, size: nat, page: Option<nat>) returns (r: Option<int>)
      requires Valid() && Asks(heap, ReallocCall(b, size, page)) && Contained(heap, ReallocCall(b, size, page))
      modifies this
      ensures heap == After(old(heap), ReallocCall(b, size, page)) && Valid()
      ensures ExecRealloc(old(mem), b, size, page) == Done(mem, r)
      ensures size > 0 ==> r == MallocResult(old(heap), size, page)
    {
      hide Inv;
      hide Represents;
      hide Granted;
      hide ExecMalloc;
      hide ExecFree;
      hide Copied;
      hide Free;
      hide Allocate;
      hide MallocResult;
      hide Contained;
      hide ArenaAsserts;
      hide SizeIn;
      if size == 0 {
        Release(b);
        return None;
      }
      ghost var m, h := mem, heap;
      r := Malloc(size, page);
      if r.None? {
        NoBlockSame(h, size, page);
        return None;
      }
      ReallocIs(m, h, b, size, page);
      InvSound(heap);
      SizeReads(mem, heap, b);
      assert ArenaAsserts(mem, b);
      var n := if size < SizeIn(mem, b) then size else SizeIn(mem, b);
      mem := Copied(mem, b, r.value, n);
      Release(b);
    }
  }

  lemma LiveAddress(m: Memory, h: Heap, b: int)
    requires Inv(h) && Represents(m, h) && b in h.live
    ensures b != 0 && ArenaAsserts(m, b)
  {
    SizeReads(m, h, b);
  }

  lemma WantsOne(m: Memory, h: Heap, size: nat, page: Option<nat>)
    requires Inv(h) && Represents(m, h) && Granted(h, page, WantedPages(h, size)) && page.Some? && size > 0 && ClassFor(size) < CLASSES
    requires Next(m, Head(Desc(ClassFor(size)))) == Tail(Desc(ClassFor(size)))
    ensures Granted(h, page, 1)
  {
    FrontIs(m, h, ClassFor(size));
  }

  /** If the block is the last of its arena, its siblings can be taken off their list. */
  lemma FreeSteps(m: Memory, h: Heap, b: int)
    requires Inv(h) && Represents(m, h) && b in h.live && DescIn(m, PageStart(b)) != 0
    ensures var a := PageStart(b);
            var m1 := PutBack(m, a, DescIn(m, a), b);
            && m1.Some?
            && (CountIn(m1.value, a) >= PerArenaIn(m1.value, DescIn(m, a)) ==>
                  forall i: nat | i <= PerArenaIn(m1.value, DescIn(m, a)) :: MallocCode.RemoveBlocks(m1.value, a, i).Some?)
  {
    hide PutBack;
    hide ArenaAsserts;
    hide PerArena;
    hide InClass;
    FreeKeeps(h, b);
    InvSound(h);
    var p := PageOf(b);
    if h.arenas[p].Big? {
      BigReads(m, h, b);
      assert false;
    } else {
      LiveInClass(h, b);
      var d := h.arenas[p].desc;
      ArenaReads(m, h, d, b);
      PutRefines(m, h, b);
      var m1, r := PutBack(m, p * PGSIZE, Desc(d), b).value, PutBlock(h, b);
      PutSmall(h, b);
      SmallCount(m1, r, p);
      hide Represents;
      hide PutBlock;
      if h.arenas[p].freeCount + 1 >= PerArena(d) {
        PutKeeps(h, b);
        AllBack(r, p);
        forall i: nat | i <= PerArena(d) ensures MallocCode.RemoveBlocks(m1, p * PGSIZE, i).Some? {
          RemoveRefines(m1, r, d, p, i);
        }
      }
    }
  }

  /** No assertion fails while the blocks of a new arena are pushed. */
  lemma ArenaSteps(m: Memory, h: Heap, d: nat, p: nat)
    requires Inv(h) && Represents(m, h) && d < CLASSES && Granted(h, Some(p), 1)
    ensures var m1 := SetHeader(m, p * PGSIZE, Desc(d), PerArenaIn(m, Desc(d)));
            forall i: nat | i <= PerArenaIn(m, Desc(d)) :: PushBlocks(m1, Desc(d), p * PGSIZE, i).Some?
  {
    hide Represents;
    hide Sound;
    hide CountsOK;
    hide PushBlocks;
    hide SetHeader;
    hide PerArena;
    hide Granted;
    hide OnlyOverhead;
    var a := Small(d, PerArena(d));
    PerArenaReads(m, h, d);
    AddingSound(h, p, a, 1);
    AddingRefines(m, h, p, a, 1, Desc(d), PerArena(d));
    var m1 := SetHeader(m, p * PGSIZE, Desc(d), PerArena(d));
    assert Unused(Adding(h, p, a), d, p) by { HeapFree(h); }
    forall i: nat | i <= PerArena(d) ensures PushBlocks(m1, Desc(d), p * PGSIZE, i).Some? {
      PushRefines(m1, Adding(h, p, a), d, p, i);
    }
  }

  lemma PerArenaReads(m: Memory, h: Heap, d: nat)
    requires Represents(m, h) && d < CLASSES
    ensures PerArenaIn(m, Desc(d)) == PerArena(d) && 0 < PerArena(d) < WORD
  {
    SmallPerArena(d);
  }
}
