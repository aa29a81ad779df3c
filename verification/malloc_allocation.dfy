/** malloc and free on memory do what they do to the heap that memory represents, and fail none of
    their assertions. */
module MallocAllocation {
  import opened Collections
  import opened DiskFormat
  import opened Malloc
  import opened MallocInvariant
  import opened MallocWords
  import opened MallocCode
  import opened MallocLayout
  import opened MallocSteps

  // ---------------------------------------------------------------- reading descriptors, headers and lists

  lemma {:induction false} FindsClass(m: Memory, size: nat, d: nat)
    requires DescsOK(m) && d <= CLASSES && forall c | 0 <= c < d :: BlockSize(c) < size
    ensures FindDesc(m, size, d) == ClassFor(size)
    decreases CLASSES - d
  {
    hide Get;
    if d < CLASSES {
      assert BlockSizeIn(m, Desc(d)) == BlockSize(d);
      if BlockSize(d) < size {
        FindsClass(m, size, d + 1);
      }
    }
  }

  lemma ClassFound(m: Memory, h: Heap, size: nat)
    requires Represents(m, h)
    ensures FindDesc(m, size, 0) == ClassFor(size)
  {
    FindsClass(m, size, 0);
  }

  /** list_front is the first block, or the tail of an empty list. */
  lemma FrontIs(m: Memory, h: Heap, d: nat)
    requires Sound(h) && Represents(m, h) && d < CLASSES
    ensures Next(m, Head(Desc(d))) == ChainOf(h, d)[1]
    ensures h.free[d] == [] <==> ChainOf(h, d)[1] == Tail(Desc(d))
    ensures h.free[d] != [] ==> ChainOf(h, d)[1] == h.free[d][0]
  {
    var c := ChainOf(h, d);
    assert Chain(m, c) && LinkedAt(m, c, 0);
    if h.free[d] != [] {
      ChainDistinct(h, d, 1, |c| - 1);
    }
  }

  lemma StartIs(b: int)
    ensures PageStart(b) == PageOf(b) * PGSIZE
  {
  }

  /** block_to_arena finds the header of a block's arena. */
  lemma ArenaReads(m: Memory, h: Heap, d: nat, b: int)
    requires Sound(h) && Represents(m, h) && InClass(h, b, d)
    ensures b != 0 && ArenaAsserts(m, b) && PageStart(b) == PageOf(b) * PGSIZE
    ensures DescIn(m, PageStart(b)) == Desc(d) && CountIn(m, PageStart(b)) == h.arenas[PageOf(b)].freeCount
  {
    hide Get;
    StartIs(b);
    assert HeaderOK(m, h, PageOf(b)) && BlockSizeIn(m, Desc(d)) == BlockSize(d);
    assert PageOf(b) > 0 by { NotCovered(h, PageOf(b)); }
    SmallOffset(b);
  }

  lemma SmallOffset(b: int)
    requires b % PGSIZE >= HEADER
    ensures (b % PGSIZE - HEADER) % WORD == b % PGSIZE - HEADER
  {
  }

  lemma BlockReads(m: Memory, h: Heap, d: nat, p: nat, i: nat)
    requires Sound(h) && Represents(m, h) && p in h.arenas && h.arenas[p].Small? && h.arenas[p].desc == d
    requires d < CLASSES && i < PerArena(d)
    ensures BlockAsserts(m, p * PGSIZE, i) && BlockAt(m, p * PGSIZE, i) == Block(p, d, i)
    ensures InClass(h, Block(p, d, i), d) && PageOf(Block(p, d, i)) == p
  {
    hide Get;
    hide PerArena;
    assert HeaderOK(m, h, p) && BlockSizeIn(m, Desc(d)) == BlockSize(d) && PerArenaIn(m, Desc(d)) == PerArena(d);
    assert p > 0 by { NotCovered(h, p); }
    ArenaOfBlock(p, d, i);
  }

  // ---------------------------------------------------------------- taking a block

  lemma FrontCount(h: Heap, d: nat, full: set<nat>)
    requires HeapOK(h, full) && d < CLASSES && h.free[d] != []
    ensures CanTake(h, d) && 0 < h.arenas[PageOf(h.free[d][0])].freeCount < WORD
  {
    var b := h.free[d][0];
    FreeBlock(h, d, b);
    var p := PageOf(b);
    assert ArenaCount(h, p, d, p in full);
    assert Index(b, d) in FreeIn(h, p, d);
    SubsetFull(PerArena(d), FreeIn(h, p, d));
    assert PerArena(d) <= PGSIZE;
  }

  lemma TakeRefines(m: Memory, h: Heap, d: nat, size: nat, full: set<nat>)
    requires HeapOK(h, full) && Represents(m, h) && d < CLASSES && h.free[d] != []
    ensures CanTake(h, d)
    ensures var r := TakeFront(m, Desc(d));
            && r.Done? && r.block == Some(h.free[d][0])
            && Represents(r.mem, TakeBlock(h, d, size)) && OnlyOverhead(m, r.mem, h)
  {
    hide Represents;
    hide Sound;
    hide CountsOK;
    hide Remove;
    hide ArenaAsserts;
    hide OnlyOverhead;
    hide SetCount;
    hide IsBlock;
    hide ChainOf;
    hide TakeBlock;
    FrontCount(h, d, full);
    FrontIs(m, h, d);
    RemoveStep(m, h, d, 0);
    var b := h.free[d][0];
    var h1, m1 := Removing(h, d, 0), Remove(m, b).value;
    FrontInClass(h, d);
    ArenaReads(m1, h1, d, b);
    var n := h.arenas[PageOf(b)].freeCount - 1;
    CountStep(m1, h1, PageOf(b), n);
    SameOverhead(m1, SetCount(m1, PageStart(b), n), h1, h);
    OverheadTwice(m, m1, SetCount(m1, PageStart(b), n), h);
    TakenIs(h, d, size);
    LiveStep(SetCount(m1, PageStart(b), n), Counting(h1, PageOf(b), n), TakeBlock(h, d, size));
    assert (n + 1 + WORD - 1) % WORD == n;
  }

  lemma FrontInClass(h: Heap, d: nat)
    requires Sound(h) && d < CLASSES && h.free[d] != []
    ensures InClass(Removing(h, d, 0), h.free[d][0], d)
  {
    FreeBlock(h, d, h.free[d][0]);
  }

  lemma TakenIs(h: Heap, d: nat, size: nat)
    requires CanTake(h, d) && h.arenas[PageOf(h.free[d][0])].freeCount > 0
    ensures var b := h.free[d][0];
            var r := Counting(Removing(h, d, 0), PageOf(b), h.arenas[PageOf(b)].freeCount - 1);
            TakeBlock(h, d, size).arenas == r.arenas && TakeBlock(h, d, size).free == r.free
  {
    assert h.free[d][..0] + h.free[d][0 + 1..] == h.free[d][1..];
  }

  // ---------------------------------------------------------------- a new arena

  /** A granted page gets a header before any of its blocks is on a list. */
  function Adding(h: Heap, p: nat, a: Arena): (r: Heap) {
    h.(arenas := h.arenas[p := a])
  }

  lemma AddingSound(h: Heap, p: nat, a: Arena, n: nat)
    requires Sound(h) && Granted(h, Some(p), n) && (if a.Small? then n == 1 && a.desc < CLASSES else a.pages == n)
    ensures p !in h.arenas && Sound(Adding(h, p, a))
    ensures forall d, b | 0 <= d < CLASSES && b in h.free[d] :: PageOf(b) != p
    ensures forall b | b in h.live :: PageOf(b) != p
  {
    var r := Adding(h, p, a);
    if p in h.arenas { NotCovered(h, p); }
    assert ArenasOK(r) by {
      assert forall q, k | q != p :: Covers(r, q, k) <==> Covers(h, q, k);
      assert forall k :: Covers(r, p, k) <==> p <= k < p + n;
    }
    hide IsBlock;
    forall d, b | 0 <= d < CLASSES && b in h.free[d] ensures InClass(r, b, d) && PageOf(b) != p {
      assert InClass(h, b, d);
    }
    forall b | b in h.live ensures LiveBlock(r, b) && PageOf(b) != p {
      assert PageOf(b) in h.arenas && LiveBlock(h, b);
    }
  }

  lemma AddingRefines(m: Memory, h: Heap, p: nat, a: Arena, n: nat, desc: nat, count: nat)
    requires Sound(h) && Represents(m, h) && Granted(h, Some(p), n) && desc < WORD && count < WORD
    requires if a.Small? then n == 1 && a.desc < CLASSES && desc == Desc(a.desc) && count == a.freeCount
             else a.pages == n == count && desc == 0
    ensures var m', r := SetHeader(m, p * PGSIZE, desc, count), Adding(h, p, a);
            p !in h.arenas && Sound(r) && Represents(m', r) && OnlyOverhead(m, m', r)
  {
    hide Represents;
    hide OnlyOverhead;
    hide SetHeader;
    var m', r := SetHeader(m, p * PGSIZE, desc, count), Adding(h, p, a);
    AddingSound(h, p, a, n);
    hide Sound;
    hide Granted;
    hide Get;
    HeaderReads(m, p * PGSIZE, desc, count);
    assert HeaderOK(m', r, p);
    HeaderStep(m, m', h, r, p);
  }

  function Pushing(h: Heap, d: nat, p: nat, n: nat): (r: Heap)
    requires d < CLASSES == |h.free| && n <= PerArena(d)
  {
    h.(free := h.free[d := h.free[d] + Blocks(p, d)[..n]])
  }

  /** A page none of whose blocks is on a list or handed out. */
  ghost predicate Unused(h: Heap, d: nat, p: nat) {
    && d < CLASSES == |h.free| && p in h.arenas && h.arenas[p].Small? && h.arenas[p].desc == d
    && (forall b | b in h.free[d] :: PageOf(b) != p) && forall b | b in h.live :: PageOf(b) != p
  }

  ghost predicate Pushed(m: Memory, h: Heap, d: nat, p: nat, n: nat)
    requires d < CLASSES == |h.free| && n <= PerArena(d)
  {
    var m', r := PushBlocks(m, Desc(d), p * PGSIZE, n), Pushing(h, d, p, n);
    m'.Some? && Sound(r) && Represents(m'.value, r) && OnlyOverhead(m, m'.value, h)
  }

  /** Pushing the first `n` blocks of such a page. */
  lemma {:induction false} PushRefines(m: Memory, h: Heap, d: nat, p: nat, n: nat)
    requires Sound(h) && Represents(m, h) && Unused(h, d, p) && n <= PerArena(d)
    ensures Pushed(m, h, d, p, n)
  {
    hide Sound;
    hide Represents;
    hide Pushed;
    hide PerArena;
    if n == 0 {
      PushNone(m, h, d, p);
    } else {
      PushRefines(m, h, d, p, n - 1);
      PushOne(m, h, d, p, n);
    }
  }

  lemma PushNone(m: Memory, h: Heap, d: nat, p: nat)
    requires Sound(h) && Represents(m, h) && d < CLASSES == |h.free|
    ensures Pushed(m, h, d, p, 0)
  {
    hide Sound;
    hide Represents;
    hide Overhead;
    PushingNone(h, d, p);
  }

  lemma PushOne(m: Memory, h: Heap, d: nat, p: nat, n: nat)
    requires Unused(h, d, p) && 0 < n <= PerArena(d) && Pushed(m, h, d, p, n - 1)
    ensures Pushed(m, h, d, p, n)
  {
    hide Represents;
    hide OnlyOverhead;
    hide Sound;
    hide Blocks;
    hide Block;
    hide InClass;
    hide Insert;
    hide BlockAsserts;
    hide BlockAt;
    hide PerArena;
    hide ChainOf;
    var m1, r := PushBlocks(m, Desc(d), p * PGSIZE, n - 1).value, Pushing(h, d, p, n - 1);
    var b := Block(p, d, n - 1);
    BlockReads(m1, r, d, p, n - 1);
    NotPushed(h, d, p, n - 1);
    InsertStep(m1, r, d, |r.free[d]|, b);
    PushingOne(h, d, p, n);
    TailOf(r, d);
    var m2 := Insert(m1, Tail(Desc(d)), b).value;
    SameOverhead(m1, m2, r, h);
    OverheadTwice(m, m1, m2, h);
    assert PushBlocks(m, Desc(d), p * PGSIZE, n) == Some(m2);
  }

  lemma TailOf(h: Heap, d: nat)
    requires d < CLASSES == |h.free|
    ensures ChainOf(h, d)[|h.free[d]| + 1] == Tail(Desc(d))
  {
  }

  lemma PushingNone(h: Heap, d: nat, p: nat)
    requires d < CLASSES == |h.free|
    ensures Pushing(h, d, p, 0) == h
  {
    assert h.free[d] + Blocks(p, d)[..0] == h.free[d];
    assert h.free[d := h.free[d]] == h.free;
  }

  lemma PushingOne(h: Heap, d: nat, p: nat, n: nat)
    requires d < CLASSES == |h.free| && 0 < n <= PerArena(d)
    ensures var r := Pushing(h, d, p, n - 1); Inserting(r, d, |r.free[d]|, Block(p, d, n - 1)) == Pushing(h, d, p, n)
  {
    hide Block;
    hide PerArena;
    var r := Pushing(h, d, p, n - 1);
    assert Blocks(p, d)[..n] == Blocks(p, d)[..n - 1] + [Block(p, d, n - 1)];
    assert r.free[d][..|r.free[d]|] + [Block(p, d, n - 1)] + r.free[d][|r.free[d]|..] == h.free[d] + Blocks(p, d)[..n];
    assert Inserting(r, d, |r.free[d]|, Block(p, d, n - 1)).free == Pushing(h, d, p, n).free;
  }

  lemma NotPushed(h: Heap, d: nat, p: nat, n: nat)
    requires Unused(h, d, p) && n < PerArena(d)
    ensures Block(p, d, n) !in Pushing(h, d, p, n).free[d] && Block(p, d, n) !in h.live
  {
    ArenaOfBlock(p, d, n);
    BlocksAre(p, d);
    hide IsBlock;
    hide Block;
    hide PerArena;
    var s := Blocks(p, d);
    hide Blocks;
    assert s[n] == Block(p, d, n) && forall i | 0 <= i < n :: s[i] != s[n];
  }

  /** A granted page becomes an arena, header and list links included. */
  lemma ArenaRefines(m: Memory, h: Heap, d: nat, p: nat)
    requires Sound(h) && Represents(m, h) && Granted(h, Some(p), 1) && d < CLASSES
    ensures var m' := NewArena(m, Desc(d), p * PGSIZE);
            && m'.Some? && |h.free| == CLASSES && Represents(m'.value, AddArena(h, d, p))
            && OnlyOverhead(m, m'.value, Adding(h, p, Small(d, PerArena(d))))
  {
    hide OnlyOverhead;
    hide PushBlocks;
    hide SetHeader;
    HeapShape(h);
    var a := Small(d, PerArena(d));
    assert PerArenaIn(m, Desc(d)) == PerArena(d) && 0 < PerArena(d) < WORD;
    AddingSound(h, p, a, 1);
    AddingRefines(m, h, p, a, 1, Desc(d), PerArena(d));
    hide Represents;
    hide Sound;
    hide PerArena;
    hide Blocks;
    var m1, r := SetHeader(m, p * PGSIZE, Desc(d), PerArena(d)), Adding(h, p, a);
    PushRefines(m1, r, d, p, PerArena(d));
    AllPushed(r, d, p);
    OverheadTwice(m, m1, NewArena(m, Desc(d), p * PGSIZE).value, r);
  }

  lemma AllPushed(h: Heap, d: nat, p: nat)
    requires d < CLASSES == |h.free|
    ensures Pushing(h, d, p, PerArena(d)).free == h.free[d := h.free[d] + Blocks(p, d)]
  {
    assert Blocks(p, d)[..PerArena(d)] == Blocks(p, d);
  }

  // ---------------------------------------------------------------- malloc

  /** The heap a call works on: the granted page, if any, is its own already, and nothing of it is
      handed out. */
  function Grown(h: Heap, size: nat, page: Option<nat>): (r: Heap)
    requires |h.free| == CLASSES
  {
    var d := ClassFor(size);
    if size == 0 || page.None? then h
    else if d == CLASSES then Adding(h, page.value, Big(BigPages(size)))
    else if h.free[d] == [] then Adding(h, page.value, Small(d, PerArena(d)))
    else h
  }

  lemma GrownSound(h: Heap, size: nat, page: Option<nat>)
    requires Sound(h) && Granted(h, page, WantedPages(h, size))
    ensures Sound(Grown(h, size, page)) && Grown(h, size, page).live == h.live
    ensures forall p | p in h.arenas :: p in Grown(h, size, page).arenas && Grown(h, size, page).arenas[p] == h.arenas[p]
  {
    var r := Grown(h, size, page);
    if r != h {
      AddingSound(h, page.value, r.arenas[page.value], WantedPages(h, size));
    }
  }

  ghost predicate Refines(r: Outcome, m: Memory, h: Heap, size: nat, page: Option<nat>)
    requires Ready(h, size)
  {
    && r.Done? && r.block == MallocResult(h, size, page)
    && Represents(r.mem, Allocate(h, size, page)) && OnlyOverhead(m, r.mem, Grown(h, size, page))
  }

  /** malloc on memory: no assertion fails, the block and the new heap are the ones specified, and
      only the allocator's bytes change. */
  lemma MallocRefines(m: Memory, h: Heap, size: nat, page: Option<nat>)
    requires Inv(h) && Represents(m, h) && Granted(h, page, WantedPages(h, size))
    ensures Ready(h, size) && Refines(ExecMalloc(m, size, page), m, h, size, page)
  {
    MallocKeeps(h, size, page);
    var d := ClassFor(size);
    ClassFound(m, h, size);
    hide Inv;
    hide Represents;
    hide TakeFront;
    hide NewArena;
    hide SetHeader;
    hide Refines;
    if size == 0 || (page.None? && (d == CLASSES || h.free[d] == [])) {
      NoBlock(m, h, size, page);
    } else if d == CLASSES {
      BigRefines(m, h, size, page.value);
    } else if h.free[d] != [] {
      FrontRefines(m, h, size, page);
    } else {
      NewRefines(m, h, size, page.value);
    }
  }

  lemma NoBlock(m: Memory, h: Heap, size: nat, page: Option<nat>)
    requires Inv(h) && Represents(m, h) && Ready(h, size)
    requires size == 0 || (page.None? && (ClassFor(size) == CLASSES || h.free[ClassFor(size)] == []))
    ensures Refines(ExecMalloc(m, size, page), m, h, size, page)
  {
    hide Represents;
    hide Sound;
    hide CountsOK;
    hide FindDesc;
    hide Next;
    hide Overhead;
    hide ChainOf;
    ClassFound(m, h, size);
    if size > 0 && ClassFor(size) < CLASSES {
      FrontIs(m, h, ClassFor(size));
    }
  }

  lemma BigRefines(m: Memory, h: Heap, size: nat, p: nat)
    requires Inv(h) && Represents(m, h) && Granted(h, Some(p), WantedPages(h, size)) && Ready(h, size) && ClassFor(size) == CLASSES
    ensures Refines(ExecMalloc(m, size, Some(p)), m, h, size, Some(p))
  {
    hide Represents;
    hide Sound;
    hide CountsOK;
    hide FindDesc;
    hide Next;
    hide OnlyOverhead;
    hide SetHeader;
    hide BigPages;
    hide Granted;
    ClassFound(m, h, size);
    BigPagesFit(size);
    AddingRefines(m, h, p, Big(BigPages(size)), BigPages(size), 0, BigPages(size));
    LiveStep(SetHeader(m, p * PGSIZE, 0, BigPages(size)), Adding(h, p, Big(BigPages(size))), Allocate(h, size, Some(p)));
  }

  lemma BigPagesFit(size: nat)
    ensures BigPages(size) < WORD
  {
  }

  lemma FrontRefines(m: Memory, h: Heap, size: nat, page: Option<nat>)
    requires Inv(h) && Represents(m, h) && Ready(h, size) && size > 0 && ClassFor(size) < CLASSES && h.free[ClassFor(size)] != []
    ensures Refines(ExecMalloc(m, size, page), m, h, size, page)
  {
    hide Represents;
    hide Sound;
    hide CountsOK;
    hide FindDesc;
    hide Next;
    hide OnlyOverhead;
    hide TakeFront;
    hide ChainOf;
    ClassFound(m, h, size);
    FrontIs(m, h, ClassFor(size));
    TakeRefines(m, h, ClassFor(size), size, {});
  }

  lemma NewRefines(m: Memory, h: Heap, size: nat, p: nat)
    requires Inv(h) && Represents(m, h) && Granted(h, Some(p), WantedPages(h, size)) && Ready(h, size)
    requires size > 0 && ClassFor(size) < CLASSES && h.free[ClassFor(size)] == []
    ensures Refines(ExecMalloc(m, size, Some(p)), m, h, size, Some(p))
  {
    hide Represents;
    hide Sound;
    hide CountsOK;
    hide FindDesc;
    hide Next;
    hide OnlyOverhead;
    hide TakeFront;
    hide NewArena;
    hide ChainOf;
    hide Blocks;
    hide Granted;
    hide TakeBlock;
    hide PerArena;
    var d := ClassFor(size);
    ClassFound(m, h, size);
    FrontIs(m, h, d);
    ArenaRefines(m, h, d, p);
    AddArenaKeeps(h, d, p);
    var m1, h1 := NewArena(m, Desc(d), p * PGSIZE).value, AddArena(h, d, p);
    FirstNew(h, d, p);
    TakeRefines(m1, h1, d, size, {p});
    var m2 := TakeFront(m1, Desc(d)).mem;
    SameOverhead(m1, m2, h1, Grown(h, size, Some(p)));
    OverheadTwice(m, m1, m2, Grown(h, size, Some(p)));
  }

  lemma FirstNew(h: Heap, d: nat, p: nat)
    requires d < CLASSES == |h.free| && h.free[d] == []
    ensures AddArena(h, d, p).free[d] != [] && AddArena(h, d, p).free[d][0] == Block(p, d, 0)
  {
  }
}
