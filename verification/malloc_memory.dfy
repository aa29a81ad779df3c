/** Whole sequences of malloc, free and realloc calls and of their callers' stores, on memory that
    holds the allocator's own data next to the callers'. */
module MallocMemory {
  import opened Collections
  import opened Arithmetic
  import opened InodeIo
  import opened Malloc
  import opened MallocInvariant
  import opened MallocRuns
  import opened MallocWords
  import opened MallocCode
  import opened MallocLayout
  import opened MallocAllocation
  import opened MallocRelease
  import opened MallocInit

  /** The memory, and as history the heap that the calls so far were to build. */
  datatype Machine = Machine(heap: Heap, mem: Memory)

  // ---------------------------------------------------------------- blocks that stay handed out

  /** The block's arena is still there, of the same kind. */
  ghost predicate SameArena(h: Heap, r: Heap, b: int) {
    && PageOf(b) in h.arenas && PageOf(b) in r.arenas
    && (match h.arenas[PageOf(b)]
        case Small(d, _) => r.arenas[PageOf(b)].Small? && r.arenas[PageOf(b)].desc == d
        case Big(n) => r.arenas[PageOf(b)] == Big(n))
  }

  lemma MallocSameArena(h: Heap, size: nat, page: Option<nat>, b: int)
    requires Inv(h) && Granted(h, page, WantedPages(h, size)) && b in h.live
    requires Ready(h, size)
    ensures b in Allocate(h, size, page).live && SameArena(h, Allocate(h, size, page), b)
  {
    var d := ClassFor(size);
    if d < CLASSES && h.free[d] == [] && page.Some? {
      ArenaOfBlock(page.value, d, 0);
      assert Blocks(page.value, d)[0] == Block(page.value, d, 0);
    }
    hide Blocks;
    hide Block;
    hide IsBlock;
    assert LiveBlock(h, b);
    InsideArena(h, b);
    var p: nat := if page.Some? then page.value else 0;
    assert page.Some? && PageOf(b) == p ==> Covers(h, p, p);
  }

  lemma FreeSameArena(h: Heap, c: int, b: int)
    requires Inv(h) && c in h.live && b in h.live && b != c
    ensures CanFree(h, c) && b in Free(h, c).live && SameArena(h, Free(h, c), b)
  {
    FreeKeeps(h, c);
    assert LiveBlock(h, b) && LiveBlock(h, c);
  }

  lemma SameInBlock(h: Heap, r: Heap, b: int, x: int)
    requires SameArena(h, r, b) && InBlock(h, b, x) && |r.free| == CLASSES
    ensures InBlock(r, b, x)
  {
  }

  /** A block that stays handed out keeps its place and its bytes through malloc. */
  lemma MallocPreserves(m: Memory, h: Heap, size: nat, page: Option<nat>, b: int, x: int)
    requires Inv(h) && Represents(m, h) && Granted(h, page, WantedPages(h, size)) && b in h.live && InBlock(h, b, x)
    ensures Ready(h, size) && Inv(Allocate(h, size, page))
    ensures b in Allocate(h, size, page).live && InBlock(Allocate(h, size, page), b, x)
    ensures ExecMalloc(m, size, page).Done? && ExecMalloc(m, size, page).mem(x) == m(x)
  {
    hide Represents;
    hide CountsOK;
    hide Sound;
    hide ExecMalloc;
    hide Overhead;
    hide Granted;
    MallocKeeps(h, size, page);
    MallocSameArena(h, size, page, b);
    HeapFree(Allocate(h, size, page));
    SameInBlock(h, Allocate(h, size, page), b, x);
    MallocRefines(m, h, size, page);
    GrownSound(h, size, page);
    hide Allocate;
    LiveNotOverhead(Grown(h, size, page), b, x);
  }

  lemma HeapFree(h: Heap)
    requires Inv(h)
    ensures |h.free| == CLASSES
  {
  }

  /** And through the free of another block. */
  lemma FreePreserves(m: Memory, h: Heap, c: int, b: int, x: int)
    requires Inv(h) && Represents(m, h) && c in h.live && b in h.live && b != c && InBlock(h, b, x)
    ensures CanFree(h, c) && Inv(Free(h, c)) && b in Free(h, c).live && InBlock(Free(h, c), b, x)
    ensures ExecFree(m, c).Done? && ExecFree(m, c).mem(x) == m(x)
  {
    hide Represents;
    hide CountsOK;
    hide Sound;
    hide ExecFree;
    hide Overhead;
    FreeKeeps(h, c);
    FreeSameArena(h, c, b);
    HeapFree(Free(h, c));
    SameInBlock(h, Free(h, c), b, x);
    FreeRefines(m, h, c);
    RetiredSound(h, c);
    LiveNotOverhead(Retired(h, c), b, x);
    if Returned(h, c) > 0 {
      NotReturned(h, c, b, x);
    }
  }

  lemma InBlockPage(h: Heap, b: int, x: int)
    requires Sound(h) && b in h.live && InBlock(h, b, x)
    ensures Covers(h, PageOf(b), PageOf(x))
  {
    InsideArena(h, b);
    var p := PageOf(b);
    var n := match h.arenas[p] case Small(_, _) => 1 case Big(n) => n;
    assert p <= PageOf(x) < p + n;
  }

  lemma NotReturned(h: Heap, c: int, b: int, x: int)
    requires Inv(h) && c in h.live && b in h.live && b != c && InBlock(h, b, x) && CanFree(h, c) && Returned(h, c) > 0
    ensures !Covers(h, PageOf(c), PageOf(x))
  {
    FreeKeeps(h, c);
    FreeSameArena(h, c, b);
    InBlockPage(h, b, x);
  }

  // ---------------------------------------------------------------- calls

  datatype Action =
    | MallocCall(size: nat, page: Option<nat>)
    | FreeCall(block: int)
    | ReallocCall(old': int, size: nat, page: Option<nat>)
    | Store(block: int, offset: nat, value: Byte)   // the caller writes into its block
    | Elsewhere(at: int, value: Byte)               // a write outside the allocator's memory

  /** Whether the allocator has the byte at `x`: in a descriptor or a page of an arena. */
  ghost predicate Taken(h: Heap, x: int) {
    InDescs(x) || exists p :: Covers(h, p, PageOf(x))
  }

  /** What callers and the page allocator owe: sizes are of type size_t, blocks are live, stores
      stay inside their block, and pages are new. */
  ghost predicate Asks(h: Heap, a: Action) {
    match a
    case MallocCall(size, page) => size < SIZE_T && Ready(h, size) && Granted(h, page, WantedPages(h, size))
    case FreeCall(b) => b in h.live && CanFree(h, b)
    case ReallocCall(b, size, page) =>
      && b in h.live && CanFree(h, b) && size < SIZE_T
      && (size > 0 ==>
            && Ready(h, size) && Granted(h, page, WantedPages(h, size))
            && (MallocResult(h, size, page).Some? ==> CanFree(Allocate(h, size, page), b)))
    case Store(b, o, _) => b in h.live && CanFree(h, b) && o < Capacity(h, b)
    case Elsewhere(x, _) => !Taken(h, x)
  }

  /** What a call is to do to the heap. */
  ghost function After(h: Heap, a: Action): (r: Heap)
    requires Asks(h, a)
  {
    match a
    case MallocCall(size, page) => Allocate(h, size, page)
    case FreeCall(b) => Free(h, b)
    case ReallocCall(b, size, page) =>
      if size == 0 then Free(h, b)
      else if MallocResult(h, size, page).Some? then Free(Allocate(h, size, page), b) else h
    case Store(_, _, _) => h
    case Elsewhere(_, _) => h
  }

  function Stored(m: Memory, at: int, v: Byte): (r: Memory) {
    x => if x == at then v else m(x)
  }

  /** What the code does to memory. */
  function Exec(m: Memory, a: Action): (r: Outcome) {
    match a
    case MallocCall(size, page) => ExecMalloc(m, size, page)
    case FreeCall(b) => ExecFree(m, b)
    case ReallocCall(b, size, page) => ExecRealloc(m, b, size, page)
    case Store(b, o, v) => Done(Stored(m, b + o, v), None)
    case Elsewhere(x, v) => Done(Stored(m, x, v), None)
  }

  ghost predicate Step(s: Machine, a: Action, s': Machine) {
    Asks(s.heap, a) && s'.heap == After(s.heap, a) && Exec(s.mem, a).Done? && s'.mem == Exec(s.mem, a).mem
  }

  /** Judged before the call: a realloc whose size does not wrap around, or whose old block is no
      larger than the one page a wrapped size is given, or that is given no page. */
  predicate Contained(h: Heap, a: Action) {
    a.ReallocCall? && CanFree(h, a.old') ==>
      a.size < SIZE_T - 11 || Capacity(h, a.old') <= PGSIZE - HEADER || a.page.None?
  }

  /** Whether a call is one that may change block `b`: its owner's store, its free or its realloc. */
  predicate About(a: Action, b: int) {
    match a
    case MallocCall(_, _) => false
    case FreeCall(c) => c == b
    case ReallocCall(c, _, _) => c == b
    case Store(c, _, _) => c == b
    case Elsewhere(_, _) => false
  }

  // ---------------------------------------------------------------- realloc

  function CopySize(h: Heap, b: int, size: nat): (n: int)
    requires CanFree(h, b)
  {
    if size < Capacity(h, b) then size else Capacity(h, b)
  }

  /** block_size reads what a block offers off its header. */
  lemma SizeReads(m: Memory, h: Heap, b: int)
    requires Sound(h) && Represents(m, h) && b in h.live
    ensures b != 0 && CanFree(h, b) && ArenaAsserts(m, b) && SizeIn(m, b) == Capacity(h, b)
  {
    InsideArena(h, b);
    if h.arenas[PageOf(b)].Big? {
      BigReads(m, h, b);
      hide Represents;
    } else {
      LiveInClass(h, b);
      ArenaReads(m, h, h.arenas[PageOf(b)].desc, b);
      assert BlockSizeIn(m, Desc(h.arenas[PageOf(b)].desc)) == BlockSize(h.arenas[PageOf(b)].desc);
    }
  }

  lemma NewIsNew(h: Heap, size: nat, page: Option<nat>)
    requires Inv(h) && Ready(h, size) && Granted(h, page, WantedPages(h, size)) && MallocResult(h, size, page).Some?
    ensures MallocResult(h, size, page).value !in h.live
  {
    var n, d := MallocResult(h, size, page).value, ClassFor(size);
    if d == CLASSES {
      BigAddress(page.value);
    } else if h.free[d] != [] {
      FreeBlock(h, d, n);
    } else {
      ArenaOfBlock(page.value, d, 0);
    }
    var p: nat := if page.Some? then page.value else 0;
    if n in h.live {
      InsideArena(h, n);
    }
    assert n in h.live && PageOf(n) == p ==> Covers(h, p, p);
  }

  /** The new block is apart from every block there was. */
  lemma NewApart(h: Heap, size: nat, page: Option<nat>, b: int)
    requires Inv(h) && Ready(h, size) && Granted(h, page, WantedPages(h, size)) && b in h.live
    requires MallocResult(h, size, page).Some?
    ensures var r, n := Allocate(h, size, page), MallocResult(h, size, page).value;
            && n != b && n in r.live && b in r.live && CanFree(r, n) && CanFree(r, b)
            && Apart(b, Capacity(r, b), n, Capacity(r, n))
  {
    MallocKeeps(h, size, page);
    MallocSameArena(h, size, page, b);
    NewIsNew(h, size, page);
    hide Inv;
    hide Sound;
    var r, n := Allocate(h, size, page), MallocResult(h, size, page).value;
    assert Sound(r) by { InvSound(r); }
    LiveApart(r, b, n);
  }

  lemma InvSound(h: Heap)
    requires Inv(h)
    ensures Sound(h)
  {
  }

  /** What realloc copies fits into the new block exactly when the call is contained. */
  lemma CopyFitsIff(h: Heap, b: int, size: nat, page: Option<nat>)
    requires Inv(h) && Ready(h, size) && 0 < size < SIZE_T && Granted(h, page, WantedPages(h, size)) && b in h.live
    requires MallocResult(h, size, page).Some?
    ensures var r, n := Allocate(h, size, page), MallocResult(h, size, page).value;
            && CanFree(h, b) && CanFree(r, b) && CanFree(r, n) && Capacity(r, b) == Capacity(h, b)
            && (CopySize(r, b, size) <= Capacity(r, n) <==> Contained(h, ReallocCall(b, size, page)))
  {
    InsideArena(h, b);
    MallocSameArena(h, size, page, b);
    NewHolds(h, size, page);
    if size >= SIZE_T - 11 {
      WrappedCapacity(h, size, page);
    }
  }

  /** A size that wraps around is given one page. */
  lemma WrappedCapacity(h: Heap, size: nat, page: Option<nat>)
    requires Ready(h, size) && SIZE_T - 11 <= size < SIZE_T && page.Some?
    ensures var r, n := Allocate(h, size, page), MallocResult(h, size, page).value;
            ClassFor(size) == CLASSES && CanFree(r, n) && Capacity(r, n) == PGSIZE - HEADER
  {
    BigAddress(page.value);
  }

  /** A copy into a live block, no longer than it, is no business of the allocator's. */
  lemma CopyKeeps(m: Memory, h: Heap, from: int, to: int, n: int)
    requires Sound(h) && Represents(m, h) && to in h.live && CanFree(h, to) && n <= Capacity(h, to)
    ensures Represents(Copied(m, from, to, n), h)
  {
    hide Represents;
    hide Sound;
    hide Overhead;
    forall x | Overhead(h, x) ensures Copied(m, from, to, n)(x) == m(x) {
      if to <= x < to + n {
        LiveNotOverhead(h, to, x);
      }
    }
    SameRepresents(m, Copied(m, from, to, n), h);
  }

  /** The caller's side of a realloc that moves its block. */
  ghost predicate Moves(h: Heap, b: int, size: nat, page: Option<nat>) {
    && 0 < size && Asks(h, ReallocCall(b, size, page)) && Contained(h, ReallocCall(b, size, page))
    && MallocResult(h, size, page).Some?
  }

  /** Such a realloc allocates, copies and frees, each on memory that represents the heap so far. */
  lemma ReallocIs(m: Memory, h: Heap, b: int, size: nat, page: Option<nat>)
    requires Inv(h) && Represents(m, h) && Moves(h, b, size, page)
    ensures var h1, n := Allocate(h, size, page), MallocResult(h, size, page).value;
            && ExecMalloc(m, size, page).Done? && b in h1.live && n in h1.live && b != n && Inv(h1)
            && var m1 := ExecMalloc(m, size, page).mem;
               var m2 := Copied(m1, b, n, CopySize(h1, b, size));
               && Represents(m1, h1) && Represents(m2, h1) && ExecFree(m2, b).Done?
               && ExecRealloc(m, b, size, page) == Done(ExecFree(m2, b).mem, Some(n))
  {
    hide Represents;
    hide Sound;
    hide CountsOK;
    hide Overhead;
    hide ExecMalloc;
    hide ExecFree;
    hide Allocate;
    hide MallocResult;
    hide Granted;
    hide Capacity;
    hide Free;
    hide Copied;
    hide ArenaAsserts;
    hide SizeIn;
    hide Grown;
    hide OnlyOverhead;
    hide FreeFrame;
    hide Ready;
    hide Contained;
    MallocRefines(m, h, size, page);
    MallocKeeps(h, size, page);
    NewApart(h, size, page, b);
    CopyFitsIff(h, b, size, page);
    var h1, n, m1 := Allocate(h, size, page), MallocResult(h, size, page).value, ExecMalloc(m, size, page).mem;
    SizeReads(m1, h1, b);
    CopyKeeps(m1, h1, b, n, CopySize(h1, b, size));
    FreeRefines(Copied(m1, b, n, CopySize(h1, b, size)), h1, b);
  }

  lemma ReallocRefines(m: Memory, h: Heap, b: int, size: nat, page: Option<nat>)
    requires Inv(h) && Represents(m, h) && Asks(h, ReallocCall(b, size, page)) && Contained(h, ReallocCall(b, size, page))
    ensures var r, a := ExecRealloc(m, b, size, page), ReallocCall(b, size, page);
            && r.Done? && (size > 0 ==> r.block == MallocResult(h, size, page))
            && Inv(After(h, a)) && Represents(r.mem, After(h, a))
  {
    hide Represents;
    hide Sound;
    hide CountsOK;
    hide Overhead;
    hide ExecMalloc;
    hide ExecFree;
    hide Allocate;
    hide MallocResult;
    hide Granted;
    hide Capacity;
    hide Free;
    hide Copied;
    hide Grown;
    hide OnlyOverhead;
    hide FreeFrame;
    hide Ready;
    hide Contained;
    hide Inv;
    if size == 0 {
      FreeRefines(m, h, b);
      FreeKeeps(h, b);
    } else {
      MallocRefines(m, h, size, page);
      if MallocResult(h, size, page).Some? {
        ReallocIs(m, h, b, size, page);
        var h1, n, m1 := Allocate(h, size, page), MallocResult(h, size, page).value, ExecMalloc(m, size, page).mem;
        FreeRefines(Copied(m1, b, n, CopySize(h1, b, size)), h1, b);
        FreeKeeps(h1, b);
      } else {
        NoBlockSame(h, size, page);
      }
    }
  }

  lemma NoBlockSame(h: Heap, size: nat, page: Option<nat>)
    requires Ready(h, size) && MallocResult(h, size, page).None?
    ensures Allocate(h, size, page) == h
  {
  }

  // ---------------------------------------------------------------- what every call keeps

  /** A contained call fails no assertion and leaves memory that represents the heap it was to
      build, which is again a proper one; so does every store of a caller or of anyone else. */
  lemma StepKeeps(m: Memory, h: Heap, a: Action)
    requires Inv(h) && Represents(m, h) && Asks(h, a) && Contained(h, a)
    ensures Exec(m, a).Done? && Inv(After(h, a)) && Represents(Exec(m, a).mem, After(h, a))
  {
    hide Represents;
    hide Inv;
    hide ExecMalloc;
    hide ExecFree;
    hide ExecRealloc;
    hide OnlyOverhead;
    hide FreeFrame;
    hide Contained;
    match a
    case MallocCall(size, page) =>
      MallocRefines(m, h, size, page);
      MallocKeeps(h, size, page);
    case FreeCall(b) =>
      FreeRefines(m, h, b);
      FreeKeeps(h, b);
    case ReallocCall(b, size, page) =>
      ReallocRefines(m, h, b, size, page);
    case Store(b, o, v) =>
      StoreKeeps(m, h, b, o, v);
    case Elsewhere(x, v) =>
      ElsewhereKeeps(m, h, x, v);
  }

  lemma StoreKeeps(m: Memory, h: Heap, b: int, o: nat, v: Byte)
    requires Inv(h) && Represents(m, h) && b in h.live && CanFree(h, b) && o < Capacity(h, b)
    ensures Represents(Stored(m, b + o, v), h)
  {
    hide Represents;
    hide Overhead;
    LiveNotOverhead(h, b, b + o);
    SameRepresents(m, Stored(m, b + o, v), h);
  }

  lemma ElsewhereKeeps(m: Memory, h: Heap, x: int, v: Byte)
    requires Inv(h) && Represents(m, h) && !Taken(h, x)
    ensures Represents(Stored(m, x, v), h)
  {
    hide Represents;
    hide Overhead;
    if Overhead(h, x) {
      OverheadPage(h, x);
    }
    SameRepresents(m, Stored(m, x, v), h);
  }

  /** Every other contained call leaves a block handed out, where it is, with the bytes it held. */
  lemma OthersPreserve(m: Memory, h: Heap, a: Action, b: int, x: int)
    requires Inv(h) && Represents(m, h) && Asks(h, a) && Contained(h, a) && b in h.live && InBlock(h, b, x) && !About(a, b)
    ensures Exec(m, a).Done? && b in After(h, a).live && InBlock(After(h, a), b, x) && Exec(m, a).mem(x) == m(x)
  {
    hide Represents;
    hide Inv;
    hide ExecMalloc;
    hide ExecFree;
    hide ExecRealloc;
    hide Contained;
    match a
    case MallocCall(size, page) => MallocPreserves(m, h, size, page, b, x);
    case FreeCall(c) => FreePreserves(m, h, c, b, x);
    case ReallocCall(c, size, page) => ReallocPreserves(m, h, c, size, page, b, x);
    case Store(c, o, v) =>
      InvSound(h);
      LiveApart(h, b, c);
    case Elsewhere(y, v) =>
      InvSound(h);
      InBlockPage(h, b, x);
  }

  lemma ReallocPreserves(m: Memory, h: Heap, c: int, size: nat, page: Option<nat>, b: int, x: int)
    requires Inv(h) && Represents(m, h) && b in h.live && InBlock(h, b, x) && b != c
    requires Asks(h, ReallocCall(c, size, page)) && Contained(h, ReallocCall(c, size, page))
    ensures var r, a := ExecRealloc(m, c, size, page), ReallocCall(c, size, page);
            r.Done? && b in After(h, a).live && InBlock(After(h, a), b, x) && r.mem(x) == m(x)
  {
    hide Represents;
    hide Inv;
    hide ExecMalloc;
    hide ExecFree;
    hide Allocate;
    hide Granted;
    hide Capacity;
    hide Free;
    hide Copied;
    hide Ready;
    hide Contained;
    hide MallocResult;
    hide InBlock;
    if size == 0 {
      FreePreserves(m, h, c, b, x);
    } else {
      MallocPreserves(m, h, size, page, b, x);
      if MallocResult(h, size, page).Some? {
        MovePreserves(m, h, c, size, page, b, x);
      } else {
        NoBlockSame(h, size, page);
        NoBlockExec(m, h, size, page);
      }
    }
  }

  lemma NoBlockExec(m: Memory, h: Heap, size: nat, page: Option<nat>)
    requires Inv(h) && Represents(m, h) && Granted(h, page, WantedPages(h, size)) && MallocResult(h, size, page).None?
    ensures ExecMalloc(m, size, page).Done? && ExecMalloc(m, size, page).block == None
  {
    hide Represents;
    hide Inv;
    hide ExecMalloc;
    MallocRefines(m, h, size, page);
  }

  lemma MovePreserves(m: Memory, h: Heap, c: int, size: nat, page: Option<nat>, b: int, x: int)
    requires Inv(h) && Represents(m, h) && b in h.live && InBlock(h, b, x) && b != c && Moves(h, c, size, page)
    ensures var r, a := ExecRealloc(m, c, size, page), ReallocCall(c, size, page);
            r.Done? && b in After(h, a).live && InBlock(After(h, a), b, x) && r.mem(x) == m(x)
  {
    hide Represents;
    hide Inv;
    hide ExecMalloc;
    hide ExecFree;
    hide ExecRealloc;
    hide Allocate;
    hide Granted;
    hide Capacity;
    hide Free;
    hide Ready;
    hide Contained;
    hide MallocResult;
    ReallocIs(m, h, c, size, page);
    MallocPreserves(m, h, size, page, b, x);
    NewApart(h, size, page, b);
    CopyFitsIff(h, c, size, page);
    var h1, n, m1 := Allocate(h, size, page), MallocResult(h, size, page).value, ExecMalloc(m, size, page).mem;
    var m2 := Copied(m1, c, n, CopySize(h1, c, size));
    assert m2(x) == m1(x);
    hide Copied;
    FreePreserves(m2, h1, c, b, x);
  }

  /** realloc moves a block: the bytes it held, as many as were asked for, are in the new one. */
  lemma ReallocCopies(m: Memory, h: Heap, b: int, size: nat, page: Option<nat>, i: int)
    requires Inv(h) && Represents(m, h) && Moves(h, b, size, page) && 0 <= i < size && CanFree(h, b) && i < Capacity(h, b)
    ensures var r, h', n := ExecRealloc(m, b, size, page), After(h, ReallocCall(b, size, page)), MallocResult(h, size, page).value;
            && r.Done? && r.block == Some(n) && n in h'.live && h'.live[n] == size && InBlock(h', n, n + i)
            && r.mem(n + i) == m(b + i) && b !in h'.live
  {
    hide Represents;
    hide Inv;
    hide ExecMalloc;
    hide ExecFree;
    hide ExecRealloc;
    hide Allocate;
    hide Granted;
    hide Free;
    hide MallocResult;
    hide Capacity;
    hide Contained;
    hide Copied;
    hide CopySize;
    hide CanFree;
    ReallocIs(m, h, b, size, page);
    MallocPreserves(m, h, size, page, b, b + i);
    CopyFits(h, b, size, page, i);
    var h1, n, m1 := Allocate(h, size, page), MallocResult(h, size, page).value, ExecMalloc(m, size, page).mem;
    CopiedThenFreed(m1, h1, b, n, CopySize(h1, b, size), i);
  }

  lemma CopyFits(h: Heap, b: int, size: nat, page: Option<nat>, i: int)
    requires Inv(h) && Moves(h, b, size, page) && 0 <= i < size && i < Capacity(h, b) && b in h.live
    ensures var h1, n := Allocate(h, size, page), MallocResult(h, size, page).value;
            && CanFree(h1, b) && i < CopySize(h1, b, size) && InBlock(h1, n, n + i)
            && n in h1.live && h1.live[n] == size
  {
    hide Inv;
    hide Granted;
    hide Allocate;
    hide MallocResult;
    hide Capacity;
    hide Contained;
    CopyFitsIff(h, b, size, page);
    NewHolds(h, size, page);
  }

  /** After the copy, freeing the old block leaves the new one alone. */
  lemma CopiedThenFreed(m: Memory, h: Heap, b: int, n: int, k: int, i: int)
    requires Inv(h) && b in h.live && n in h.live && b != n && 0 <= i < k && InBlock(h, n, n + i)
    requires Represents(Copied(m, b, n, k), h)
    ensures CanFree(h, b) && ExecFree(Copied(m, b, n, k), b).Done?
    ensures var r := Free(h, b);
            && n in r.live && r.live[n] == h.live[n] && InBlock(r, n, n + i) && b !in r.live
            && ExecFree(Copied(m, b, n, k), b).mem(n + i) == m(b + i)
  {
    hide Inv;
    hide Represents;
    hide ExecFree;
    hide Free;
    hide Copied;
    hide InBlock;
    CopiedAt(m, b, n, k, i);
    FreePreserves(Copied(m, b, n, k), h, b, n, n + i);
    FreeLive(h, b);
  }

  lemma CopiedAt(m: Memory, from: int, to: int, n: int, i: int)
    requires 0 <= i < n
    ensures Copied(m, from, to, n)(to + i) == m(from + i)
  {
  }

  lemma FreeLive(h: Heap, b: int)
    requires CanFree(h, b)
    ensures Free(h, b).live == h.live - {b}
  {
  }

  // ---------------------------------------------------------------- runs

  ghost predicate Init(s: Machine) {
    s.heap == Empty() && exists m: Memory :: s.mem == InitDescs(m, CLASSES)
  }

  ghost predicate IsRun(ss: seq<Machine>, acts: seq<Action>) {
    |ss| == |acts| + 1 && Init(ss[0]) && forall i | 0 <= i < |acts| :: Step(ss[i], acts[i], ss[i + 1])
  }

  /** The first `n` calls of a run were contained. */
  ghost predicate ContainedTo(ss: seq<Machine>, acts: seq<Action>, n: nat)
    requires |ss| == |acts| + 1 && n < |ss|
  {
    forall i | 0 <= i < n :: Contained(ss[i].heap, acts[i])
  }

  /** As long as every call was contained, memory holds a proper heap: headers, descriptors and
      links are what the allocator last stored. */
  lemma {:induction false} RunInvariant(ss: seq<Machine>, acts: seq<Action>, n: nat)
    requires IsRun(ss, acts) && n < |ss| && ContainedTo(ss, acts, n)
    ensures Inv(ss[n].heap) && Represents(ss[n].mem, ss[n].heap)
  {
    hide Inv;
    hide Represents;
    hide Contained;
    hide Asks;
    hide After;
    hide Exec;
    if n == 0 {
      EmptyHeap();
      var m: Memory :| ss[0].mem == InitDescs(m, CLASSES);
      InitRepresents(m);
    } else {
      RunInvariant(ss, acts, n - 1);
      assert Step(ss[n - 1], acts[n - 1], ss[n - 1 + 1]) && Contained(ss[n - 1].heap, acts[n - 1]);
      StepKeeps(ss[n - 1].mem, ss[n - 1].heap, acts[n - 1]);
    }
  }

  /** And the next call, contained too, meets no failing assertion. */
  lemma RunProceeds(ss: seq<Machine>, acts: seq<Action>, n: nat, a: Action)
    requires IsRun(ss, acts) && n < |ss| && ContainedTo(ss, acts, n) && Asks(ss[n].heap, a) && Contained(ss[n].heap, a)
    ensures Exec(ss[n].mem, a).Done?
  {
    hide Inv;
    hide Represents;
    hide Contained;
    hide Asks;
    hide IsRun;
    hide ContainedTo;
    RunInvariant(ss, acts, n);
    StepKeeps(ss[n].mem, ss[n].heap, a);
  }

  /** Live blocks are then apart from one another and from every byte the allocator keeps. */
  lemma RunApart(ss: seq<Machine>, acts: seq<Action>, n: nat, b: int, c: int)
    requires IsRun(ss, acts) && n < |ss| && ContainedTo(ss, acts, n) && b in ss[n].heap.live && c in ss[n].heap.live
    ensures CanFree(ss[n].heap, b) && CanFree(ss[n].heap, c)
    ensures b != c ==> Apart(b, Capacity(ss[n].heap, b), c, Capacity(ss[n].heap, c))
    ensures forall x | InBlock(ss[n].heap, b, x) :: !Overhead(ss[n].heap, x)
    ensures SizeIn(ss[n].mem, b) == Capacity(ss[n].heap, b)
  {
    hide IsRun;
    hide ContainedTo;
    RunInvariant(ss, acts, n);
    InvSound(ss[n].heap);
    hide Inv;
    hide Sound;
    hide Represents;
    hide Overhead;
    SizeReads(ss[n].mem, ss[n].heap, b);
    SizeReads(ss[n].mem, ss[n].heap, c);
    if b != c {
      LiveApart(ss[n].heap, b, c);
    }
    forall x | InBlock(ss[n].heap, b, x) ensures !Overhead(ss[n].heap, x) {
      LiveNotOverhead(ss[n].heap, b, x);
    }
  }

  /** A block keeps its bytes from one moment of a run to any later one, as long as no call is
      about it. */
  lemma {:induction false} RunPreserves(ss: seq<Machine>, acts: seq<Action>, i: nat, j: nat, b: int, x: int)
    requires IsRun(ss, acts) && i <= j < |ss| && b in ss[i].heap.live && InBlock(ss[i].heap, b, x)
    requires ContainedTo(ss, acts, j) && forall m | i <= m < j :: !About(acts[m], b)
    ensures b in ss[j].heap.live && InBlock(ss[j].heap, b, x) && ss[j].mem(x) == ss[i].mem(x)
    decreases j
  {
    hide Inv;
    hide Represents;
    hide Asks;
    hide After;
    hide Exec;
    hide About;
    hide Contained;
    hide InBlock;
    hide Init;
    if i < j {
      RunPreserves(ss, acts, i, j - 1, b, x);
      RunInvariant(ss, acts, j - 1);
      assert Step(ss[j - 1], acts[j - 1], ss[j - 1 + 1]) && Contained(ss[j - 1].heap, acts[j - 1]);
      OthersPreserve(ss[j - 1].mem, ss[j - 1].heap, acts[j - 1], b, x);
    }
  }

  // ---------------------------------------------------------------- requested sizes

  /** The page allocator answers a request whose size wraps around. */
  predicate Oversized(a: Action) {
    (a.MallocCall? || a.ReallocCall?) && a.size >= SIZE_T - 11 && a.page.Some?
  }

  lemma {:induction false} HeapInvariant(ss: seq<Machine>, acts: seq<Action>, n: nat)
    requires IsRun(ss, acts) && n < |ss|
    ensures Inv(ss[n].heap)
  {
    hide Inv;
    hide Asks;
    hide After;
    hide Exec;
    if n == 0 {
      EmptyHeap();
    } else {
      HeapInvariant(ss, acts, n - 1);
      assert Step(ss[n - 1], acts[n - 1], ss[n - 1 + 1]);
      AfterKeeps(ss[n - 1].heap, acts[n - 1]);
    }
  }

  lemma AfterKeeps(h: Heap, a: Action)
    requires Inv(h) && Asks(h, a)
    ensures Inv(After(h, a))
  {
    hide Inv;
    hide Granted;
    match a
    case MallocCall(size, page) => MallocKeeps(h, size, page);
    case FreeCall(b) => FreeKeeps(h, b);
    case ReallocCall(b, size, page) =>
      if size == 0 {
        FreeKeeps(h, b);
      } else {
        MallocKeeps(h, size, page);
        if MallocResult(h, size, page).Some? {
          MallocSameArena(h, size, page, b);
          FreeKeeps(Allocate(h, size, page), b);
        }
      }
    case Store(_, _, _) =>
    case Elsewhere(_, _) =>
  }

  /** A call leaves some block with less than was asked for exactly when it is oversized. */
  lemma AfterHolds(h: Heap, a: Action)
    requires Inv(h) && SizesOK(h) && Asks(h, a)
    ensures SizesOK(After(h, a)) <==> !Oversized(a)
  {
    hide Inv;
    hide SizesOK;
    hide Granted;
    match a
    case MallocCall(size, page) => MallocHolds(h, size, page);
    case FreeCall(b) => FreeHolds(h, b);
    case ReallocCall(b, size, page) =>
      if size == 0 {
        FreeHolds(h, b);
      } else if MallocResult(h, size, page).Some? {
        MallocKeeps(h, size, page);
        MallocSameArena(h, size, page, b);
        MallocHolds(h, size, page);
        if Oversized(a) {
          StillShort(h, b, size, page);
        } else {
          FreeHolds(Allocate(h, size, page), b);
        }
      }
    case Store(_, _, _) =>
    case Elsewhere(_, _) =>
  }

  /** The new block is short after the old one is gone. */
  lemma StillShort(h: Heap, b: int, size: nat, page: Option<nat>)
    requires Inv(h) && b in h.live && Ready(h, size) && SIZE_T - 11 <= size < SIZE_T && page.Some?
    requires Granted(h, page, WantedPages(h, size)) && CanFree(Allocate(h, size, page), b)
    ensures !SizesOK(Free(Allocate(h, size, page), b))
  {
    MallocKeeps(h, size, page);
    MallocSameArena(h, size, page, b);
    NewIsNew(h, size, page);
    NewHolds(h, size, page);
    hide Inv;
    hide Allocate;
    var h1, n := Allocate(h, size, page), MallocResult(h, size, page).value;
    FreeSameArena(h1, b, n);
    FreeLive(h1, b);
  }

  /** Up to a moment of a run every live block always held what was asked for if and only if no
      oversized request was granted. */
  lemma {:induction false} RunHolds(ss: seq<Machine>, acts: seq<Action>, n: nat)
    requires IsRun(ss, acts) && n < |ss|
    ensures (forall k | 0 <= k <= n :: SizesOK(ss[k].heap)) <==> (forall k | 0 <= k < n :: !Oversized(acts[k]))
  {
    hide Inv;
    hide SizesOK;
    hide Asks;
    hide After;
    hide Exec;
    hide Oversized;
    if n == 0 {
      EmptyHeap();
    } else {
      RunHolds(ss, acts, n - 1);
      assert Step(ss[n - 1], acts[n - 1], ss[n - 1 + 1]);
      HeapInvariant(ss, acts, n - 1);
      if SizesOK(ss[n - 1].heap) {
        AfterHolds(ss[n - 1].heap, acts[n - 1]);
      }
      assert SizesOK(ss[n].heap) && SizesOK(ss[n - 1].heap) ==> !Oversized(acts[n - 1]);
    }
  }

  /** Without oversized grants every call is contained. */
  lemma OversizedOnly(ss: seq<Machine>, acts: seq<Action>, n: nat)
    requires IsRun(ss, acts) && n < |ss| && forall k | 0 <= k < n :: !Oversized(acts[k])
    ensures ContainedTo(ss, acts, n)
  {
    forall i | 0 <= i < n ensures Contained(ss[i].heap, acts[i]) {
      assert !Oversized(acts[i]);
    }
  }
}
