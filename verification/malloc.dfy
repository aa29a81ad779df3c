/** The block allocator: size classes with free lists, carved from pages that hold a header. */
module Malloc {
  import opened Collections
  import opened Arithmetic

  const PGSIZE := 4096
  const HEADER := 12            // sizeof (struct arena)
  const SIZE_T := 0x1_0000_0000
  const PAGES := 0x10_0000      // pages of a 32-bit address space

  /** A page of blocks of one size class, or a run of pages holding one big block. */
  datatype Arena = Small(desc: nat, freeCount: int) | Big(pages: nat)

  /** Arenas by page number, a free list per size class, and as history the requested size of
      every block handed out. */
  datatype Heap = Heap(arenas: map<nat, Arena>, free: seq<seq<int>>, live: map<int, nat>)

  // ---------------------------------------------------------------- size classes and addresses

  const CLASSES := 7

  function BlockSize(d: nat): (n: nat)
    requires d < CLASSES
    ensures 16 <= n <= 1024
  {
    if d == 0 then 16 else if d == 1 then 32 else if d == 2 then 64 else if d == 3 then 128
    else if d == 4 then 256 else if d == 5 then 512 else 1024
  }

  function PerArena(d: nat): (n: nat)
    requires d < CLASSES
    ensures n >= 3
  {
    (PGSIZE - HEADER) / BlockSize(d)
  }

  /** The smallest class that fits, or CLASSES. */
  function ClassFor(size: nat): (d: nat)
    ensures d <= CLASSES
    ensures d < CLASSES ==> BlockSize(d) >= size
    ensures forall c | 0 <= c < d && c < CLASSES :: BlockSize(c) < size
  {
    if size <= 16 then 0 else if size <= 32 then 1 else if size <= 64 then 2 else if size <= 128 then 3
    else if size <= 256 then 4 else if size <= 512 then 5 else if size <= 1024 then 6 else 7
  }

  function Block(p: nat, d: nat, i: nat): (b: int)
    requires d < CLASSES
  {
    p * PGSIZE + HEADER + i * BlockSize(d)
  }

  function PageOf(b: int): (p: int) {
    b / PGSIZE
  }

  /** What block_to_arena's assertions test, and which block of the arena it is. */
  predicate IsBlock(b: int, d: nat)
    requires d < CLASSES
  {
    b >= 0 && b % PGSIZE >= HEADER && (b % PGSIZE - HEADER) % BlockSize(d) == 0 && Index(b, d) < PerArena(d)
  }

  function Index(b: int, d: nat): (i: nat)
    requires d < CLASSES && b % PGSIZE >= HEADER
  {
    (b % PGSIZE - HEADER) / BlockSize(d)
  }

  lemma Fits(d: nat, i: nat)
    requires d < CLASSES && i < PerArena(d)
    ensures 0 <= i * BlockSize(d) && HEADER + i * BlockSize(d) + BlockSize(d) <= PGSIZE
    ensures i * BlockSize(d) % BlockSize(d) == 0 && i * BlockSize(d) / BlockSize(d) == i
  {
    var n := BlockSize(d);
    hide BlockSize;
    QuotientBound(PGSIZE - HEADER, n);
    MulLe(i + 1, PerArena(d), n);
    assert (i + 1) * n == i * n + n;
    QuotientUnique(i * n, n, i);
    assert i * n % n == i * n - i * n / n * n;
  }

  /** arena_to_block and block_to_arena are inverse. */
  lemma ArenaOfBlock(p: nat, d: nat, i: nat)
    requires d < CLASSES && i < PerArena(d)
    ensures var b := Block(p, d, i); PageOf(b) == p && IsBlock(b, d) && Index(b, d) == i
  {
    Fits(d, i);
    hide BlockSize;
    hide PerArena;
    var b := Block(p, d, i);
    assert b / PGSIZE == p && b % PGSIZE == HEADER + i * BlockSize(d);
  }

  lemma BlockOfArena(b: int, d: nat)
    requires d < CLASSES && IsBlock(b, d)
    ensures PageOf(b) >= 0 && b == Block(PageOf(b), d, Index(b, d)) && Index(b, d) < PerArena(d)
  {
    var o := b % PGSIZE - HEADER;
    assert o == o / BlockSize(d) * BlockSize(d) + o % BlockSize(d);
  }

  // ---------------------------------------------------------------- operations

  /** All blocks of a new arena, in the order they are put on the free list. */
  function Blocks(p: nat, d: nat): (bs: seq<int>)
    requires d < CLASSES
    ensures |bs| == PerArena(d)
  {
    seq(PerArena(d), i requires 0 <= i => Block(p, d, i))
  }

  function AddArena(h: Heap, d: nat, p: nat): (r: Heap)
    requires d < CLASSES == |h.free|
  {
    h.(arenas := h.arenas[p := Small(d, PerArena(d))], free := h.free[d := h.free[d] + Blocks(p, d)])
  }

  /** Takes the front block of a free list. */
  function TakeBlock(h: Heap, d: nat, size: nat): (r: Heap)
    requires d < CLASSES == |h.free| && h.free[d] != []
    requires PageOf(h.free[d][0]) in h.arenas && h.arenas[PageOf(h.free[d][0])].Small?
  {
    var b := h.free[d][0];
    var a := h.arenas[PageOf(b)];
    Heap(h.arenas[PageOf(b) := a.(freeCount := a.freeCount - 1)], h.free[d := h.free[d][1..]], h.live[b := size])
  }

  /** Pages for a big block, computed in the 32 bits of size_t. */
  function BigPages(size: nat): (n: nat) {
    (size + HEADER + PGSIZE - 1) % SIZE_T / PGSIZE
  }

  /** How many pages malloc asks the page allocator for, if it asks. */
  function WantedPages(h: Heap, size: nat): (n: nat)
    requires |h.free| == CLASSES
  {
    if size == 0 then 0
    else if ClassFor(size) == CLASSES then BigPages(size)
    else if h.free[ClassFor(size)] == [] then 1 else 0
  }

  /** The page allocator's answer: nothing, or a run of pages this heap does not have. */
  ghost predicate Granted(h: Heap, page: Option<nat>, n: nat) {
    page.Some? ==>
      && n > 0 && page.value > 0 && page.value + n <= PAGES
      && forall p, q | Covers(h, p, q) :: !(page.value <= q < page.value + n)
  }

  predicate Covers(h: Heap, p: nat, q: int) {
    p in h.arenas && match h.arenas[p] { case Small(_, _) => q == p case Big(n) => p <= q < p + n }
  }

  predicate CanTake(h: Heap, d: nat) {
    d < CLASSES == |h.free| && h.free[d] != [] &&
    PageOf(h.free[d][0]) in h.arenas && h.arenas[PageOf(h.free[d][0])].Small?
  }

  /** malloc: the block, if any, and the heap. */
  function MallocResult(h: Heap, size: nat, page: Option<nat>): (b: Option<int>)
    requires |h.free| == CLASSES
  {
    var d := ClassFor(size);
    if size == 0 then None
    else if d == CLASSES then (if page.Some? then Some(page.value * PGSIZE + HEADER) else None)
    else if h.free[d] != [] then Some(h.free[d][0])
    else if page.Some? then Some(Block(page.value, d, 0)) else None
  }

  /** A free list that malloc will take from leads to a block of a small arena. */
  predicate Ready(h: Heap, size: nat) {
    |h.free| == CLASSES && (size > 0 && ClassFor(size) < CLASSES && h.free[ClassFor(size)] != [] ==> CanTake(h, ClassFor(size)))
  }

  function Allocate(h: Heap, size: nat, page: Option<nat>): (r: Heap)
    requires Ready(h, size)
  {
    var d := ClassFor(size);
    if size == 0 then h
    else if d == CLASSES then
      if page.None? then h
      else h.(arenas := h.arenas[page.value := Big(BigPages(size))], live := h.live[page.value * PGSIZE + HEADER := size])
    else if h.free[d] != [] then TakeBlock(h, d, size)
    else if page.None? then h
    else
      ArenaOfBlock(page.value, d, 0);
      assert AddArena(h, d, page.value).free[d][0] == Block(page.value, d, 0);
      TakeBlock(AddArena(h, d, page.value), d, size)
  }

  /** The blocks of a list outside page `p`. */
  function Outside(bs: seq<int>, p: int): (r: seq<int>) {
    if bs == [] then [] else (if PageOf(bs[0]) == p then [] else [bs[0]]) + Outside(bs[1..], p)
  }

  function RemoveArena(h: Heap, d: nat, p: nat): (r: Heap)
    requires d < CLASSES == |h.free|
  {
    h.(arenas := h.arenas - {p}, free := h.free[d := Outside(h.free[d], p)])
  }

  /** A block goes back to the front of its free list. */
  function PutBlock(h: Heap, b: int): (r: Heap)
    requires |h.free| == CLASSES && PageOf(b) in h.arenas && h.arenas[PageOf(b)].Small? && h.arenas[PageOf(b)].desc < CLASSES
  {
    var a := h.arenas[PageOf(b)];
    Heap(h.arenas[PageOf(b) := a.(freeCount := a.freeCount + 1)], h.free[a.desc := [b] + h.free[a.desc]], h.live - {b})
  }

  predicate CanFree(h: Heap, b: int) {
    && |h.free| == CLASSES && PageOf(b) in h.arenas
    && (h.arenas[PageOf(b)].Small? ==> h.arenas[PageOf(b)].desc < CLASSES)
  }

  /** free of a block that is not null. */
  function Free(h: Heap, b: int): (r: Heap)
    requires CanFree(h, b)
  {
    var p := PageOf(b);
    match h.arenas[p]
    case Big(_) => h.(arenas := h.arenas - {p}, live := h.live - {b})
    case Small(d, n) => if n + 1 >= PerArena(d) then RemoveArena(PutBlock(h, b), d, p) else PutBlock(h, b)
  }

  /** The pages free returns to the page allocator. */
  function Returned(h: Heap, b: int): (n: nat)
    requires CanFree(h, b)
  {
    match h.arenas[PageOf(b)]
    case Big(n) => n
    case Small(d, n) => if n + 1 >= PerArena(d) then 1 else 0
  }

  /** The bytes a block offers. */
  function Capacity(h: Heap, b: int): (n: int)
    requires CanFree(h, b)
  {
    match h.arenas[PageOf(b)]
    case Small(d, _) => BlockSize(d)
    case Big(n) => n * PGSIZE - b % PGSIZE
  }
}
