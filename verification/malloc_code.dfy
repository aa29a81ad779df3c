/** malloc, free and realloc as they read and write memory: everything they know they find in
    arena headers, descriptors and free blocks. */
module MallocCode {
  import opened Collections
  import opened InodeIo
  import opened DiskFormat
  import opened Malloc
  import opened MallocWords

  const ARENA_MAGIC := 0x9a54_8eed
  const DESC := 48              // sizeof (struct desc)
  const DESCS := 1024           // where the descriptors are: below every page that is handed out

  /** What a call comes to: a failed assertion, or the memory and the block it returns, if any. */
  datatype Outcome = Fails | Done(mem: Memory, block: Option<int>)

  // ---------------------------------------------------------------- fields

  function Desc(d: nat): (a: nat) {
    DESCS + DESC * d
  }

  function BlockSizeIn(m: Memory, desc: int): (n: nat) {
    Get(m, desc)
  }

  function PerArenaIn(m: Memory, desc: int): (n: nat) {
    Get(m, desc + 4)
  }

  /** The list's head and tail elements, inside the descriptor. */
  function Head(desc: int): (e: int) {
    desc + 8
  }

  function Tail(desc: int): (e: int) {
    desc + 16
  }

  function MagicIn(m: Memory, a: int): (v: nat) {
    Get(m, a)
  }

  function DescIn(m: Memory, a: int): (v: nat) {
    Get(m, a + 4)
  }

  function CountIn(m: Memory, a: int): (v: nat) {
    Get(m, a + 8)
  }

  function SetCount(m: Memory, a: int, n: nat): (r: Memory) {
    Put(m, a + 8, n)
  }

  function SetHeader(m: Memory, a: int, desc: nat, n: nat): (r: Memory) {
    SetCount(Put(Put(m, a, ARENA_MAGIC), a + 4, desc), a, n)
  }

  function PageStart(b: int): (a: int) {
    b - b % PGSIZE
  }

  // ---------------------------------------------------------------- arenas and lists

  /** block_to_arena's assertions. */
  predicate ArenaAsserts(m: Memory, b: int) {
    var a := PageStart(b);
    var desc := DescIn(m, a);
    && a != 0 && MagicIn(m, a) == ARENA_MAGIC
    && if desc == 0 then b % PGSIZE == HEADER
       else BlockSizeIn(m, desc) != 0 && (b % PGSIZE - HEADER) % WORD % BlockSizeIn(m, desc) == 0
  }

  /** arena_to_block's assertions. */
  predicate BlockAsserts(m: Memory, a: int, i: nat) {
    a != 0 && MagicIn(m, a) == ARENA_MAGIC && i < PerArenaIn(m, DescIn(m, a))
  }

  function BlockAt(m: Memory, a: int, i: nat): (b: int) {
    a + HEADER + i * BlockSizeIn(m, DescIn(m, a))
  }

  function Insert(m: Memory, before: int, elem: int): (r: Option<Memory>) {
    if before > 0 && elem > 0 && (IsInterior(m, before) || IsTail(m, before)) then Some(ListInsert(m, before, elem)) else None
  }

  function Remove(m: Memory, elem: int): (r: Option<Memory>) {
    if elem > 0 && IsInterior(m, elem) then Some(ListRemove(m, elem)) else None
  }

  /** The first `n` blocks of an arena pushed on the back of the list. */
  function PushBlocks(m: Memory, desc: int, a: int, n: nat): (r: Option<Memory>) {
    if n == 0 then Some(m)
    else
      match PushBlocks(m, desc, a, n - 1)
      case None => None
      case Some(m1) => if BlockAsserts(m1, a, n - 1) then Insert(m1, Tail(desc), BlockAt(m1, a, n - 1)) else None
  }

  /** The first `n` blocks of an arena taken off their list. */
  function RemoveBlocks(m: Memory, a: int, n: nat): (r: Option<Memory>) {
    if n == 0 then Some(m)
    else
      match RemoveBlocks(m, a, n - 1)
      case None => None
      case Some(m1) => if BlockAsserts(m1, a, n - 1) then Remove(m1, BlockAt(m1, a, n - 1)) else None
  }

  function NewArena(m: Memory, desc: nat, a: int): (r: Option<Memory>) {
    PushBlocks(SetHeader(m, a, desc, PerArenaIn(m, desc)), desc, a, PerArenaIn(m, desc))
  }

  // ---------------------------------------------------------------- the calls

  /** The first descriptor from `d` on whose blocks are large enough, or CLASSES. */
  function FindDesc(m: Memory, size: nat, d: nat): (r: nat)
    decreases CLASSES - d
  {
    if d >= CLASSES || BlockSizeIn(m, Desc(d)) >= size then d else FindDesc(m, size, d + 1)
  }

  /** Pops the front of a free list and counts it as handed out. */
  function TakeFront(m: Memory, desc: int): (r: Outcome) {
    var b := Next(m, Head(desc));
    if b == Tail(desc) then Fails
    else
      match Remove(m, b)
      case None => Fails
      case Some(m1) =>
        if !ArenaAsserts(m1, b) then Fails
        else Done(SetCount(m1, PageStart(b), (CountIn(m1, PageStart(b)) + WORD - 1) % WORD), Some(b))
  }

  function ExecMalloc(m: Memory, size: nat, page: Option<nat>): (r: Outcome) {
    if size == 0 then Done(m, None)
    else
      var d := FindDesc(m, size, 0);
      if d >= CLASSES then
        if page.None? then Done(m, None)
        else Done(SetHeader(m, page.value * PGSIZE, 0, BigPages(size)), Some(page.value * PGSIZE + HEADER))
      else if Next(m, Head(Desc(d))) != Tail(Desc(d)) then TakeFront(m, Desc(d))
      else if page.None? then Done(m, None)
      else
        match NewArena(m, Desc(d), page.value * PGSIZE)
        case None => Fails
        case Some(m1) => TakeFront(m1, Desc(d))
  }

  const JUNK: Byte := 0xcc

  /** A block filled, put on the front of its list and counted as free. */
  function PutBack(m: Memory, a: int, desc: int, b: int): (r: Option<Memory>) {
    var m1 := Filled(m, b, BlockSizeIn(m, desc), JUNK);
    match Insert(m1, Next(m1, Head(desc)), b)
    case None => None
    case Some(m2) => Some(SetCount(m2, a, (CountIn(m2, a) + 1) % WORD))
  }

  /** free of a block of an arena with a descriptor; an arena with no block handed out goes back. */
  function FreeSmall(m: Memory, a: int, desc: int, b: int): (r: Outcome) {
    match PutBack(m, a, desc, b)
    case None => Fails
    case Some(m1) =>
      var n := CountIn(m1, a);
      if n < PerArenaIn(m1, desc) then Done(m1, None)
      else if n != PerArenaIn(m1, desc) then Fails
      else
        match RemoveBlocks(m1, a, n)
        case None => Fails
        case Some(m2) => Done(Filled(m2, a, PGSIZE, JUNK), None)
  }

  function ExecFree(m: Memory, b: int): (r: Outcome) {
    if b == 0 then Done(m, None)
    else if !ArenaAsserts(m, b) then Fails
    else
      var a := PageStart(b);
      if DescIn(m, a) != 0 then FreeSmall(m, a, DescIn(m, a), b)
      else Done(Filled(m, a, CountIn(m, a) * PGSIZE, JUNK), None)
  }

  /** block_size. */
  function SizeIn(m: Memory, b: int): (n: int) {
    var a := PageStart(b);
    if DescIn(m, a) != 0 then BlockSizeIn(m, DescIn(m, a)) else PGSIZE * CountIn(m, a) - b % PGSIZE
  }

  function ExecRealloc(m: Memory, b: int, size: nat, page: Option<nat>): (r: Outcome) {
    if size == 0 then ExecFree(m, b)
    else
      match ExecMalloc(m, size, page)
      case Fails => Fails
      case Done(m1, None) => Done(m1, None)
      case Done(m1, Some(n)) =>
        if b == 0 then Done(m1, Some(n))
        else if !ArenaAsserts(m1, b) then Fails
        else
          var k := if size < SizeIn(m1, b) then size else SizeIn(m1, b);
          match ExecFree(Copied(m1, b, n, k), b)
          case Fails => Fails
          case Done(m2, _) => Done(m2, Some(n))
  }

  /** malloc_init for one descriptor: its sizes and its empty list. */
  function InitDesc(m: Memory, d: nat): (r: Memory)
    requires d < CLASSES
  {
    var desc := Desc(d);
    var m1 := Put(Put(m, desc, BlockSize(d)), desc + 4, PerArena(d));
    SetNext(SetPrev(SetNext(SetPrev(m1, Head(desc), 0), Head(desc), Tail(desc)), Tail(desc), Head(desc)), Tail(desc), 0)
  }

  /** malloc_init for the first `n` descriptors. */
  function InitDescs(m: Memory, n: nat): (r: Memory)
    requires n <= CLASSES
  {
    if n == 0 then m else InitDesc(InitDescs(m, n - 1), n - 1)
  }
}
