/** A run with a realloc that is not contained: it writes over another caller's block and over the
    header of its arena. */
module MallocOverrun {
  import opened Collections
  import opened Malloc
  import opened MallocInvariant
  import opened MallocWords
  import opened MallocCode
  import opened MallocLayout
  import opened MallocAllocation
  import opened MallocRelease
  import opened MallocInit
  import opened MallocMemory

  const OLD := 10 * PGSIZE + HEADER
  const NEW := 20 * PGSIZE + HEADER
  const OTHER := 21 * PGSIZE + HEADER
  const HUGE := SIZE_T - 1

  /** Ones in the two pages at 10, zeros elsewhere. */
  function Ones(): (m: Memory) {
    x => if OLD <= x < 12 * PGSIZE then 1 else 0
  }

  function OneBlock(): (h: Heap) {
    Empty().(arenas := map[10 := Big(2)], live := map[OLD := 5000])
  }

  function TwoBlocks(): (h: Heap) {
    Empty().(arenas := map[10 := Big(2), 21 := Big(1)], live := map[OLD := 5000, OTHER := 2000])
  }

  function ThreeBlocks(): (h: Heap) {
    Empty().(arenas := map[10 := Big(2), 20 := Big(1), 21 := Big(1)], live := map[OLD := 5000, OTHER := 2000, NEW := HUGE])
  }

  function Moved(): (h: Heap) {
    Empty().(arenas := map[20 := Big(1), 21 := Big(1)], live := map[NEW := HUGE, OTHER := 2000])
  }

  function MemOf(o: Outcome): (m: Memory) {
    if o.Done? then o.mem else Ones()
  }

  function Start(): (m: Memory) {
    InitDescs(Ones(), CLASSES)
  }

  function First(): (m: Memory) {
    MemOf(ExecMalloc(Start(), 5000, Some(10)))
  }

  function Second(): (m: Memory) {
    MemOf(ExecMalloc(First(), 2000, Some(21)))
  }

  function Last(): (m: Memory) {
    MemOf(ExecRealloc(Second(), OLD, HUGE, Some(20)))
  }

  /** malloc of 5000 bytes at page 10 and of 2000 bytes at page 21, then realloc of the first to
      2^32 - 1 bytes, for which one page is granted, number 20. */
  function OverrunActs(): (acts: seq<Action>) {
    [MallocCall(5000, Some(10)), MallocCall(2000, Some(21)), ReallocCall(OLD, HUGE, Some(20))]
  }

  function OverrunStates(): (ss: seq<Machine>) {
    [Machine(Empty(), Start()), Machine(OneBlock(), First()), Machine(TwoBlocks(), Second()), Machine(Moved(), Last())]
  }

  // ---------------------------------------------------------------- the heaps

  lemma FirstHeap()
    ensures Granted(Empty(), Some(10), WantedPages(Empty(), 5000)) && Ready(Empty(), 5000)
    ensures Allocate(Empty(), 5000, Some(10)) == OneBlock() && Grown(Empty(), 5000, Some(10)).arenas == map[10 := Big(2)]
  {
    assert BigPages(5000) == 2;
  }

  lemma SecondHeap()
    ensures Granted(OneBlock(), Some(21), WantedPages(OneBlock(), 2000)) && Ready(OneBlock(), 2000)
    ensures Allocate(OneBlock(), 2000, Some(21)) == TwoBlocks()
    ensures Grown(OneBlock(), 2000, Some(21)).arenas == map[10 := Big(2), 21 := Big(1)]
  {
    assert BigPages(2000) == 1;
  }

  lemma ThirdHeap()
    ensures Granted(TwoBlocks(), Some(20), WantedPages(TwoBlocks(), HUGE)) && Ready(TwoBlocks(), HUGE)
    ensures MallocResult(TwoBlocks(), HUGE, Some(20)) == Some(NEW)
    ensures Allocate(TwoBlocks(), HUGE, Some(20)) == ThreeBlocks()
    ensures Grown(TwoBlocks(), HUGE, Some(20)).arenas == ThreeBlocks().arenas
  {
    assert BigPages(HUGE) == 1;
    assert Allocate(TwoBlocks(), HUGE, Some(20)).arenas == ThreeBlocks().arenas;
  }

  lemma LastHeap()
    ensures CanFree(ThreeBlocks(), OLD) && Free(ThreeBlocks(), OLD) == Moved() && Capacity(ThreeBlocks(), OLD) == 2 * PGSIZE - HEADER
  {
    assert PageOf(OLD) == 10;
    assert Free(ThreeBlocks(), OLD).arenas == Moved().arenas;
  }

  /** No small arenas: the allocator's bytes are descriptors and headers. */
  lemma BigOverhead(h: Heap, x: int)
    requires x >= PGSIZE && forall p | p in h.arenas :: h.arenas[p].Big? && !(p * PGSIZE <= x < p * PGSIZE + HEADER)
    ensures !Overhead(h, x)
  {
    forall b, d | 0 <= d < CLASSES ensures !SpareByte(h, b, d, x) {
    }
  }

  // ---------------------------------------------------------------- the calls

  lemma FirstCall()
    ensures ExecMalloc(Start(), 5000, Some(10)).Done? && Inv(OneBlock()) && Represents(First(), OneBlock())
    ensures forall x | x >= 10 * PGSIZE + HEADER :: First()(x) == Ones()(x)
  {
    hide ExecMalloc;
    hide Represents;
    hide Inv;
    hide InitDescs;
    hide Overhead;
    hide Grown;
    hide OneBlock;
    hide Allocate;
    FirstHeap();
    hide Granted;
    EmptyHeap();
    InitRepresents(Ones());
    InitDescsAre(Ones(), CLASSES);
    MallocKeeps(Empty(), 5000, Some(10));
    MallocRefines(Start(), Empty(), 5000, Some(10));
    forall x | x >= 10 * PGSIZE + HEADER ensures First()(x) == Ones()(x) {
      BigOverhead(Grown(Empty(), 5000, Some(10)), x);
    }
  }

  lemma SecondCall()
    ensures ExecMalloc(First(), 2000, Some(21)).Done? && Inv(TwoBlocks()) && Represents(Second(), TwoBlocks())
    ensures forall x | x >= 10 * PGSIZE + HEADER && !(21 * PGSIZE <= x < 21 * PGSIZE + HEADER) :: Second()(x) == Ones()(x)
  {
    FirstCall();
    SecondHeap();
    hide ExecMalloc;
    hide Represents;
    hide Inv;
    hide Overhead;
    hide Grown;
    hide OneBlock;
    hide Allocate;
    hide Granted;
    hide First;
    MallocKeeps(OneBlock(), 2000, Some(21));
    MallocRefines(First(), OneBlock(), 2000, Some(21));
    forall x | x >= 10 * PGSIZE + HEADER && !(21 * PGSIZE <= x < 21 * PGSIZE + HEADER) ensures Second()(x) == Ones()(x) {
      BigOverhead(Grown(OneBlock(), 2000, Some(21)), x);
    }
  }

  /** The malloc inside the realloc. */
  lemma InnerCall()
    ensures var r := ExecMalloc(Second(), HUGE, Some(20));
            && r.Done? && r.block == Some(NEW) && Inv(ThreeBlocks()) && Represents(r.mem, ThreeBlocks())
            && forall x | 11 * PGSIZE <= x < 12 * PGSIZE :: r.mem(x) == 1
  {
    SecondCall();
    ThirdHeap();
    hide ExecMalloc;
    hide Represents;
    hide Inv;
    hide Overhead;
    hide Grown;
    hide TwoBlocks;
    hide Allocate;
    hide MallocResult;
    hide Granted;
    hide Second;
    MallocKeeps(TwoBlocks(), HUGE, Some(20));
    MallocRefines(Second(), TwoBlocks(), HUGE, Some(20));
    forall x | 11 * PGSIZE <= x < 12 * PGSIZE ensures ExecMalloc(Second(), HUGE, Some(20)).mem(x) == 1 {
      BigOverhead(Grown(TwoBlocks(), HUGE, Some(20)), x);
    }
  }

  /** free finds the old block's header where the copy did not reach. */
  lemma OldFreed(m: Memory, m': Memory)
    requires Inv(ThreeBlocks()) && Represents(m, ThreeBlocks()) && Same(m, m', 10 * PGSIZE, HEADER)
    ensures ExecFree(m', OLD) == Done(Filled(m', 10 * PGSIZE, 2 * PGSIZE, JUNK), None)
  {
    hide Get;
    hide Filled;
    LastHeap();
    assert PageOf(OLD) == 10 && OLD in ThreeBlocks().live && PageStart(OLD) == 10 * PGSIZE;
    BigReads(m, ThreeBlocks(), OLD);
    hide Represents;
    hide Inv;
    SameGet(m, m', 10 * PGSIZE);
    SameGet(m, m', 10 * PGSIZE + 4);
    SameGet(m, m', 10 * PGSIZE + 8);
  }

  /** What the realloc does. */
  lemma LastCall()
    ensures ExecRealloc(Second(), OLD, HUGE, Some(20)).Done?
    ensures forall x | 21 * PGSIZE <= x < 22 * PGSIZE :: Last()(x) == 1
  {
    hide ExecMalloc;
    hide ExecFree;
    hide Represents;
    hide Second;
    hide Inv;
    hide ArenaAsserts;
    hide SizeIn;
    InnerCall();
    LastHeap();
    assert OLD in ThreeBlocks().live;
    hide ThreeBlocks;
    InvSound(ThreeBlocks());
    var m := ExecMalloc(Second(), HUGE, Some(20)).mem;
    SizeReads(m, ThreeBlocks(), OLD);
    var m' := Copied(m, OLD, NEW, 2 * PGSIZE - HEADER);
    OldFreed(m, m');
    assert Last() == Filled(m', 10 * PGSIZE, 2 * PGSIZE, JUNK);
  }

  /** In that run the copy reaches the other block and changes a byte of it, and it overwrites the
      header in front of that block: memory no longer holds the heap, and a free of the block fails
      its assertion. */
  lemma ReallocOverruns()
    ensures IsRun(OverrunStates(), OverrunActs())
    ensures var s, a, s' := OverrunStates()[2], OverrunActs()[2], OverrunStates()[3];
            && OTHER in s.heap.live && InBlock(s.heap, OTHER, OTHER) && !About(a, OTHER) && !Contained(s.heap, a)
            && s'.mem(OTHER) != s.mem(OTHER)
            && MagicIn(s.mem, 21 * PGSIZE) == ARENA_MAGIC && MagicIn(s'.mem, 21 * PGSIZE) != ARENA_MAGIC
            && !Represents(s'.mem, s'.heap)
            && Asks(s'.heap, FreeCall(OTHER)) && Exec(s'.mem, FreeCall(OTHER)) == Fails
  {
    OverrunSteps();
    OverrunHeaps();
    OverrunBytes();
    hide IsRun;
    hide Represents;
    hide Second;
    hide Last;
    hide Asks;
    hide Contained;
    hide ExecFree;
    hide Get;
    assert PageOf(OTHER) == 21 && 21 in Moved().arenas;
    MagicGone(Last(), Moved(), 21, OTHER);
  }

  lemma OverrunSteps()
    ensures IsRun(OverrunStates(), OverrunActs())
  {
    FirstCall();
    FirstHeap();
    SecondCall();
    SecondHeap();
    LastCall();
    ThirdHeap();
    LastHeap();
    hide ExecMalloc;
    hide ExecRealloc;
    hide Represents;
    hide Inv;
    hide InitDescs;
    hide Allocate;
    hide Free;
    hide Granted;
    hide Capacity;
    var ss, acts := OverrunStates(), OverrunActs();
    assert Init(ss[0]);
    forall i | 0 <= i < |acts| ensures Step(ss[i], acts[i], ss[i + 1]) {
      assert i == 0 || i == 1 || i == 2;
    }
  }

  lemma OverrunHeaps()
    ensures var h, a := TwoBlocks(), ReallocCall(OLD, HUGE, Some(20));
            OTHER in h.live && InBlock(h, OTHER, OTHER) && !About(a, OTHER) && !Contained(h, a)
    ensures Asks(Moved(), FreeCall(OTHER))
  {
    assert PageOf(OTHER) == 21 && PageOf(OLD) == 10;
  }

  lemma OverrunBytes()
    ensures Second()(OTHER) == 0 && Last()(OTHER) == 1
    ensures MagicIn(Second(), 21 * PGSIZE) == ARENA_MAGIC && MagicIn(Last(), 21 * PGSIZE) == 0x0101_0101
  {
    SecondCall();
    LastCall();
    hide ExecMalloc;
    hide ExecRealloc;
    hide Inv;
    hide Second;
    hide Last;
    hide Get;
    assert HeaderOK(Second(), TwoBlocks(), 21);
    OnesWord(Last(), 21 * PGSIZE);
  }

  /** An arena whose magic number is gone is none, and free says so. */
  lemma MagicGone(m: Memory, h: Heap, p: nat, b: int)
    requires p in h.arenas && MagicIn(m, p * PGSIZE) != ARENA_MAGIC && b != 0 && PageOf(b) == p
    ensures !Represents(m, h) && ExecFree(m, b) == Fails
  {
    hide Get;
    StartIs(b);
    assert !HeaderOK(m, h, p);
  }

  lemma OnesWord(m: Memory, a: int)
    requires forall x | a <= x < a + 4 :: m(x) == 1
    ensures Get(m, a) == 0x0101_0101
  {
  }
}
