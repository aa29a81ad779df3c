/** The block allocator on top of the page allocator's kernel pool, which other kernel code takes
    pages from too. */
module MallocPool {
  import opened Collections
  import opened Malloc
  import opened MallocInvariant
  import opened MallocWords
  import opened MallocCode
  import opened MallocLayout
  import opened MallocInit
  import opened MallocMemory
  import opened Bitmap
  import FileSystem
  import Palloc

  /** The pool's first page and its bitmap, with the pages (counted from there) of others. */
  datatype System = System(machine: Machine, base: nat, used: seq<bool>, others: set<nat>)

  datatype Event =
    | GetBlock(size: nat)
    | FreeBlock(block: int)
    | MoveBlock(old': int, size: nat)
    | Write(store: Action)                     // a store of a caller, or elsewhere
    | OthersGet(count: nat)
    | OthersFree(first: nat, count: nat)

  // ---------------------------------------------------------------- the page allocator

  /** palloc_get_multiple: the lowest run of clear bits. */
  function Answer(base: nat, used: seq<bool>, n: nat): (page: Option<nat>) {
    var first := FirstRun(used, 0, n, false);
    if n == 0 || first + n > |used| then None else Some(base + first)
  }

  function Taking(used: seq<bool>, n: nat): (r: seq<bool>) {
    var first := FirstRun(used, 0, n, false);
    if n == 0 || first + n > |used| then used else FileSystem.SetRun(used, first, n, true)
  }

  /** palloc_free_multiple's assertions: the pages are the pool's, and all of them are in use. */
  predicate MayGive(base: nat, used: seq<bool>, page: int, n: nat) {
    base <= page && page - base + n <= |used| && RunOf(used, page - base, n, true)
  }

  predicate Gives(base: nat, used: seq<bool>, page: int, n: nat, used': seq<bool>) {
    MayGive(base, used, page, n) && used' == FileSystem.SetRun(used, page - base, n, false)
  }

  // ---------------------------------------------------------------- events

  /** What callers owe; nothing is asked of the page allocator here. */
  ghost predicate Enabled(s: System, e: Event) {
    var h := s.machine.heap;
    && |h.free| == CLASSES
    && match e
       case GetBlock(size) => size < SIZE_T
       case FreeBlock(b) => b in h.live
       case MoveBlock(b, size) => b in h.live && size < SIZE_T
       case Write(a) => (a.Store? || a.Elsewhere?) && Asks(h, a)
       case OthersGet(_) => true
       case OthersFree(first, n) => n > 0 && Palloc.Pages(first, n) <= s.others
  }

  /** The page the pool gives for a request. */
  function PageFor(s: System, size: nat): (page: Option<nat>)
    requires |s.machine.heap.free| == CLASSES
  {
    Answer(s.base, s.used, WantedPages(s.machine.heap, size))
  }

  ghost predicate Step(s: System, e: Event, s': System) {
    var h := s.machine.heap;
    && Enabled(s, e) && s'.base == s.base
    && match e
       case GetBlock(size) =>
         && MallocMemory.Step(s.machine, MallocCall(size, PageFor(s, size)), s'.machine)
         && s'.used == Taking(s.used, WantedPages(h, size)) && s'.others == s.others
       case FreeBlock(b) =>
         && MallocMemory.Step(s.machine, FreeCall(b), s'.machine)
         && Gives(s.base, s.used, PageOf(b), Returned(h, b), s'.used) && s'.others == s.others
       case MoveBlock(b, size) =>
         && MallocMemory.Step(s.machine, ReallocCall(b, size, PageFor(s, size)), s'.machine)
         && ReallocPages(s, b, size, s'.used) && s'.others == s.others
       case Write(a) => MallocMemory.Step(s.machine, a, s'.machine) && s'.used == s.used && s'.others == s.others
       case OthersGet(n) =>
         var page := Answer(s.base, s.used, n);
         && s'.machine == s.machine && s'.used == Taking(s.used, n)
         && s'.others == s.others + if page.Some? then Palloc.Pages(page.value - s.base, n) else {}
       case OthersFree(first, n) =>
         && s'.machine == s.machine && Gives(s.base, s.used, s.base + first, n, s'.used)
         && s'.others == s.others - Palloc.Pages(first, n)
  }

  /** realloc's pages: those malloc takes, then those free gives back. */
  ghost predicate ReallocPages(s: System, b: int, size: nat, used: seq<bool>)
    requires |s.machine.heap.free| == CLASSES && Asks(s.machine.heap, ReallocCall(b, size, PageFor(s, size)))
  {
    var h, page := s.machine.heap, PageFor(s, size);
    if size == 0 then Gives(s.base, s.used, PageOf(b), Returned(h, b), used)
    else
      var taken := Taking(s.used, WantedPages(h, size));
      if MallocResult(h, size, page).None? then used == taken
      else Gives(s.base, taken, PageOf(b), Returned(Allocate(h, size, page), b), used)
  }

  /** The realloc in an event is contained, given the page it gets. */
  ghost predicate Quiet(s: System, e: Event)
    requires |s.machine.heap.free| == CLASSES
  {
    e.MoveBlock? ==> Contained(s.machine.heap, ReallocCall(e.old', e.size, PageFor(s, e.size)))
  }

  // ---------------------------------------------------------------- who has which page

  ghost predicate Held(h: Heap, q: int) {
    exists p :: Covers(h, p, q)
  }

  /** The pages in use are those of the arenas and those of others, and no page is both. */
  ghost predicate Matches(h: Heap, base: nat, used: seq<bool>, others: set<nat>) {
    && 0 < base && base + |used| <= PAGES
    && (forall q | Held(h, q) :: base <= q < base + |used|)
    && (forall k | 0 <= k < |used| :: used[k] <==> Held(h, base + k) || k in others)
    && (forall k | k in others :: k < |used| && !Held(h, base + k))
  }

  ghost predicate SystemInv(s: System) {
    && Inv(s.machine.heap) && Represents(s.machine.mem, s.machine.heap)
    && Matches(s.machine.heap, s.base, s.used, s.others)
  }

  /** What the pool answers is pages the heap does not have. */
  lemma AnswerGranted(h: Heap, base: nat, used: seq<bool>, others: set<nat>, n: nat)
    requires Matches(h, base, used, others)
    ensures Granted(h, Answer(base, used, n), n)
  {
    FirstRunFound(used, 0, n, false);
    var page := Answer(base, used, n);
    if page.Some? {
      forall p, q | Covers(h, p, q) ensures !(page.value <= q < page.value + n) {
        assert Held(h, q);
        assert used[q - base];
      }
    }
  }

  lemma MallocCovers(h: Heap, size: nat, page: Option<nat>)
    requires Ready(h, size) && Granted(h, page, WantedPages(h, size)) && Inv(h)
    ensures var r, n := Allocate(h, size, page), WantedPages(h, size);
            forall p: nat, q :: Covers(r, p, q) <==> Covers(h, p, q) || (page.Some? && p == page.value && p <= q < p + n)
  {
    var d := ClassFor(size);
    if d < CLASSES && size > 0 && h.free[d] == [] && page.Some? {
      ArenaOfBlock(page.value, d, 0);
      assert Blocks(page.value, d)[0] == Block(page.value, d, 0);
    }
    assert page.Some? ==> page.value !in h.arenas by {
      if page.Some? && page.value in h.arenas { NotCovered(h, page.value); }
    }
    hide Block;
    hide Blocks;
    hide IsBlock;
  }

  /** The heap's pages after malloc: those it had and those granted. */
  lemma MallocHeld(h: Heap, size: nat, page: Option<nat>, q: int)
    requires Ready(h, size) && Granted(h, page, WantedPages(h, size)) && Inv(h)
    ensures Held(Allocate(h, size, page), q) <==>
              Held(h, q) || (page.Some? && page.value <= q < page.value + WantedPages(h, size))
  {
    MallocCovers(h, size, page);
    var r, n := Allocate(h, size, page), WantedPages(h, size);
    if Held(h, q) {
      var p :| Covers(h, p, q);
      assert Covers(r, p, q);
    }
    if page.Some? && page.value <= q < page.value + n {
      assert Covers(r, page.value, q);
    }
  }

  lemma MallocMatches(h: Heap, size: nat, base: nat, used: seq<bool>, others: set<nat>)
    requires Inv(h) && Matches(h, base, used, others)
    ensures var page := Answer(base, used, WantedPages(h, size));
            && Ready(h, size) && Granted(h, page, WantedPages(h, size))
            && Matches(Allocate(h, size, page), base, Taking(used, WantedPages(h, size)), others)
  {
    hide Inv;
    hide Allocate;
    hide Held;
    HeapFree(h);
    var n := WantedPages(h, size);
    var page := Answer(base, used, n);
    AnswerGranted(h, base, used, others, n);
    MallocKeeps(h, size, page);
    FirstRunFound(used, 0, n, false);
    hide FirstRun;
    hide Granted;
    var r := Allocate(h, size, page);
    forall q ensures Held(r, q) <==> Held(h, q) || (page.Some? && page.value <= q < page.value + n) {
      MallocHeld(h, size, page, q);
    }
    if page.Some? {
      TakeMatches(h, r, base, used, others, page.value - base, n);
    } else {
      SameMatches(h, r, base, used, others);
    }
  }

  lemma SameMatches(h: Heap, r: Heap, base: nat, used: seq<bool>, others: set<nat>)
    requires Matches(h, base, used, others) && forall q :: Held(r, q) <==> Held(h, q)
    ensures Matches(r, base, used, others)
  {
    hide Held;
    forall k | 0 <= k < |used| ensures used[k] <==> Held(r, base + k) || k in others {
      assert used[k] <==> Held(h, base + k) || k in others;
    }
  }

  /** Free pages pass to the heap. */
  lemma TakeMatches(h: Heap, r: Heap, base: nat, used: seq<bool>, others: set<nat>, first: nat, n: nat)
    requires Matches(h, base, used, others) && first + n <= |used| && RunOf(used, first, n, false)
    requires forall q :: Held(r, q) <==> Held(h, q) || base + first <= q < base + first + n
    ensures Matches(r, base, FileSystem.SetRun(used, first, n, true), others)
  {
    hide Held;
    forall k | k in others ensures k < |used| && !Held(r, base + k) {
      assert used[k] && !Held(h, base + k);
    }
    var used' := FileSystem.SetRun(used, first, n, true);
    forall k | 0 <= k < |used'| ensures used'[k] <==> Held(r, base + k) || k in others {
      assert used[k] <==> Held(h, base + k) || k in others;
    }
  }

  /** Pages of the heap go back. */
  lemma GiveMatches(h: Heap, r: Heap, base: nat, used: seq<bool>, others: set<nat>, page: int, n: nat)
    requires Matches(h, base, used, others) && Held(h, page) && forall q | page <= q < page + n :: Held(h, q)
    requires forall q :: Held(r, q) <==> Held(h, q) && !(page <= q < page + n)
    ensures MayGive(base, used, page, n) && Matches(r, base, FileSystem.SetRun(used, page - base, n, false), others)
  {
    hide Held;
    assert n > 0 ==> Held(h, page + n - 1);
    forall k | page - base <= k < page - base + n ensures used[k] {
      assert Held(h, base + k);
    }
    var used' := FileSystem.SetRun(used, page - base, n, false);
    forall k | 0 <= k < |used'| ensures used'[k] <==> Held(r, base + k) || k in others {
      assert used[k] <==> Held(h, base + k) || k in others;
      assert page <= base + k < page + n ==> Held(h, base + k);
    }
  }

  /** The heap's pages after free: those it had, without those returned. */
  lemma FreeHeld(h: Heap, b: int, q: int)
    requires Inv(h) && b in h.live
    ensures CanFree(h, b)
    ensures Held(Free(h, b), q) <==> Held(h, q) && !(PageOf(b) <= q < PageOf(b) + Returned(h, b))
    ensures PageOf(b) <= q < PageOf(b) + Returned(h, b) ==> Held(h, q)
  {
    FreeKeeps(h, b);
    var r, p := Free(h, b), PageOf(b);
    hide IsBlock;
    hide PerArena;
    forall k: nat ensures Covers(r, k, q) <==> Covers(h, k, q) && (k != p || Returned(h, b) == 0) {
    }
    assert Returned(h, b) > 0 ==> (Covers(h, p, q) <==> p <= q < p + Returned(h, b));
    if Held(h, q) {
      var k :| Covers(h, k, q);
      assert k != p || Returned(h, b) == 0 ==> Covers(r, k, q);
    }
  }

  lemma FreeMatches(h: Heap, b: int, base: nat, used: seq<bool>, others: set<nat>)
    requires Inv(h) && b in h.live && Matches(h, base, used, others)
    ensures CanFree(h, b)
    ensures var p, n := PageOf(b), Returned(h, b);
            && MayGive(base, used, p, n)
            && Matches(Free(h, b), base, FileSystem.SetRun(used, p - base, n, false), others)
  {
    FreeKeeps(h, b);
    InvSound(h);
    assert LiveBlock(h, b);
    NotCovered(h, PageOf(b));
    hide Inv;
    hide Sound;
    hide Free;
    var p, n := PageOf(b), Returned(h, b);
    assert Held(h, p);
    hide Held;
    forall q ensures Held(Free(h, b), q) <==> Held(h, q) && !(p <= q < p + n) {
      FreeHeld(h, b, q);
    }
    forall q | p <= q < p + n ensures Held(h, q) {
      FreeHeld(h, b, q);
    }
    GiveMatches(h, Free(h, b), base, used, others, p, n);
  }

  // ---------------------------------------------------------------- every event keeps it

  /** An event fails no assertion, here or in the page allocator, and leaves memory, heap and pool
      in agreement. */
  ghost predicate Proceeds(s: System, e: Event) {
    (exists s' :: Step(s, e, s')) && forall s' | Step(s, e, s') :: SystemInv(s')
  }

  /** As does every event that its callers may start. */
  lemma EventKeeps(s: System, e: Event)
    requires SystemInv(s) && Enabled(s, e) && Quiet(s, e)
    ensures Proceeds(s, e)
  {
    hide SystemInv;
    hide Enabled;
    hide Proceeds;
    match e
    case GetBlock(size) => GetKeeps(s, size);
    case FreeBlock(b) => FreeBlockKeeps(s, b);
    case MoveBlock(b, size) => MoveKeeps(s, b, size);
    case Write(a) => WriteKeeps(s, a);
    case OthersGet(n) => OthersGetKeeps(s, n);
    case OthersFree(first, n) => OthersFreeKeeps(s, first, n);
  }

  lemma AfterIs(h: Heap, a: Action)
    requires Asks(h, a)
    ensures a.MallocCall? ==> After(h, a) == Allocate(h, a.size, a.page)
    ensures a.FreeCall? ==> After(h, a) == Free(h, a.block)
    ensures a.Store? || a.Elsewhere? ==> After(h, a) == h
  {
  }

  lemma GetKeeps(s: System, size: nat)
    requires SystemInv(s) && Enabled(s, GetBlock(size))
    ensures Proceeds(s, GetBlock(size))
  {
    hide Inv;
    hide Represents;
    hide Matches;
    hide Exec;
    hide After;
    var h, a := s.machine.heap, MallocCall(size, PageFor(s, size));
    MallocMatches(h, size, s.base, s.used, s.others);
    StepKeeps(s.machine.mem, h, a);
    AfterIs(h, a);
    var s' := System(Machine(After(h, a), Exec(s.machine.mem, a).mem), s.base, Taking(s.used, WantedPages(h, size)), s.others);
    assert Step(s, GetBlock(size), s');
  }

  lemma FreeBlockKeeps(s: System, b: int)
    requires SystemInv(s) && Enabled(s, FreeBlock(b))
    ensures Proceeds(s, FreeBlock(b))
  {
    hide Inv;
    hide Represents;
    hide Matches;
    hide Exec;
    hide After;
    hide MayGive;
    var h, a := s.machine.heap, FreeCall(b);
    FreeMatches(h, b, s.base, s.used, s.others);
    StepKeeps(s.machine.mem, h, a);
    AfterIs(h, a);
    var used := s.used;
    assert MayGive(s.base, used, PageOf(b), Returned(h, b)) ==>
             s.base <= PageOf(b) && PageOf(b) - s.base + Returned(h, b) <= |used| by { GiveRange(s.base, used, PageOf(b), Returned(h, b)); }
    var used' := FileSystem.SetRun(used, PageOf(b) - s.base, Returned(h, b), false);
    var s' := System(Machine(After(h, a), Exec(s.machine.mem, a).mem), s.base, used', s.others);
    assert Step(s, FreeBlock(b), s');
  }

  lemma GiveRange(base: nat, used: seq<bool>, page: int, n: nat)
    ensures MayGive(base, used, page, n) ==> base <= page && page - base + n <= |used|
  {
  }

  /** The heap and the pool between realloc's malloc and its free. */
  ghost predicate Halfway(s: System, b: int, size: nat)
    requires Ready(s.machine.heap, size)
  {
    var h1 := Allocate(s.machine.heap, size, PageFor(s, size));
    && Inv(h1) && b in h1.live
    && Matches(h1, s.base, Taking(s.used, WantedPages(s.machine.heap, size)), s.others)
  }

  /** The page question is settled before the memory does anything. */
  lemma MoveAsks(s: System, b: int, size: nat)
    requires SystemInv(s) && Enabled(s, MoveBlock(b, size))
    ensures Asks(s.machine.heap, ReallocCall(b, size, PageFor(s, size)))
    ensures size > 0 ==> Halfway(s, b, size)
  {
    hide Inv;
    hide Represents;
    hide Matches;
    hide Allocate;
    hide Granted;
    var h := s.machine.heap;
    FreeKeeps(h, b);
    if size > 0 {
      MallocMatches(h, size, s.base, s.used, s.others);
      MallocKeeps(h, size, PageFor(s, size));
      MallocSameArena(h, size, PageFor(s, size), b);
      FreeKeeps(Allocate(h, size, PageFor(s, size)), b);
    }
  }

  lemma MoveKeeps(s: System, b: int, size: nat)
    requires SystemInv(s) && Enabled(s, MoveBlock(b, size)) && Quiet(s, MoveBlock(b, size))
    ensures Proceeds(s, MoveBlock(b, size))
  {
    hide Inv;
    hide Represents;
    hide Matches;
    hide Exec;
    hide Allocate;
    hide Free;
    hide Asks;
    hide MallocResult;
    hide PageFor;
    hide Taking;
    hide MayGive;
    hide Contained;
    var h, page := s.machine.heap, PageFor(s, size);
    var a := ReallocCall(b, size, page);
    MoveAsks(s, b, size);
    StepKeeps(s.machine.mem, h, a);
    var used, r := MovePool(s, b, size);
    var s' := System(Machine(After(h, a), Exec(s.machine.mem, a).mem), s.base, used, s.others);
    assert Step(s, MoveBlock(b, size), s');
  }

  /** The bitmap after a realloc, which agrees with the heap after it. */
  lemma MovePool(s: System, b: int, size: nat) returns (used: seq<bool>, r: Heap)
    requires SystemInv(s) && Enabled(s, MoveBlock(b, size))
    ensures Asks(s.machine.heap, ReallocCall(b, size, PageFor(s, size)))
    ensures r == After(s.machine.heap, ReallocCall(b, size, PageFor(s, size)))
    ensures ReallocPages(s, b, size, used) && Matches(r, s.base, used, s.others)
    ensures forall used' | ReallocPages(s, b, size, used') :: used' == used
  {
    hide Inv;
    hide Represents;
    hide Matches;
    hide Allocate;
    hide Free;
    hide MallocResult;
    hide Granted;
    MoveAsks(s, b, size);
    var h, page := s.machine.heap, PageFor(s, size);
    r := After(h, ReallocCall(b, size, page));
    if size == 0 {
      FreeMatches(h, b, s.base, s.used, s.others);
      used := FileSystem.SetRun(s.used, PageOf(b) - s.base, Returned(h, b), false);
    } else {
      var h1, taken := Allocate(h, size, page), Taking(s.used, WantedPages(h, size));
      if MallocResult(h, size, page).None? {
        NoBlockSame(h, size, page);
        used := taken;
      } else {
        FreeMatches(h1, b, s.base, taken, s.others);
        used := FileSystem.SetRun(taken, PageOf(b) - s.base, Returned(h1, b), false);
      }
    }
  }

  lemma WriteKeeps(s: System, a: Action)
    requires SystemInv(s) && Enabled(s, Write(a))
    ensures Proceeds(s, Write(a))
  {
    hide Inv;
    hide Represents;
    hide Matches;
    hide Exec;
    hide After;
    hide Asks;
    StepKeeps(s.machine.mem, s.machine.heap, a);
    AfterIs(s.machine.heap, a);
    var s' := s.(machine := Machine(After(s.machine.heap, a), Exec(s.machine.mem, a).mem));
    assert Step(s, Write(a), s');
  }

  lemma OthersGetKeeps(s: System, n: nat)
    requires SystemInv(s) && Enabled(s, OthersGet(n))
    ensures Proceeds(s, OthersGet(n))
  {
    hide Inv;
    hide Represents;
    hide Held;
    FirstRunFound(s.used, 0, n, false);
    hide FirstRun;
    var page := Answer(s.base, s.used, n);
    var more: set<nat> := if page.Some? then Palloc.Pages(page.value - s.base, n) else {};
    var used, others := Taking(s.used, n), s.others + more;
    var s' := s.(used := used, others := others);
    assert Step(s, OthersGet(n), s');
    assert forall k :: k in more <==> k >= 0 && page.Some? && page.value - s.base <= k < page.value - s.base + n;
    forall k | 0 <= k < |used| ensures used[k] <==> Held(s.machine.heap, s.base + k) || k in others {
      assert s.used[k] <==> Held(s.machine.heap, s.base + k) || k in s.others;
    }
    forall k | k in others ensures k < |used| && !Held(s.machine.heap, s.base + k) {
      assert k in more ==> !s.used[k];
    }
  }

  lemma OthersFreeKeeps(s: System, first: nat, n: nat)
    requires SystemInv(s) && Enabled(s, OthersFree(first, n))
    ensures Proceeds(s, OthersFree(first, n))
  {
    hide Inv;
    hide Represents;
    hide Held;
    assert forall k :: k in Palloc.Pages(first, n) <==> k >= 0 && first <= k < first + n;
    assert first + n - 1 in s.others;
    var h := s.machine.heap;
    assert first + n - 1 < |s.used|;
    forall k | first <= k < first + n ensures s.used[k] {
      assert k in Palloc.Pages(first, n);
    }
    var used, others := FileSystem.SetRun(s.used, first, n, false), s.others - Palloc.Pages(first, n);
    var s' := s.(used := used, others := others);
    assert Step(s, OthersFree(first, n), s');
    forall k | 0 <= k < |used| ensures used[k] <==> Held(h, s.base + k) || k in others {
      assert s.used[k] <==> Held(h, s.base + k) || k in s.others;
      assert k in Palloc.Pages(first, n) ==> !Held(h, s.base + k);
    }
  }

  // ---------------------------------------------------------------- runs

  ghost predicate Init(s: System) {
    && MallocMemory.Init(s.machine) && 0 < s.base && s.base + |s.used| <= PAGES && s.others == {}
    && forall k | 0 <= k < |s.used| :: !s.used[k]
  }

  ghost predicate IsRun(ss: seq<System>, es: seq<Event>) {
    |ss| == |es| + 1 && Init(ss[0]) && forall i | 0 <= i < |es| :: Step(ss[i], es[i], ss[i + 1])
  }

  ghost predicate QuietAt(s: System, e: Event) {
    |s.machine.heap.free| == CLASSES && Quiet(s, e)
  }

  /** Over a whole run the pool's pages in use are those of the arenas and those of others, apart. */
  lemma {:induction false} RunInvariant(ss: seq<System>, es: seq<Event>, n: nat)
    requires IsRun(ss, es) && n < |ss| && forall i | 0 <= i < n :: QuietAt(ss[i], es[i])
    ensures SystemInv(ss[n])
  {
    hide SystemInv;
    hide Enabled;
    hide Quiet;
    hide Step;
    hide MallocMemory.Init;
    if n == 0 {
      InitSystem(ss[0]);
    } else {
      RunInvariant(ss, es, n - 1);
      assert Step(ss[n - 1], es[n - 1], ss[n - 1 + 1]) && QuietAt(ss[n - 1], es[n - 1]);
      StepEnabled(ss[n - 1], es[n - 1], ss[n]);
      EventKeeps(ss[n - 1], es[n - 1]);
    }
  }

  lemma StepEnabled(s: System, e: Event, s': System)
    requires Step(s, e, s')
    ensures Enabled(s, e)
  {
  }

  lemma InitSystem(s: System)
    requires Init(s)
    ensures SystemInv(s)
  {
    hide Inv;
    hide Represents;
    EmptyHeap();
    var m: Memory :| s.machine.mem == InitDescs(m, CLASSES);
    hide InitDescs;
    InitRepresents(m);
    assert forall q :: !Held(s.machine.heap, q);
  }
}
