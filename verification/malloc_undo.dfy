/** What malloc and free do to one another's work, and when malloc asks for pages. */
module MallocUndo {
  import opened Collections
  import opened Arithmetic
  import opened Malloc
  import opened MallocInvariant
  import opened MallocMemory

  // ---------------------------------------------------------------- free undoes malloc

  /** Freeing what malloc returned leaves the heap as it was, page by page and list by list. */
  lemma FreeUndoesMalloc(h: Heap, size: nat, page: Option<nat>)
    requires Inv(h) && Granted(h, page, WantedPages(h, size)) && Ready(h, size) && MallocResult(h, size, page).Some?
    ensures var r, b := Allocate(h, size, page), MallocResult(h, size, page).value;
            CanFree(r, b) && Free(r, b) == h && (Returned(r, b) == WantedPages(h, size))
  {
    var d := ClassFor(size);
    if d == CLASSES {
      BigUndone(h, size, page.value);
    } else if h.free[d] != [] {
      TakeUndone(h, d, size);
    } else {
      ArenaUndone(h, d, size, page.value);
    }
  }

  lemma GrantedNew(h: Heap, p: nat, n: nat)
    requires Sound(h) && Granted(h, Some(p), n)
    ensures p !in h.arenas && forall b | b in h.live :: PageOf(b) != p
  {
    if p in h.arenas {
      NotCovered(h, p);
    }
    forall b | b in h.live ensures PageOf(b) != p {
      assert LiveBlock(h, b);
    }
  }

  lemma BigUndone(h: Heap, size: nat, p: nat)
    requires Inv(h) && Granted(h, Some(p), BigPages(size)) && size > 0 && ClassFor(size) == CLASSES && Ready(h, size)
    ensures var r, b := Allocate(h, size, Some(p)), p * PGSIZE + HEADER;
            CanFree(r, b) && Free(r, b) == h && Returned(r, b) == BigPages(size)
  {
    GrantedNew(h, p, BigPages(size));
    BigAddress(p);
    var r, b := Allocate(h, size, Some(p)), p * PGSIZE + HEADER;
    assert b !in h.live;
    assert r.arenas - {p} == h.arenas && r.live - {b} == h.live;
  }

  lemma TakeUndone(h: Heap, d: nat, size: nat)
    requires Inv(h) && d < CLASSES && CanTake(h, d)
    ensures var r, b := TakeBlock(h, d, size), h.free[d][0];
            CanFree(r, b) && Free(r, b) == h && Returned(r, b) == 0
  {
    var b := h.free[d][0];
    FreeBlock(h, d, b);
    var p, r := PageOf(b), TakeBlock(h, d, size);
    assert ArenaCount(h, p, d, false);
    hide Inv;
    assert [b] + h.free[d][1..] == h.free[d];
    assert r.live - {b} == h.live;
    assert r.arenas[p := h.arenas[p]] == h.arenas;
    assert r.free[d := h.free[d]] == h.free;
  }

  lemma {:induction false} OutsideNone(bs: seq<int>, p: int)
    requires forall b | b in bs :: PageOf(b) == p
    ensures Outside(bs, p) == []
  {
    if bs != [] {
      OutsideNone(bs[1..], p);
    }
  }

  lemma ArenaUndone(h: Heap, d: nat, size: nat, p: nat)
    requires Inv(h) && d < CLASSES == |h.free| && h.free[d] == [] && Granted(h, Some(p), 1)
    ensures CanTake(AddArena(h, d, p), d)
    ensures var r, b := TakeBlock(AddArena(h, d, p), d, size), Block(p, d, 0);
            CanFree(r, b) && Free(r, b) == h && Returned(r, b) == 1
  {
    GrantedNew(h, p, 1);
    hide Inv;
    BlocksAre(p, d);
    ArenaOfBlock(p, d, 0);
    var bs, b := Blocks(p, d), Block(p, d, 0);
    hide Blocks;
    hide Block;
    hide IsBlock;
    assert b == bs[0];
    assert [] + bs == bs;
    PageTaken(h, d, size, p, bs);
    PageGivenBack(h, d, size, p, bs);
  }

  lemma PageTaken(h: Heap, d: nat, size: nat, p: nat, bs: seq<int>)
    requires d < CLASSES == |h.free| && bs != [] && PageOf(bs[0]) == p
    ensures var h1 := h.(arenas := h.arenas[p := Small(d, PerArena(d))], free := h.free[d := bs]);
            && CanTake(h1, d)
            && TakeBlock(h1, d, size)
               == Heap(h.arenas[p := Small(d, PerArena(d) - 1)], h.free[d := bs[1..]], h.live[bs[0] := size])
  {
    hide PerArena;
    hide PageOf;
    assert h.arenas[p := Small(d, PerArena(d))][p := Small(d, PerArena(d) - 1)] == h.arenas[p := Small(d, PerArena(d) - 1)];
    assert h.free[d := bs][d := bs[1..]] == h.free[d := bs[1..]];
  }

  lemma PageGivenBack(h: Heap, d: nat, size: nat, p: nat, bs: seq<int>)
    requires d < CLASSES == |h.free| && h.free[d] == [] && p !in h.arenas
    requires bs != [] && bs[0] !in h.live && forall b | b in bs :: PageOf(b) == p
    ensures var r := Heap(h.arenas[p := Small(d, PerArena(d) - 1)], h.free[d := bs[1..]], h.live[bs[0] := size]);
            CanFree(r, bs[0]) && Free(r, bs[0]) == h && Returned(r, bs[0]) == 1
  {
    hide PerArena;
    OutsideNone(bs, p);
    hide Outside;
    hide PageOf;
    var b := bs[0];
    var r := Heap(h.arenas[p := Small(d, PerArena(d) - 1)], h.free[d := bs[1..]], h.live[b := size]);
    assert [b] + bs[1..] == bs;
    assert PutBlock(r, b).free[d] == bs;
    assert r.live - {b} == h.live;
    assert PutBlock(r, b).arenas - {p} == h.arenas;
    assert Free(r, b).free == h.free;
  }

  // ---------------------------------------------------------------- malloc undoes free

  /** A block freed in an arena that stays is the next one of its size to be handed out, and then the
      heap is as it was. */
  lemma MallocUndoesFree(h: Heap, b: int, size: nat, page: Option<nat>)
    requires Inv(h) && b in h.live && CanFree(h, b) && h.arenas[PageOf(b)].Small? && Returned(h, b) == 0
    requires size > 0 && ClassFor(size) == h.arenas[PageOf(b)].desc
    ensures Ready(Free(h, b), size) && MallocResult(Free(h, b), size, page) == Some(b)
    ensures Allocate(Free(h, b), size, page) == h.(live := h.live[b := size])
  {
    hide Inv;
    var p, d, r := PageOf(b), ClassFor(size), Free(h, b);
    assert ([b] + h.free[d])[1..] == h.free[d];
    var e := Allocate(r, size, page);
    assert e.arenas == h.arenas;
    assert e.free == h.free;
    assert e.live == h.live[b := size];
  }

  // ---------------------------------------------------------------- pages

  /** Every block of the class is handed out. */
  ghost predicate AllTaken(h: Heap, d: nat) {
    forall p, i: nat | p in h.arenas && h.arenas[p].Small? && h.arenas[p].desc == d < CLASSES && i < PerArena(d) ::
      Block(p, d, i) in h.live
  }

  lemma AllTakenIff(h: Heap, d: nat)
    requires Inv(h) && d < CLASSES == |h.free|
    ensures AllTaken(h, d) <==> h.free[d] == []
  {
    hide Block;
    hide IsBlock;
    if h.free[d] != [] {
      var b := h.free[d][0];
      FreeBlock(h, d, b);
      assert Block(PageOf(b), d, Index(b, d)) !in h.live;
    } else {
      forall p, i: nat | p in h.arenas && h.arenas[p].Small? && h.arenas[p].desc == d && i < PerArena(d)
        ensures Block(p, d, i) in h.live
      {
        assert ArenaCount(h, p, d, false);
      }
    }
  }

  /** malloc fails exactly for a size of 0, or when every block of the class is taken and there is
      no page; and only then does it ask for one, or for the pages of a big block. */
  lemma MallocFailsIff(h: Heap, size: nat, page: Option<nat>)
    requires Inv(h) && |h.free| == CLASSES
    ensures MallocResult(h, size, page).None? <==> size == 0 || (page.None? && AllTaken(h, ClassFor(size)))
    ensures ClassFor(size) < CLASSES ==> (WantedPages(h, size) == 1 <==> size > 0 && AllTaken(h, ClassFor(size)))
    ensures Ready(h, size) && ClassFor(size) < CLASSES && WantedPages(h, size) == 0 ==>
              Allocate(h, size, page).arenas.Keys == h.arenas.Keys
  {
    var d := ClassFor(size);
    if d < CLASSES {
      AllTakenIff(h, d);
    }
    hide Inv;
    hide AllTaken;
  }

  /** A big block gets as few pages as hold it and its header, unless the sum wraps around. */
  lemma BigPagesLeast(size: nat)
    requires size + HEADER + PGSIZE - 1 < SIZE_T
    ensures (BigPages(size) - 1) * PGSIZE < size + HEADER <= BigPages(size) * PGSIZE
  {
  }

  /** free returns an arena's pages exactly when no other block of it is handed out. */
  lemma ReturnsIff(h: Heap, b: int)
    requires Inv(h) && b in h.live
    ensures CanFree(h, b)
    ensures Returned(h, b) > 0 <==> forall c | c in h.live :: PageOf(c) == PageOf(b) ==> c == b
  {
    FreeKeeps(h, b);
    var p := PageOf(b);
    assert LiveBlock(h, b);
    match h.arenas[p]
    case Big(n) => BigAlone(h, b);
    case Small(d, n) =>
      if n + 1 < PerArena(d) {
        OtherTaken(h, b, d);
      } else {
        hide Inv;
        assert forall c | c in h.live && c != b :: c in Free(h, b).live;
      }
  }

  lemma BigAlone(h: Heap, b: int)
    requires Inv(h) && b in h.live && PageOf(b) in h.arenas && h.arenas[PageOf(b)].Big?
    ensures h.arenas[PageOf(b)].pages > 0 && forall c | c in h.live :: PageOf(c) == PageOf(b) ==> c == b
  {
    forall c | c in h.live && PageOf(c) == PageOf(b) ensures c == b {
      assert LiveBlock(h, c) && LiveBlock(h, b);
    }
  }

  /** Fewer free blocks than all but one: another one is handed out. */
  lemma OtherTaken(h: Heap, b: int, d: nat)
    requires Inv(h) && b in h.live && PageOf(b) in h.arenas && h.arenas[PageOf(b)].Small?
    requires h.arenas[PageOf(b)].desc == d < CLASSES && h.arenas[PageOf(b)].freeCount + 1 < PerArena(d)
    ensures exists c :: c in h.live && PageOf(c) == PageOf(b) && c != b
  {
    var p: nat := PageOf(b);
    assert ArenaCount(h, p, d, false) && LiveBlock(h, b);
    BlockOfArena(b, d);
    var free, taken := FreeIn(h, p, d), FreeIn(h, p, d) + {Index(b, d)};
    assert |taken| < PerArena(d);
    var i := Missing(PerArena(d), taken);
    ArenaOfBlock(p, d, i);
    assert Block(p, d, i) in h.live;
  }

  lemma Missing(n: nat, s: set<nat>) returns (i: nat)
    requires |s| < n
    ensures i < n && i !in s
  {
    if forall k: nat | k < n :: k in s {
      Subset(Upto(n), s);
      assert false;
    }
    i :| i < n && i !in s;
  }

  // ---------------------------------------------------------------- who has what

  /** The blocks that callers have after a call. A realloc to no bytes is a free; one that finds
      neither a free block nor a page leaves the old block with its owner. */
  lemma CallLive(h: Heap, a: MallocMemory.Action)
    requires Inv(h) && Asks(h, a)
    ensures var r := After(h, a).live;
            match a
            case MallocCall(size, page) =>
              if size == 0 || (page.None? && AllTaken(h, ClassFor(size))) then r == h.live
              else exists n :: n !in h.live && r == h.live[n := size]
            case FreeCall(b) => r == h.live - {b}
            case ReallocCall(b, size, page) =>
              if size == 0 then r == h.live - {b}
              else if page.None? && AllTaken(h, ClassFor(size)) then r == h.live
              else exists n :: n !in h.live && r == (h.live - {b})[n := size]
            case Store(_, _, _) => r == h.live
            case Elsewhere(_, _) => r == h.live
  {
    HeapShape(h);
    hide Inv;
    hide AllTaken;
    match a
    case MallocCall(size, page) =>
      MallocFailsIff(h, size, page);
      MallocLive(h, size, page);
    case FreeCall(b) => FreeLive(h, b);
    case ReallocCall(b, size, page) =>
      if size == 0 {
        FreeLive(h, b);
      } else {
        MallocFailsIff(h, size, page);
        MallocLive(h, size, page);
        if MallocResult(h, size, page).Some? {
          FreeLive(Allocate(h, size, page), b);
          assert h.live[MallocResult(h, size, page).value := size] - {b} == (h.live - {b})[MallocResult(h, size, page).value := size];
        }
      }
    case Store(_, _, _) =>
    case Elsewhere(_, _) =>
  }

  lemma MallocLive(h: Heap, size: nat, page: Option<nat>)
    requires Inv(h) && Ready(h, size) && Granted(h, page, WantedPages(h, size))
    ensures match MallocResult(h, size, page)
            case None => Allocate(h, size, page).live == h.live
            case Some(n) => n !in h.live && Allocate(h, size, page).live == h.live[n := size]
  {
    var d := ClassFor(size);
    if size == 0 {
    } else if d == CLASSES {
      if page.Some? {
        GrantedNew(h, page.value, BigPages(size));
        BigAddress(page.value);
      }
    } else if h.free[d] != [] {
      FreeBlock(h, d, h.free[d][0]);
    } else if page.Some? {
      GrantedNew(h, page.value, 1);
      ArenaOfBlock(page.value, d, 0);
      hide Block;
      assert Blocks(page.value, d)[0] == Block(page.value, d, 0);
    }
  }
}
