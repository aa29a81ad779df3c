/** Whole sequences of malloc, free and realloc calls. */
module MallocRuns {
  import opened Collections
  import opened Arithmetic
  import opened Malloc
  import opened MallocInvariant

  // ---------------------------------------------------------------- live blocks do not overlap

  /** A block of a small arena lies in its page behind the header. */
  lemma InsidePage(b: int, d: nat)
    requires d < CLASSES && IsBlock(b, d)
    ensures PageOf(b) * PGSIZE + HEADER <= b && b + BlockSize(d) <= (PageOf(b) + 1) * PGSIZE
  {
    BlockOfArena(b, d);
    Fits(d, Index(b, d));
    hide BlockSize;
    hide PerArena;
  }

  lemma SamePageApart(p: nat, d: nat, i: nat, j: nat)
    requires d < CLASSES && i < j
    ensures Block(p, d, i) + BlockSize(d) <= Block(p, d, j)
  {
    var n := BlockSize(d);
    hide BlockSize;
    assert (j - i) * n >= n && j * n == i * n + (j - i) * n;
  }

  /** A block lies inside the pages of its arena, behind the header. */
  lemma InsideArena(h: Heap, b: int)
    requires Sound(h) && b in h.live
    ensures CanFree(h, b) && Capacity(h, b) > 0
    ensures var p := PageOf(b);
            var n := match h.arenas[p] case Small(_, _) => 1 case Big(n) => n;
            && p * PGSIZE + HEADER <= b && b + Capacity(h, b) <= (p + n) * PGSIZE
            && forall q: int :: p <= q < p + n <==> Covers(h, p, q)
  {
    assert LiveBlock(h, b);
    match h.arenas[PageOf(b)]
    case Small(d, _) => InsidePage(b, d);
    case Big(n) =>
  }

  /** Two blocks of different arenas. */
  lemma ArenasApart(h: Heap, p: nat, n: nat, q: nat, m: nat)
    requires ArenasOK(h) && p != q && n > 0 && m > 0
    requires forall k: int :: p <= k < p + n <==> Covers(h, p, k)
    requires forall k: int :: q <= k < q + m <==> Covers(h, q, k)
    ensures Apart(p * PGSIZE, n * PGSIZE, q * PGSIZE, m * PGSIZE)
  {
    if p < q {
      assert Covers(h, q, q);
      assert !Covers(h, p, q);
    } else {
      assert Covers(h, p, p);
      assert !Covers(h, q, p);
    }
  }

  /** No two live blocks share a byte. */
  lemma LiveApart(h: Heap, b: int, c: int)
    requires Sound(h) && b in h.live && c in h.live && b != c
    ensures CanFree(h, b) && CanFree(h, c) && Apart(b, Capacity(h, b), c, Capacity(h, c))
  {
    InsideArena(h, b);
    InsideArena(h, c);
    assert LiveBlock(h, b) && LiveBlock(h, c);
    var p, q := PageOf(b), PageOf(c);
    if p != q {
      var n := match h.arenas[p] case Small(_, _) => 1 case Big(n) => n;
      var m := match h.arenas[q] case Small(_, _) => 1 case Big(n) => n;
      ArenasApart(h, p, n, q, m);
    } else if h.arenas[p].Small? {
      var d := h.arenas[p].desc;
      BlockOfArena(b, d);
      BlockOfArena(c, d);
      var i, j := Index(b, d), Index(c, d);
      if i < j { SamePageApart(p, d, i, j); } else if j < i { SamePageApart(p, d, j, i); }
    }
  }

  /** No live block touches an arena's header. */
  lemma HeaderApart(h: Heap, b: int, q: nat)
    requires Sound(h) && b in h.live && q in h.arenas
    ensures CanFree(h, b) && Apart(b, Capacity(h, b), q * PGSIZE, HEADER)
  {
    InsideArena(h, b);
    var p := PageOf(b);
    if p != q {
      var n := match h.arenas[p] case Small(_, _) => 1 case Big(n) => n;
      var m := match h.arenas[q] case Small(_, _) => 1 case Big(n) => n;
      assert forall k: int :: q <= k < q + m <==> Covers(h, q, k);
      ArenasApart(h, p, n, q, m);
    }
  }

  // ---------------------------------------------------------------- requested sizes

  ghost predicate SizesOK(h: Heap) {
    forall b | b in h.live :: CanFree(h, b) && h.live[b] <= Capacity(h, b)
  }

  /** The last eleven sizes wrap around to a request for one page. */
  lemma BigPagesEnough(size: nat)
    requires ClassFor(size) == CLASSES && size < SIZE_T && BigPages(size) > 0
    ensures size <= BigPages(size) * PGSIZE - HEADER <==> size < SIZE_T - 11
    ensures size >= SIZE_T - 11 ==> BigPages(size) == 1
  {
  }

  /** Every block malloc hands out holds the bytes requested, except exactly for requests of at
      least 2^32 - 11 bytes that the page allocator answers. */
  lemma MallocHolds(h: Heap, size: nat, page: Option<nat>)
    requires Inv(h) && SizesOK(h) && size < SIZE_T && Granted(h, page, WantedPages(h, size))
    requires Ready(h, size)
    ensures SizesOK(Allocate(h, size, page)) <==> size < SIZE_T - 11 || page.None?
  {
    MallocKeeps(h, size, page);
    var r := Allocate(h, size, page);
    if MallocResult(h, size, page).Some? {
      NewHolds(h, size, page);
      OldHold(h, size, page);
    }
  }

  lemma NewHolds(h: Heap, size: nat, page: Option<nat>)
    requires Inv(h) && size < SIZE_T && Granted(h, page, WantedPages(h, size)) && MallocResult(h, size, page).Some?
    requires Ready(h, size)
    ensures var r, b := Allocate(h, size, page), MallocResult(h, size, page).value;
            && CanFree(r, b) && b in r.live && r.live[b] == size
            && (size <= Capacity(r, b) <==> size < SIZE_T - 11)
  {
    var d := ClassFor(size);
    if d == CLASSES {
      BigAddress(page.value);
      BigPagesEnough(size);
    } else if h.free[d] != [] {
      FreeBlock(h, d, h.free[d][0]);
    } else {
      ArenaOfBlock(page.value, d, 0);
    }
  }

  lemma OldHold(h: Heap, size: nat, page: Option<nat>)
    requires Inv(h) && SizesOK(h) && Granted(h, page, WantedPages(h, size)) && MallocResult(h, size, page).Some?
    requires Ready(h, size)
    ensures var r, n := Allocate(h, size, page), MallocResult(h, size, page).value;
            forall b | b in r.live && b != n :: b in h.live && CanFree(r, b) && r.live[b] <= Capacity(r, b)
  {
    var r, n := Allocate(h, size, page), MallocResult(h, size, page).value;
    var d := ClassFor(size);
    if d < CLASSES && h.free[d] == [] {
      ArenaOfBlock(page.value, d, 0);
      assert Blocks(page.value, d)[0] == Block(page.value, d, 0);
    }
    hide Blocks;
    hide Block;
    hide IsBlock;
    forall b | b in r.live && b != n ensures b in h.live && CanFree(r, b) && r.live[b] <= Capacity(r, b) {
      assert CanFree(h, b) && h.live[b] <= Capacity(h, b);
      InsideArena(h, b);
      var p: nat := if page.Some? then page.value else 0;
      assert page.Some? && PageOf(b) == p ==> Covers(h, p, p);
    }
  }

  lemma FreeHolds(h: Heap, b: int)
    requires Inv(h) && SizesOK(h) && b in h.live
    ensures CanFree(h, b) && SizesOK(Free(h, b))
  {
    FreeKeeps(h, b);
    var r := Free(h, b);
    forall x | x in r.live ensures CanFree(r, x) && r.live[x] <= Capacity(r, x) {
      assert x in h.live && CanFree(h, x) && h.live[x] <= Capacity(h, x);
      InsideArena(r, x);
    }
  }

  /** A request for 2^32 - 1 bytes that is answered with one page. */
  lemma HugeRequestTooSmall()
    ensures var h := Heap(map[], [[], [], [], [], [], [], []], map[]);
            && Inv(h) && SizesOK(h) && Granted(h, Some(7), WantedPages(h, SIZE_T - 1))
            && !SizesOK(Allocate(h, SIZE_T - 1, Some(7)))
  {
    var h := Heap(map[], [[], [], [], [], [], [], []], map[]);
    assert Inv(h);
    MallocHolds(h, SIZE_T - 1, Some(7));
  }
}
