/** What every sequence of malloc, free and realloc calls keeps. */
module MallocInvariant {
  import opened Collections
  import opened Malloc

  /** No page is in two arenas, all are pages that can be handed out, and every class is a real
      one. */
  ghost predicate ArenasOK(h: Heap) {
    && |h.free| == CLASSES
    && (forall p | p in h.arenas && h.arenas[p].Small? :: h.arenas[p].desc < CLASSES)
    && (forall p | p in h.arenas && h.arenas[p].Big? :: h.arenas[p].pages > 0)
    && (forall p, q | Covers(h, p, q) :: 0 < q < PAGES)
    && forall p, p', q | Covers(h, p, q) && Covers(h, p', q) :: p == p'
  }

  /** `b` is a block of an arena of class `d`. */
  predicate InClass(h: Heap, b: int, d: nat) {
    && d < CLASSES && b >= 0 && IsBlock(b, d) && PageOf(b) in h.arenas
    && h.arenas[PageOf(b)].Small? && h.arenas[PageOf(b)].desc == d
  }

  ghost predicate FreeOK(h: Heap) {
    |h.free| == CLASSES &&
    forall d | 0 <= d < CLASSES ::
      && Distinct(h.free[d])
      && forall b | b in h.free[d] :: InClass(h, b, d) && b !in h.live
  }

  ghost predicate LiveOK(h: Heap) {
    forall b | b in h.live :: PageOf(b) in h.arenas && LiveBlock(h, b)
  }

  predicate LiveBlock(h: Heap, b: int)
    requires PageOf(b) in h.arenas
  {
    match h.arenas[PageOf(b)]
    case Small(d, _) => InClass(h, b, d)
    case Big(_) => b % PGSIZE == HEADER
  }

  /** The indices of an arena's blocks that are on the free list. */
  function FreeIn(h: Heap, p: nat, d: nat): (s: set<nat>)
    requires d < CLASSES == |h.free|
  {
    IndicesIn(h.free[d], p, d)
  }

  function IndicesIn(bs: seq<int>, p: nat, d: nat): (s: set<nat>)
    requires d < CLASSES
  {
    set i: nat | i < PerArena(d) && Block(p, d, i) in bs
  }

  /** Every block of an arena is free or handed out, and free_cnt counts the free ones; unless
      `full`, some block is handed out. */
  ghost predicate ArenaCount(h: Heap, p: nat, d: nat, full: bool)
    requires d < CLASSES == |h.free| && p in h.arenas && h.arenas[p].Small?
  {
    && h.arenas[p].freeCount == |FreeIn(h, p, d)|
    && (!full ==> h.arenas[p].freeCount < PerArena(d))
    && forall i: nat | i < PerArena(d) :: Block(p, d, i) in h.free[d] || Block(p, d, i) in h.live
  }

  /** Only the arenas in `full` may have no block handed out. */
  ghost predicate CountsOK(h: Heap, full: set<nat>) {
    |h.free| == CLASSES &&
    forall p | p in h.arenas && h.arenas[p].Small? && h.arenas[p].desc < CLASSES ::
      ArenaCount(h, p, h.arenas[p].desc, p in full)
  }

  /** What holds in the middle of a call too, while counts and lists disagree. */
  ghost predicate Sound(h: Heap) {
    ArenasOK(h) && FreeOK(h) && LiveOK(h)
  }

  ghost predicate HeapOK(h: Heap, full: set<nat>) {
    Sound(h) && CountsOK(h, full)
  }

  ghost predicate Inv(h: Heap) {
    HeapOK(h, {})
  }

  // ---------------------------------------------------------------- sets of indices

  lemma {:induction false} AllIndices(n: nat, s: set<nat>)
    requires forall i: nat :: i in s <==> i < n
    ensures |s| == n
  {
    if n > 0 {
      AllIndices(n - 1, s - {n - 1});
    } else {
      assert s == {};
    }
  }

  function Upto(n: nat): (s: set<nat>)
    ensures |s| == n && forall i: nat :: i in s <==> i < n
  {
    if n == 0 then {} else Upto(n - 1) + {n - 1}
  }

  lemma SubsetFull(n: nat, s: set<nat>)
    requires forall i | i in s :: i < n
    ensures |s| <= n && (|s| == n ==> forall i: nat | i < n :: i in s)
  {
    Subset(s, Upto(n));
  }

  lemma Subset<T>(a: set<T>, b: set<T>)
    requires a <= b
    ensures |a| <= |b| && (|a| == |b| ==> a == b)
  {
    assert b == a + (b - a);
    assert |b| == |a| + |b - a|;
    assert b - a == {} ==> a == b;
  }

  // ---------------------------------------------------------------- a new arena

  lemma BlocksAre(p: nat, d: nat)
    requires d < CLASSES
    ensures Distinct(Blocks(p, d))
    ensures forall i: nat | i < PerArena(d) :: Blocks(p, d)[i] == Block(p, d, i) && Block(p, d, i) in Blocks(p, d)
    ensures forall b | b in Blocks(p, d) :: IsBlock(b, d) && b >= 0 && PageOf(b) == p
  {
    hide IsBlock;
    forall i: nat | i < PerArena(d) ensures IsBlock(Block(p, d, i), d) && PageOf(Block(p, d, i)) == p && Index(Block(p, d, i), d) == i {
      ArenaOfBlock(p, d, i);
    }
    forall b | b in Blocks(p, d) ensures IsBlock(b, d) && b >= 0 && PageOf(b) == p {
      var i :| 0 <= i < PerArena(d) && Blocks(p, d)[i] == b;
      ArenaOfBlock(p, d, i);
    }
    assert forall i: nat | i < PerArena(d) :: Blocks(p, d)[i] == Block(p, d, i);
  }

  /** A granted page becomes an arena whose blocks are all free. */
  lemma AddArenaKeeps(h: Heap, d: nat, p: nat)
    requires HeapOK(h, {}) && d < CLASSES && Granted(h, Some(p), 1)
    ensures HeapOK(AddArena(h, d, p), {p}) && |AddArena(h, d, p).free| == CLASSES
  {
    var r := AddArena(h, d, p);
    assert p !in h.arenas by {
      if p in h.arenas { NotCovered(h, p); }
    }
    BlocksAre(p, d);
    NewArenas(h, d, p);
    NewFree(h, d, p);
    NewCounts(h, d, p);
    assert LiveOK(r) by {
      forall b | b in r.live ensures PageOf(b) in r.arenas && LiveBlock(r, b) {
        assert PageOf(b) in h.arenas && LiveBlock(h, b);
      }
    }
  }

  lemma NotCovered(h: Heap, p: nat)
    requires ArenasOK(h) && p in h.arenas
    ensures Covers(h, p, p)
  {
  }

  lemma NewArenas(h: Heap, d: nat, p: nat)
    requires ArenasOK(h) && d < CLASSES && Granted(h, Some(p), 1) && p !in h.arenas
    ensures ArenasOK(AddArena(h, d, p))
  {
    var r := AddArena(h, d, p);
    assert forall q, k | q != p :: Covers(r, q, k) <==> Covers(h, q, k);
    assert forall k :: Covers(r, p, k) <==> k == p;
  }

  lemma NewFree(h: Heap, d: nat, p: nat)
    requires FreeOK(h) && LiveOK(h) && d < CLASSES && p !in h.arenas
    ensures FreeOK(AddArena(h, d, p))
  {
    BlocksAre(p, d);
    var r := AddArena(h, d, p);
    hide IsBlock;
    hide Blocks;
    forall c | 0 <= c < CLASSES ensures Distinct(r.free[c]) && forall b | b in r.free[c] :: InClass(r, b, c) && b !in r.live {
      forall b | b in r.free[c] ensures InClass(r, b, c) && b !in r.live {
        if b in h.free[c] {
          assert InClass(h, b, c);
        } else {
          assert c == d && b in Blocks(p, d) && PageOf(b) == p;
        }
      }
      if c == d {
        assert forall b | b in h.free[d] :: InClass(h, b, d) && PageOf(b) != p;
        DistinctConcat(h.free[d], Blocks(p, d));
      }
    }
  }

  lemma NewCounts(h: Heap, d: nat, p: nat)
    requires ArenasOK(h) && FreeOK(h) && CountsOK(h, {}) && d < CLASSES && p !in h.arenas
    ensures CountsOK(AddArena(h, d, p), {p})
  {
    BlocksAre(p, d);
    var r := AddArena(h, d, p);
    hide Block;
    hide Blocks;
    hide PerArena;
    forall q | q in r.arenas && r.arenas[q].Small? && r.arenas[q].desc < CLASSES
      ensures ArenaCount(r, q, r.arenas[q].desc, q in {p})
    {
      var c := r.arenas[q].desc;
      if q == p {
        AllIndices(PerArena(d), FreeIn(r, p, d));
      } else {
        assert ArenaCount(h, q, c, false);
        OtherArena(p, d, q, c);
        assert FreeIn(r, q, c) == FreeIn(h, q, c);
      }
    }
  }

  /** A block of another page is not among a page's blocks. */
  lemma OtherArena(p: nat, d: nat, q: nat, c: nat)
    requires d < CLASSES && c < CLASSES && p != q
    ensures forall i: nat | i < PerArena(c) :: Block(q, c, i) !in Blocks(p, d)
  {
    BlocksAre(p, d);
    hide IsBlock;
    forall i: nat | i < PerArena(c) ensures Block(q, c, i) !in Blocks(p, d) {
      ArenaOfBlock(q, c, i);
    }
  }

  // ---------------------------------------------------------------- taking and putting back a block

  /** A free list's block is one of its arena's blocks. */
  lemma FreeBlock(h: Heap, d: nat, b: int)
    requires FreeOK(h) && d < CLASSES && b in h.free[d]
    ensures PageOf(b) >= 0 && InClass(h, b, d) && b !in h.live
    ensures Index(b, d) < PerArena(d) && b == Block(PageOf(b), d, Index(b, d))
  {
    assert InClass(h, b, d);
    BlockOfArena(b, d);
  }

  /** Arenas keep their pages when only counts change. */
  lemma SameCovers(h: Heap, r: Heap)
    requires ArenasOK(h) && |r.free| == CLASSES && r.arenas.Keys == h.arenas.Keys
    requires forall p | p in h.arenas :: r.arenas[p] == h.arenas[p]
               || (h.arenas[p].Small? && r.arenas[p].Small? && r.arenas[p].desc == h.arenas[p].desc)
    ensures ArenasOK(r)
  {
    assert forall p, q :: Covers(r, p, q) <==> Covers(h, p, q);
  }

  lemma TakeKeeps(h: Heap, d: nat, size: nat, full: set<nat>)
    requires HeapOK(h, full) && d < CLASSES && h.free[d] != [] && full <= {PageOf(h.free[d][0])}
    ensures CanTake(h, d) && HeapOK(TakeBlock(h, d, size), {})
  {
    var b := h.free[d][0];
    FreeBlock(h, d, b);
    var r := TakeBlock(h, d, size);
    SameCovers(h, r);
    TakeLists(h, d, size);
    TakeCounts(h, d, size, full);
  }

  lemma TakeLists(h: Heap, d: nat, size: nat)
    requires FreeOK(h) && LiveOK(h) && d < CLASSES && CanTake(h, d)
    ensures FreeOK(TakeBlock(h, d, size)) && LiveOK(TakeBlock(h, d, size))
  {
    var b, r := h.free[d][0], TakeBlock(h, d, size);
    FreeBlock(h, d, b);
    hide IsBlock;
    assert forall x | x in h.free[d][1..] :: x in h.free[d] && x != b;
    forall c | 0 <= c < CLASSES ensures Distinct(r.free[c]) && forall x | x in r.free[c] :: InClass(r, x, c) && x !in r.live {
      forall x | x in r.free[c] ensures InClass(r, x, c) && x !in r.live {
        assert x in h.free[c] && InClass(h, x, c);
        assert x == b ==> c == d;
      }
    }
    forall x | x in r.live ensures PageOf(x) in r.arenas && LiveBlock(r, x) {
      assert x != b ==> PageOf(x) in h.arenas && LiveBlock(h, x);
    }
  }

  /** Block `i` of arena `p` is the one at address `b` exactly when page and index say so. */
  lemma BlockIsAt(p: nat, d: nat, i: nat, b: int, c: nat)
    requires d < CLASSES && i < PerArena(d) && c < CLASSES && IsBlock(b, c) && PageOf(b) >= 0
    ensures Block(p, d, i) == b ==> p == PageOf(b) && (d == c ==> i == Index(b, c))
    ensures p == PageOf(b) && d == c && i == Index(b, c) ==> Block(p, d, i) == b
  {
    ArenaOfBlock(p, d, i);
    BlockOfArena(b, c);
  }

  /** Which of an arena's blocks is `b`. */
  lemma WhichBlock(q: nat, c: nat, b: int, d: nat)
    requires c < CLASSES && d < CLASSES && IsBlock(b, d) && PageOf(b) >= 0 && (q == PageOf(b) ==> c == d)
    ensures forall i: nat | i < PerArena(c) :: Block(q, c, i) == b <==> q == PageOf(b) && i == Index(b, d)
  {
    hide Block;
    hide PerArena;
    forall i: nat | i < PerArena(c) ensures Block(q, c, i) == b <==> q == PageOf(b) && i == Index(b, d) {
      BlockIsAt(q, c, i, b, d);
    }
  }

  lemma TakeCounts(h: Heap, d: nat, size: nat, full: set<nat>)
    requires ArenasOK(h) && FreeOK(h) && CountsOK(h, full) && d < CLASSES && CanTake(h, d) && full <= {PageOf(h.free[d][0])}
    ensures CountsOK(TakeBlock(h, d, size), {})
  {
    hide Block;
    hide PerArena;
    hide IsBlock;
    hide ArenaCount;
    var r := TakeBlock(h, d, size);
    forall q | q in r.arenas && r.arenas[q].Small? && r.arenas[q].desc < CLASSES
      ensures ArenaCount(r, q, r.arenas[q].desc, q in {})
    {
      TakeCountAt(h, d, size, full, q);
    }
  }

  lemma TakeCountAt(h: Heap, d: nat, size: nat, full: set<nat>, q: nat)
    requires FreeOK(h) && d < CLASSES && CanTake(h, d) && full <= {PageOf(h.free[d][0])}
    requires q in h.arenas && h.arenas[q].Small? && h.arenas[q].desc < CLASSES && ArenaCount(h, q, h.arenas[q].desc, q in full)
    ensures ArenaCount(TakeBlock(h, d, size), q, h.arenas[q].desc, false)
  {
    hide Block;
    hide PerArena;
    hide IsBlock;
    var b, r, c := h.free[d][0], TakeBlock(h, d, size), h.arenas[q].desc;
    FreeBlock(h, d, b);
    assert h.free[d] == [b] + h.free[d][1..];
    assert b !in h.free[d][1..];
    SubsetFull(PerArena(c), FreeIn(h, q, c));
    hide FreeOK;
    if c == d {
      IndicesCons(b, h.free[d][1..], q, d);
      WhichBlock(q, d, b, d);
    }
  }

  /** One more block at the front is one more index in its own arena. */
  lemma IndicesCons(b: int, bs: seq<int>, q: nat, d: nat)
    requires d < CLASSES && IsBlock(b, d) && PageOf(b) >= 0 && b !in bs
    ensures |IndicesIn([b] + bs, q, d)| == |IndicesIn(bs, q, d)| + if q == PageOf(b) then 1 else 0
  {
    WhichBlock(q, d, b, d);
    BlockOfArena(b, d);
    hide Block;
    hide PerArena;
    assert forall x :: x in [b] + bs <==> x == b || x in bs;
    if q == PageOf(b) {
      var i := Index(b, d);
      assert IndicesIn([b] + bs, q, d) == IndicesIn(bs, q, d) + {i} && i !in IndicesIn(bs, q, d);
    } else {
      assert IndicesIn([b] + bs, q, d) == IndicesIn(bs, q, d);
    }
  }

  lemma PutKeeps(h: Heap, b: int)
    requires HeapOK(h, {}) && b in h.live && PageOf(b) in h.arenas && h.arenas[PageOf(b)].Small?
    ensures h.arenas[PageOf(b)].desc < CLASSES && HeapOK(PutBlock(h, b), {PageOf(b)})
    ensures PutBlock(h, b).arenas[PageOf(b)].freeCount < PerArena(h.arenas[PageOf(b)].desc) ==> HeapOK(PutBlock(h, b), {})
    ensures PutBlock(h, b).arenas[PageOf(b)].freeCount <= PerArena(h.arenas[PageOf(b)].desc)
  {
    assert LiveBlock(h, b);
    var r := PutBlock(h, b);
    SameCovers(h, r);
    PutLists(h, b);
    PutCounts(h, b);
  }

  lemma PutLists(h: Heap, b: int)
    requires FreeOK(h) && LiveOK(h) && b in h.live && CanFree(h, b) && h.arenas[PageOf(b)].Small?
    ensures FreeOK(PutBlock(h, b)) && LiveOK(PutBlock(h, b))
  {
    var d, r := h.arenas[PageOf(b)].desc, PutBlock(h, b);
    assert LiveBlock(h, b);
    hide IsBlock;
    forall c | 0 <= c < CLASSES ensures Distinct(r.free[c]) && forall x | x in r.free[c] :: InClass(r, x, c) && x !in r.live {
      forall x | x in r.free[c] ensures InClass(r, x, c) && x !in r.live {
        assert x == b || (x in h.free[c] && InClass(h, x, c));
      }
      if c == d {
        DistinctConcat([b], h.free[d]);
      }
    }
    forall x | x in r.live ensures PageOf(x) in r.arenas && LiveBlock(r, x) {
      assert PageOf(x) in h.arenas && LiveBlock(h, x);
    }
  }

  lemma PutCounts(h: Heap, b: int)
    requires ArenasOK(h) && FreeOK(h) && LiveOK(h) && CountsOK(h, {}) && b in h.live && CanFree(h, b) && h.arenas[PageOf(b)].Small?
    ensures CountsOK(PutBlock(h, b), {PageOf(b)})
    ensures var d := h.arenas[PageOf(b)].desc;
            && PutBlock(h, b).arenas[PageOf(b)].freeCount <= PerArena(d)
            && (PutBlock(h, b).arenas[PageOf(b)].freeCount < PerArena(d) ==> CountsOK(PutBlock(h, b), {}))
  {
    hide Block;
    hide PerArena;
    hide IsBlock;
    hide ArenaCount;
    var r := PutBlock(h, b);
    PutCountAt(h, b, PageOf(b));
    forall q, full: bool | q in r.arenas && r.arenas[q].Small? && r.arenas[q].desc < CLASSES
               && (full || q != PageOf(b) || r.arenas[q].freeCount < PerArena(r.arenas[q].desc))
      ensures ArenaCount(r, q, r.arenas[q].desc, full)
    {
      PutCountAt(h, b, q);
    }
  }

  lemma PutCountAt(h: Heap, b: int, q: nat)
    requires FreeOK(h) && LiveOK(h) && b in h.live && CanFree(h, b) && h.arenas[PageOf(b)].Small?
    requires q in h.arenas && h.arenas[q].Small? && h.arenas[q].desc < CLASSES && ArenaCount(h, q, h.arenas[q].desc, false)
    ensures var r, c := PutBlock(h, b), h.arenas[q].desc;
            && r.arenas[q].freeCount <= PerArena(c)
            && ArenaCount(r, q, c, true)
            && (q != PageOf(b) || r.arenas[q].freeCount < PerArena(c) ==> ArenaCount(r, q, c, false))
  {
    hide Block;
    hide PerArena;
    hide IsBlock;
    var r, c, d := PutBlock(h, b), h.arenas[q].desc, h.arenas[PageOf(b)].desc;
    assert LiveBlock(h, b) && InClass(h, b, d);
    assert b !in h.free[d];
    hide FreeOK;
    hide LiveOK;
    WhichBlock(q, c, b, d);
    SubsetFull(PerArena(c), FreeIn(r, q, c));
    if c == d {
      IndicesCons(b, h.free[d], q, d);
    }
  }

  // ---------------------------------------------------------------- returning an arena

  lemma {:induction false} OutsideIs(bs: seq<int>, p: int)
    ensures forall x :: x in Outside(bs, p) <==> x in bs && PageOf(x) != p
    ensures Distinct(bs) ==> Distinct(Outside(bs, p))
  {
    if bs != [] {
      OutsideIs(bs[1..], p);
      assert bs == [bs[0]] + bs[1..];
      var head: seq<int> := if PageOf(bs[0]) == p then [] else [bs[0]];
      if Distinct(bs) {
        assert bs[0] !in bs[1..];
        DistinctConcat(head, Outside(bs[1..], p));
      }
    }
  }

  /** When all its blocks are free an arena leaves, and no entry of a free list points into it. */
  lemma RemoveKeeps(h: Heap, p: nat)
    requires HeapOK(h, {p}) && p in h.arenas && h.arenas[p].Small? && h.arenas[p].freeCount == PerArena(h.arenas[p].desc)
    ensures h.arenas[p].desc < CLASSES && HeapOK(RemoveArena(h, h.arenas[p].desc, p), {})
    ensures forall d, b | 0 <= d < CLASSES && b in RemoveArena(h, h.arenas[p].desc, p).free[d] :: PageOf(b) != p
  {
    var d := h.arenas[p].desc;
    var r := RemoveArena(h, d, p);
    OutsideIs(h.free[d], p);
    NothingLive(h, p);
    assert ArenasOK(r) by {
      assert forall q, k :: Covers(r, q, k) <==> q != p && Covers(h, q, k);
    }
    RemoveLists(h, p);
    RemoveCounts(h, p);
  }

  lemma NothingLive(h: Heap, p: nat)
    requires HeapOK(h, {p}) && p in h.arenas && h.arenas[p].Small? && h.arenas[p].freeCount == PerArena(h.arenas[p].desc)
    ensures forall b | b in h.live :: PageOf(b) != p
  {
    forall b | b in h.live ensures PageOf(b) != p {
      assert LiveBlock(h, b);
      if PageOf(b) == p {
        FullHasAll(h, p, b);
      }
    }
  }

  /** An arena whose blocks are all free has every one of them on its free list. */
  lemma FullHasAll(h: Heap, p: nat, b: int)
    requires HeapOK(h, {p}) && p in h.arenas && h.arenas[p].Small? && h.arenas[p].freeCount == PerArena(h.arenas[p].desc)
    requires h.arenas[p].desc < CLASSES == |h.free| && PageOf(b) == p && IsBlock(b, h.arenas[p].desc)
    ensures b in h.free[h.arenas[p].desc]
  {
    var d := h.arenas[p].desc;
    SubsetFull(PerArena(d), FreeIn(h, p, d));
    BlockOfArena(b, d);
    assert Index(b, d) in FreeIn(h, p, d);
  }

  lemma RemoveLists(h: Heap, p: nat)
    requires HeapOK(h, {p}) && p in h.arenas && h.arenas[p].Small? && forall b | b in h.live :: PageOf(b) != p
    ensures var r := RemoveArena(h, h.arenas[p].desc, p);
            && FreeOK(r) && LiveOK(r)
            && forall d, b | 0 <= d < CLASSES && b in r.free[d] :: PageOf(b) != p
  {
    var d := h.arenas[p].desc;
    var r := RemoveArena(h, d, p);
    OutsideIs(h.free[d], p);
    hide IsBlock;
    forall c | 0 <= c < CLASSES
      ensures Distinct(r.free[c]) && forall x | x in r.free[c] :: InClass(r, x, c) && x !in r.live && PageOf(x) != p
    {
      forall x | x in r.free[c] ensures InClass(r, x, c) && x !in r.live && PageOf(x) != p {
        assert x in h.free[c] && InClass(h, x, c);
      }
    }
    forall x | x in r.live ensures PageOf(x) in r.arenas && LiveBlock(r, x) {
      assert PageOf(x) in h.arenas && LiveBlock(h, x);
    }
  }

  lemma RemoveCounts(h: Heap, p: nat)
    requires HeapOK(h, {p}) && p in h.arenas && h.arenas[p].Small?
    ensures CountsOK(RemoveArena(h, h.arenas[p].desc, p), {})
  {
    var d := h.arenas[p].desc;
    var r := RemoveArena(h, d, p);
    OutsideIs(h.free[d], p);
    hide Block;
    hide PerArena;
    forall q | q in r.arenas && r.arenas[q].Small? && r.arenas[q].desc < CLASSES
      ensures ArenaCount(r, q, r.arenas[q].desc, q in {})
    {
      var c := r.arenas[q].desc;
      assert ArenaCount(h, q, c, false);
      forall i: nat | i < PerArena(c) ensures PageOf(Block(q, c, i)) == q {
        ArenaOfBlock(q, c, i);
      }
      assert FreeIn(r, q, c) == FreeIn(h, q, c);
    }
  }

  // ---------------------------------------------------------------- big blocks

  lemma BigAddress(p: nat)
    ensures PageOf(p * PGSIZE + HEADER) == p && (p * PGSIZE + HEADER) % PGSIZE == HEADER
  {
  }

  lemma AddBigKeeps(h: Heap, p: nat, n: nat, size: nat)
    requires HeapOK(h, {}) && Granted(h, Some(p), n)
    ensures HeapOK(h.(arenas := h.arenas[p := Big(n)], live := h.live[p * PGSIZE + HEADER := size]), {})
  {
    var r := h.(arenas := h.arenas[p := Big(n)], live := h.live[p * PGSIZE + HEADER := size]);
    BigAddress(p);
    assert p !in h.arenas by {
      if p in h.arenas { NotCovered(h, p); }
    }
    assert ArenasOK(r) by {
      assert forall q, k | q != p :: Covers(r, q, k) <==> Covers(h, q, k);
      assert forall k :: Covers(r, p, k) <==> p <= k < p + n;
    }
    hide IsBlock;
    hide Block;
    hide PerArena;
    assert FreeOK(r) by {
      assert forall d, b | 0 <= d < CLASSES && b in h.free[d] :: InClass(h, b, d) && PageOf(b) != p;
    }
    assert LiveOK(r) by {
      forall x | x in r.live ensures PageOf(x) in r.arenas && LiveBlock(r, x) {
        assert x in h.live ==> PageOf(x) in h.arenas && LiveBlock(h, x);
      }
    }
    BigCounts(h, r, p);
  }

  lemma BigCounts(h: Heap, r: Heap, p: nat)
    requires CountsOK(h, {}) && r.free == h.free && forall b | b in h.live && PageOf(b) != p :: b in r.live
    requires forall q | q in r.arenas && r.arenas[q].Small? :: q != p && q in h.arenas && h.arenas[q] == r.arenas[q]
    ensures CountsOK(r, {})
  {
    hide Block;
    hide PerArena;
    forall q | q in r.arenas && r.arenas[q].Small? && r.arenas[q].desc < CLASSES
      ensures ArenaCount(r, q, r.arenas[q].desc, q in {})
    {
      var c := r.arenas[q].desc;
      assert ArenaCount(h, q, c, false);
      assert FreeIn(r, q, c) == FreeIn(h, q, c);
      forall i: nat | i < PerArena(c) ensures Block(q, c, i) in r.free[c] || Block(q, c, i) in r.live {
        ArenaOfBlock(q, c, i);
      }
    }
  }

  lemma FreeBigKeeps(h: Heap, b: int)
    requires HeapOK(h, {}) && b in h.live && PageOf(b) in h.arenas && h.arenas[PageOf(b)].Big?
    ensures HeapOK(h.(arenas := h.arenas - {PageOf(b)}, live := h.live - {b}), {})
  {
    var p := PageOf(b);
    var r := h.(arenas := h.arenas - {p}, live := h.live - {b});
    assert ArenasOK(r) by {
      assert forall q, k :: Covers(r, q, k) <==> q != p && Covers(h, q, k);
    }
    hide IsBlock;
    hide Block;
    hide PerArena;
    assert FreeOK(r) by {
      assert forall d, x | 0 <= d < CLASSES && x in h.free[d] :: InClass(h, x, d) && PageOf(x) != p;
    }
    assert LiveOK(r) by {
      forall x | x in r.live ensures PageOf(x) in r.arenas && LiveBlock(r, x) {
        assert PageOf(x) in h.arenas && LiveBlock(h, x) && LiveBlock(h, b);
      }
    }
    BigCounts(h, r, p);
  }

  // ---------------------------------------------------------------- the calls

  /** malloc keeps the invariant, whatever the page allocator answers. */
  lemma MallocKeeps(h: Heap, size: nat, page: Option<nat>)
    requires Inv(h) && Granted(h, page, WantedPages(h, size))
    ensures Ready(h, size)
    ensures Inv(Allocate(h, size, page))
  {
    hide ArenasOK;
    hide FreeOK;
    hide LiveOK;
    hide CountsOK;
    HeapShape(h);
    var d := ClassFor(size);
    if size > 0 {
      if d == CLASSES {
        if page.Some? {
          AddBigKeeps(h, page.value, BigPages(size), size);
        }
      } else if h.free[d] != [] {
        TakeKeeps(h, d, size, {});
      } else if page.Some? {
        AddArenaKeeps(h, d, page.value);
        ArenaOfBlock(page.value, d, 0);
        TakeKeeps(AddArena(h, d, page.value), d, size, {page.value});
      }
    }
  }

  lemma HeapShape(h: Heap)
    requires ArenasOK(h)
    ensures |h.free| == CLASSES
  {
  }

  /** free keeps it, and an arena goes back exactly when its last block does. */
  lemma FreeKeeps(h: Heap, b: int)
    requires Inv(h) && b in h.live
    ensures CanFree(h, b) && Inv(Free(h, b))
    ensures Returned(h, b) > 0 <==> PageOf(b) !in Free(h, b).arenas
    ensures PageOf(b) !in Free(h, b).arenas ==>
              forall x | x in Free(h, b).live :: PageOf(x) != PageOf(b)
    ensures PageOf(b) !in Free(h, b).arenas ==>
              forall d, x | 0 <= d < CLASSES && x in Free(h, b).free[d] :: PageOf(x) != PageOf(b)
  {
    assert LiveBlock(h, b);
    assert CanFree(h, b) && (h.arenas[PageOf(b)].Big? ==> h.arenas[PageOf(b)].pages > 0);
    hide ArenasOK;
    hide FreeOK;
    hide LiveOK;
    hide CountsOK;
    match h.arenas[PageOf(b)]
    case Big(_) =>
      FreeBigKeeps(h, b);
      NoneLeft(Free(h, b), PageOf(b));
    case Small(d, n) =>
      PutKeeps(h, b);
      if n + 1 >= PerArena(d) {
        RemoveKeeps(PutBlock(h, b), PageOf(b));
        NoneLeft(Free(h, b), PageOf(b));
      }
  }

  /** A page without an arena has neither live nor free blocks. */
  lemma NoneLeft(h: Heap, p: int)
    requires HeapOK(h, {}) && p !in h.arenas
    ensures forall x | x in h.live :: PageOf(x) != p
    ensures forall d, x | 0 <= d < CLASSES && x in h.free[d] :: PageOf(x) != p
  {
    forall d, x | 0 <= d < CLASSES && x in h.free[d] ensures PageOf(x) != p {
      assert InClass(h, x, d);
    }
  }
}
