/** Two-level x86 page tables over user space. Entries are 32-bit words: a page-aligned physical
    address with flags in its low twelve bits. */
module PageDir {
  import opened Collections
  import Arithmetic

  const PGSIZE := 4096
  const ENTRIES := 1024
  const PHYS_BASE := 0xc000_0000
  const USER_TABLES := 768      // pd_no (PHYS_BASE)
  const PTE_P := 1
  const PTE_W := 2
  const PTE_U := 4

  /** What a user page maps to: the frame's kernel address, and whether it may be written and used
      by user code, for which both levels must say so. */
  datatype Mapping = Mapping(frame: int, writable: bool, user: bool)

  /** The directory's words, and the page tables by their kernel address. */
  datatype Space = Space(pd: seq<int>, tables: map<int, seq<int>>)

  // ---------------------------------------------------------------- words and addresses

  /** A page's kernel address: aligned, and above PHYS_BASE. */
  predicate KernelPage(k: int) {
    PHYS_BASE <= k < 0x1_0000_0000 && k % PGSIZE == 0
  }

  function PdNo(va: int): (i: int) {
    va / (PGSIZE * ENTRIES)
  }

  function PtNo(va: int): (j: int) {
    va / PGSIZE % ENTRIES
  }

  function PdeCreate(pt: int): (e: int) {
    pt - PHYS_BASE + PTE_U + PTE_P + PTE_W
  }

  function PteCreateUser(page: int, writable: bool): (e: int) {
    page - PHYS_BASE + PTE_P + (if writable then PTE_W else 0) + PTE_U
  }

  function GetPage(e: int): (k: int) {
    e - e % PGSIZE + PHYS_BASE
  }

  predicate Present(e: int) {
    e % 2 == 1
  }

  predicate Writable(e: int) {
    e / 2 % 2 == 1
  }

  /** Usable by user code, not just by the kernel. */
  predicate User(e: int) {
    e / 4 % 2 == 1
  }

  /** Encoding and decoding an entry. A page's entry says who may use it and whether it may be
      written; a table's forbids nothing. */
  lemma EntryRoundTrip(page: int, writable: bool)
    requires KernelPage(page)
    ensures var e := PteCreateUser(page, writable);
            0 <= e < 0x1_0000_0000 && Present(e) && User(e) && GetPage(e) == page && (Writable(e) <==> writable)
    ensures var e := PdeCreate(page);
            0 < e < 0x1_0000_0000 && Present(e) && User(e) && Writable(e) && GetPage(e) == page
  {
    var q := page / PGSIZE - PHYS_BASE / PGSIZE;
    assert page - PHYS_BASE == PGSIZE * q;
    hide *;
    WordParts(q, 5);
    WordParts(q, 7);
  }

  /** A word is its page number and its flags. */
  lemma WordParts(q: int, flags: int)
    requires 0 <= flags < PGSIZE
    ensures var w := PGSIZE * q + flags;
            w % PGSIZE == flags && w % 2 == flags % 2 && w / 2 % 2 == flags / 2 % 2 && w / 4 % 2 == flags / 4 % 2
  {
    var w4 := (PGSIZE * q + flags) / 4;
    Parts(q, flags, PGSIZE);
    Parts(2048 * q + flags / 2, flags % 2, 2);
    Parts(1024 * q + flags / 4, flags / 2 % 2, 2);
    Parts(512 * q + flags / 8, flags / 4 % 2, 2);
    assert w4 == 1024 * q + flags / 4;
  }

  lemma Parts(k: int, r: int, d: int)
    requires 0 <= r < d
    ensures (d * k + r) / d == k && (d * k + r) % d == r
  {
    Arithmetic.QuotientUnique(d * k + r, d, k);
  }

  /** A user address is its directory index, its table index and its offset. */
  lemma AddressParts(va: int)
    requires 0 <= va < PHYS_BASE
    ensures 0 <= PdNo(va) < USER_TABLES && 0 <= PtNo(va) < ENTRIES
    ensures va / PGSIZE / ENTRIES == PdNo(va) && va / PGSIZE % ENTRIES == PtNo(va)
  {
    assert va / (PGSIZE * ENTRIES) == va / PGSIZE / ENTRIES;
  }

  // ---------------------------------------------------------------- the space

  /** User directory entries are 0 or lead to a table of their own, which they open to user code and
      to writing. */
  ghost predicate Valid(s: Space) {
    && |s.pd| == ENTRIES
    && (forall t | t in s.tables :: |s.tables[t]| == ENTRIES)
    && (forall i | 0 <= i < USER_TABLES && s.pd[i] != 0 ::
          Present(s.pd[i]) && User(s.pd[i]) && Writable(s.pd[i]) && GetPage(s.pd[i]) in s.tables)
    && forall i, i' | 0 <= i < i' < USER_TABLES && s.pd[i] != 0 && s.pd[i'] != 0 :: GetPage(s.pd[i]) != GetPage(s.pd[i'])
  }

  predicate HasTable(s: Space, i: int)
    requires |s.pd| == ENTRIES
  {
    0 <= i < USER_TABLES && s.pd[i] != 0
  }

  /** The page table entry of user page number `v`, if its table exists. */
  ghost function Entry(s: Space, v: int): (e: Option<int>)
    requires Valid(s)
  {
    var i := v / ENTRIES;
    if HasTable(s, i) then Some(s.tables[GetPage(s.pd[i])][v % ENTRIES]) else None
  }

  /** What the tables say about a user page: the flat map they stand for. */
  ghost function Lookup(s: Space, v: int): (m: Option<Mapping>)
    requires Valid(s)
  {
    match Entry(s, v)
    case None => None
    case Some(e) =>
      var pde := s.pd[v / ENTRIES];
      if Present(e) then Some(Mapping(GetPage(e), Writable(pde) && Writable(e), User(pde) && User(e))) else None
  }

  /** Stores an entry in an existing table. */
  function Stored(s: Space, v: int, e: int): (r: Space)
    requires |s.pd| == ENTRIES && HasTable(s, v / ENTRIES) && GetPage(s.pd[v / ENTRIES]) in s.tables
    requires |s.tables[GetPage(s.pd[v / ENTRIES])]| == ENTRIES
  {
    var t := GetPage(s.pd[v / ENTRIES]);
    s.(tables := s.tables[t := s.tables[t][v % ENTRIES := e]])
  }

  /** A zeroed page becomes the table for directory entry `i`. */
  function WithTable(s: Space, i: int, pt: int): (r: Space)
    requires 0 <= i < |s.pd|
  {
    s.(pd := s.pd[i := PdeCreate(pt)], tables := s.tables[pt := seq(ENTRIES, _ => 0)])
  }

  // ---------------------------------------------------------------- refinement of the flat map

  /** A new table maps nothing and disturbs nothing. */
  lemma WithTableKeeps(s: Space, i: int, pt: int)
    requires Valid(s) && 0 <= i < USER_TABLES && s.pd[i] == 0 && KernelPage(pt) && pt !in s.tables
    ensures Valid(WithTable(s, i, pt)) && HasTable(WithTable(s, i, pt), i)
    ensures forall v :: Lookup(WithTable(s, i, pt), v) == Lookup(s, v)
  {
    var r := WithTable(s, i, pt);
    EntryRoundTrip(pt, true);
    hide GetPage;
    hide PdeCreate;
    assert forall k | 0 <= k < USER_TABLES && k != i :: r.pd[k] == s.pd[k];
    assert Valid(r);
    forall v ensures Lookup(r, v) == Lookup(s, v) {
      if v / ENTRIES == i {
        assert r.tables[pt][v % ENTRIES] == 0;
      } else if HasTable(s, v / ENTRIES) {
        assert GetPage(s.pd[v / ENTRIES]) != pt;
      }
    }
  }

  /** Storing one entry changes one page's mapping. */
  lemma StoredKeeps(s: Space, v: int, e: int)
    requires Valid(s) && HasTable(s, v / ENTRIES)
    ensures Valid(Stored(s, v, e)) && Entry(Stored(s, v, e), v) == Some(e)
    ensures forall w | w != v :: Lookup(Stored(s, v, e), w) == Lookup(s, w)
  {
    var r := Stored(s, v, e);
    hide GetPage;
    forall w | w != v ensures Lookup(r, w) == Lookup(s, w) {
      if HasTable(s, w / ENTRIES) && GetPage(s.pd[w / ENTRIES]) == GetPage(s.pd[v / ENTRIES]) {
        assert w / ENTRIES == v / ENTRIES;
        assert w % ENTRIES != v % ENTRIES;
      }
    }
  }

  /** The flat map with one page changed. */
  ghost predicate OneChange(s: Space, r: Space, v: int, m: Option<Mapping>)
    requires Valid(s)
  {
    Valid(r) && forall w :: Lookup(r, w) == if w == v then m else Lookup(s, w)
  }

  lemma MappedKeeps(s: Space, v: int, kpage: int, writable: bool)
    requires Valid(s) && HasTable(s, v / ENTRIES) && KernelPage(kpage)
    ensures OneChange(s, Stored(s, v, PteCreateUser(kpage, writable)), v, Some(Mapping(kpage, writable, true)))
  {
    EntryRoundTrip(kpage, writable);
    hide *;
    StoredKeeps(s, v, PteCreateUser(kpage, writable));
  }

  /** The page's entry is the same in every bit but the lowest. */
  ghost predicate KeepsBits(s: Space, r: Space, v: int)
    requires Valid(s)
  {
    Valid(r) && match Entry(s, v)
                case None => Entry(r, v) == None
                case Some(e) => Entry(r, v).Some? && Entry(r, v).value / 2 == e / 2
  }

  lemma ClearedKeeps(s: Space, v: int, e: int)
    requires Valid(s) && HasTable(s, v / ENTRIES) && Entry(s, v) == Some(e) && Present(e)
    ensures OneChange(s, Stored(s, v, e - PTE_P), v, None) && KeepsBits(s, Stored(s, v, e - PTE_P), v)
  {
    hide Stored;
    hide GetPage;
    StoredKeeps(s, v, e - PTE_P);
    assert !Present(e - PTE_P);
  }

  // ---------------------------------------------------------------- the calls

  /** The calls that change a directory; `page` is what the page allocator answers when a table
      is missing. */
  datatype Call = Map(upage: int, kpage: int, writable: bool, page: Option<int>) | Unmap(upage: int)

  /** What the calls assert of their arguments, and that a page the allocator hands out is not a
      table already. */
  ghost predicate Callable(s: Space, c: Call)
    requires Valid(s)
  {
    && 0 <= c.upage < PHYS_BASE && c.upage % PGSIZE == 0
    && (c.Map? ==> KernelPage(c.kpage) && Lookup(s, c.upage / PGSIZE) == None
                   && (c.page.Some? ==> KernelPage(c.page.value) && c.page.value !in s.tables))
  }

  /** The space once the table of directory entry `i` is there; unchanged for lack of a page. */
  ghost function Tabled(s: Space, i: int, page: Option<int>): (r: Space)
    requires |s.pd| == ENTRIES && 0 <= i < USER_TABLES
  {
    if HasTable(s, i) || page.None? then s else WithTable(s, i, page.value)
  }

  ghost predicate Succeeds(s: Space, c: Call)
    requires |s.pd| == ENTRIES
  {
    c.Unmap? || HasTable(s, PdNo(c.upage)) || c.page.Some?
  }

  ghost function After(s: Space, c: Call): (r: Space)
    requires Valid(s) && Callable(s, c)
  {
    AddressParts(c.upage);
    var v := c.upage / PGSIZE;
    match c
    case Map(_, kpage, writable, page) =>
      if !Succeeds(s, c) then s
      else
        TabledKeeps(s, PdNo(c.upage), page);
        Stored(Tabled(s, PdNo(c.upage), page), v, PteCreateUser(kpage, writable))
    case Unmap(_) =>
      if Entry(s, v).Some? && Present(Entry(s, v).value) then Stored(s, v, Entry(s, v).value - PTE_P) else s
  }

  lemma TabledKeeps(s: Space, i: int, page: Option<int>)
    requires Valid(s) && 0 <= i < USER_TABLES && (page.Some? ==> KernelPage(page.value) && page.value !in s.tables)
    ensures var r := Tabled(s, i, page);
            && Valid(r) && (HasTable(r, i) <==> HasTable(s, i) || page.Some?)
            && r.pd[USER_TABLES..] == s.pd[USER_TABLES..]
            && forall v :: Lookup(r, v) == Lookup(s, v)
  {
    if !HasTable(s, i) && page.Some? {
      WithTableKeeps(s, i, page.value);
    }
  }

  /** A call changes exactly the mapping it names, or nothing when it fails. */
  lemma CallChanges(s: Space, c: Call)
    requires Valid(s) && Callable(s, c)
    ensures Succeeds(s, c) ==>
              OneChange(s, After(s, c), c.upage / PGSIZE, if c.Map? then Some(Mapping(c.kpage, c.writable, true)) else None)
    ensures !Succeeds(s, c) ==> After(s, c) == s
    ensures c.Unmap? ==> KeepsBits(s, After(s, c), c.upage / PGSIZE)
    ensures After(s, c).pd[USER_TABLES..] == s.pd[USER_TABLES..]
  {
    assert |s.pd| == ENTRIES;
    hide Lookup;
    hide Valid;
    hide WithTable;
    AddressParts(c.upage);
    var v := c.upage / PGSIZE;
    if c.Map? && Succeeds(s, c) {
      TabledKeeps(s, PdNo(c.upage), c.page);
      MappedKeeps(Tabled(s, PdNo(c.upage), c.page), v, c.kpage, c.writable);
    } else if c.Unmap? {
      UnmapChanges(s, v);
    }
  }

  lemma UnmapChanges(s: Space, v: int)
    requires Valid(s)
    ensures var e := Entry(s, v);
            var r := if e.Some? && Present(e.value) then Stored(s, v, e.value - PTE_P) else s;
            OneChange(s, r, v, None) && KeepsBits(s, r, v)
  {
    var e := Entry(s, v);
    if e.Some? && Present(e.value) {
      ClearedKeeps(s, v, e.value);
    }
  }

  class PageDirectory {
    var pd: seq<int>
    var tables: map<int, seq<int>>

    function Abs(): (s: Space)
      reads this
    {
      Space(pd, tables)
    }

    constructor (kernel: seq<int>)
      requires |kernel| == ENTRIES - USER_TABLES
      ensures Valid(Abs()) && (forall v :: Lookup(Abs(), v) == None) && pd[USER_TABLES..] == kernel
      ensures forall i :: !HasTable(Abs(), i)
    {
      pd, tables := seq(USER_TABLES, _ => 0) + kernel, map[];
    }

    /** lookup_page without `create`: the entry for an address, if its table exists. */
    method Find(va: int) returns (e: Option<int>)
      requires Valid(Abs()) && 0 <= va < PHYS_BASE
      ensures e == Entry(Abs(), va / PGSIZE)
    {
      AddressParts(va);
      var pde := pd[PdNo(va)];
      if pde == 0 {
        return None;
      }
      var pt := GetPage(pde);
      return Some(tables[pt][PtNo(va)]);
    }

    /** lookup_page with `create`; `page` is what the page allocator answers if asked. */
    method FindOrCreate(va: int, page: Option<int>) returns (ok: bool)
      requires Valid(Abs()) && 0 <= va < PHYS_BASE
      requires page.Some? ==> KernelPage(page.value) && page.value !in tables
      modifies this
      ensures 0 <= PdNo(va) < USER_TABLES && Abs() == Tabled(old(Abs()), PdNo(va), page)
      ensures Valid(Abs()) && (ok <==> HasTable(Abs(), PdNo(va)))
      ensures forall v :: Lookup(Abs(), v) == old(Lookup(Abs(), v))
    {
      hide PdeCreate;
      AddressParts(va);
      TabledKeeps(Abs(), PdNo(va), page);
      if pd[PdNo(va)] == 0 {
        if page.None? {
          return false;
        }
        pd, tables := pd[PdNo(va) := PdeCreate(page.value)], tables[page.value := seq(ENTRIES, _ => 0)];
      }
      return true;
    }

    /** pagedir_set_page: exactly one mapping changes, or none for lack of memory. */
    method SetPage(upage: int, kpage: int, writable: bool, page: Option<int>) returns (ok: bool)
      requires Valid(Abs()) && Callable(Abs(), Map(upage, kpage, writable, page))
      modifies this
      ensures Abs() == After(old(Abs()), Map(upage, kpage, writable, page))
      ensures ok ==> OneChange(old(Abs()), Abs(), upage / PGSIZE, Some(Mapping(kpage, writable, true)))
      ensures !ok ==> Valid(Abs()) && forall v :: Lookup(Abs(), v) == old(Lookup(Abs(), v))
      ensures ok <==> HasTable(old(Abs()), PdNo(upage)) || page.Some?
      ensures pd[USER_TABLES..] == old(pd[USER_TABLES..])
    {
      CallChanges(Abs(), Map(upage, kpage, writable, page));
      AddressParts(upage);
      hide Lookup;
      hide PdNo;
      hide PtNo;
      hide GetPage;
      hide PteCreateUser;
      hide OneChange;
      hide WithTable;
      ok := FindOrCreate(upage, page);
      if ok {
        var pt := GetPage(pd[PdNo(upage)]);
        tables := tables[pt := tables[pt][PtNo(upage) := PteCreateUser(kpage, writable)]];
      }
    }

    /** pagedir_get_page: the flat map's frame, plus the offset in the page. */
    method GetAddress(uaddr: int) returns (k: Option<int>)
      requires Valid(Abs()) && 0 <= uaddr < PHYS_BASE
      ensures k == match Lookup(Abs(), uaddr / PGSIZE)
                   case None => None
                   case Some(m) => Some(m.frame + uaddr % PGSIZE)
    {
      var e := Find(uaddr);
      if e.Some? && Present(e.value) {
        return Some(GetPage(e.value) + uaddr % PGSIZE);
      }
      return None;
    }

    /** pagedir_clear_page: the page, mapped or not, is unmapped, and no other changes. */
    method ClearPage(upage: int)
      requires Valid(Abs()) && 0 <= upage < PHYS_BASE && upage % PGSIZE == 0
      modifies this
      ensures Abs() == After(old(Abs()), Unmap(upage))
      ensures OneChange(old(Abs()), Abs(), upage / PGSIZE, None) && KeepsBits(old(Abs()), Abs(), upage / PGSIZE)
      ensures pd == old(pd)
    {
      CallChanges(Abs(), Unmap(upage));
      AddressParts(upage);
      hide Lookup;
      hide PdNo;
      hide PtNo;
      hide GetPage;
      hide OneChange;
      hide KeepsBits;
      var e := Find(upage);
      if e.Some? && Present(e.value) {
        var pt := GetPage(pd[PdNo(upage)]);
        tables := tables[pt := tables[pt][PtNo(upage) := e.value - PTE_P]];
      }
    }

    /** pagedir_destroy: the pages given back, in order. */
    method Destroy(self: int) returns (freed: seq<int>)
      requires Valid(Abs())
      ensures freed == DestroyList(Abs(), self)
    {
      freed := [];
      for i := 0 to USER_TABLES
        invariant freed == FreedBefore(Abs(), i)
      {
        if Present(pd[i]) {
          var pt := GetPage(pd[i]);
          ghost var before := freed;
          assert tables[pt][..0] == [];
          for j := 0 to ENTRIES
            invariant freed == before + Frames(tables[pt][..j])
          {
            var e := tables[pt][j];
            assert tables[pt][..j + 1] == tables[pt][..j] + [e];
            if Present(e) {
              freed := freed + [GetPage(e)];
            }
          }
          assert tables[pt][..ENTRIES] == tables[pt];
          freed := freed + [pt];
        }
      }
      freed := freed + [self];
    }
  }

  /** pagedir_create: a copy of the kernel's mappings, or nothing for lack of a page. */
  method Create(kernel: seq<int>, memory: bool) returns (pd: Option<PageDirectory>)
    requires |kernel| == ENTRIES - USER_TABLES
    ensures pd.Some? <==> memory
    ensures pd.Some? ==> && fresh(pd.value) && Valid(pd.value.Abs()) && (forall v :: Lookup(pd.value.Abs(), v) == None)
                         && (forall i :: !HasTable(pd.value.Abs(), i)) && pd.value.pd[USER_TABLES..] == kernel
  {
    if !memory {
      return None;
    }
    var dir := new PageDirectory(kernel);
    return Some(dir);
  }

  // ---------------------------------------------------------------- destruction

  /** The frames of the present entries, in order. */
  function Frames(es: seq<int>): (fs: seq<int>) {
    if es == [] then [] else Frames(es[..|es| - 1]) + if Present(es[|es| - 1]) then [GetPage(es[|es| - 1])] else []
  }

  /** What the first `n` directory entries give back. */
  ghost function FreedBefore(s: Space, n: nat): (fs: seq<int>)
    requires Valid(s) && n <= USER_TABLES
  {
    if n == 0 then []
    else FreedBefore(s, n - 1) + if HasTable(s, n - 1) then Frames(s.tables[GetPage(s.pd[n - 1])]) + [GetPage(s.pd[n - 1])] else []
  }

  ghost function DestroyList(s: Space, self: int): (fs: seq<int>)
    requires Valid(s)
  {
    FreedBefore(s, USER_TABLES) + [self]
  }

  /** User page `v` is mapped to frame `x`. */
  ghost predicate Maps(s: Space, v: int, x: int)
    requires Valid(s)
  {
    Lookup(s, v).Some? && Lookup(s, v).value.frame == x
  }

  ghost predicate IsTable(s: Space, i: int, x: int)
    requires Valid(s)
  {
    HasTable(s, i) && GetPage(s.pd[i]) == x
  }

  /** Each frame is mapped once, and is neither a table nor the directory. */
  ghost predicate Owned(s: Space, self: int)
    requires Valid(s)
  {
    && (forall v, w, x | Maps(s, v, x) && Maps(s, w, x) :: v == w)
    && (forall v, i, x | Maps(s, v, x) :: !IsTable(s, i, x))
    && (forall v :: !Maps(s, v, self)) && forall i :: !IsTable(s, i, self)
  }

  lemma {:induction false} FramesAre(es: seq<int>)
    ensures forall x :: x in Frames(es) <==> exists j :: 0 <= j < |es| && Present(es[j]) && GetPage(es[j]) == x
  {
    if es != [] {
      var n := |es| - 1;
      FramesAre(es[..n]);
      forall x ensures x in Frames(es) <==> exists j :: 0 <= j < |es| && Present(es[j]) && GetPage(es[j]) == x {
        if x in Frames(es[..n]) {
          var j :| 0 <= j < n && Present(es[..n][j]) && GetPage(es[..n][j]) == x;
          assert Present(es[j]) && GetPage(es[j]) == x;
        }
        if j :| 0 <= j < n && Present(es[j]) && GetPage(es[j]) == x {
          assert Present(es[..n][j]) && GetPage(es[..n][j]) == x;
        }
      }
    }
  }

  ghost predicate FramesDiffer(es: seq<int>) {
    forall j, k | 0 <= j < k < |es| && Present(es[j]) && Present(es[k]) :: GetPage(es[j]) != GetPage(es[k])
  }

  lemma {:induction false} FramesOnce(es: seq<int>)
    requires FramesDiffer(es)
    ensures Distinct(Frames(es))
  {
    if es != [] {
      var n := |es| - 1;
      FramesOnce(es[..n]);
      FramesAre(es[..n]);
      var fs := Frames(es[..n]);
      assert forall i | 0 <= i < |fs| :: fs[i] in fs;
      assert Present(es[n]) ==> GetPage(es[n]) !in fs;
    }
  }

  /** A page a table's destruction gives back is mapped from that table's part of the space. */
  lemma FramesOfTable(s: Space, i: nat)
    requires Valid(s) && i < USER_TABLES && HasTable(s, i)
    ensures forall x :: x in Frames(s.tables[GetPage(s.pd[i])]) <==> exists v :: v / ENTRIES == i && Maps(s, v, x)
  {
    var es := s.tables[GetPage(s.pd[i])];
    FramesAre(es);
    hide GetPage;
    forall x ensures x in Frames(es) <==> exists v :: v / ENTRIES == i && Maps(s, v, x) {
      if x in Frames(es) {
        var j :| 0 <= j < ENTRIES && Present(es[j]) && GetPage(es[j]) == x;
        var v := i * ENTRIES + j;
        assert v / ENTRIES == i && v % ENTRIES == j;
        assert Maps(s, v, x);
      }
      if v :| v / ENTRIES == i && Maps(s, v, x) {
        assert Present(es[v % ENTRIES]) && GetPage(es[v % ENTRIES]) == x;
      }
    }
  }

  lemma FramesDistinct(s: Space, self: int, i: nat)
    requires Valid(s) && Owned(s, self) && i < USER_TABLES && HasTable(s, i)
    ensures Distinct(Frames(s.tables[GetPage(s.pd[i])]))
  {
    var es := s.tables[GetPage(s.pd[i])];
    hide GetPage;
    forall j, k | 0 <= j < k < |es| && Present(es[j]) && Present(es[k]) ensures GetPage(es[j]) != GetPage(es[k]) {
      var v, w := i * ENTRIES + j, i * ENTRIES + k;
      assert v / ENTRIES == i && v % ENTRIES == j && w / ENTRIES == i && w % ENTRIES == k;
      assert Maps(s, v, GetPage(es[j])) && Maps(s, w, GetPage(es[k]));
    }
    FramesOnce(es);
  }

  /** `x` is a frame mapped, or the table used, by one of the first `n` directory entries. */
  ghost predicate InPart(s: Space, n: nat, x: int)
    requires Valid(s)
  {
    (exists v :: 0 <= v / ENTRIES < n && Maps(s, v, x)) || exists i :: 0 <= i < n && IsTable(s, i, x)
  }

  lemma {:induction false} FreedAre(s: Space, self: int, n: nat)
    requires Valid(s) && Owned(s, self) && n <= USER_TABLES
    ensures Distinct(FreedBefore(s, n)) && forall x :: x in FreedBefore(s, n) <==> InPart(s, n, x)
  {
    hide GetPage;
    if n > 0 {
      FreedAre(s, self, n - 1);
      var i := n - 1;
      if HasTable(s, i) {
        FramesOfTable(s, i);
        FramesDistinct(s, self, i);
        var t := GetPage(s.pd[i]);
        var a, b := FreedBefore(s, i), Frames(s.tables[t]);
        assert IsTable(s, i, t);
        forall x | x in a ensures x !in b && x != t {
          PartsApart(s, self, i, x);
        }
        assert t !in b;
        Joined(a, b, t);
        forall x ensures x in FreedBefore(s, n) <==> InPart(s, n, x) {
          assert x in FreedBefore(s, n) <==> x in a || x in b || x == t;
          PartGrows(s, i, x);
        }
      } else {
        forall x ensures InPart(s, n, x) <==> InPart(s, i, x) {
          PartGrows(s, i, x);
        }
      }
    }
  }

  lemma Joined(a: seq<int>, b: seq<int>, t: int)
    requires Distinct(a) && Distinct(b) && t !in b && forall x | x in a :: x !in b && x != t
    ensures Distinct(a + (b + [t]))
  {
    assert forall i | 0 <= i < |a| :: a[i] in a;
    assert forall i | 0 <= i < |b| :: b[i] in b;
  }

  lemma PartGrows(s: Space, i: nat, x: int)
    requires Valid(s) && i < USER_TABLES
    ensures InPart(s, i + 1, x) <==> InPart(s, i, x) || IsTable(s, i, x) || exists v :: v / ENTRIES == i && Maps(s, v, x)
  {
    if v :| 0 <= v / ENTRIES < i + 1 && Maps(s, v, x) {
      assert v / ENTRIES < i || v / ENTRIES == i;
    }
    if k :| 0 <= k < i + 1 && IsTable(s, k, x) {
      assert k < i || k == i;
    }
  }

  /** What earlier directory entries give back, this one does not. */
  lemma PartsApart(s: Space, self: int, i: nat, x: int)
    requires Valid(s) && Owned(s, self) && i < USER_TABLES && HasTable(s, i) && InPart(s, i, x)
    ensures x != GetPage(s.pd[i]) && x !in Frames(s.tables[GetPage(s.pd[i])])
  {
    FramesOfTable(s, i);
    hide GetPage;
    var t := GetPage(s.pd[i]);
    assert IsTable(s, i, t);
    if v :| 0 <= v / ENTRIES < i && Maps(s, v, x) {
      assert forall w | Maps(s, w, x) :: w == v;
    } else {
      var k :| 0 <= k < i && IsTable(s, k, x);
      assert forall w :: !Maps(s, w, x);
    }
  }

  /** pagedir_destroy gives back every mapped frame, every page table and the directory, each
      exactly once, and nothing else. */
  lemma DestroyOnce(s: Space, self: int)
    requires Valid(s) && Owned(s, self)
    ensures Distinct(DestroyList(s, self))
    ensures forall x :: x in DestroyList(s, self) <==>
              x == self || (exists v :: Maps(s, v, x)) || exists i :: IsTable(s, i, x)
  {
    FreedAre(s, self, USER_TABLES);
    var fs := FreedBefore(s, USER_TABLES);
    assert forall i | 0 <= i < |fs| :: fs[i] in fs;
    assert self !in fs;
    forall x ensures InPart(s, USER_TABLES, x) <==> (exists v :: Maps(s, v, x)) || exists i :: IsTable(s, i, x) {
      if v :| Maps(s, v, x) {
        assert HasTable(s, v / ENTRIES);
      }
    }
  }

  // ---------------------------------------------------------------- runs

  /** `x` is the directory, one of its tables or a frame it maps. */
  ghost predicate InUse(s: Space, self: int, x: int)
    requires Valid(s)
  {
    x == self || (exists v :: Maps(s, v, x)) || exists i :: IsTable(s, i, x)
  }

  /** The page allocator hands out no page that the directory uses, nor the frame being mapped. */
  ghost predicate Granted(s: Space, self: int, c: Call)
    requires Valid(s)
  {
    c.Map? && c.page.Some? ==> c.page.value != c.kpage && !InUse(s, self, c.page.value)
  }

  /** The call does not map a page the directory already uses. */
  ghost predicate MapsUnused(s: Space, self: int, c: Call)
    requires Valid(s)
  {
    c.Map? && Succeeds(s, c) ==> !InUse(s, self, c.kpage)
  }

  lemma TabledOwned(s: Space, self: int, i: int, page: Option<int>)
    requires Valid(s) && 0 <= i < USER_TABLES && (page.Some? ==> KernelPage(page.value) && page.value !in s.tables)
    requires Owned(s, self) && (page.Some? ==> !InUse(s, self, page.value))
    ensures Valid(Tabled(s, i, page)) && Owned(Tabled(s, i, page), self)
    ensures forall x | page.Some? ==> x != page.value :: InUse(Tabled(s, i, page), self, x) <==> InUse(s, self, x)
  {
    var r := Tabled(s, i, page);
    TabledKeeps(s, i, page);
    assert forall v, x :: Maps(r, v, x) <==> Maps(s, v, x);
    if page.Some? {
      EntryRoundTrip(page.value, true);
      hide GetPage;
      assert forall k, x :: IsTable(r, k, x) ==> IsTable(s, k, x) || x == page.value;
      assert forall k, x :: IsTable(s, k, x) ==> IsTable(r, k, x);
    }
  }

  /** Each frame stays mapped once exactly when the frame being mapped is not in use. */
  lemma StoredOwnedIff(s: Space, r: Space, self: int, v: int, m: Option<Mapping>)
    requires Valid(s) && Owned(s, self) && OneChange(s, r, v, m) && r.pd == s.pd && Lookup(s, v) == None
    ensures Owned(r, self) <==> m.None? || !InUse(s, self, m.value.frame)
  {
    assert forall i, x :: IsTable(r, i, x) <==> IsTable(s, i, x);
    assert forall w, x :: Maps(r, w, x) <==> if w == v then m.Some? && x == m.value.frame else Maps(s, w, x);
    if m.Some? && InUse(s, self, m.value.frame) {
      var x := m.value.frame;
      assert Maps(r, v, x);
      if w :| Maps(s, w, x) {
        assert w != v && Maps(r, w, x);
      }
    }
  }

  lemma UnmapOwned(s: Space, r: Space, self: int, v: int)
    requires Valid(s) && Owned(s, self) && OneChange(s, r, v, None) && r.pd == s.pd
    ensures Owned(r, self)
  {
    assert forall i, x :: IsTable(r, i, x) <==> IsTable(s, i, x);
    assert forall w, x :: Maps(r, w, x) ==> Maps(s, w, x);
  }

  /** One call keeps every frame mapped once exactly when it maps no page in use. */
  lemma CallOwnedIff(s: Space, self: int, c: Call)
    requires Valid(s) && Owned(s, self) && Callable(s, c) && Granted(s, self, c)
    ensures Valid(After(s, c)) && (Owned(After(s, c), self) <==> MapsUnused(s, self, c))
  {
    CallChanges(s, c);
    AddressParts(c.upage);
    var v := c.upage / PGSIZE;
    hide Owned;
    hide InUse;
    hide Lookup;
    hide WithTable;
    if c.Unmap? {
      UnmapOwned(s, After(s, c), self, v);
    } else if Succeeds(s, c) {
      var t := Tabled(s, PdNo(c.upage), c.page);
      TabledKeeps(s, PdNo(c.upage), c.page);
      TabledOwned(s, self, PdNo(c.upage), c.page);
      MappedKeeps(t, v, c.kpage, c.writable);
      StoredOwnedIff(t, After(s, c), self, v, Some(Mapping(c.kpage, c.writable, true)));
    }
  }

  /** A run from pagedir_create: nothing mapped, no tables, then calls one after the other. */
  ghost predicate IsRun(ss: seq<Space>, cs: seq<Call>, self: int) {
    && |ss| == |cs| + 1
    && Valid(ss[0]) && (forall i :: !HasTable(ss[0], i))
    && forall k | 0 <= k < |cs| :: Valid(ss[k]) && Callable(ss[k], cs[k]) && Granted(ss[k], self, cs[k])
                                   && ss[k + 1] == After(ss[k], cs[k])
  }

  lemma RunValid(ss: seq<Space>, cs: seq<Call>, self: int, n: nat)
    requires IsRun(ss, cs, self) && n <= |cs|
    ensures Valid(ss[n])
  {
    if n > 0 {
      CallChanges(ss[n - 1], cs[n - 1]);
      hide Valid;
      hide After;
    }
  }

  /** Over every run of mapping and unmapping: all frames are mapped once in every state up to
      `n`, and are neither a table nor the directory, exactly when no call before mapped a page in
      use. */
  lemma {:induction false} RunOwnedIff(ss: seq<Space>, cs: seq<Call>, self: int, n: nat)
    requires IsRun(ss, cs, self) && n <= |cs|
    ensures forall k | 0 <= k <= n :: Valid(ss[k])
    ensures (forall k | 0 <= k <= n :: Owned(ss[k], self)) <==> forall k | 0 <= k < n :: MapsUnused(ss[k], self, cs[k])
  {
    hide Callable;
    hide Granted;
    hide After;
    hide MapsUnused;
    if n == 0 {
      assert forall v :: Lookup(ss[0], v) == None;
    } else {
      hide Owned;
      RunOwnedIff(ss, cs, self, n - 1);
      RunValid(ss, cs, self, n);
      if Owned(ss[n - 1], self) {
        CallOwnedIff(ss[n - 1], self, cs[n - 1]);
      }
    }
  }

  /** What pagedir_destroy gives back at the end of such a run: everything in use, once. */
  lemma RunDestroysOnce(ss: seq<Space>, cs: seq<Call>, self: int)
    requires IsRun(ss, cs, self) && forall k | 0 <= k < |cs| :: Valid(ss[k]) && MapsUnused(ss[k], self, cs[k])
    ensures var s := ss[|cs|];
            && Valid(s) && Distinct(DestroyList(s, self))
            && forall x :: x in DestroyList(s, self) <==> InUse(s, self, x)
  {
    RunOwnedIff(ss, cs, self, |cs|);
    DestroyOnce(ss[|cs|], self);
  }
}
