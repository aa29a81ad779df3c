/** Creating inodes and changing the root directory's entries. */
module FileDirectory {
  import opened InodeIo
  import opened DiskFormat
  import opened FileSystem
  import opened FileLayout
  import opened FileInvariant
  import opened FileCalls

  // ---------------------------------------------------------------- creating an inode

  /** A sector and a run of data sectors, all marked used, that no live file owns. */
  ghost predicate ClearRun(s: State, sector: Sector, d: DiskInode)
    requires RootFits(s.disk)
  {
    && |s.used| == |s.disk| && 0 <= sector < |s.disk| && s.used[sector]
    && d.start + SectorsFor(d.length) <= |s.disk| && d.start < WORD && d.length < WORD && !InData(d, sector)
    && (forall k | 0 <= k < |s.disk| && InData(d, k) :: s.used[k])
    && (forall i, k | i in Live(s) && Owns(s.disk, i, k) :: k != sector && !InData(d, k))
  }

  /** The run found for the data is away from the inode's own sector and from every file. */
  lemma DataRun(tmp: set<Sector>, s: State, sector: Sector, length: nat, memory: bool)
    requires Core(s, tmp) && 0 <= sector < |s.disk| && s.used[sector] && Unowned(s, sector, 1) && length < SIZE_MAX
    requires Allocates(s, SectorsFor(length), memory)
    ensures var s1 := Allocate(s, SectorsFor(length), memory);
            RootFits(s1.disk) && ClearRun(s1, sector, DiskInode(FirstFit(s.used, 0, SectorsFor(length)), length))
  {
    var n := SectorsFor(length);
    AllocateKeeps(tmp, s, n, memory);
    UnownedSameAllocate(tmp, s, n, memory, sector);
    CoreLayout(tmp, Allocate(s, n, memory));
    assert n == 0 ==> FirstFit(s.used, 0, n) == 0;
    hide Allocate;
    hide Core;
    hide Live;
    MarkedRun(s.used, Allocate(s, n, memory), sector, DiskInode(FirstFit(s.used, 0, n), length));
  }

  lemma MarkedRun(used: seq<bool>, s: State, sector: Sector, d: DiskInode)
    requires RootFits(s.disk) && |s.used| == |s.disk| == |used| && 0 <= sector < |used| && used[sector]
    requires d.length < SIZE_MAX && d.start + SectorsFor(d.length) <= |used| && (SectorsFor(d.length) == 0 ==> d.start == 0)
    requires RunFree(used, d.start, SectorsFor(d.length)) && s.used == SetRun(used, d.start, SectorsFor(d.length), true)
    requires Unowned(s, d.start, SectorsFor(d.length)) && Unowned(s, sector, 1)
    ensures ClearRun(s, sector, d)
  {
    hide Live;
    hide SectorsFor;
  }

  lemma UnownedSameAllocate(tmp: set<Sector>, s: State, count: nat, memory: bool, sector: Sector)
    requires Core(s, tmp) && 0 <= sector < |s.disk| && Unowned(s, sector, 1)
    ensures Core(Allocate(s, count, memory), tmp) && Unowned(Allocate(s, count, memory), sector, 1)
  {
    AllocateKeeps(tmp, s, count, memory);
    AllocateMapInode(tmp, s, count, memory);
    hide Allocate;
    UnownedSame(tmp, s, Allocate(s, count, memory), sector, 1);
  }

  /** Storing the map does not move the map's file. */
  lemma AllocateMapInode(tmp: set<Sector>, s: State, count: nat, memory: bool)
    requires Core(s, tmp)
    ensures DecodeInode(Allocate(s, count, memory).disk[FREE_MAP]) == DecodeInode(s.disk[FREE_MAP])
  {
    var first := FirstFit(s.used, 0, count);
    if first + count <= |s.used| {
      RemarkKeeps(tmp, s, first, count, true);
      var s1 := s.(used := SetRun(s.used, first, count, true));
      hide Flush;
      hide Core;
      FlushOnlyFile(tmp, s1, memory);
      assert FREE_MAP in Live(s1);
    }
  }

  /** A size that overflows when it is rounded up asks for more sectors than a device has: no inode,
      and nothing changes. */
  lemma OverflowFails(tmp: set<Sector>, s: State, sector: Sector, length: nat, lk: Luck)
    requires Core(s, tmp) && 0 <= sector < |s.disk| && SIZE_MAX - SECTOR < length < SIZE_MAX
    ensures Sane(s) && !CreatesInode(s, length, lk) && CreateInode(s, sector, length, lk) == s
  {
    FirstFitLowest(s.used, 0, AskedSectors(length));
  }

  /** No file that exists is so long, so inode_close releases exactly its sectors. */
  lemma SectorsExact(tmp: set<Sector>, s: State, i: Sector)
    requires Core(s, tmp) && i in Live(s)
    ensures 0 <= i < |s.disk|
    ensures var n := DecodeInode(s.disk[i]).length; n < SIZE_MAX && AskedSectors(n) == SectorsFor(n)
  {
    hide Live;
    hide DecodeInode;
    LiveInRange(tmp, s, i);
  }

  /** inode_create keeps every file; on success the new inode joins the layout, holding zeros. */
  lemma CreateInodeKeeps(tmp: set<Sector>, s: State, sector: Sector, length: nat, lk: Luck)
    requires Core(s, tmp) && 0 <= sector < |s.disk| && s.used[sector] && Unowned(s, sector, 1) && length < SIZE_MAX
    ensures var r := CreateInode(s, sector, length, lk);
            && Core(r, tmp) && SameFiles(s, r) && Live(r) == Live(s) && r.used[sector] && Unowned(r, sector, 1)
            && (CreatesInode(s, length, lk) ==> Fresh(r, sector, NewData(s.used, length)))
  {
    if !lk.buffer {
      SameFilesHere(tmp, s);
    } else {
      AllocateKeeps(tmp, s, AskedSectors(length), lk.map2);
      UnownedSameAllocate(tmp, s, AskedSectors(length), lk.map2, sector);
      if CreatesInode(s, length, lk) {
        InodeWritten(tmp, s, sector, length, lk);
      }
    }
  }

  /** The inode a new file gets: its data are the lowest free run. */
  function NewData(used: seq<bool>, length: nat): (d: DiskInode)
    requires length < SIZE_MAX
  {
    DiskInode(FirstFit(used, 0, AskedSectors(length)), length)
  }

  /** A new inode, not yet named: in place beside the live ones, its file all zeros. */
  ghost predicate Fresh(s: State, i: Sector, d: DiskInode)
    requires RootFits(s.disk)
  {
    && i !in Live(s) && Layout(s.disk, s.used, Live(s) + {i})
    && 0 <= i < |s.disk| && DecodeInode(s.disk[i]) == d && FitsInode(s.disk, d)
    && FileBytes(s.disk, i) == seq(d.length, _ => 0)
  }

  lemma InodeWritten(tmp: set<Sector>, s: State, sector: Sector, length: nat, lk: Luck)
    requires Core(s, tmp) && 0 <= sector < |s.disk| && s.used[sector] && Unowned(s, sector, 1) && length < SIZE_MAX
    requires CreatesInode(s, length, lk)
    ensures var r := CreateInode(s, sector, length, lk);
            && Core(r, tmp) && SameFiles(s, r) && Live(r) == Live(s) && r.used[sector] && Unowned(r, sector, 1)
            && Fresh(r, sector, NewData(s.used, length))
  {
    var n := SectorsFor(length);
    AllocateKeeps(tmp, s, n, lk.map2);
    UnownedSameAllocate(tmp, s, n, lk.map2, sector);
    DataRun(tmp, s, sector, length, lk.map2);
    hide Allocate;
    hide Core;
    hide ClearRun;
    hide SameFiles;
    hide Unowned;
    hide Fresh;
    InodePlaced(tmp, s, Allocate(s, n, lk.map2), sector, DiskInode(FirstFit(s.used, 0, n), length));
  }

  /** Writing the inode and zeroing its data, once the sectors are marked. */
  lemma InodePlaced(tmp: set<Sector>, s: State, s1: State, sector: Sector, d: DiskInode)
    requires Core(s1, tmp) && RootFits(s.disk) && SameFiles(s, s1) && Live(s1) == Live(s)
    requires ClearRun(s1, sector, d) && Unowned(s1, sector, 1)
    ensures var r := s1.(disk := WithInode(s1.disk, sector, d));
            && Core(r, tmp) && SameFiles(s, r) && Live(r) == Live(s) && r.used[sector] && Unowned(r, sector, 1)
            && Fresh(r, sector, d)
  {
    var r := s1.(disk := WithInode(s1.disk, sector, d));
    CoreLayout(tmp, s1);
    hide Core;
    hide Zeroed;
    hide EncodeInode;
    NewInodeKeeps(s1.disk, s1.used, Live(s1), sector, d);
    NewOnlyFile(tmp, s1, r, sector);
    NotLive(s1, sector);
    OnlyFileKeeps(tmp, s1, r, FREE_MAP);
    CoreLayout(tmp, r);
    NewSameFiles(s, s1, r);
    NewUnowned(s1, r, sector);
  }

  lemma CoreLayout(tmp: set<Sector>, s: State)
    requires Core(s, tmp)
    ensures RootFits(s.disk) && Layout(s.disk, s.used, Live(s)) && Sane(s)
  {
  }

  lemma NotLive(s: State, i: Sector)
    requires RootFits(s.disk) && 0 <= i < |s.disk| && Unowned(s, i, 1)
    ensures i !in Live(s)
  {
    assert Owns(s.disk, i, i);
  }

  lemma NewOnlyFile(tmp: set<Sector>, s: State, r: State, sector: Sector)
    requires Core(s, tmp) && r == s.(disk := r.disk) && RootFits(s.disk) && Disk(r.disk) && |r.disk| == |s.disk|
    requires Layout(r.disk, r.used, Live(s) + {sector}) && forall i | i in Live(s) :: SameFile(s.disk, r.disk, i)
    ensures OnlyFile(s, r, FREE_MAP)
  {
    hide Core;
    SmallerLayout(r.disk, r.used, Live(s) + {sector}, Live(s));
    hide Live;
  }

  lemma NewSameFiles(s: State, s1: State, r: State)
    requires RootFits(s.disk) && RootFits(s1.disk) && SameFiles(s, s1) && Live(s1) == Live(s)
    requires r == s1.(disk := r.disk) && RootFits(r.disk) && |r.disk| == |s1.disk| && Entries(r.disk) == Entries(s1.disk)
    requires forall i | i in Live(s1) :: SameFile(s1.disk, r.disk, i)
    ensures SameFiles(s, r)
  {
    hide Live;
    hide FileBytes;
  }

  lemma NewUnowned(s1: State, r: State, sector: Sector)
    requires RootFits(s1.disk) && RootFits(r.disk) && Live(r) == Live(s1) && sector >= 0 && Unowned(s1, sector, 1)
    requires |r.disk| == |s1.disk| && forall i | i in Live(s1) :: SameFile(s1.disk, r.disk, i)
    ensures Unowned(r, sector, 1)
  {
    forall i, k | i in Live(r) && Owns(r.disk, i, k) ensures k != sector {
      assert SameFile(s1.disk, r.disk, i);
      assert Owns(s1.disk, i, k);
    }
  }

  // ---------------------------------------------------------------- entries

  /** The inode that loses its name when entry `k` is overwritten. */
  function Gone(es: seq<Entry>, k: nat): (g: set<Sector>)
    requires k < |es|
  {
    if es[k].inUse then {es[k].sector} else {}
  }

  lemma AddedEntry(es: seq<Entry>, k: nat, name: seq<Byte>, i: nat)
    requires EntriesOK(es) && k < |es| && NameOK(name) && i != FREE_MAP && i != ROOT && i !in Named(es)
    ensures var es' := es[k := Entry(i, name, true)];
            EntriesOK(es') && Named(es') == Named(es) - Gone(es, k) + {i}
  {
    var es' := es[k := Entry(i, name, true)];
    assert forall m | 0 <= m < |es| && es[m].inUse :: es[m].sector in Named(es);
    assert forall m | 0 <= m < |es'| && m != k :: es'[m] == es[m];
    assert es'[k].inUse && es'[k].sector == i;
    forall j ensures j in Named(es') <==> j in Named(es) - Gone(es, k) || j == i {
      if j in Named(es) - Gone(es, k) {
        var m :| 0 <= m < |es| && es[m].inUse && es[m].sector == j;
        assert es'[m].sector == j;
      }
    }
  }

  lemma ErasedOne(es: seq<Entry>, k: nat)
    requires EntriesOK(es) && k < |es| && es[k].inUse
    ensures var es' := es[k := es[k].(inUse := false)];
            EntriesOK(es') && Named(es') == Named(es) - {es[k].sector} && es[k].sector in Named(es)
    ensures es[k].sector != FREE_MAP && es[k].sector != ROOT
  {
    var es' := es[k := es[k].(inUse := false)];
    assert forall m | 0 <= m < |es'| && m != k :: es'[m] == es[m];
    forall j ensures j in Named(es') <==> j in Named(es) && j != es[k].sector {
      if j in Named(es) && j != es[k].sector {
        var m :| 0 <= m < |es| && es[m].inUse && es[m].sector == j;
        assert es'[m].sector == j;
      }
    }
  }

  lemma EntryTransfer(length: nat, k: nat, memory: bool)
    requires ENTRY * k + ENTRY <= length
    ensures Transfer(length, ENTRY, ENTRY * k, memory) == if memory then ENTRY else 0
  {
  }

  /** A write of one entry stores all of it or nothing. */
  lemma EntryWrite(tmp: set<Sector>, s: State, k: nat, b: seq<Byte>, memory: bool)
    requires Core(s, tmp) && ROOT in tmp && k < |Entries(s.disk)| && |b| == ENTRY
    ensures ROOT in s.inodes && s.inodes[ROOT].data == DecodeInode(s.disk[ROOT])
    ensures ENTRY * k + ENTRY <= DecodeInode(s.disk[ROOT]).length
    ensures WriteCount(s, ROOT, ENTRY, ENTRY * k, memory) == if memory then ENTRY else 0
    ensures !memory ==> WriteInode(s, ROOT, b, ENTRY * k, memory) == s
    ensures memory ==> WriteInode(s, ROOT, b, ENTRY * k, memory)
                       == s.(disk := Patched(s.disk, s.inodes[ROOT].data.start, ENTRY * k, b))
  {
    Held(tmp, s, ROOT);
    CoreLayout(tmp, s);
    CoreEntries(tmp, s);
    hide Core;
    hide DecodeInode;
    hide Patched;
    hide EntriesOK;
    hide Sane;
    assert ENTRY * k + ENTRY <= DecodeInode(s.disk[ROOT]).length;
    EntryTransfer(DecodeInode(s.disk[ROOT]).length, k, memory);
    hide Transfer;
    hide Entries;
    PatchedNothing(s.disk, s.inodes[ROOT].data.start, ENTRY * k);
    assert b[..ENTRY] == b && b[..0] == [];
  }

  /** Storing an entry's bytes in the directory changes that entry and no other file. */
  lemma EntryStored(tmp: set<Sector>, s: State, live: set<Sector>, k: nat, b: seq<Byte>)
    requires Core(s, tmp) && ROOT in tmp && k < |Entries(s.disk)| && |b| == ENTRY
    requires Layout(s.disk, s.used, live) && ROOT in live
    ensures ROOT in s.inodes
    ensures var disk' := Patched(s.disk, s.inodes[ROOT].data.start, ENTRY * k, b);
            && Layout(disk', s.used, live) && RootFits(disk')
            && (forall i | i in live && i != ROOT :: SameFile(s.disk, disk', i))
            && DecodeInode(disk'[ROOT]) == DecodeInode(s.disk[ROOT])
            && Entries(disk') == Entries(s.disk)[k := DecodeEntry(b)]
  {
    EntryWrite(tmp, s, k, b, true);
    CoreLayout(tmp, s);
    hide Core;
    hide Layout;
    hide Patched;
    hide Slots;
    StoreKeeps(s.disk, s.used, live, ROOT, ENTRY * k, b);
    SlotStored(FileBytes(s.disk, ROOT), k, b);
  }

  /** dir_add: either the name is refused and nothing changes, or the inode gets its name. */
  lemma AddEntryKeeps(tmp: set<Sector>, s: State, name: seq<Byte>, i: Sector, d: DiskInode, lk: Luck)
    requires Core(s, tmp) && ROOT in tmp && i >= 0 && Fresh(s, i, d) && 0 !in name
    ensures Sane(s) && DirOpen(s) && RootFits(s.disk) && DirBytes(s) == FileBytes(s.disk, ROOT)
    ensures AddsEntry(s, name, lk) <==>
              var es := Entries(s.disk); NameOK(name) && lk.entry && !Finds(es, name, lk) && SlotFor(es, lk) < |es|
    ensures !AddsEntry(s, name, lk) ==> AddEntry(s, name, i, lk) == s
    ensures AddsEntry(s, name, lk) ==> Added(tmp, s, SlotFor(Entries(s.disk), lk), name, i, AddEntry(s, name, i, lk))
  {
    Held(tmp, s, ROOT);
    CoreLayout(tmp, s);
    var c := DirBytes(s);
    var es := Slots(c);
    if NameOK(name) && !Finds(es, name, lk) && SlotFor(es, lk) < |es| {
      var k := SlotFor(es, lk);
      var b := FilledEntry(LeftOver(c, k, lk.searches, lk.stack), name, i);
      EntryWrite(tmp, s, k, b, lk.entry);
      hide Core;
      hide WriteInode;
      hide Added;
      hide Fresh;
      if lk.entry {
        FilledNamed(tmp, s, k, LeftOver(c, k, lk.searches, lk.stack), name, i, d);
      }
    }
  }

  /** The new entry is in place, its inode live, and every other file as before; an inode whose
      name was overwritten is live only if it is open. */
  ghost predicate Added(tmp: set<Sector>, s: State, k: nat, name: seq<Byte>, i: Sector, r: State)
    requires RootFits(s.disk)
  {
    && Core(r, tmp) && r == s.(disk := r.disk)
    && |r.disk| == |s.disk|
    && (forall j | j in Live(s) && j != ROOT :: SameFile(s.disk, r.disk, j)) && SameFile(s.disk, r.disk, i)
    && var es := Entries(s.disk);
       && k < |es| && i >= 0 && Entries(r.disk) == es[k := Entry(i, name, true)]
       && Live(r) == Live(s) - (Gone(es, k) - s.inodes.Keys) + {i}
  }

  lemma FilledNamed(tmp: set<Sector>, s: State, k: nat, old': EntryBytes, name: seq<Byte>, i: Sector, d: DiskInode)
    requires Core(s, tmp) && ROOT in tmp && ROOT in s.inodes && i >= 0 && Fresh(s, i, d) && 0 !in name && NameOK(name)
    requires k < |Entries(s.disk)|
    ensures Added(tmp, s, k, name, i,
                  s.(disk := Patched(s.disk, s.inodes[ROOT].data.start, ENTRY * k, FilledEntry(old', name, i))))
  {
    CoreLayout(tmp, s);
    FreshSector(s, i, d);
    FilledDecodes(old', name, i);
    hide Core;
    hide FilledEntry;
    hide Slots;
    StoredNamed(tmp, s, k, FilledEntry(old', name, i), name, i, d);
  }

  lemma StoredNamed(tmp: set<Sector>, s: State, k: nat, b: seq<Byte>, name: seq<Byte>, i: Sector, d: DiskInode)
    requires Core(s, tmp) && ROOT in tmp && ROOT in s.inodes && i >= 0 && Fresh(s, i, d) && NameOK(name)
    requires k < |Entries(s.disk)| && |b| == ENTRY && DecodeEntry(b) == Entry(i, name, true)
    ensures Added(tmp, s, k, name, i, s.(disk := Patched(s.disk, s.inodes[ROOT].data.start, ENTRY * k, b)))
  {
    hide Core;
    hide Layout;
    hide EntriesOK;
    hide Entries;
    hide Named;
    hide Live;
    hide SameFile;
    hide DecodeInode;
    hide Sane;
    hide FlagOK;
    hide Patched;
    hide Fresh;
    hide DecodeEntry;
    hide Gone;
    CoreLayout(tmp, s);
    CoreEntries(tmp, s);
    FreshLayout(s, i, d);
    FreshSector(s, i, d);
    NewNameFlags(tmp, s, k, i);
    EntryStored(tmp, s, Live(s) + {i}, k, b);
    AddedEntry(Entries(s.disk), k, name, i);
    var es, r := Entries(s.disk), s.(disk := Patched(s.disk, s.inodes[ROOT].data.start, ENTRY * k, b));
    var live := Live(s) - (Gone(es, k) - s.inodes.Keys) + {i};
    SmallerLayout(r.disk, r.used, Live(s) + {i}, live);
    SaneStored(s, r.disk);
    RenamedCore(tmp, s, r, live, Named(es) - Gone(es, k) + {i});
  }

  lemma CoreEntries(tmp: set<Sector>, s: State)
    requires Core(s, tmp)
    ensures RootFits(s.disk) && EntriesOK(Entries(s.disk)) && DecodeInode(s.disk[ROOT]).length % ENTRY == 0
  {
  }

  lemma FreshLayout(s: State, i: Sector, d: DiskInode)
    requires RootFits(s.disk) && Fresh(s, i, d)
    ensures Layout(s.disk, s.used, Live(s) + {i}) && ROOT in Live(s) + {i}
  {
  }

  lemma FreshSector(s: State, i: Sector, d: DiskInode)
    requires RootFits(s.disk) && Fresh(s, i, d)
    ensures 0 <= i < WORD && i != FREE_MAP && i != ROOT && i !in Named(Entries(s.disk)) && i !in s.inodes
  {
  }

  lemma NewNameFlags(tmp: set<Sector>, s: State, k: nat, i: Sector)
    requires Core(s, tmp) && i !in s.inodes && i !in Named(Entries(s.disk)) && k < |Entries(s.disk)|
    ensures var es := Entries(s.disk);
            {FREE_MAP, ROOT} + (Named(es) - Gone(es, k) + {i}) + s.inodes.Keys == Live(s) - (Gone(es, k) - s.inodes.Keys) + {i}
    ensures forall j | j in s.inodes :: FlagOK(j, s.inodes[j].removed, Named(Entries(s.disk)) - Gone(Entries(s.disk), k) + {i})
  {
    hide Layout;
    hide EntriesOK;
    hide Entries;
    hide Named;
    hide Gone;
    hide FlagOK;
    hide Counts;
    GoneNamed(tmp, s, k);
    NamedAnew({FREE_MAP, ROOT}, Named(Entries(s.disk)), Gone(Entries(s.disk), k), s.inodes.Keys, i);
    forall j | j in s.inodes ensures FlagOK(j, s.inodes[j].removed, Named(Entries(s.disk)) - Gone(Entries(s.disk), k) + {i}) {
      FlagAnew(tmp, s, k, i, j);
    }
  }

  lemma FlagAnew(tmp: set<Sector>, s: State, k: nat, i: Sector, j: Sector)
    requires Core(s, tmp) && i !in s.inodes && k < |Entries(s.disk)| && j in s.inodes
    ensures FlagOK(j, s.inodes[j].removed, Named(Entries(s.disk)) - Gone(Entries(s.disk), k) + {i})
  {
    hide Layout;
    hide EntriesOK;
    hide Entries;
    hide Named;
    hide Gone;
    assert CountOK(s.inodes[j], s.files, j, j in tmp);
  }

  lemma NamedAnew(system: set<Sector>, named: set<Sector>, gone: set<Sector>, open: set<Sector>, i: Sector)
    requires system * gone == {} && gone <= named
    ensures system + (named - gone + {i}) + open == system + named + open - (gone - open) + {i}
  {
  }

  lemma GoneNamed(tmp: set<Sector>, s: State, k: nat)
    requires Core(s, tmp) && k < |Entries(s.disk)|
    ensures Gone(Entries(s.disk), k) <= Named(Entries(s.disk))
    ensures {FREE_MAP, ROOT} * Gone(Entries(s.disk), k) == {}
  {
    hide Layout;
    hide Entries;
  }

  /** The root directory of `r` names exactly `named`, and the open inodes' flags say so. */
  ghost predicate Renames(s: State, r: State, live: set<Sector>, named: set<Sector>)
    requires RootFits(s.disk)
  {
    && r == s.(disk := r.disk, inodes := r.inodes) && Sane(r) && |r.disk| == |s.disk|
    && RootFits(r.disk) && EntriesOK(Entries(r.disk)) && Named(Entries(r.disk)) == named
    && DecodeInode(r.disk[ROOT]) == DecodeInode(s.disk[ROOT])
    && {FREE_MAP, ROOT} + named + s.inodes.Keys == live && Layout(r.disk, r.used, live)
    && (forall i | i in live && i != ROOT :: SameFile(s.disk, r.disk, i))
    && r.inodes.Keys == s.inodes.Keys
    && (forall i | i in s.inodes :: r.inodes[i] == s.inodes[i].(removed := r.inodes[i].removed))
    && forall i | i in s.inodes :: FlagOK(i, r.inodes[i].removed, named)
  }

  predicate FlagOK(i: Sector, removed: bool, named: set<Sector>) {
    removed ==> i != FREE_MAP && i != ROOT && i !in named
  }

  /** A change of the directory that names exactly `named` keeps the invariant, if every open
      inode's `removed` flag agrees. */
  lemma RenamedCore(tmp: set<Sector>, s: State, r: State, live: set<Sector>, named: set<Sector>)
    requires Core(s, tmp) && Renames(s, r, live, named)
    ensures Core(r, tmp) && Live(r) == live
  {
    CoreEntries(tmp, s);
    hide Layout;
    hide EntriesOK;
    hide Entries;
    hide Named;
    hide SameFile;
    hide CountOK;
    RenamedMirrors(tmp, s, r, live, named);
    RenamedCounts(tmp, s, r);
    hide OpenOK;
    hide Counts;
    hide Sane;
    hide FitsInode;
  }

  lemma RenamedMirrors(tmp: set<Sector>, s: State, r: State, live: set<Sector>, named: set<Sector>)
    requires Core(s, tmp) && |r.disk| == |s.disk| && RootFits(r.disk) && Named(Entries(r.disk)) == named
    requires DecodeInode(r.disk[ROOT]) == DecodeInode(s.disk[ROOT])
    requires {FREE_MAP, ROOT} + named + s.inodes.Keys == live
    requires forall i | i in live && i != ROOT :: SameFile(s.disk, r.disk, i)
    requires r.inodes.Keys == s.inodes.Keys
    requires forall i | i in s.inodes :: r.inodes[i] == s.inodes[i].(removed := r.inodes[i].removed)
    requires forall i | i in s.inodes && r.inodes[i].removed :: i !in named
    requires |r.used| == |s.used|
    ensures OpenOK(r) && Live(r) == live
  {
    hide Layout;
    hide EntriesOK;
    hide Entries;
    hide Named;
    hide Counts;
    hide FileBytes;
    hide DecodeInode;
    forall i | i in r.inodes ensures 0 <= i < |r.disk| && r.inodes[i].data == DecodeInode(r.disk[i]) {
      assert i != ROOT ==> SameFile(s.disk, r.disk, i);
    }
  }

  lemma RenamedCounts(tmp: set<Sector>, s: State, r: State)
    requires Core(s, tmp) && r.files == s.files && r.inodes.Keys == s.inodes.Keys
    requires forall i | i in s.inodes :: r.inodes[i] == s.inodes[i].(removed := r.inodes[i].removed)
    requires forall i | i in s.inodes && (i == FREE_MAP || i == ROOT) :: !r.inodes[i].removed
    ensures Counts(r, tmp)
  {
    hide Layout;
    hide DirOK;
    hide OpenOK;
    hide Entries;
    forall i | i in r.inodes ensures CountOK(r.inodes[i], r.files, i, i in tmp) {
      assert CountOK(s.inodes[i], s.files, i, i in tmp);
    }
  }

  /** dir_remove's change: the entry is free, its inode marked removed, every other file as before. */
  ghost predicate Erased(tmp: set<Sector>, s: State, k: nat, r: State)
    requires RootFits(s.disk) && k < |Entries(s.disk)|
  {
    && Core(r, tmp) && Live(r) == Live(s) && r.used == s.used && r.files == s.files && |r.disk| == |s.disk|
    && (forall j | j in Live(s) && j != ROOT :: SameFile(s.disk, r.disk, j))
    && Entries(r.disk) == Entries(s.disk)[k := Entries(s.disk)[k].(inUse := false)]
    && r.inodes.Keys == s.inodes.Keys
    && forall j | j in s.inodes :: r.inodes[j] == s.inodes[j].(removed := s.inodes[j].removed || j == Entries(s.disk)[k].sector)
  }

  lemma EraseKeeps(tmp: set<Sector>, s: State, k: nat, lk: Luck)
    requires Core(s, tmp) && ROOT in tmp && k < |Entries(s.disk)| && Entries(s.disk)[k].inUse && lk.entry
    requires Entries(s.disk)[k].sector in tmp
    ensures Sane(s) && DirOpen(s) && DirBytes(s) == FileBytes(s.disk, ROOT)
    ensures var i := Entries(s.disk)[k].sector;
            var r := EraseEntry(s, k, lk);
            && i in r.inodes && WriteCount(s, ROOT, ENTRY, ENTRY * k, lk.entry) == ENTRY
            && Erased(tmp, s, k, r.(inodes := r.inodes[i := r.inodes[i].(removed := true)]))
  {
    Held(tmp, s, ROOT);
    Held(tmp, s, Entries(s.disk)[k].sector);
    var c := FileBytes(s.disk, ROOT);
    SlotAt(c, k);
    var b := ErasedEntry(SlotBytes(c, k));
    ErasedDecodes(SlotBytes(c, k));
    EntryWrite(tmp, s, k, b, true);
    hide Core;
    hide ErasedEntry;
    hide SlotBytes;
    hide Slots;
    hide Erased;
    hide WriteInode;
    StoredErased(tmp, s, k, b);
  }

  lemma StoredErased(tmp: set<Sector>, s: State, k: nat, b: seq<Byte>)
    requires Core(s, tmp) && ROOT in tmp && ROOT in s.inodes && k < |Entries(s.disk)| && Entries(s.disk)[k].inUse
    requires Entries(s.disk)[k].sector in tmp && |b| == ENTRY && DecodeEntry(b) == Entries(s.disk)[k].(inUse := false)
    ensures var i := Entries(s.disk)[k].sector;
            && i in s.inodes
            && Erased(tmp, s, k, s.(disk := Patched(s.disk, s.inodes[ROOT].data.start, ENTRY * k, b),
                                    inodes := s.inodes[i := s.inodes[i].(removed := true)]))
  {
    Held(tmp, s, Entries(s.disk)[k].sector);
    CoreLayout(tmp, s);
    EntryStored(tmp, s, Live(s), k, b);
    hide Core;
    hide Patched;
    hide Layout;
    hide Entries;
    hide Live;
    hide SameFile;
    hide Erased;
    ErasedCore(tmp, s, k, Patched(s.disk, s.inodes[ROOT].data.start, ENTRY * k, b));
  }

  lemma ErasedCore(tmp: set<Sector>, s: State, k: nat, disk: seq<seq<Byte>>)
    requires Core(s, tmp) && k < |Entries(s.disk)| && Entries(s.disk)[k].inUse && Entries(s.disk)[k].sector in s.inodes
    requires RootFits(disk) && |disk| == |s.disk| && Layout(disk, s.used, Live(s))
    requires forall j | j in Live(s) && j != ROOT :: SameFile(s.disk, disk, j)
    requires DecodeInode(disk[ROOT]) == DecodeInode(s.disk[ROOT])
    requires Entries(disk) == Entries(s.disk)[k := Entries(s.disk)[k].(inUse := false)]
    ensures Erased(tmp, s, k, Marked(s, Entries(s.disk)[k].sector, disk))
  {
    hide Core;
    hide Layout;
    hide EntriesOK;
    hide Entries;
    hide Named;
    hide Live;
    hide SameFile;
    hide DecodeInode;
    hide Sane;
    hide RootFits;
    hide FlagOK;
    hide Renames;
    CoreLayout(tmp, s);
    ErasedRenames(tmp, s, k, disk);
    RenamedCore(tmp, s, Marked(s, Entries(s.disk)[k].sector, disk), Live(s), Named(Entries(s.disk)) - {Entries(s.disk)[k].sector});
  }

  lemma ErasedRenames(tmp: set<Sector>, s: State, k: nat, disk: seq<seq<Byte>>)
    requires Core(s, tmp) && k < |Entries(s.disk)| && Entries(s.disk)[k].inUse && Entries(s.disk)[k].sector in s.inodes
    requires RootFits(disk) && |disk| == |s.disk| && Layout(disk, s.used, Live(s))
    requires forall j | j in Live(s) && j != ROOT :: SameFile(s.disk, disk, j)
    requires DecodeInode(disk[ROOT]) == DecodeInode(s.disk[ROOT])
    requires Entries(disk) == Entries(s.disk)[k := Entries(s.disk)[k].(inUse := false)]
    ensures var i := Entries(s.disk)[k].sector; Renames(s, Marked(s, i, disk), Live(s), Named(Entries(s.disk)) - {i})
  {
    hide Core;
    hide Layout;
    hide EntriesOK;
    hide Entries;
    hide Named;
    hide Live;
    hide SameFile;
    hide DecodeInode;
    hide Sane;
    CoreLayout(tmp, s);
    var i := Entries(s.disk)[k].sector;
    CoreEntries(tmp, s);
    ErasedOne(Entries(s.disk), k);
    OldNameFlags(tmp, s, i);
    SaneRemoved(s, i, disk);
  }

  /** A new device, and the inode marked removed. */
  function Marked(s: State, i: Sector, disk: seq<seq<Byte>>): (r: State)
    requires i in s.inodes
  {
    s.(disk := disk, inodes := s.inodes[i := s.inodes[i].(removed := true)])
  }

  lemma SaneStored(s: State, disk: seq<seq<Byte>>)
    requires Sane(s) && Device(disk) && |disk| == |s.disk|
    ensures Sane(s.(disk := disk))
  {
  }

  lemma SaneRemoved(s: State, i: Sector, disk: seq<seq<Byte>>)
    requires Sane(s) && i in s.inodes && Device(disk) && |disk| == |s.disk|
    ensures Sane(Marked(s, i, disk))
  {
  }

  lemma OldNameFlags(tmp: set<Sector>, s: State, i: Sector)
    requires Core(s, tmp) && i in s.inodes
    ensures {FREE_MAP, ROOT} + (Named(Entries(s.disk)) - {i}) + s.inodes.Keys == Live(s)
    ensures forall j | j in s.inodes && j != i :: FlagOK(j, s.inodes[j].removed, Named(Entries(s.disk)) - {i})
  {
    hide Layout;
    hide EntriesOK;
    hide Entries;
    hide Named;
    assert forall j | j in s.inodes :: CountOK(s.inodes[j], s.files, j, j in tmp);
  }
}
