/** Runs in which directory reads that find no memory let a name in twice, and let a new entry
    overwrite another. */
module FileLowMemory {
  import opened InodeIo
  import opened DiskFormat
  import opened FileSystem
  import opened FileLayout
  import opened FileInvariant
  import opened FileDirectory
  import opened FileSteps
  import opened FileMap
  import opened FileNames
  import opened FileStart
  import FileRuns

  /** Every allocation succeeds, except possibly reads of entries by lookup. */
  ghost predicate Lucky(lk: Luck) {
    lk.inode && lk.handle && lk.target && lk.buffer && lk.file && lk.entry && lk.map1 && lk.map2 && lk.map3
  }

  lemma AllocatesOne(tmp: set<Sector>, s: State, k: nat)
    requires Core(s, tmp) && k < |s.used| && !s.used[k]
    ensures Allocates(s, 1, true) && NewInode(s) <= k && Allocate(s, 1, true).used == s.used[NewInode(s) := true]
  {
    FirstFitLowest(s.used, 0, 1);
    var first := FirstFit(s.used, 0, 1);
    assert first <= k by {
      assert RunFree(s.used, k, 1);
    }
    FlushedIff(tmp, s, SetRun(s.used, first, 1, true), true);
    hide Core;
    hide Flush;
    hide Flushed;
    assert SetRun(s.used, first, 1, true) == s.used[first := true];
  }

  /** inode_create of an empty file needs no data sectors. */
  lemma CreatesEmpty(tmp: set<Sector>, s: State, i: Sector, lk: Luck)
    requires Core(s, tmp) && 0 <= i < |s.disk| && Lucky(lk)
    ensures CreatesInode(s, 0, lk) && CreateInode(s, i, 0, lk).used == s.used
  {
    assert FirstFit(s.used, 0, 0) == 0 && SectorsFor(0) == 0;
    assert SetRun(s.used, 0, 0, true) == s.used;
    FlushedIff(tmp, s, s.used, true);
    hide Core;
    hide Flush;
    hide Flushed;
    hide StoreInode;
  }

  /** filesys_create of an empty file under a name that lookup does not see. */
  lemma CreatesSmall(s: State, name: seq<Byte>, lk: Luck, k: nat)
    requires Inv(s) && Enabled(s, Create(name, 0, lk)) && Lucky(lk) && NameOK(name) && k < |s.used| && !s.used[k]
    requires RootFits(s.disk) && !Finds(Entries(s.disk), name, lk) && SlotFor(Entries(s.disk), lk) < |Entries(s.disk)|
    ensures Readable(s, ROOT) && GoesThrough(s, Create(name, 0, lk)) && CreatesEntry(s, Create(name, 0, lk))
  {
    hide Core;
    hide Entries;
    hide Finds;
    hide SlotFor;
    hide CreatesEntry;
    assert RunFree(s.used, k, 1);
    RoomIff(s.used, 1);
    RootOpened(s, lk);
    var used := s.used[FirstFit(s.used, 0, 1) := true];
    assert AskedSectors(0) == 0 && RunFree(used, 0, 0);
    CreatesIff(s, Create(name, 0, lk));
  }

  lemma SmallUsed(s: State, name: seq<Byte>, lk: Luck, k: nat)
    requires Inv(s) && Enabled(s, Create(name, 0, lk)) && Lucky(lk) && NameOK(name) && k < |s.used| && !s.used[k]
    requires RootFits(s.disk) && !Finds(Entries(s.disk), name, lk) && SlotFor(Entries(s.disk), lk) < |Entries(s.disk)|
    ensures Sane(s) && NewInode(s) <= k && Safe(s, Create(name, 0, lk))
    ensures Next(s, Create(name, 0, lk)).used == s.used[NewInode(s) := true]
  {
    hide Core;
    hide Live;
    hide Entries;
    hide Allocate;
    hide CreateInode;
    hide CloseInode;
    hide AddEntry;
    hide Created;
    RootReadable(s);
    CreateStep(s, name, 0, lk);
    RootOpened(s, lk);
    CreatesSmall(s, name, lk, k);
    var s1 := WithRoot(s, lk);
    AllocatesOne({ROOT}, s1, k);
    NewSector({ROOT}, s1, true);
    CreatesEmpty({ROOT}, Allocate(s1, 1, true), NewInode(s1), lk);
    CreateInKeeps({ROOT}, s1, name, 0, lk);
    CreatedCore({ROOT}, s1, name, 0, lk, Creates(s1, name, 0, lk), CreateIn(s1, name, 0, lk));
    RootClosed({ROOT}, CreateIn(s1, name, 0, lk), lk);
  }

  lemma EmptyDirectory(s: State)
    requires Formatted(s)
    ensures RootFits(s.disk) && |Entries(s.disk)| == ROOT_ENTRIES
    ensures forall k | 0 <= k < |Entries(s.disk)| :: !Entries(s.disk)[k].inUse
  {
    hide Slots;
    FormattedEmpty(s);
    FormattedInodes(s);
    SlotCount(FileBytes(s.disk, ROOT));
  }

  /** The directory has got one entry more, its first, and sector `k` is still free. */
  ghost predicate OneName(s: State, s1: State, name: seq<Byte>, k: nat) {
    && Inv(s1) && RootFits(s.disk) && RootFits(s1.disk) && Unique(s1) && k < |s1.used| && !s1.used[k]
    && Entries(s.disk) != [] && exists i: nat :: Entries(s1.disk) == Entries(s.disk)[0 := Entry(i, name, true)]
  }

  lemma FirstName(s: State, name: seq<Byte>, lk: Luck, k: nat)
    requires Formatted(s) && k + 1 < |s.used| && !s.used[k] && !s.used[k + 1]
    requires NameOK(name) && 0 !in name && Lucky(lk)
    ensures var a := Create(name, 0, lk); Enabled(s, a) && Safe(s, a) && OneName(s, Next(s, a), name, k + 1)
  {
    hide Inv;
    hide Safe;
    hide Next;
    hide Entries;
    hide Duplicates;
    hide Formatted;
    hide Finds;
    hide SlotFor;
    hide Unique;
    hide RootFits;
    hide Readable;
    hide Lucky;
    hide NameOK;
    hide CreatesEntry;
    hide ErasesEntry;
    var a := Create(name, 0, lk);
    FormattedHolds(s);
    EmptyDirectory(s);
    EmptyUnique(s);
    FirstSlot(Entries(s.disk), name, lk);
    CreatesSmall(s, name, lk, k);
    SmallUsed(s, name, lk, k);
    StepEntries(s, a);
    NoDuplicate(s, a);
    StepUniqueIff(s, a);
  }

  lemma FirstSlot(es: seq<Entry>, name: seq<Byte>, lk: Luck)
    requires es != [] && forall k | 0 <= k < |es| :: !es[k].inUse
    ensures SlotFor(es, lk) == 0 && !Finds(es, name, lk)
  {
    assert forall k | 0 <= k < |Visible(es, lk.lookups)| :: Visible(es, lk.lookups)[k] == es[k];
  }

  lemma SecondSlot(es: seq<Entry>, i: nat, name: seq<Byte>, lk: Luck)
    requires |es| >= 2 && (forall k | 0 <= k < |es| :: !es[k].inUse) && lk.lookups == 0 && lk.searches >= 2
    ensures var es' := es[0 := Entry(i, name, true)];
            SlotFor(es', lk) == 1 && !Finds(es', name, lk) && es'[0].inUse && es'[0].name == name
  {
    var v := Visible(es[0 := Entry(i, name, true)], lk.searches);
    assert v[0].inUse && !v[1].inUse;
  }

  /** Two creates of the same name on a fresh file system with two free sectors, the lookups of
      both without memory: the first is as it should be, and after the second the name is there
      twice. */
  lemma NamedTwice(s: State, name: seq<Byte>, lk: Luck) returns (ss: seq<State>, es: seq<FileRuns.Event>)
    requires Formatted(s) && RootInode(|s.disk|).start + 3 <= |s.disk|
    requires NameOK(name) && 0 !in name && Lucky(lk) && lk.lookups == 0 && lk.searches >= 2
    ensures es == [FileRuns.Call(Create(name, 0, lk)), FileRuns.Call(Create(name, 0, lk))] && FileRuns.IsRun(ss, es) && ss[0] == s
    ensures RootFits(ss[1].disk) && Unique(ss[1]) && RootFits(ss[2].disk) && !Unique(ss[2])
  {
    hide Inv;
    hide Safe;
    hide Enabled;
    hide Next;
    hide Entries;
    hide Unique;
    hide RootFits;
    var a, k := Create(name, 0, lk), RootInode(|s.disk|).start + 1;
    assert !s.used[k] && !s.used[k + 1];
    hide Formatted;
    hide RootInode;
    EmptyDirectory(s);
    FirstName(s, name, lk, k);
    var s1 := Next(s, a);
    SecondName(s, s1, name, lk, k + 1);
    ss, es := [s, s1, Next(s1, a)], [FileRuns.Call(a), FileRuns.Call(a)];
    assert FileRuns.Step(ss[0], es[0], ss[1]) && FileRuns.Step(ss[1], es[1], ss[2]);
  }

  lemma NoDuplicate(s: State, a: Action)
    requires Readable(s, ROOT) && RootFits(s.disk)
    requires forall k | 0 <= k < |Entries(s.disk)| :: !Entries(s.disk)[k].inUse
    ensures !Duplicates(s, a)
  {
  }

  lemma SecondName(s: State, s1: State, name: seq<Byte>, lk: Luck, k: nat)
    requires OneName(s, s1, name, k)
    requires NameOK(name) && 0 !in name && Lucky(lk) && lk.lookups == 0 && lk.searches >= 2
    requires |Entries(s.disk)| >= 2 && forall m | 0 <= m < |Entries(s.disk)| :: !Entries(s.disk)[m].inUse
    ensures var a := Create(name, 0, lk);
            Enabled(s1, a) && Safe(s1, a) && RootFits(Next(s1, a).disk) && !Unique(Next(s1, a))
  {
    hide Inv;
    hide Next;
    hide Entries;
    hide Unique;
    hide Safe;
    var a := Create(name, 0, lk);
    var i: nat :| Entries(s1.disk) == Entries(s.disk)[0 := Entry(i, name, true)];
    SecondSlot(Entries(s.disk), i, name, lk);
    hide Finds;
    hide SlotFor;
    CreatesSmall(s1, name, lk, k);
    StepUniqueIff(s1, a);
    assert Duplicates(s1, a);
  }

  /** Two creates of different names on a fresh file system with two free sectors, the second one's
      search for a free entry without memory: the new entry overwrites the first file's, whose name
      is gone while its sector stays in use. */
  lemma EntryOverwritten(s: State, name: seq<Byte>, other: seq<Byte>, lk: Luck, lk': Luck)
    returns (ss: seq<State>, es: seq<FileRuns.Event>)
    requires Formatted(s) && RootInode(|s.disk|).start + 3 <= |s.disk|
    requires NameOK(name) && 0 !in name && NameOK(other) && 0 !in other && name != other
    requires Lucky(lk) && Lucky(lk') && lk'.searches == 0
    ensures es == [FileRuns.Call(Create(name, 0, lk)), FileRuns.Call(Create(other, 0, lk'))]
    ensures FileRuns.IsRun(ss, es) && ss[0] == s
    ensures Overwritten(ss[1], ss[2], name, other)
  {
    hide Inv;
    hide Safe;
    hide Enabled;
    hide Next;
    hide Entries;
    hide Unique;
    hide RootFits;
    hide Lucky;
    hide Overwritten;
    var a, k := Create(name, 0, lk), RootInode(|s.disk|).start + 1;
    assert !s.used[k] && !s.used[k + 1];
    hide Formatted;
    hide RootInode;
    EmptyDirectory(s);
    FirstName(s, name, lk, k);
    var s1 := Next(s, a);
    OtherName(s, s1, name, other, lk', k + 1);
    ss, es := [s, s1, Next(s1, Create(other, 0, lk'))], [FileRuns.Call(a), FileRuns.Call(Create(other, 0, lk'))];
    assert FileRuns.Step(ss[0], es[0], ss[1]) && FileRuns.Step(ss[1], es[1], ss[2]);
  }

  /** The first entry has changed its name from `name` to `other`, and its inode's sector is in use
      for nothing. */
  ghost predicate Overwritten(s1: State, s2: State, name: seq<Byte>, other: seq<Byte>) {
    && RootFits(s1.disk) && RootFits(s2.disk)
    && var es, es', used := Entries(s1.disk), Entries(s2.disk), s2.used;
    && es != [] && es' != [] && es[0].inUse && es[0].name == name && es'[0].inUse && es'[0].name == other
    && es[0].sector !in Named(es') && es[0].sector < |used| && used[es[0].sector]
    && forall m | 0 <= m < |es'| :: !(es'[m].inUse && es'[m].name == name)
  }

  lemma OtherName(s: State, s1: State, name: seq<Byte>, other: seq<Byte>, lk: Luck, k: nat)
    requires OneName(s, s1, name, k) && forall m | 0 <= m < |Entries(s.disk)| :: !Entries(s.disk)[m].inUse
    requires NameOK(other) && 0 !in other && name != other && Lucky(lk) && lk.searches == 0
    ensures var a := Create(other, 0, lk); Enabled(s1, a) && Safe(s1, a) && Overwritten(s1, Next(s1, a), name, other)
  {
    hide Inv;
    hide Next;
    hide Entries;
    hide Unique;
    hide Safe;
    hide NewInode;
    hide Lucky;
    hide Overwritten;
    hide Named;
    hide RootFits;
    hide Readable;
    hide GoesThrough;
    hide CreatesEntry;
    hide ErasesEntry;
    hide Finds;
    hide SlotFor;
    hide NameOK;
    var a := Create(other, 0, lk);
    var es := Entries(s1.disk);
    var i: nat :| es == Entries(s.disk)[0 := Entry(i, name, true)];
    OverwrittenSlot(es, other, lk);
    CreatesSmall(s1, other, lk, k);
    SmallUsed(s1, other, lk, k);
    StepEntries(s1, a);
    NamedUsed(s1, 0);
    OverwrittenIs(s1, Next(s1, a), name, other, NewInode(s1));
  }

  lemma OverwrittenIs(s1: State, s2: State, name: seq<Byte>, other: seq<Byte>, j: nat)
    requires RootFits(s1.disk) && RootFits(s2.disk) && Entries(s1.disk) != [] && name != other
    requires var e := Entries(s1.disk)[0]; e.inUse && e.name == name && e.sector < |s2.used| && s2.used[e.sector]
    requires forall m | 0 < m < |Entries(s1.disk)| :: !Entries(s1.disk)[m].inUse
    requires Entries(s2.disk) == Entries(s1.disk)[0 := Entry(j, other, true)] && j !in Named(Entries(s1.disk))
    ensures Overwritten(s1, s2, name, other)
  {
    hide Entries;
    assert Entries(s1.disk)[0].sector in Named(Entries(s1.disk));
  }

  lemma OverwrittenSlot(es: seq<Entry>, name: seq<Byte>, lk: Luck)
    requires es != [] && lk.searches == 0 && forall m | 0 <= m < |es| :: es[m].inUse ==> es[m].name != name
    ensures SlotFor(es, lk) == 0 && !Finds(es, name, lk)
  {
    var v := Visible(es, lk.lookups);
    assert forall m | 0 <= m < |v| :: v[m] == es[m];
  }

  /** The sector of a named inode is in use. */
  lemma NamedUsed(s: State, k: nat)
    requires Inv(s) && RootFits(s.disk) && k < |Entries(s.disk)| && Entries(s.disk)[k].inUse
    ensures var i := Entries(s.disk)[k].sector; i < |s.used| && s.used[i]
  {
    NamedLive(s, k);
    CoreLayout({}, s);
    hide Live;
    var i := Entries(s.disk)[k].sector;
    assert Placed(s.disk, s.used, i) && Owns(s.disk, i, i);
  }
}
