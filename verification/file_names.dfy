/** What the root directory's entries become: when names stay unique, and when an entry stays. */
module FileNames {
  import opened InodeIo
  import opened DiskFormat
  import opened FileSystem
  import opened FileInvariant
  import opened FileCalls
  import opened FileLayout
  import opened FileDirectory
  import opened FileSteps
  import opened FileMap
  import opened FileRemount
  import opened FileStart
  import FileFormat
  import FileRuns
  import Directory

  // ---------------------------------------------------------------- which creates go through

  /** `n` free sectors in a row. */
  ghost predicate Room(used: seq<bool>, n: nat) {
    exists k :: 0 <= k && k + n <= |used| && RunFree(used, k, n)
  }

  /** Judged before the call: a create stores a new entry. Memory is there, the free map can be
      stored, and there are sectors for the inode and then for the data; the name is a proper one
      that lookup's reads do not meet, and the search for a free entry ends inside the directory. */
  ghost predicate GoesThrough(s: State, a: Action)
    requires RootFits(s.disk)
  {
    && a.Create? && a.size < SIZE_MAX && NameOK(a.name)
    && RootOpens(s, a.luck) && a.luck.buffer && a.luck.entry
    && ((a.luck.map1 && a.luck.map2) || MapSize(|s.used|) % SECTOR == 0)
    && FirstFit(s.used, 0, 1) < |s.used| && Room(s.used[FirstFit(s.used, 0, 1) := true], AskedSectors(a.size))
    && !Finds(Entries(s.disk), a.name, a.luck) && SlotFor(Entries(s.disk), a.luck) < |Entries(s.disk)|
  }

  /** What create reports. */
  ghost predicate CreatesEntry(s: State, a: Action)
    requires Readable(s, ROOT)
  {
    a.Create? && a.size < SIZE_MAX && RootOpens(s, a.luck) && Creates(WithRoot(s, a.luck), a.name, a.size, a.luck)
  }

  lemma RoomIff(used: seq<bool>, n: nat)
    ensures Room(used, n) <==> FirstFit(used, 0, n) + n <= |used|
  {
    FirstFitLowest(used, 0, n);
    if k :| 0 <= k && k + n <= |used| && RunFree(used, k, n) {
      assert FirstFit(used, 0, n) <= k;
    }
    if FirstFit(used, 0, n) + n <= |used| {
      assert RunFree(used, FirstFit(used, 0, n), n);
    }
  }

  lemma AllocatesIff(tmp: set<Sector>, s: State, n: nat, memory: bool)
    requires Core(s, tmp)
    ensures Sane(s)
    ensures Allocates(s, n, memory) <==> Room(s.used, n) && (memory || MapSize(|s.used|) % SECTOR == 0)
    ensures Allocates(s, n, memory) ==> Allocate(s, n, memory).used == SetRun(s.used, FirstFit(s.used, 0, n), n, true)
  {
    RoomIff(s.used, n);
    hide Room;
    var first := FirstFit(s.used, 0, n);
    if first + n <= |s.used| {
      FlushedIff(tmp, s, SetRun(s.used, first, n, true), memory);
    }
    hide Core;
    hide Flush;
    hide Flushed;
  }

  /** Create succeeds exactly when it goes through. */
  lemma CreatesIff(s: State, a: Action)
    requires Inv(s) && Enabled(s, a)
    ensures Readable(s, ROOT) && RootFits(s.disk) && (CreatesEntry(s, a) <==> GoesThrough(s, a))
  {
    hide Core;
    hide Live;
    hide Creates;
    RootReadable(s);
    if a.Create? && RootOpens(s, a.luck) {
      RootOpened(s, a.luck);
      var s1 := WithRoot(s, a.luck);
      CreatesInIff({ROOT}, s1, a.name, a.size, a.luck);
    }
  }

  lemma CreatesInIff(tmp: set<Sector>, s: State, name: seq<Byte>, size: nat, lk: Luck)
    requires Core(s, tmp) && ROOT in tmp && 0 !in name && size < SIZE_MAX
    ensures Sane(s) && DirOpen(s) && RootFits(s.disk)
    ensures Creates(s, name, size, lk) <==>
              && NameOK(name) && lk.buffer && lk.entry
              && ((lk.map1 && lk.map2) || MapSize(|s.used|) % SECTOR == 0)
              && FirstFit(s.used, 0, 1) < |s.used| && Room(s.used[FirstFit(s.used, 0, 1) := true], AskedSectors(size))
              && !Finds(Entries(s.disk), name, lk) && SlotFor(Entries(s.disk), lk) < |Entries(s.disk)|
  {
    hide Core;
    hide Live;
    hide Entries;
    hide Finds;
    hide SlotFor;
    hide AskedSectors;
    hide MapSize;
    hide Allocate;
    hide Allocates;
    hide CreateInode;
    hide AddsEntry;
    Held(tmp, s, ROOT);
    RootOf(tmp, s);
    AllocatesIff(tmp, s, 1, lk.map1);
    RoomIff(s.used, 1);
    hide Room;
    if Allocates(s, 1, lk.map1) {
      NewSector(tmp, s, lk.map1);
      var s1, i := Allocate(s, 1, lk.map1), NewInode(s);
      assert s1.used == s.used[i := true];
      AllocatesIff(tmp, s1, AskedSectors(size), lk.map2);
      CreateInodeKeeps(tmp, s1, i, size, lk);
      if CreatesInode(s1, size, lk) {
        AddEntryKeeps(tmp, CreateInode(s1, i, size, lk), name, i, NewData(s1.used, size), lk);
      }
    }
  }

  lemma RootOf(tmp: set<Sector>, s: State)
    requires Core(s, tmp)
    ensures RootFits(s.disk)
  {
  }

  // ---------------------------------------------------------------- what calls do to the directory

  /** The entry filesys_remove finds. */
  ghost function FoundSlot(s: State, a: Action): (k: nat)
    requires RootFits(s.disk) && a.Remove?
  {
    Lookup(Visible(Entries(s.disk), a.luck.lookups), a.name)
  }

  /** filesys_remove erases it. */
  ghost predicate ErasesEntry(s: State, a: Action)
    requires RootFits(s.disk)
  {
    && a.Remove? && Finds(Entries(s.disk), a.name, a.luck) && RootOpens(s, a.luck) && a.luck.entry
    && OpensInode(s, Entries(s.disk)[FoundSlot(s, a)].sector, a.luck.target)
  }

  /** Exactly these two calls change the directory, each in one entry. */
  lemma StepEntries(s: State, a: Action)
    requires Inv(s) && Enabled(s, a)
    ensures Safe(s, a) && Inv(Next(s, a)) && Readable(s, ROOT) && RootFits(s.disk) && RootFits(Next(s, a).disk)
    ensures var es, es' := Entries(s.disk), Entries(Next(s, a).disk);
            if GoesThrough(s, a) then
              var k := SlotFor(es, a.luck);
              && k < |es| && !Finds(es, a.name, a.luck) && NewInode(s) !in Named(es)
              && es' == es[k := Entry(NewInode(s), a.name, true)]
            else if ErasesEntry(s, a) then
              var k := FoundSlot(s, a);
              k < |es| && es[k].inUse && es' == es[k := es[k].(inUse := false)]
            else es' == es
  {
    hide Core;
    hide Next;
    hide Undisturbed;
    hide Creates;
    hide Entries;
    hide Lookup;
    hide GoesThrough;
    RootReadable(s);
    CreatesIff(s, a);
    StepKeeps(s, a);
    RootReadable(Next(s, a));
    match a
    case Create(name, size, lk) => CreateStep(s, name, size, lk);
    case Remove(name, lk) =>
      RemoveStep(s, name, lk);
      FoundInode(s, name, lk);
    case Close(f, lk) => CloseStep(s, f, lk);
    case Write(f, data, lk) => WriteStep(s, f, data, lk);
    case Open(name, f, lk) => OpenStep(s, name, f, lk);
    case _ => QuietStep(s, a);
  }

  // ---------------------------------------------------------------- unique names

  ghost predicate Unique(s: State)
    requires RootFits(s.disk)
  {
    Directory.UniqueNames(Entries(s.disk))
  }

  /** Judged before the call: a create goes through although its name is in use at an entry that
      the lookup's reads did not reach and that the new entry does not overwrite. */
  ghost predicate Duplicates(s: State, a: Action)
    requires RootFits(s.disk)
  {
    var es := Entries(s.disk);
    GoesThrough(s, a) &&
    exists m :: a.luck.lookups <= m < |es| && m != SlotFor(es, a.luck) && es[m].inUse && es[m].name == a.name
  }

  /** Names stay unique exactly when the call is not such a create. */
  lemma StepUniqueIff(s: State, a: Action)
    requires Inv(s) && Enabled(s, a) && RootFits(s.disk) && Unique(s)
    ensures Safe(s, a) && Readable(s, ROOT) && RootFits(Next(s, a).disk)
    ensures Unique(Next(s, a)) <==> !Duplicates(s, a)
  {
    hide Inv;
    hide Next;
    hide Enabled;
    hide Safe;
    hide Entries;
    hide Creates;
    hide Finds;
    StepEntries(s, a);
    var es := Entries(s.disk);
    if GoesThrough(s, a) {
      CreatedUniqueIff(es, SlotFor(es, a.luck), a.name, NewInode(s), a.luck);
    }
  }

  lemma CreatedUniqueIff(es: seq<Entry>, k: nat, name: seq<Byte>, i: nat, lk: Luck)
    requires Directory.UniqueNames(es) && k < |es| && !Finds(es, name, lk)
    ensures Directory.UniqueNames(es[k := Entry(i, name, true)])
            <==> !exists m :: lk.lookups <= m < |es| && m != k && es[m].inUse && es[m].name == name
  {
    var r, v := es[k := Entry(i, name, true)], Visible(es, lk.lookups);
    assert forall m | 0 <= m < |v| :: v[m] == es[m] && !(v[m].inUse && v[m].name == name);
    assert forall m | 0 <= m < |es| && m != k :: r[m] == es[m];
    if m :| lk.lookups <= m < |es| && m != k && es[m].inUse && es[m].name == name {
      assert r[m].name == r[k].name && r[m].inUse && r[k].inUse;
      assert !Directory.UniqueNames(r);
    }
  }

  /** Over every run: names are unique in all states exactly when no create in it duplicates one. */
  lemma {:induction false} RunUniqueIff(ss: seq<State>, es: seq<FileRuns.Event>, n: nat)
    requires FileRuns.IsRun(ss, es) && n < |ss|
    ensures forall i | 0 <= i <= n :: Readable(ss[i], ROOT) && RootFits(ss[i].disk)
    ensures (forall i | 0 <= i <= n :: Unique(ss[i])) <==> (forall i | 0 <= i < n :: es[i].Call? ==> !Duplicates(ss[i], es[i].action))
  {
    hide Inv;
    hide Next;
    hide Enabled;
    hide Safe;
    hide Unique;
    hide Duplicates;
    hide Formatted;
    hide Readable;
    hide RootFits;
    FileRuns.RunInvariant(ss, es, n);
    RootReadable(ss[n]);
    if n == 0 {
      FormattedEmpty(ss[0]);
      EmptyUnique(ss[0]);
    } else {
      RunUniqueIff(ss, es, n - 1);
      FileRuns.RunInvariant(ss, es, n - 1);
      assert FileRuns.Step(ss[n - 1], es[n - 1], ss[n - 1 + 1]);
      if es[n - 1].Reboot? {
        assert ss[n].disk == ss[n - 1].disk;
        SameUnique(ss[n - 1], ss[n]);
      } else if Unique(ss[n - 1]) {
        StepUniqueIff(ss[n - 1], es[n - 1].action);
      }
    }
  }

  lemma SameUnique(s: State, s': State)
    requires s'.disk == s.disk && RootFits(s.disk)
    ensures RootFits(s'.disk) && (Unique(s') <==> Unique(s))
  {
  }

  lemma EmptyUnique(s: State)
    requires RootFits(s.disk) && forall k | 0 <= k < |Entries(s.disk)| :: !Entries(s.disk)[k].inUse
    ensures Unique(s)
  {
  }

  // ---------------------------------------------------------------- entries that stay

  /** Judged before the call: it erases entry `k`, or it is a create whose search for a free entry
      ran out of memory in front of it. */
  ghost predicate Drops(s: State, a: Action, k: nat)
    requires RootFits(s.disk)
  {
    || (ErasesEntry(s, a) && FoundSlot(s, a) == k)
    || (GoesThrough(s, a) && a.luck.searches == k && forall m | 0 <= m < k && m < |Entries(s.disk)| :: Entries(s.disk)[m].inUse)
  }

  /** An entry in use stays as it is exactly when the call does not drop it. */
  lemma StepEntryIff(s: State, a: Action, k: nat)
    requires Inv(s) && Enabled(s, a) && RootFits(s.disk) && k < |Entries(s.disk)| && Entries(s.disk)[k].inUse
    ensures Safe(s, a) && Readable(s, ROOT) && RootFits(Next(s, a).disk) && |Entries(Next(s, a).disk)| == |Entries(s.disk)|
    ensures Entries(Next(s, a).disk)[k] == Entries(s.disk)[k] <==> !Drops(s, a, k)
  {
    hide Inv;
    hide Next;
    hide Enabled;
    hide Safe;
    hide Entries;
    hide Finds;
    hide Creates;
    StepEntries(s, a);
    var es := Entries(s.disk);
    if GoesThrough(s, a) {
      SlotCutIff(es, a.luck, k);
      assert es[k].sector in Named(es);
    }
  }

  lemma EntryCount(s: State, a: Action)
    requires Inv(s) && Enabled(s, a)
    ensures Safe(s, a) && RootFits(s.disk) && RootFits(Next(s, a).disk)
    ensures |Entries(Next(s, a).disk)| == |Entries(s.disk)|
  {
    hide *;
    StepEntries(s, a);
  }

  /** The slot for a new entry is one in use exactly when the search was cut off in front of it. */
  lemma SlotCutIff(es: seq<Entry>, lk: Luck, k: nat)
    requires k < |es| && es[k].inUse
    ensures SlotFor(es, lk) == k <==> lk.searches == k && forall m | 0 <= m < k && m < |es| :: es[m].inUse
  {
    var v := Visible(es, lk.searches);
    assert forall m | 0 <= m < |v| :: v[m] == es[m];
    assert SlotFor(es, lk) < |v| ==> !es[SlotFor(es, lk)].inUse;
  }

  /** Over every run: an entry in use is the same in all states from `i` to `j` exactly when no call
      between them drops it. */
  lemma {:induction false} RunEntryIff(ss: seq<State>, es: seq<FileRuns.Event>, i: nat, j: nat, k: nat)
    requires FileRuns.IsRun(ss, es) && i <= j < |ss|
    requires RootFits(ss[i].disk) && k < |Entries(ss[i].disk)| && Entries(ss[i].disk)[k].inUse
    ensures forall m | i <= m <= j :: Readable(ss[m], ROOT) && RootFits(ss[m].disk) && |Entries(ss[m].disk)| == |Entries(ss[i].disk)|
    ensures (forall m | i <= m <= j :: Entries(ss[m].disk)[k] == Entries(ss[i].disk)[k])
            <==> (forall m | i <= m < j :: es[m].Call? ==> !Drops(ss[m], es[m].action, k))
    decreases j
  {
    hide Inv;
    hide Next;
    hide Enabled;
    hide Safe;
    hide Entries;
    hide Drops;
    hide Formatted;
    hide Readable;
    hide RootFits;
    FileRuns.RunInvariant(ss, es, j);
    RootReadable(ss[j]);
    if i < j {
      RunEntryIff(ss, es, i, j - 1, k);
      FileRuns.RunInvariant(ss, es, j - 1);
      assert FileRuns.Step(ss[j - 1], es[j - 1], ss[j - 1 + 1]);
      hide FileRuns.IsRun;
      if es[j - 1].Reboot? {
        assert ss[j].disk == ss[j - 1].disk;
      } else {
        EntryCount(ss[j - 1], es[j - 1].action);
        if Entries(ss[j - 1].disk)[k] == Entries(ss[i].disk)[k] {
          StepEntryIff(ss[j - 1], es[j - 1].action, k);
        }
      }
    }
  }

  // ---------------------------------------------------------------- files that stay

  /** A call stores into the file whose inode is in sector `i`. */
  predicate Stores(s: State, e: FileRuns.Event, i: Sector) {
    e.Call? && e.action.Write? && e.action.file in s.files && s.files[e.action.file].inode == i
  }

  /** One event: a file that keeps its entry and is not written keeps its bytes. */
  lemma EventPersists(s: State, e: FileRuns.Event, s': State, k: nat)
    requires FileRuns.Holds(s) && FileRuns.Step(s, e, s') && RootFits(s.disk) && RootFits(s'.disk)
    requires k < |Entries(s.disk)| && Entries(s.disk)[k].inUse && k < |Entries(s'.disk)| && Entries(s'.disk)[k] == Entries(s.disk)[k]
    requires !Stores(s, e, Entries(s.disk)[k].sector)
    ensures SameFile(s.disk, s'.disk, Entries(s.disk)[k].sector)
  {
    hide Core;
    hide Entries;
    hide Next;
    hide MapCovers;
    hide FileFormat.Mounted;
    hide SameFile;
    hide Safe;
    var i := Entries(s.disk)[k].sector;
    NamedLive(s, k);
    match e
    case Call(a) =>
      StepKeeps(s, a);
      NamedLive(s', k);
      hide Live;
    case Reboot =>
      FileRuns.EventHolds(s, e);
      SameDiskFile(s, i);
  }

  lemma NamedLive(s: State, k: nat)
    requires Inv(s) && RootFits(s.disk) && k < |Entries(s.disk)| && Entries(s.disk)[k].inUse
    ensures var i := Entries(s.disk)[k].sector; i in Live(s) && i != FREE_MAP && i != ROOT
  {
    CoreEntries({}, s);
    assert Entries(s.disk)[k].sector in Named(Entries(s.disk));
  }

  lemma SameDiskFile(s: State, i: Sector)
    requires Inv(s) && RootFits(s.disk) && i in Live(s)
    ensures SameFile(s.disk, s.disk, i)
  {
    LiveInRange({}, s, i);
  }

  /** An event that neither drops entry `k` nor stores into the inode in sector `i`. */
  ghost predicate Spares(s: State, e: FileRuns.Event, k: nat, i: Sector) {
    RootFits(s.disk) && (e.Call? ==> !Drops(s, e.action, k)) && !Stores(s, e, i)
  }

  /** Over every run, reboots included: a file keeps its name and its bytes as long as no call drops
      its entry or writes to it. */
  lemma {:induction false} RunPersists(ss: seq<State>, es: seq<FileRuns.Event>, i: nat, j: nat, k: nat)
    requires FileRuns.IsRun(ss, es) && i <= j < |ss|
    requires RootFits(ss[i].disk) && k < |Entries(ss[i].disk)| && Entries(ss[i].disk)[k].inUse
    requires forall m | i <= m < j :: Spares(ss[m], es[m], k, Entries(ss[i].disk)[k].sector)
    ensures RootFits(ss[j].disk) && |Entries(ss[j].disk)| == |Entries(ss[i].disk)|
    ensures Entries(ss[j].disk)[k] == Entries(ss[i].disk)[k]
    ensures SameFile(ss[i].disk, ss[j].disk, Entries(ss[i].disk)[k].sector)
    decreases j
  {
    hide Inv;
    hide MapCovers;
    hide Entries;
    hide Drops;
    hide Formatted;
    hide Readable;
    hide SameFile;
    hide FileRuns.Step;
    FileRuns.RunInvariant(ss, es, i);
    FileRuns.RunInvariant(ss, es, j);
    var sector := Entries(ss[i].disk)[k].sector;
    if i == j {
      NamedLive(ss[i], k);
      SameDiskFile(ss[i], sector);
    } else {
      RunPersists(ss, es, i, j - 1, k);
      FileRuns.RunInvariant(ss, es, j - 1);
      assert FileRuns.Step(ss[j - 1], es[j - 1], ss[j - 1 + 1]) && Spares(ss[j - 1], es[j - 1], k, sector);
      EntryStays(ss[j - 1], es[j - 1], ss[j], k);
      EventPersists(ss[j - 1], es[j - 1], ss[j], k);
      SameFileTwice(ss[i].disk, ss[j - 1].disk, ss[j].disk, sector);
    }
  }

  lemma EntryStays(s: State, e: FileRuns.Event, s': State, k: nat)
    requires FileRuns.Holds(s) && FileRuns.Holds(s') && FileRuns.Step(s, e, s') && RootFits(s.disk)
    requires k < |Entries(s.disk)| && Entries(s.disk)[k].inUse && (e.Call? ==> !Drops(s, e.action, k))
    ensures RootFits(s'.disk) && |Entries(s'.disk)| == |Entries(s.disk)| && Entries(s'.disk)[k] == Entries(s.disk)[k]
  {
    hide Inv;
    hide MapCovers;
    hide Entries;
    hide Drops;
    hide Next;
    hide Safe;
    hide Enabled;
    RootReadable(s');
    if e.Call? {
      EntryCount(s, e.action);
      StepEntryIff(s, e.action, k);
    }
  }

  lemma SameFileTwice(a: seq<seq<Byte>>, b: seq<seq<Byte>>, c: seq<seq<Byte>>, i: Sector)
    requires Disk(a) && Disk(b) && Disk(c) && SameFile(a, b, i) && SameFile(b, c, i)
    ensures SameFile(a, c, i)
  {
  }
}
