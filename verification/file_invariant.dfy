/** What every file system call keeps. */
module FileInvariant {
  import opened InodeIo
  import opened DiskFormat
  import opened FileSystem
  import opened FileLayout

  ghost predicate RootFits(disk: seq<seq<Byte>>) {
    Disk(disk) && |disk| >= 2 && FitsInode(disk, DecodeInode(disk[ROOT]))
  }

  ghost function Entries(disk: seq<seq<Byte>>): (es: seq<Entry>)
    requires RootFits(disk)
  {
    Slots(FileBytes(disk, ROOT))
  }

  /** Entries in use have valid names and sectors, and no two lead to the same inode. */
  ghost predicate EntriesOK(es: seq<Entry>) {
    && (forall k | 0 <= k < |es| && es[k].inUse :: NameOK(es[k].name) && es[k].sector != FREE_MAP && es[k].sector != ROOT)
    && (forall k, m | 0 <= k < m < |es| && es[k].inUse && es[m].inUse :: es[k].sector != es[m].sector)
  }

  /** The inode sectors that have a name. */
  function Named(es: seq<Entry>): (n: set<Sector>) {
    set k | 0 <= k < |es| && es[k].inUse :: es[k].sector
  }

  ghost predicate DirOK(disk: seq<seq<Byte>>) {
    RootFits(disk) && DecodeInode(disk[ROOT]).length % ENTRY == 0 && EntriesOK(Entries(disk))
  }

  /** Every inode that has a name, is open or belongs to the system. */
  ghost function Live(s: State): (l: set<Sector>)
    requires RootFits(s.disk)
  {
    {FREE_MAP, ROOT} + Named(Entries(s.disk)) + s.inodes.Keys
  }

  /** Open inodes mirror the disk, a removed one has no name, and the free map's file has room for
      the map. */
  ghost predicate OpenOK(s: State)
    requires RootFits(s.disk)
  {
    && (FREE_MAP in s.inodes ==> s.inodes[FREE_MAP].data.length == MapSize(|s.used|))
    && forall i | i in s.inodes ::
         && 0 <= i < |s.disk| && s.inodes[i].data == DecodeInode(s.disk[i])
         && (i != FREE_MAP && i != ROOT && s.inodes[i].removed ==> i !in Named(Entries(s.disk)))
  }

  function Openers(files: map<FileId, File>, i: Sector): (o: set<FileId>) {
    set f | f in files && files[f].inode == i
  }

  function Deniers(files: map<FileId, File>, i: Sector): (o: set<FileId>) {
    set f | f in files && files[f].inode == i && files[f].denies
  }

  /** open_cnt counts the files on the inode and the calls that have it open for themselves, and
      deny_write_cnt the files that deny writes. */
  ghost predicate Counts(s: State, tmp: set<Sector>) {
    && (forall f | f in s.files :: s.files[f].inode in s.inodes && s.files[f].inode != FREE_MAP && s.files[f].inode != ROOT)
    && tmp <= s.inodes.Keys && FREE_MAP !in tmp
    && forall i | i in s.inodes :: CountOK(s.inodes[i], s.files, i, i in tmp)
  }

  ghost predicate CountOK(m: MemInode, files: map<FileId, File>, i: Sector, held: bool) {
    && (i == FREE_MAP || i == ROOT ==> m.openCount == 1 && !m.removed)
    && (i != FREE_MAP ==> m.openCount == |Openers(files, i)| + if held then 1 else 0)
    && m.denyCount == |Deniers(files, i)| && m.openCount >= 1
  }

  /** The invariant while a call in progress has the inodes in `tmp` open. */
  ghost predicate Core(s: State, tmp: set<Sector>) {
    && Sane(s) && DirOK(s.disk) && Layout(s.disk, s.used, Live(s)) && OpenOK(s) && Counts(s, tmp)
  }

  ghost predicate Inv(s: State) {
    Core(s, {})
  }

  // ---------------------------------------------------------------- storing in one file

  /** Nothing but the contents of file `j` differs. */
  ghost predicate OnlyFile(s: State, s': State, j: Sector)
    requires RootFits(s.disk)
  {
    && s'.inodes == s.inodes && s'.files == s.files && s'.used == s.used
    && Disk(s'.disk) && |s'.disk| == |s.disk|
    && Layout(s'.disk, s'.used, Live(s))
    && (forall i | i in Live(s) && i != j :: SameFile(s.disk, s'.disk, i))
    && (forall i | i in Live(s) :: 0 <= i < |s.disk| && DecodeInode(s'.disk[i]) == DecodeInode(s.disk[i]))
  }

  /** A store in a file other than the root directory keeps everything. */
  lemma OnlyFileKeeps(tmp: set<Sector>, s: State, s': State, j: Sector)
    requires Core(s, tmp) && OnlyFile(s, s', j) && j != ROOT
    ensures Core(s', tmp) && Entries(s'.disk) == Entries(s.disk) && Live(s') == Live(s)
  {
    assert ROOT in Live(s) && SameFile(s.disk, s'.disk, ROOT);
    hide Layout;
    hide SameFile;
    hide EntriesOK;
    hide Slots;
    hide CountOK;
    assert forall i | i in s.inodes :: i in Live(s);
  }

  lemma LiveInRange(tmp: set<Sector>, s: State, i: Sector)
    requires Core(s, tmp) && i in Live(s)
    ensures 0 <= i < |s.disk| && FitsInode(s.disk, DecodeInode(s.disk[i]))
  {
    assert Placed(s.disk, s.used, i);
  }

  lemma StoreOnlyFile(tmp: set<Sector>, s: State, j: Sector, offset: nat, data: seq<Byte>)
    requires Core(s, tmp) && j in s.inodes && (data != [] ==> offset + |data| <= s.inodes[j].data.length)
    ensures var s' := s.(disk := Patched(s.disk, s.inodes[j].data.start, offset, data));
            && OnlyFile(s, s', j)
            && FileBytes(s'.disk, j) == Spliced(FileBytes(s.disk, j), offset, data)
  {
    hide EntriesOK;
    hide Counts;
    hide Slots;
    LiveInRange(tmp, s, j);
    StoreKeeps(s.disk, s.used, Live(s), j, offset, data);
    forall i | i in Live(s) ensures 0 <= i < |s.disk| {
      LiveInRange(tmp, s, i);
    }
  }

  /** inode_write_at on an open inode replaces the slice it covers and nothing else. */
  lemma WriteOnlyFile(tmp: set<Sector>, s: State, j: Sector, data: seq<Byte>, offset: nat, memory: bool)
    requires Core(s, tmp) && j in s.inodes
    ensures var s' := WriteInode(s, j, data, offset, memory);
            var n := WriteCount(s, j, |data|, offset, memory);
            && OnlyFile(s, s', j)
            && (n > 0 ==> offset + n <= DecodeInode(s.disk[j]).length)
            && FileBytes(s'.disk, j) == Spliced(FileBytes(s.disk, j), offset, data[..n])
  {
    hide Layout;
    hide EntriesOK;
    hide Counts;
    hide Slots;
    LiveInRange(tmp, s, j);
    StoreOnlyFile(tmp, s, j, offset, data[..WriteCount(s, j, |data|, offset, memory)]);
  }

  // ---------------------------------------------------------------- the free map

  /** The free map's own file is all that storing the map changes. */
  lemma FlushOnlyFile(tmp: set<Sector>, s: State, memory: bool)
    requires Core(s, tmp)
    ensures OnlyFile(s, Flush(s, memory), FREE_MAP)
  {
    hide Layout;
    hide EntriesOK;
    hide Counts;
    hide Slots;
    var b := EncodeMap(s.used);
    StoreOnlyFile(tmp, s, FREE_MAP, 0, b[..Transfer(s.inodes[FREE_MAP].data.length, |b|, 0, memory)]);
  }

  /** Every live file but the free map's is the same, and so is the directory. */
  ghost predicate SameFiles(s: State, s': State)
    requires RootFits(s.disk)
  {
    && s'.inodes == s.inodes && s'.files == s.files && Disk(s'.disk) && |s'.disk| == |s.disk|
    && RootFits(s'.disk) && Entries(s'.disk) == Entries(s.disk)
    && forall i | i in Live(s) && i != FREE_MAP :: SameFile(s.disk, s'.disk, i)
  }

  lemma FlushKeeps(tmp: set<Sector>, s: State, memory: bool)
    requires Core(s, tmp)
    ensures Core(Flush(s, memory), tmp) && SameFiles(s, Flush(s, memory)) && Live(Flush(s, memory)) == Live(s)
  {
    hide Flush;
    hide Layout;
    hide Counts;
    hide EntriesOK;
    FlushOnlyFile(tmp, s, memory);
    OnlyFileKeeps(tmp, s, Flush(s, memory), FREE_MAP);
  }

  /** Sectors from `first` on, `count` of them, belong to no live inode. */
  ghost predicate Unowned(s: State, first: nat, count: nat)
    requires RootFits(s.disk)
  {
    forall i, k | i in Live(s) && Owns(s.disk, i, k) :: !(first <= k < first + count)
  }

  lemma FreeIsUnowned(tmp: set<Sector>, s: State, first: nat, count: nat)
    requires Core(s, tmp) && first + count <= |s.used| && RunFree(s.used, first, count)
    ensures Unowned(s, first, count)
  {
    forall i, k | i in Live(s) && Owns(s.disk, i, k) ensures !(first <= k < first + count) {
      assert Placed(s.disk, s.used, i);
    }
  }

  /** Changing the marks of sectors nobody owns keeps the invariant. */
  lemma RemarkKeeps(tmp: set<Sector>, s: State, first: nat, count: nat, v: bool)
    requires Core(s, tmp) && first + count <= |s.used| && (v || Unowned(s, first, count))
    ensures Core(s.(used := SetRun(s.used, first, count, v)), tmp)
  {
    var used' := SetRun(s.used, first, count, v);
    forall i, k | i in Live(s) && Owns(s.disk, i, k) && 0 <= k < |s.used| ensures used'[k] {
      assert Placed(s.disk, s.used, i);
    }
    MarkKeeps(s.disk, s.used, used', Live(s));
    hide Layout;
    hide EntriesOK;
    hide Slots;
    assert Live(s.(used := used')) == Live(s);
  }

  /** free_map_allocate keeps the invariant; on success the run was free and is now marked. */
  lemma AllocateKeeps(tmp: set<Sector>, s: State, count: nat, memory: bool)
    requires Core(s, tmp)
    ensures var r := Allocate(s, count, memory);
            var first := FirstFit(s.used, 0, count);
            && Core(r, tmp) && SameFiles(s, r) && Live(r) == Live(s)
            && (Allocates(s, count, memory) ==>
                  && first + count <= |s.used| && RunFree(s.used, first, count)
                  && Unowned(r, first, count) && r.used == SetRun(s.used, first, count, true))
            && (!Allocates(s, count, memory) ==> r.used == s.used)
  {
    var first := FirstFit(s.used, 0, count);
    FirstFitLowest(s.used, 0, count);
    SameFilesHere(tmp, s);
    if first + count <= |s.used| {
      FreeIsUnowned(tmp, s, first, count);
      RemarkKeeps(tmp, s, first, count, true);
      var s1 := s.(used := SetRun(s.used, first, count, true));
      FlushKeeps(tmp, s1, memory);
      var r1 := Flush(s1, memory);
      UnownedSame(tmp, s1, r1, first, count);
      hide Flush;
      hide SameFile;
      assert SameFiles(s, r1);
      if !Allocates(s, count, memory) {
        UnmarkBack(tmp, s, r1, first, count);
      }
    }
  }

  lemma SameFilesHere(tmp: set<Sector>, s: State)
    requires Core(s, tmp)
    ensures SameFiles(s, s)
  {
    forall i | i in Live(s) ensures SameFile(s.disk, s.disk, i) {
      LiveInRange(tmp, s, i);
    }
  }

  lemma UnownedSame(tmp: set<Sector>, s: State, s': State, first: nat, count: nat)
    requires Core(s, tmp) && Core(s', tmp) && Live(s') == Live(s) && SameFiles(s, s') && Unowned(s, first, count)
    requires DecodeInode(s'.disk[FREE_MAP]) == DecodeInode(s.disk[FREE_MAP])
    ensures Unowned(s', first, count)
  {
    forall i, k | i in Live(s') && Owns(s'.disk, i, k) ensures !(first <= k < first + count) {
      assert i != FREE_MAP ==> SameFile(s.disk, s'.disk, i);
      assert Owns(s.disk, i, k);
    }
  }

  lemma UnmarkBack(tmp: set<Sector>, s: State, r1: State, first: nat, count: nat)
    requires Core(r1, tmp) && |s.used| == |r1.used| && first + count <= |s.used| && RunFree(s.used, first, count)
    requires r1.used == SetRun(s.used, first, count, true) && Unowned(r1, first, count)
    ensures Core(r1.(used := s.used), tmp) && Live(r1.(used := s.used)) == Live(r1)
  {
    RemarkKeeps(tmp, r1, first, count, false);
    assert SetRun(r1.used, first, count, false) == s.used;
  }

  /** free_map_release of sectors nobody owns. */
  lemma ReleaseKeeps(tmp: set<Sector>, s: State, first: nat, count: nat, memory: bool)
    requires Core(s, tmp) && first + count <= |s.used| && Unowned(s, first, count) && RunUsed(s.used, first, count)
    ensures var r := Release(s, first, count, memory);
            && Core(r, tmp) && SameFiles(s, r) && Live(r) == Live(s) && r.used == SetRun(s.used, first, count, false)
            && DecodeInode(r.disk[FREE_MAP]) == DecodeInode(s.disk[FREE_MAP])
  {
    RemarkKeeps(tmp, s, first, count, false);
    var s1 := s.(used := SetRun(s.used, first, count, false));
    FlushKeeps(tmp, s1, memory);
    FlushOnlyFile(tmp, s1, memory);
    assert FREE_MAP in Live(s1);
    hide Flush;
    hide Layout;
    hide SameFile;
  }
}
