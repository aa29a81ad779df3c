/** The free map in memory and on the device, and what calls do to both. */
module FileMap {
  import opened InodeIo
  import opened DiskFormat
  import opened FileSystem
  import opened FileLayout
  import opened FileInvariant
  import opened FileCalls
  import opened FileDirectory
  import opened FileHandles
  import opened FileSteps
  import opened FileFormat
  import FilePersistence
  import Bitmap

  ghost predicate MapReadable(disk: seq<seq<Byte>>) {
    Disk(disk) && Mountable(disk)
  }

  /** What the stored map says of sector `k`. */
  ghost predicate Stored(disk: seq<seq<Byte>>, k: nat)
    requires MapReadable(disk) && k < |disk|
  {
    Bitmap.Bit(FileBytes(disk, FREE_MAP)[k / 8], k % 8)
  }

  /** The map that is used, and the one that a reboot would find. */
  datatype FreeMap = FreeMap(used: seq<bool>, stored: seq<bool>)

  ghost function StoredMap(disk: seq<seq<Byte>>): (r: seq<bool>)
    requires MapReadable(disk)
    ensures |r| == |disk|
  {
    seq(|disk|, k requires 0 <= k < |disk| => Stored(disk, k))
  }

  ghost function MapOf(s: State): (m: FreeMap)
    requires MapReadable(s.disk)
  {
    FreeMap(s.used, StoredMap(s.disk))
  }

  // ---------------------------------------------------------------- what is done to it

  /** The map can be stored: only whole sectors need no bounce buffer. */
  predicate MapStores(n: nat, memory: bool) {
    memory || MapSize(n) % SECTOR == 0
  }

  /** bitmap_write, which without memory stops in front of the last, partial sector. */
  function StoreMap(m: FreeMap, memory: bool): (r: FreeMap) {
    var n := |m.used|;
    var whole := MapSize(n) / SECTOR * SECTOR;
    m.(stored := seq(n, k requires 0 <= k < n => if memory || k / 8 < whole then m.used[k] else k < |m.stored| && m.stored[k]))
  }

  /** The bits of a run set to `v`, and the map stored. */
  function MarkMap(m: FreeMap, first: nat, count: nat, v: bool, memory: bool): (r: FreeMap) {
    if first + count <= |m.used| then StoreMap(m.(used := SetRun(m.used, first, count, v)), memory) else m
  }

  /** The lowest free run marked; in memory no longer if that could not be stored. */
  function TakeMap(m: FreeMap, count: nat, memory: bool): (r: FreeMap) {
    var first := FirstFit(m.used, 0, count);
    if first + count > |m.used| then m
    else
      var r := MarkMap(m, first, count, true, memory);
      if MapStores(|m.used|, memory) then r else r.(used := m.used)
  }

  /** A file's sectors given back, that of the inode first. */
  function FreeFile(m: FreeMap, i: Sector, d: DiskInode, lk: Luck): (r: FreeMap) {
    if i < 0 then m
    else MarkMap(MarkMap(m, i, 1, false, lk.map2), d.start, SectorsFor(d.length), false, lk.map3)
  }

  predicate TakesSector(used: seq<bool>, lk: Luck) {
    FirstFit(used, 0, 1) < |used| && MapStores(|used|, lk.map1)
  }

  /** filesys_create: a sector for the inode, which is given back without success, and the data. */
  function CreateMap(m: FreeMap, size: nat, lk: Luck, success: bool): (r: FreeMap)
    requires size < SIZE_MAX
  {
    var m1 := TakeMap(m, 1, lk.map1);
    if !TakesSector(m.used, lk) then m1
    else
      var m2 := if lk.buffer then TakeMap(m1, AskedSectors(size), lk.map2) else m1;
      if success then m2 else MarkMap(m2, FirstFit(m.used, 0, 1), 1, false, lk.map3)
  }

  // ---------------------------------------------------------------- storing the map

  lemma CoreReadable(tmp: set<Sector>, s: State)
    requires Core(s, tmp)
    ensures MapReadable(s.disk) && |s.used| == |s.disk| && FREE_MAP in Live(s) && FREE_MAP in s.inodes
    ensures s.inodes[FREE_MAP].data == DecodeInode(s.disk[FREE_MAP])
    ensures s.inodes[FREE_MAP].data.length == MapSize(|s.used|)
  {
    hide Layout;
    hide EntriesOK;
    hide Counts;
    LiveInRange(tmp, s, FREE_MAP);
  }

  lemma SameMap(s: State, s': State)
    requires MapReadable(s.disk) && Disk(s'.disk) && SameFile(s.disk, s'.disk, FREE_MAP) && s'.used == s.used
    ensures MapReadable(s'.disk) && MapOf(s') == MapOf(s)
  {
    hide FileBytes;
    assert forall k | 0 <= k < |s.disk| :: Stored(s'.disk, k) <==> Stored(s.disk, k);
  }

  /** The map is stored unless it needs a bounce buffer that is not there. */
  lemma FlushedIff(tmp: set<Sector>, s: State, used: seq<bool>, memory: bool)
    requires Core(s, tmp) && |used| == |s.used|
    ensures Sane(s.(used := used)) && (Flushed(s.(used := used), memory) <==> MapStores(|s.used|, memory))
  {
    hide Layout;
    hide EntriesOK;
    hide Counts;
    hide EncodeMap;
    hide MapSize;
    CoreReadable(tmp, s);
    var size := MapSize(|s.used|);
    assert size / SECTOR * SECTOR == size <==> size % SECTOR == 0;
  }

  /** How much of the map a flush stores. */
  function StoredBytes(n: nat, memory: bool): (b: nat) {
    if memory then MapSize(n) else MapSize(n) / SECTOR * SECTOR
  }

  lemma FlushSplices(tmp: set<Sector>, s: State, memory: bool)
    requires Core(s, tmp)
    ensures Sane(s) && MapReadable(s.disk) && MapReadable(Flush(s, memory).disk) && |s.disk| == |s.used|
    ensures var n, b, c := StoredBytes(|s.used|, memory), EncodeMap(s.used), FileBytes(s.disk, FREE_MAP);
            n <= |b| <= |c| && FileBytes(Flush(s, memory).disk, FREE_MAP) == Spliced(c, 0, b[..n])
  {
    hide EncodeMap;
    hide FileBytes;
    hide Layout;
    hide EntriesOK;
    hide Counts;
    hide OnlyFile;
    hide SameFiles;
    hide MapSize;
    FlushKeeps(tmp, s, memory);
    CoreReadable(tmp, s);
    CoreReadable(tmp, Flush(s, memory));
    assert Transfer(s.inodes[FREE_MAP].data.length, |EncodeMap(s.used)|, 0, memory) == StoredBytes(|s.used|, memory);
    StoreOnlyFile(tmp, s, FREE_MAP, 0, EncodeMap(s.used)[..StoredBytes(|s.used|, memory)]);
    MapLength(s.disk);
  }

  lemma MapLength(disk: seq<seq<Byte>>)
    requires MapReadable(disk)
    ensures |FileBytes(disk, FREE_MAP)| >= MapSize(|disk|)
  {
  }

  lemma MixedByte(used: seq<bool>, c: seq<Byte>, n: nat, k: nat)
    requires n <= |EncodeMap(used)| <= |c| && k < |used|
    ensures k / 8 < |EncodeMap(used)|
    ensures var m := Spliced(c, 0, EncodeMap(used)[..n]);
            && |m| == |c|
            && if k / 8 < n then Bitmap.Bit(m[k / 8], k % 8) == used[k] else m[k / 8] == c[k / 8]
  {
    hide MapByte;
    hide Bitmap.Bit;
    FilePersistence.MapByteIs(used, k / 8, k % 8);
    assert 8 * (k / 8) + k % 8 == k;
  }

  lemma FlushMap(tmp: set<Sector>, s: State, memory: bool)
    requires Core(s, tmp)
    ensures MapReadable(s.disk) && MapReadable(Flush(s, memory).disk)
    ensures MapOf(Flush(s, memory)) == StoreMap(MapOf(s), memory)
  {
    FlushSplices(tmp, s, memory);
    hide EncodeMap;
    hide FileBytes;
    hide Core;
    hide Flush;
    hide MapReadable;
    hide Bitmap.Bit;
    var r := Flush(s, memory);
    var e := StoreMap(MapOf(s), memory);
    forall k | 0 <= k < |s.used| ensures Stored(r.disk, k) == e.stored[k] {
      MixedByte(s.used, FileBytes(s.disk, FREE_MAP), StoredBytes(|s.used|, memory), k);
    }
  }

  // ---------------------------------------------------------------- the calls' parts

  lemma AllocateMap(tmp: set<Sector>, s: State, count: nat, memory: bool)
    requires Core(s, tmp)
    ensures Sane(s) && MapReadable(s.disk) && MapReadable(Allocate(s, count, memory).disk)
    ensures MapOf(Allocate(s, count, memory)) == TakeMap(MapOf(s), count, memory)
    ensures Allocates(s, count, memory) <==> FirstFit(s.used, 0, count) + count <= |s.used| && MapStores(|s.used|, memory)
  {
    var first := FirstFit(s.used, 0, count);
    CoreReadable(tmp, s);
    if first + count <= |s.used| {
      RemarkKeeps(tmp, s, first, count, true);
      var s1 := s.(used := SetRun(s.used, first, count, true));
      FlushMap(tmp, s1, memory);
      FlushedIff(tmp, s, s1.used, memory);
      hide Core;
      hide Flush;
      hide Flushed;
      hide Stored;
      hide MapReadable;
      hide StoreMap;
      hide MapStores;
    }
  }

  lemma ReleaseMap(tmp: set<Sector>, s: State, first: nat, count: nat, memory: bool)
    requires Core(s, tmp) && first + count <= |s.used| && Unowned(s, first, count) && RunUsed(s.used, first, count)
    ensures MapReadable(s.disk) && MapReadable(Release(s, first, count, memory).disk)
    ensures MapOf(Release(s, first, count, memory)) == MarkMap(MapOf(s), first, count, false, memory)
  {
    RemarkKeeps(tmp, s, first, count, false);
    FlushMap(tmp, s.(used := SetRun(s.used, first, count, false)), memory);
    hide Core;
    hide Flush;
    hide Flushed;
    hide Stored;
    hide MapReadable;
    hide StoreMap;
  }

  lemma WriteMap(tmp: set<Sector>, s: State, j: Sector, data: seq<Byte>, offset: nat, memory: bool)
    requires Core(s, tmp) && j in s.inodes && j != FREE_MAP
    ensures MapReadable(s.disk) && MapReadable(WriteInode(s, j, data, offset, memory).disk)
    ensures MapOf(WriteInode(s, j, data, offset, memory)) == MapOf(s)
  {
    WriteOnlyFile(tmp, s, j, data, offset, memory);
    CoreReadable(tmp, s);
    hide Core;
    hide Live;
    hide WriteInode;
    hide SameFile;
    SameMap(s, WriteInode(s, j, data, offset, memory));
  }

  lemma CreateInodeMap(tmp: set<Sector>, s: State, sector: Sector, length: nat, lk: Luck)
    requires Core(s, tmp) && 0 <= sector < |s.disk| && s.used[sector] && Unowned(s, sector, 1) && length < SIZE_MAX
    ensures Sane(s) && MapReadable(s.disk) && MapReadable(CreateInode(s, sector, length, lk).disk)
    ensures MapOf(CreateInode(s, sector, length, lk))
            == if lk.buffer then TakeMap(MapOf(s), AskedSectors(length), lk.map2) else MapOf(s)
  {
    var n := AskedSectors(length);
    AllocateMap(tmp, s, n, lk.map2);
    if CreatesInode(s, length, lk) {
      AllocateKeeps(tmp, s, n, lk.map2);
      DataRun(tmp, s, sector, length, lk.map2);
      CoreReadable(tmp, Allocate(s, n, lk.map2));
      CoreLayout(tmp, Allocate(s, n, lk.map2));
      hide Core;
      hide Allocate;
      hide SectorsFor;
      hide MapOf;
      hide TakeMap;
      PlacedMap(Allocate(s, n, lk.map2), sector, DiskInode(FirstFit(s.used, 0, n), length));
    }
  }

  lemma PlacedMap(s: State, sector: Sector, d: DiskInode)
    requires RootFits(s.disk) && Sane(s) && Layout(s.disk, s.used, Live(s)) && FREE_MAP in Live(s) && MapReadable(s.disk)
    requires ClearRun(s, sector, d)
    ensures MapReadable(StoreInode(s, sector, d).disk) && MapOf(StoreInode(s, sector, d)) == MapOf(s)
  {
    hide Live;
    hide EncodeInode;
    hide Zeroed;
    NewInodeKeeps(s.disk, s.used, Live(s), sector, d);
    SameMap(s, StoreInode(s, sector, d));
  }

  lemma AddMap(tmp: set<Sector>, s: State, name: seq<Byte>, i: Sector, lk: Luck)
    requires Core(s, tmp) && ROOT in s.inodes && i >= 0
    ensures MapReadable(s.disk) && MapReadable(AddEntry(s, name, i, lk).disk) && MapOf(AddEntry(s, name, i, lk)) == MapOf(s)
  {
    CoreReadable(tmp, s);
    hide MapOf;
    hide MapReadable;
    hide WriteInode;
    hide Slots;
    hide FilledEntry;
    hide Layout;
    hide EntriesOK;
    hide Counts;
    var c := DirBytes(s);
    var k := SlotFor(Slots(c), lk);
    if NameOK(name) {
      WriteMap(tmp, s, ROOT, FilledEntry(LeftOver(c, k, lk.searches, lk.stack), name, i), ENTRY * k, lk.entry);
    }
  }

  lemma CloseMap(tmp: set<Sector>, s: State, i: Sector, lk: Luck)
    requires Core(s, tmp) && i in tmp
    ensures Closable(s, i) && MapReadable(s.disk) && MapReadable(CloseInode(s, i, lk).disk)
    ensures MapOf(CloseInode(s, i, lk)) == if LastRemoved(s, i) then FreeFile(MapOf(s), i, s.inodes[i].data, lk) else MapOf(s)
  {
    Held(tmp, s, i);
    CoreReadable(tmp, s);
    if LastRemoved(s, i) {
      ForgetKeeps(tmp, s, i);
      ForgottenUnowned(tmp, s, i);
      var s1, d := Forgotten(s, i), s.inodes[i].data;
      hide Core;
      hide Release;
      hide MarkMap;
      ReleaseMap(tmp - {i}, s1, i, 1, lk.map2);
      ReleaseKeeps(tmp - {i}, s1, i, 1, lk.map2);
      var s2 := Release(s1, i, 1, lk.map2);
      UnownedSame(tmp - {i}, s1, s2, d.start, SectorsFor(d.length));
      ReleaseMap(tmp - {i}, s2, d.start, SectorsFor(d.length), lk.map3);
    }
  }

  // ---------------------------------------------------------------- the calls

  lemma CreateInMap(tmp: set<Sector>, s: State, name: seq<Byte>, size: nat, lk: Luck)
    requires Core(s, tmp) && ROOT in tmp && size < SIZE_MAX && 0 !in name
    ensures Sane(s) && DirOpen(s) && MapReadable(s.disk) && MapReadable(CreateIn(s, name, size, lk).disk)
    ensures MapOf(CreateIn(s, name, size, lk)) == CreateMap(MapOf(s), size, lk, Creates(s, name, size, lk))
  {
    hide MapOf;
    hide MapReadable;
    hide TakeMap;
    hide MarkMap;
    hide AddsEntry;
    hide CreatesInode;
    hide CreateAt;
    Held(tmp, s, ROOT);
    MapUsed(tmp, s);
    AllocateMap(tmp, s, 1, lk.map1);
    if Allocates(s, 1, lk.map1) {
      NewSector(tmp, s, lk.map1);
      hide Allocate;
      hide FirstFit;
      hide Core;
      CreateAtMap(tmp, Allocate(s, 1, lk.map1), NewInode(s), name, size, lk);
    }
  }

  lemma MapUsed(tmp: set<Sector>, s: State)
    requires Core(s, tmp)
    ensures MapReadable(s.disk) && MapOf(s).used == s.used
  {
    CoreReadable(tmp, s);
  }

  lemma CreateAtMap(tmp: set<Sector>, s: State, i: Sector, name: seq<Byte>, size: nat, lk: Luck)
    requires Core(s, tmp) && ROOT in tmp && size < SIZE_MAX && 0 !in name
    requires 0 < i < |s.disk| && |s.used| == |s.disk| && s.used[i] && Unowned(s, i, 1)
    ensures Sane(s) && DirOpen(s) && MapReadable(s.disk) && MapReadable(CreateAt(s, i, name, size, lk).disk)
    ensures var m := if lk.buffer then TakeMap(MapOf(s), AskedSectors(size), lk.map2) else MapOf(s);
            MapOf(CreateAt(s, i, name, size, lk))
            == if CreatesInode(s, size, lk) && AddsEntry(CreateInode(s, i, size, lk), name, lk) then m
               else MarkMap(m, i, 1, false, lk.map3)
  {
    hide MapOf;
    hide MapReadable;
    hide TakeMap;
    hide MarkMap;
    hide FirstFit;
    hide AddEntry;
    hide AddsEntry;
    Held(tmp, s, ROOT);
    CreateInodeMap(tmp, s, i, size, lk);
    CreateInodeKeeps(tmp, s, i, size, lk);
    var s1 := CreateInode(s, i, size, lk);
    hide CreateInode;
    hide CreatesInode;
    hide Release;
    Held(tmp, s1, ROOT);
    hide Core;
    ReleaseMap(tmp, s1, i, 1, lk.map3);
    if CreatesInode(s, size, lk) {
      AddMap(tmp, s1, name, i, lk);
      AddEntryKeeps(tmp, s1, name, i, NewData(s.used, size), lk);
    }
  }

  lemma CreateStepMap(s: State, name: seq<Byte>, size: nat, lk: Luck)
    requires Inv(s) && Enabled(s, Create(name, size, lk))
    ensures Safe(s, Create(name, size, lk)) && Readable(s, ROOT)
    ensures MapReadable(s.disk) && MapReadable(Next(s, Create(name, size, lk)).disk)
    ensures MapOf(Next(s, Create(name, size, lk)))
            == if RootOpens(s, lk) then CreateMap(MapOf(s), size, lk, Creates(WithRoot(s, lk), name, size, lk)) else MapOf(s)
  {
    hide Core;
    hide CreateIn;
    hide Creates;
    hide Created;
    hide CloseInode;
    hide CreateMap;
    RootReadable(s);
    CreateStep(s, name, size, lk);
    CoreReadable({}, s);
    if RootOpens(s, lk) {
      RootOpened(s, lk);
      var s1 := WithRoot(s, lk);
      CreateInMap({ROOT}, s1, name, size, lk);
      CreateInKeeps({ROOT}, s1, name, size, lk);
      CreatedCore({ROOT}, s1, name, size, lk, Creates(s1, name, size, lk), CreateIn(s1, name, size, lk));
      RootClosed({ROOT}, CreateIn(s1, name, size, lk), lk);
    }
  }

  /** dir_remove once the name has been found: the entry erased, and the inode closed. */
  lemma RemoveNamedMap(s1: State, k: nat, lk: Luck)
    requires Core(s1, {ROOT}) && RootFits(s1.disk) && lk.entry
    requires k < |Entries(s1.disk)| && Entries(s1.disk)[k].inUse && Entries(s1.disk)[k].sector in Live(s1)
    requires var i := Entries(s1.disk)[k].sector;
             i != FREE_MAP && i != ROOT && Readable(s1, i) && OpensInode(s1, i, lk.target)
    ensures var i := Entries(s1.disk)[k].sector;
            var s2 := OpenInode(s1, i, lk.target);
            && DirOpen(s2) && k < |Slots(DirBytes(s2))| && i in s2.inodes && Closable(Erasure(s2, k, i, lk), i)
            && var s3 := CloseInode(Erasure(s2, k, i, lk), i, lk);
               && Core(s3, {ROOT}) && MapReadable(s1.disk) && MapReadable(s3.disk)
               && MapOf(s3) == if i in s1.inodes then MapOf(s1) else FreeFile(MapOf(s1), i, DecodeInode(s1.disk[i]), lk)
  {
    hide Core;
    hide Live;
    hide CloseInode;
    hide MapOf;
    hide MapReadable;
    hide SameFile;
    hide Closable;
    hide FreeFile;
    hide DecodeInode;
    var i := Entries(s1.disk)[k].sector;
    OpenKeeps({ROOT}, s1, i, lk.target);
    OpenedCount({ROOT}, s1, i, lk.target);
    var s2 := OpenInode(s1, i, lk.target);
    EraseKeeps({ROOT} + {i}, s2, k, lk);
    var s3 := Erasure(s2, k, i, lk);
    hide OpenInode;
    ErasedMap({ROOT} + {i}, s1, s2, k, s3);
    CloseMap({ROOT} + {i}, s3, i, lk);
    CloseKeeps({ROOT} + {i}, s3, i, lk);
    hide Closed;
    ClosedCore({ROOT} + {i}, s3, i, CloseInode(s3, i, lk));
    assert {ROOT} + {i} - {i} == {ROOT};
  }

  lemma ClosedCore(tmp: set<Sector>, s: State, i: Sector, r: State)
    requires RootFits(s.disk) && i in s.inodes && Closed(tmp, s, i, r)
    ensures Core(r, tmp - {i})
  {
    hide Core;
  }

  lemma ErasedMap(tmp: set<Sector>, s1: State, s2: State, k: nat, s3: State)
    requires s2.disk == s1.disk && s2.used == s1.used && Core(s2, tmp)
    requires RootFits(s2.disk) && k < |Entries(s2.disk)| && Erased(tmp, s2, k, s3)
    ensures MapReadable(s1.disk) && MapReadable(s3.disk) && MapOf(s3) == MapOf(s1)
  {
    CoreReadable(tmp, s2);
    CoreReadable(tmp, s3);
    hide Core;
    hide Live;
    hide Entries;
    SameMap(s2, s3);
  }

  lemma RemoveStepMap(s: State, name: seq<Byte>, lk: Luck)
    requires Inv(s) && Enabled(s, Remove(name, lk))
    ensures Safe(s, Remove(name, lk)) && RootFits(s.disk)
    ensures MapReadable(s.disk) && MapReadable(Next(s, Remove(name, lk)).disk)
    ensures var r := Next(s, Remove(name, lk));
            var v := Visible(Entries(s.disk), lk.lookups);
            var k := Lookup(v, name);
            if k < |v| && RootOpens(s, lk) && OpensInode(s, v[k].sector, lk.target) && lk.entry && v[k].sector !in s.inodes
            then 0 <= v[k].sector < |s.disk| && MapOf(r) == FreeFile(MapOf(s), v[k].sector, DecodeInode(s.disk[v[k].sector]), lk)
            else MapOf(r) == MapOf(s)
  {
    hide Core;
    hide Live;
    hide Lookup;
    hide Slots;
    hide Named;
    hide CloseInode;
    hide Erasure;
    hide Unnamed;
    hide Closable;
    hide Visible;
    hide MapOf;
    hide MapReadable;
    hide FreeFile;
    hide DecodeInode;
    RemoveStep(s, name, lk);
    MapUsed({}, s);
    var v := Visible(Entries(s.disk), lk.lookups);
    var k := Lookup(v, name);
    if k < |v| && RootOpens(s, lk) && OpensInode(s, v[k].sector, lk.target) && lk.entry {
      FoundInode(s, name, lk);
      RootOpened(s, lk);
      var s1 := WithRoot(s, lk);
      assert Slots(DirBytes(s1)) == Entries(s.disk);
      RemoveNamedMap(s1, k, lk);
      assert v[k].sector in s1.inodes <==> v[k].sector in s.inodes by {
        assert v[k].sector in s1.inodes <==> v[k].sector in s1.inodes - {ROOT};
      }
      var s3 := RemoveIn(s1, name, lk);
      RootClosed({ROOT}, s3, lk);
      SameDiskMap(s, s1);
      SameDiskMap(s3, CloseInode(s3, ROOT, lk));
    }
  }

  lemma SameDiskMap(s: State, s': State)
    requires MapReadable(s.disk) && s'.disk == s.disk && s'.used == s.used
    ensures MapReadable(s'.disk) && MapOf(s') == MapOf(s)
  {
  }

  lemma CloseStepMap(s: State, f: FileId, lk: Luck)
    requires Inv(s) && Enabled(s, Close(f, lk))
    ensures Safe(s, Close(f, lk)) && FileOK(s, f) && MapReadable(s.disk) && MapReadable(Next(s, Close(f, lk)).disk)
    ensures var i := s.files[f].inode;
            MapOf(Next(s, Close(f, lk)))
            == if LastRemoved(s, i) then FreeFile(MapOf(s), i, s.inodes[i].data, lk) else MapOf(s)
  {
    hide Core;
    hide CloseInode;
    hide MapOf;
    hide FreeFile;
    hide Undisturbed;
    CloseStep(s, f, lk);
    MapUsed({}, s);
    FileSafe({}, s, f);
    AllowKeeps({}, s, f);
    var s1, i := Allow(s, f), s.files[f].inode;
    DropFile({}, s1, f);
    assert {} + {i} == {i};
    SameDiskMap(s, Dropped(s, f));
    CloseMap({i}, Dropped(s, f), i, lk);
  }

  /** All other calls leave the map as it is, in memory and on the device. */
  lemma OtherStepMap(s: State, a: Action)
    requires Inv(s) && Enabled(s, a) && (a.Open? || a.Write? || KeepsDisk(a))
    ensures Safe(s, a) && MapReadable(s.disk) && MapReadable(Next(s, a).disk) && MapOf(Next(s, a)) == MapOf(s)
  {
    hide Core;
    hide Live;
    hide MapOf;
    hide Undisturbed;
    hide Safe;
    hide Next;
    MapUsed({}, s);
    if a.Open? {
      OpenStep(s, a.name, a.file, a.luck);
      SameDiskMap(s, Next(s, a));
    } else if a.Write? {
      WriteStepMap(s, a.file, a.data, a.luck);
    } else {
      QuietStep(s, a);
      SameDiskMap(s, Next(s, a));
    }
  }

  lemma WriteStepMap(s: State, f: FileId, data: seq<Byte>, lk: Luck)
    requires Inv(s) && Enabled(s, Write(f, data, lk))
    ensures Safe(s, Write(f, data, lk)) && MapReadable(s.disk) && MapReadable(Next(s, Write(f, data, lk)).disk)
    ensures MapOf(Next(s, Write(f, data, lk))) == MapOf(s)
  {
    hide Core;
    hide Live;
    hide WriteInode;
    hide MapOf;
    hide Undisturbed;
    hide Safe;
    WriteStep(s, f, data, lk);
    FileSafe({}, s, f);
    var i := s.files[f].inode;
    WriteMap({}, s, i, data, s.files[f].pos, lk.entry);
    SameDiskMap(WriteInode(s, i, data, s.files[f].pos, lk.entry), Next(s, Write(f, data, lk)));
  }
}
