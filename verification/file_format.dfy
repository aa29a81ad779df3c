/** Formatting and mounting: from any device to the state in which runs start. */
module FileFormat {
  import opened InodeIo
  import opened DiskFormat
  import opened FileSystem
  import opened FileStart
  import FilePersistence

  /** Which allocations succeed: the buffer for the map's inode, the open map file, the bounce
      buffer of its first write, the root directory's inode (`buffer` and `map2` of `root`), and
      everything free_map_open needs. Every failure is a kernel panic. */
  datatype FormatLuck = FormatLuck(buffer: bool, open: bool, store: bool, root: Luck, mount: bool)

  /** The map with the first `k` of `n` sectors in use. free_map_init marks two. */
  function UsedBelow(n: nat, k: nat): (used: seq<bool>)
    ensures |used| == n
  {
    seq(n, i => i < k)
  }

  /** The first run of free bits lies behind the used ones. */
  lemma {:induction false} FirstRun(n: nat, k: nat, from: nat, count: nat)
    requires count > 0 && from <= k
    ensures FirstFit(UsedBelow(n, k), from, count) == if k + count <= n then k else n + 1
    decreases k - from
  {
    if from < k && from + count <= n {
      assert UsedBelow(n, k)[from];
      FirstRun(n, k, from + 1, count);
    }
  }

  lemma NextRun(n: nat, k: nat, count: nat)
    requires k + count <= n
    ensures SetRun(UsedBelow(n, k), k, count, true) == UsedBelow(n, k + count)
  {
  }

  /** inode_create of the free map's file, whose map is not stored as there is no map file yet,
      and inode_open of it. */
  ghost function MapCreated(disk: seq<seq<Byte>>): (s: State)
    requires Device(disk) && RootInode(|disk|).start <= |disk| < DEVICE_MAX
    ensures s == State(s.disk, UsedBelow(|disk|, RootInode(|disk|).start),
                       map[FREE_MAP := MemInode(MapInode(|disk|), 1, false, 0)], map[])
    ensures Sane(s) && |s.disk| == |disk| && s.disk[FREE_MAP] == EncodeInode(MapInode(|disk|))
  {
    var n := |disk|;
    var count := SectorsFor(MapSize(n));
    FirstRun(n, 2, 0, count);
    NextRun(n, 2, count);
    InodeRoundTrip(MapInode(n));
    var start := FirstFit(UsedBelow(n, 2), 0, count);
    var disk' := WithInode(disk, FREE_MAP, DiskInode(start, MapSize(n)));
    State(disk', SetRun(UsedBelow(n, 2), start, count, true),
          map[FREE_MAP := MemInode(DecodeInode(disk'[FREE_MAP]), 1, false, 0)], map[])
  }

  /** What free_map_open relies on: the first inode is a map of the right size. */
  ghost predicate Mountable(disk: seq<seq<Byte>>) {
    && Device(disk) && |disk| >= 2 && FitsInode(disk, DecodeInode(disk[FREE_MAP]))
    && MapSize(|disk|) <= DecodeInode(disk[FREE_MAP]).length
  }

  ghost function Mounted(disk: seq<seq<Byte>>): (s: State)
    requires Mountable(disk)
  {
    var d := DecodeInode(disk[FREE_MAP]);
    State(disk, FilePersistence.DecodeMap(Bytes(disk, d), |disk|), map[FREE_MAP := MemInode(d, 1, false, 0)], map[])
  }

  /** do_format and free_map_open come through without a panic. */
  ghost predicate Survives(disk: seq<seq<Byte>>, fl: FormatLuck)
    requires Device(disk) && |disk| < DEVICE_MAX
  {
    && fl.buffer && RootInode(|disk|).start <= |disk| && fl.open
    && var s := MapCreated(disk);
    && Flushed(s, fl.store) && CreatesInode(Flush(s, fl.store), ROOT_ENTRIES * ENTRY, fl.root) && fl.mount
  }

  ghost function FormattedDisk(disk: seq<seq<Byte>>, fl: FormatLuck): (r: seq<seq<Byte>>)
    requires Device(disk) && |disk| < DEVICE_MAX && Survives(disk, fl)
  {
    CreateInode(Flush(MapCreated(disk), fl.store), ROOT, ROOT_ENTRIES * ENTRY, fl.root).disk
  }

  // ---------------------------------------------------------------- storing the map

  /** A state whose map file is where formatting puts it. */
  ghost predicate HasMap(s: State) {
    && Sane(s) && s.inodes == map[FREE_MAP := MemInode(MapInode(|s.disk|), 1, false, 0)]
    && |s.disk| < DEVICE_MAX && s.disk[FREE_MAP] == EncodeInode(MapInode(|s.disk|))
  }

  /** The map is stored unless it needs a bounce buffer that is not there. */
  lemma FlushedIff(s: State, memory: bool)
    requires HasMap(s)
    ensures Flushed(s, memory) <==> memory || MapSize(|s.disk|) % SECTOR == 0
  {
    hide MapSize;
    hide EncodeMap;
    var size := MapSize(|s.disk|);
    assert size == MapInode(|s.disk|).length == |EncodeMap(s.used)|;
    assert size / SECTOR * SECTOR == size <==> size % SECTOR == 0;
  }

  /** Storing the map changes its sectors alone, and all of it can then be read back. */
  lemma FlushStores(s: State, memory: bool)
    requires HasMap(s) && Flushed(s, memory)
    ensures var r := Flush(s, memory);
            && (forall k | 0 <= k < |s.disk| && !(2 <= k < RootInode(|s.disk|).start) :: r.disk[k] == s.disk[k])
            && Bytes(r.disk, MapInode(|s.disk|)) == EncodeMap(s.used)
  {
    hide EncodeMap;
    hide EncodeInode;
    hide MapSize;
    hide Patched;
    var d, b := MapInode(|s.disk|), EncodeMap(s.used);
    assert |b| == d.length && b[..|b|] == b;
    PatchedContents(s.disk, d.start, d.length, 0, b);
    assert Spliced(Bytes(s.disk, d), 0, b) == b;
    forall k | 0 <= k < |s.disk| && !(2 <= k < RootInode(|s.disk|).start) ensures Flush(s, memory).disk[k] == s.disk[k] {
      PatchedElsewhere(s.disk, d.start, d.length, 0, b, k);
    }
  }

  // ---------------------------------------------------------------- formatting

  /** The device once the root directory is there too, and the map in memory. */
  ghost function RootCreated(s: State, luck: Luck): (r: State)
    requires HasMap(s) && CreatesInode(s, ROOT_ENTRIES * ENTRY, luck)
  {
    CreateInode(s, ROOT, ROOT_ENTRIES * ENTRY, luck)
  }

  /** The root directory gets the first sector behind the map's, if there is one left. */
  lemma RootCreatesIff(s: State, luck: Luck)
    requires HasMap(s) && RootInode(|s.disk|).start <= |s.disk|
    requires s.used == UsedBelow(|s.disk|, RootInode(|s.disk|).start)
    ensures CreatesInode(s, ROOT_ENTRIES * ENTRY, luck) <==>
              && luck.buffer && RootInode(|s.disk|).start < |s.disk|
              && (luck.map2 || MapSize(|s.disk|) % SECTOR == 0)
  {
    var n, k := |s.disk|, RootInode(|s.disk|).start;
    assert SectorsFor(ROOT_ENTRIES * ENTRY) == 1;
    FirstRun(n, k, 0, 1);
    hide FirstFit;
    hide Flushed;
    hide UsedBelow;
    hide RootInode;
    if k + 1 <= n {
      FlushedIff(s.(used := SetRun(s.used, k, 1, true)), luck.map2);
    }
  }

  lemma RootStored(s: State, luck: Luck)
    requires HasMap(s) && RootInode(|s.disk|).start < |s.disk| && CreatesInode(s, ROOT_ENTRIES * ENTRY, luck)
    requires s.used == UsedBelow(|s.disk|, RootInode(|s.disk|).start)
    ensures var r, n := RootCreated(s, luck), |s.disk|;
            && |r.disk| == n && r.disk[ROOT] == EncodeInode(RootInode(n)) && r.disk[RootInode(n).start] == ZeroSector()
            && r.disk[FREE_MAP] == s.disk[FREE_MAP] && r.used == UsedBelow(n, RootInode(n).start + 1)
            && Bytes(r.disk, MapInode(n)) == EncodeMap(r.used)
  {
    hide EncodeMap;
    hide EncodeInode;
    hide MapSize;
    hide Patched;
    hide Contents;
    var n, k := |s.disk|, RootInode(|s.disk|).start;
    assert SectorsFor(ROOT_ENTRIES * ENTRY) == 1;
    FirstRun(n, k, 0, 1);
    NextRun(n, k, 1);
    hide FirstFit;
    hide UsedBelow;
    var s1 := s.(used := SetRun(s.used, k, 1, true));
    FlushStores(s1, luck.map2);
    hide Flush;
    hide Flushed;
    var r := RootCreated(s, luck);
    SameBytes(Flush(s1, luck.map2).disk, r.disk, MapInode(n));
  }

  lemma SameBytes(disk: seq<seq<Byte>>, disk': seq<seq<Byte>>, d: DiskInode)
    requires FitsInode(disk, d) && FitsInode(disk', d)
    requires forall k | d.start <= k < d.start + SectorsFor(d.length) :: disk'[k] == disk[k]
    ensures Bytes(disk', d) == Bytes(disk, d)
  {
    forall i | 0 <= i < d.length ensures Bytes(disk', d)[i] == Bytes(disk, d)[i] {
      ContentsAt(disk, d.start, d.length, i);
      ContentsAt(disk', d.start, d.length, i);
    }
  }

  /** Formatting and mounting any device leads to the state in which runs start. */
  lemma FormatReaches(disk: seq<seq<Byte>>, fl: FormatLuck)
    requires Device(disk) && |disk| < DEVICE_MAX && Survives(disk, fl)
    ensures var r := FormattedDisk(disk, fl);
            Mountable(r) && Formatted(Mounted(r))
  {
    hide EncodeMap;
    hide EncodeInode;
    hide MapCreated;
    hide CreateInode;
    hide CreatesInode;
    hide Flush;
    hide Flushed;
    hide Formatted;
    var s := MapCreated(disk);
    FlushStores(s, fl.store);
    var s2 := Flush(s, fl.store);
    RootCreatesIff(s2, fl.root);
    RootStored(s2, fl.root);
    MountFormatted(RootCreated(s2, fl.root).disk);
  }

  lemma MountFormatted(disk: seq<seq<Byte>>)
    requires Device(disk) && RootInode(|disk|).start < |disk| < DEVICE_MAX
    requires disk[FREE_MAP] == EncodeInode(MapInode(|disk|)) && disk[ROOT] == EncodeInode(RootInode(|disk|))
    requires disk[RootInode(|disk|).start] == ZeroSector()
    requires Bytes(disk, MapInode(|disk|)) == EncodeMap(UsedBelow(|disk|, RootInode(|disk|).start + 1))
    ensures Mountable(disk) && Formatted(Mounted(disk))
  {
    hide EncodeMap;
    hide EncodeInode;
    hide DecodeInode;
    hide Contents;
    InodeRoundTrip(MapInode(|disk|));
    hide MapSize;
    FilePersistence.MapRoundTrip(UsedBelow(|disk|, RootInode(|disk|).start + 1));
  }

  /** What formatting needs: memory, a sector for the root directory behind the map's, and bounce
      buffers unless the map fills whole sectors. */
  lemma SurvivesIff(disk: seq<seq<Byte>>, fl: FormatLuck)
    requires Device(disk) && |disk| < DEVICE_MAX
    ensures Survives(disk, fl) <==>
              && fl.buffer && fl.open && fl.root.buffer && fl.mount && RootInode(|disk|).start < |disk|
              && ((fl.store && fl.root.map2) || MapSize(|disk|) % SECTOR == 0)
  {
    if RootInode(|disk|).start <= |disk| {
      var s := MapCreated(disk);
      hide MapCreated;
      FlushedIff(s, fl.store);
      if Flushed(s, fl.store) {
        FlushStores(s, fl.store);
        RootCreatesIff(Flush(s, fl.store), fl.root);
      }
    }
  }
}
