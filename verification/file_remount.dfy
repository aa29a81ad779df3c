/** What a reboot between two calls finds: whatever memory ran out before, the free map stored on
    the device marks every sector that is in use, so the mounted file system is in order again. */
module FileRemount {
  import opened InodeIo
  import opened DiskFormat
  import opened FileSystem
  import opened FileLayout
  import opened FileInvariant
  import opened FileCalls
  import opened FileDirectory
  import opened FileHandles
  import opened FileSteps
  import opened FileFormat
  import opened FileMap
  import FilePersistence
  import opened FileStart
  import Bitmap

  // ---------------------------------------------------------------- the stored map

  /** Every sector marked in memory is marked on the device. */
  ghost predicate MapCovers(s: State) {
    MapReadable(s.disk) && |s.used| == |s.disk| && forall k | 0 <= k < |s.used| && s.used[k] :: Stored(s.disk, k)
  }

  predicate Covering(m: FreeMap) {
    |m.stored| == |m.used| && forall k | 0 <= k < |m.used| && m.used[k] :: m.stored[k]
  }

  lemma CoveringIff(s: State)
    requires MapReadable(s.disk)
    ensures MapCovers(s) <==> Covering(MapOf(s))
  {
    hide Stored;
    hide MapReadable;
  }

  /** A run is marked only for good if the map could be stored with it. */
  lemma TakeCovers(m: FreeMap, count: nat, memory: bool)
    requires Covering(m)
    ensures Covering(TakeMap(m, count, memory))
  {
    hide FirstFit;
    var n := |m.used|;
    if MapStores(n, memory) && !memory {
      assert MapSize(n) / SECTOR * SECTOR == MapSize(n);
      assert forall k | 0 <= k < n :: k / 8 < MapSize(n);
    }
  }

  lemma ReleaseCovers(m: FreeMap, first: nat, count: nat, memory: bool)
    requires Covering(m)
    ensures Covering(MarkMap(m, first, count, false, memory))
  {
    hide MapSize;
  }

  lemma CreateMapCovers(m: FreeMap, size: nat, lk: Luck, success: bool)
    requires Covering(m) && size < SIZE_MAX
    ensures Covering(CreateMap(m, size, lk, success))
  {
    hide Covering;
    hide TakeMap;
    hide MarkMap;
    hide AskedSectors;
    TakeCovers(m, 1, lk.map1);
    var m1 := TakeMap(m, 1, lk.map1);
    TakeCovers(m1, AskedSectors(size), lk.map2);
    ReleaseCovers(if lk.buffer then TakeMap(m1, AskedSectors(size), lk.map2) else m1, FirstFit(m.used, 0, 1), 1, lk.map3);
  }

  lemma FreeCovers(m: FreeMap, i: Sector, d: DiskInode, lk: Luck)
    requires Covering(m)
    ensures Covering(FreeFile(m, i, d, lk))
  {
    hide Covering;
    hide MarkMap;
    if i >= 0 {
      ReleaseCovers(m, i, 1, lk.map2);
      ReleaseCovers(MarkMap(m, i, 1, false, lk.map2), d.start, SectorsFor(d.length), lk.map3);
    }
  }

  /** Whatever allocations fail in a call, the stored map goes on marking every sector in use. */
  lemma StepCovers(s: State, a: Action)
    requires Inv(s) && MapCovers(s) && Enabled(s, a) && Safe(s, a)
    ensures MapCovers(Next(s, a))
  {
    hide MapCovers;
    hide Covering;
    hide MapOf;
    hide CreateMap;
    hide FreeFile;
    hide Creates;
    hide Core;
    hide Next;
    hide Safe;
    hide Visible;
    CoreReadable({}, s);
    CoveringIff(s);
    match a {
      case Create(name, size, lk) =>
        CreateStepMap(s, name, size, lk);
        CreateMapCovers(MapOf(s), size, lk, RootOpens(s, lk) && Creates(WithRoot(s, lk), name, size, lk));
      case Remove(name, lk) =>
        RemoveStepMap(s, name, lk);
        var v := Visible(Entries(s.disk), lk.lookups);
        var k := Lookup(v, name);
        if k < |v| && 0 <= v[k].sector < |s.disk| {
          FreeCovers(MapOf(s), v[k].sector, DecodeInode(s.disk[v[k].sector]), lk);
        }
      case Close(f, lk) =>
        CloseStepMap(s, f, lk);
        FreeCovers(MapOf(s), s.files[f].inode, s.inodes[s.files[f].inode].data, lk);
      case _ => OtherStepMap(s, a);
    }
    CoveringIff(Next(s, a));
  }

  // ---------------------------------------------------------------- mounting again

  lemma FormattedCovers(s: State)
    requires Formatted(s)
    ensures MapCovers(s)
  {
    hide EncodeInode;
    hide EncodeMap;
    hide MapSize;
    FormattedInodes(s);
    var b := EncodeMap(s.used);
    forall k: nat | k < |s.used| && s.used[k] ensures k / 8 < |b| && Bitmap.Bit(b[k / 8], k % 8) {
      MixedByte(s.used, b, |b|, k);
    }
  }

  /** The map as it is read back marks at least what was marked. */
  lemma MountedMarks(s: State)
    requires MapCovers(s)
    ensures |Mounted(s.disk).used| == |s.used| && forall k | 0 <= k < |s.used| && s.used[k] :: Mounted(s.disk).used[k]
  {
    var r := Mounted(s.disk);
    forall k | 0 <= k < |s.used| && s.used[k] ensures r.used[k] {
      assert Stored(s.disk, k);
    }
  }

  /** Mounting the device again: the same directory and files, nothing open, and every invariant. */
  lemma MountedHolds(s: State)
    requires Inv(s) && MapCovers(s)
    ensures var r := Mounted(s.disk);
            && Inv(r) && MapCovers(r) && r.disk == s.disk && r.files == map[]
            && Live(r) == {FREE_MAP, ROOT} + Named(Entries(s.disk))
            && forall k | 0 <= k < |s.used| && s.used[k] :: r.used[k]
  {
    hide Counts;
    hide DecodeInode;
    hide FilePersistence.DecodeMap;
    hide EntriesOK;
    hide Entries;
    hide Named;
    hide Layout;
    hide Stored;
    CoreReadable({}, s);
    MountedMarks(s);
    var r := Mounted(s.disk);
    assert Live(r) == {FREE_MAP, ROOT} + Named(Entries(s.disk));
    MountedLayout(s, r.used, Live(r));
    MountedCounts(r);
    MountedCovers(s.disk);
  }

  /** The map in memory is then the stored one. */
  lemma MountedCovers(disk: seq<seq<Byte>>)
    requires MapReadable(disk)
    ensures MapCovers(Mounted(disk)) && forall k | 0 <= k < |disk| :: Mounted(disk).used[k] <==> Stored(disk, k)
  {
  }

  lemma MountedCounts(r: State)
    requires r.files == map[] && r.inodes.Keys == {FREE_MAP}
    requires r.inodes[FREE_MAP] == MemInode(r.inodes[FREE_MAP].data, 1, false, 0)
    ensures Counts(r, {})
  {
    assert Openers(r.files, FREE_MAP) == {} && Deniers(r.files, FREE_MAP) == {};
  }

  lemma MountedLayout(s: State, used: seq<bool>, live: set<Sector>)
    requires RootFits(s.disk) && Layout(s.disk, s.used, Live(s)) && live <= Live(s)
    requires |used| == |s.used| && forall k | 0 <= k < |s.used| && s.used[k] :: used[k]
    ensures Layout(s.disk, used, live)
  {
    forall i, k | i in Live(s) && Owns(s.disk, i, k) && 0 <= k < |s.used| ensures used[k] {
      assert Placed(s.disk, s.used, i);
    }
    MarkKeeps(s.disk, s.used, used, Live(s));
    SmallerLayout(s.disk, used, Live(s), live);
  }
}
