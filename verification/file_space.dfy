/** Which sectors filesys_create takes, and which it gives back when it fails. */
module FileSpace {
  import opened InodeIo
  import opened DiskFormat
  import opened FileSystem
  import opened FileLayout
  import opened FileInvariant
  import opened FileCalls
  import opened FileDirectory
  import opened FileSteps
  import opened FileMap
  import opened FileNames

  /** A sector for the inode, memory for inode_create, and free sectors for the data. */
  predicate TakesRun(used: seq<bool>, size: nat, lk: Luck)
    requires size < SIZE_MAX
  {
    && TakesSector(used, lk) && lk.buffer
    && DataFor(used, size).start + AskedSectors(size) <= |used| && MapStores(|used|, lk.map2)
  }

  /** The map after filesys_create: the inode's sector is taken only together with a name, and the
      data's run stays taken once it has been obtained. */
  function UsedAfter(used: seq<bool>, size: nat, lk: Luck, success: bool): (r: seq<bool>)
    requires size < SIZE_MAX
    ensures |r| == |used|
  {
    if !TakesRun(used, size, lk) then used
    else
      var r := SetRun(used, DataFor(used, size).start, AskedSectors(size), true);
      if success then r[FirstFit(used, 0, 1) := true] else r
  }

  /** The run obtained for the data is free, and so is the inode's sector, which is not in it. */
  lemma RunApart(used: seq<bool>, size: nat, lk: Luck)
    requires size < SIZE_MAX && TakesRun(used, size, lk)
    ensures var i, start, n := FirstFit(used, 0, 1), DataFor(used, size).start, AskedSectors(size);
            !used[i] && !(start <= i < start + n) && RunFree(used, start, n)
  {
    hide AskedSectors;
    hide FirstFit;
    var i, start, n := FirstFit(used, 0, 1), DataFor(used, size).start, AskedSectors(size);
    FirstFitLowest(used, 0, 1);
    assert RunFree(used, i, 1);
    var used1 := used[i := true];
    FirstFitLowest(used1, 0, n);
    assert RunFree(used1, start, n);
    forall k | start <= k < start + n ensures k != i && !used[k] {
      assert !used1[k];
    }
  }

  /** Taking the sector and then the run, and giving the sector back. */
  lemma TakenThenBack(used: seq<bool>, size: nat, lk: Luck)
    requires size < SIZE_MAX && TakesRun(used, size, lk)
    ensures var i, start, n := FirstFit(used, 0, 1), DataFor(used, size).start, AskedSectors(size);
            && SetRun(used[i := true], start, n, true) == UsedAfter(used, size, lk, true)
            && UsedAfter(used, size, lk, true)[i := false] == UsedAfter(used, size, lk, false)
  {
    hide AskedSectors;
    hide FirstFit;
    hide MapSize;
    RunApart(used, size, lk);
  }

  /** What creating a file does to the map in memory. */
  lemma CreateMapUsed(m: FreeMap, size: nat, lk: Luck, success: bool)
    requires size < SIZE_MAX && (success ==> TakesRun(m.used, size, lk))
    ensures CreateMap(m, size, lk, success).used == UsedAfter(m.used, size, lk, success)
  {
    hide AskedSectors;
    hide MapSize;
    hide FirstFit;
    var i := FirstFit(m.used, 0, 1);
    if TakesRun(m.used, size, lk) {
      TakenThenBack(m.used, size, lk);
    } else if TakesSector(m.used, lk) {
      FirstFitLowest(m.used, 0, 1);
      assert RunFree(m.used, i, 1);
      assert SetRun(SetRun(m.used, i, 1, true), i, 1, false) == m.used;
    }
    assert i < |m.used| ==> SetRun(m.used, i, 1, true) == m.used[i := true];
  }

  /** The sectors a create needs, said in two ways. */
  lemma RoomIs(used: seq<bool>, size: nat, lk: Luck)
    requires size < SIZE_MAX
    ensures TakesRun(used, size, lk) <==>
              && lk.buffer && ((lk.map1 && lk.map2) || MapSize(|used|) % SECTOR == 0)
              && FirstFit(used, 0, 1) < |used| && Room(used[FirstFit(used, 0, 1) := true], AskedSectors(size))
  {
    hide AskedSectors;
    hide MapSize;
    hide Room;
    if FirstFit(used, 0, 1) < |used| {
      RoomIff(used[FirstFit(used, 0, 1) := true], AskedSectors(size));
    }
  }

  /** filesys_create, whole: which bits of the map it leaves set. */
  lemma CreateUsed(s: State, name: seq<Byte>, size: nat, lk: Luck)
    requires Inv(s) && Enabled(s, Create(name, size, lk))
    ensures Safe(s, Create(name, size, lk)) && Readable(s, ROOT)
    ensures var success, r := CreatesEntry(s, Create(name, size, lk)), Next(s, Create(name, size, lk)).used;
            && r == (if RootOpens(s, lk) then UsedAfter(s.used, size, lk, success) else s.used)
            && (success ==> TakesRun(s.used, size, lk))
  {
    hide Core;
    hide Next;
    hide Safe;
    hide Creates;
    hide UsedAfter;
    hide TakesRun;
    hide CreateMap;
    RootReadable(s);
    MapUsed({}, s);
    CreateStepMap(s, name, size, lk);
    CreatesIff(s, Create(name, size, lk));
    RoomIs(s.used, size, lk);
    if RootOpens(s, lk) {
      CreateMapUsed(MapOf(s), size, lk, Creates(WithRoot(s, lk), name, size, lk));
    }
  }

  /** A create that fails gives back the sector it tried for the inode. It keeps nothing at all
      unless inode_create had obtained its data, and then exactly that run. */
  lemma FailedCreate(s: State, name: seq<Byte>, size: nat, lk: Luck)
    requires Inv(s) && Enabled(s, Create(name, size, lk))
    requires Readable(s, ROOT) && !CreatesEntry(s, Create(name, size, lk))
    ensures Safe(s, Create(name, size, lk))
    ensures var r, i := Next(s, Create(name, size, lk)).used, FirstFit(s.used, 0, 1);
            var start, n := DataFor(s.used, size).start, AskedSectors(size);
            && |r| == |s.used| && (i < |r| ==> !r[i])
            && (r != s.used ==> RootOpens(s, lk) && TakesRun(s.used, size, lk))
            && (RootOpens(s, lk) && TakesRun(s.used, size, lk) ==>
                  forall k | 0 <= k < |r| :: r[k] <==> s.used[k] || start <= k < start + n)
  {
    hide Core;
    hide CreatesEntry;
    hide Next;
    hide Safe;
    hide AskedSectors;
    hide RootOpens;
    CreateUsed(s, name, size, lk);
    FirstFitLowest(s.used, 0, 1);
    if TakesRun(s.used, size, lk) {
      RunApart(s.used, size, lk);
    }
  }

  // ---------------------------------------------------------------- the map on the device

  /** Whatever the call stores of the map, it has the memory for. */
  predicate StoresMap(n: nat, lk: Luck) {
    MapStores(n, lk.map1) && MapStores(n, lk.map2) && MapStores(n, lk.map3)
  }

  predicate CallStores(n: nat, a: Action) {
    a.Create? || a.Remove? || a.Close? ==> StoresMap(n, a.luck)
  }

  predicate Exact(m: FreeMap) {
    m.stored == m.used
  }

  lemma MarkExact(m: FreeMap, first: nat, count: nat, v: bool, memory: bool)
    requires Exact(m) && MapStores(|m.used|, memory)
    ensures Exact(MarkMap(m, first, count, v, memory)) && |MarkMap(m, first, count, v, memory).used| == |m.used|
  {
    var n := |m.used|;
    if !memory {
      assert MapSize(n) / SECTOR * SECTOR == MapSize(n);
      assert forall k | 0 <= k < n :: k / 8 < MapSize(n);
    }
  }

  lemma CreateExact(m: FreeMap, size: nat, lk: Luck, success: bool)
    requires Exact(m) && StoresMap(|m.used|, lk) && size < SIZE_MAX
    ensures Exact(CreateMap(m, size, lk, success))
  {
    hide AskedSectors;
    hide MarkMap;
    hide FirstFit;
    hide MapStores;
    hide Exact;
    MarkExact(m, FirstFit(m.used, 0, 1), 1, true, lk.map1);
    var m1 := TakeMap(m, 1, lk.map1);
    MarkExact(m1, FirstFit(m1.used, 0, AskedSectors(size)), AskedSectors(size), true, lk.map2);
    MarkExact(if lk.buffer then TakeMap(m1, AskedSectors(size), lk.map2) else m1, FirstFit(m.used, 0, 1), 1, false, lk.map3);
  }

  lemma FreeExact(m: FreeMap, i: Sector, d: DiskInode, lk: Luck)
    requires Exact(m) && StoresMap(|m.used|, lk)
    ensures Exact(FreeFile(m, i, d, lk))
  {
    hide MarkMap;
    hide Exact;
    if i >= 0 {
      MarkExact(m, i, 1, false, lk.map2);
      MarkExact(MarkMap(m, i, 1, false, lk.map2), d.start, SectorsFor(d.length), false, lk.map3);
    }
  }

  /** A call that can store the map leaves the same map on the device as in memory. */
  lemma StepExact(s: State, a: Action)
    requires Inv(s) && Enabled(s, a) && MapReadable(s.disk) && Exact(MapOf(s)) && CallStores(|s.used|, a)
    ensures Safe(s, a) && MapReadable(Next(s, a).disk) && Exact(MapOf(Next(s, a)))
  {
    hide Exact;
    hide CreateMap;
    hide FreeFile;
    hide Creates;
    hide Core;
    hide Next;
    hide Safe;
    hide Visible;
    hide MapReadable;
    match a
    case Create(name, size, lk) =>
      CreateStepMap(s, name, size, lk);
      CreateExact(MapOf(s), size, lk, RootOpens(s, lk) && Creates(WithRoot(s, lk), name, size, lk));
    case Remove(name, lk) =>
      RemoveStepMap(s, name, lk);
      var v := Visible(Entries(s.disk), lk.lookups);
      var k := Lookup(v, name);
      if k < |v| && 0 <= v[k].sector < |s.disk| {
        FreeExact(MapOf(s), v[k].sector, DecodeInode(s.disk[v[k].sector]), lk);
      }
    case Close(f, lk) =>
      CloseStepMap(s, f, lk);
      FreeExact(MapOf(s), s.files[f].inode, s.inodes[s.files[f].inode].data, lk);
    case _ => OtherStepMap(s, a);
  }
}
