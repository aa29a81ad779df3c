/** The file system's code as it updates the device, the free map and the tables of open inodes and
    files in place. Each method is proved to take the state to the one the transition system
    names. */
module Volume {
  import opened Collections
  import opened InodeIo
  import opened DiskFormat
  import opened FileSystem
  import opened FileInvariant
  import opened FileSteps
  import FileLayout
  import FileStart
  import FileRuns
  import FileReads
  import FileSpace
  import FileView
  import opened FileFormat
  import FilePersistence
  import Inode
  import Directory

  /** dir_remove finds the name, opens its inode and stores the erased entry. */
  ghost predicate Removes(s: State, name: seq<Byte>, lk: Luck)
    requires Sane(s) && DirOpen(s)
  {
    var v := Visible(Slots(DirBytes(s)), lk.lookups);
    var k := Lookup(v, name);
    && k < |v| && OpensInode(s, v[k].sector, lk.target)
    && WriteCount(s, ROOT, ENTRY, ENTRY * k, lk.entry) == ENTRY
  }

  /** The call took `s` to `r`, and did to what is seen of it what the view says. */
  ghost predicate Did(s: State, a: Action, r: State) {
    && Inv(s) && Enabled(s, a) && Safe(s, a) && Inv(r) && r == Next(s, a)
    && FileView.Shown(s) && FileView.Shown(r)
    && FileView.HandleOK(FileView.ViewOf(s), a) && FileView.ViewOf(r) == FileView.NextView(FileView.ViewOf(s), a)
  }

  lemma Does(s: State, a: Action)
    requires Inv(s) && Enabled(s, a)
    ensures Safe(s, a) && Inv(Next(s, a)) && Did(s, a, Next(s, a))
  {
    hide Inv;
    hide Safe;
    hide Next;
    hide FileView.NextView;
    hide FileView.ViewOf;
    hide FileView.Shown;
    FileView.StepRefines(s, a);
    FileView.InvShown(s);
    FileView.InvShown(Next(s, a));
  }

  /** The loop of inode_create that clears the data. */
  method ClearSectors(device: Inode.BlockDevice, start: nat, count: nat)
    requires Device(device.sectors) && start + count <= |device.sectors|
    modifies device
    ensures device.sectors == Zeroed(old(device.sectors), start, count)
  {
    for k := 0 to count
      invariant device.sectors == Zeroed(old(device.sectors), start, k)
    {
      device.sectors := device.sectors[start + k := seq(SECTOR, _ => 0)];
    }
  }

  /** free_map_create up to the point where the map's inode is open. */
  method CreateMap(device: Inode.BlockDevice, fl: FormatLuck) returns (v: Option<FileVolume>)
    requires Device(device.sectors) && |device.sectors| < DEVICE_MAX
    modifies device
    ensures v.Some? <==> fl.buffer && fl.open && FileStart.RootInode(|old(device.sectors)|).start <= |old(device.sectors)|
    ensures v.Some? ==> fresh(v.value) && v.value.device == device && v.value.Abs() == MapCreated(old(device.sectors))
  {
    hide EncodeInode;
    hide DecodeInode;
    var n := |device.sectors|;
    if n < 2 || !fl.buffer {
      return None;
    }
    var used, count := UsedBelow(n, 2), SectorsFor(MapSize(n));
    FirstRun(n, 2, 0, count);
    var start := FirstFit(used, 0, count);
    if start + count > n {
      return None;
    }
    used := SetRun(used, start, count, true);
    device.sectors := device.sectors[FREE_MAP := EncodeInode(DiskInode(start, MapSize(n)))];
    ClearSectors(device, start, count);
    if !fl.open {
      return None;
    }
    var volume := new FileVolume(device, used, DecodeInode(device.sectors[FREE_MAP]));
    return Some(volume);
  }

  /** free_map_open, when it has its memory: opens the map's inode and reads the map. */
  method Mount(device: Inode.BlockDevice) returns (volume: FileVolume)
    requires Mountable(device.sectors)
    ensures fresh(volume) && volume.device == device && volume.Abs() == Mounted(device.sectors)
  {
    hide DecodeInode;
    hide Contents;
    var d := DecodeInode(device.sectors[FREE_MAP]);
    volume := new FileVolume(device, UsedBelow(|device.sectors|, 2), d);
    var bits := volume.ReadMap();
    volume.used := bits;
  }

  /** filesys_init with formatting: the mounted volume, or nothing where the kernel panics. */
  method Format(device: Inode.BlockDevice, fl: FormatLuck) returns (v: Option<FileVolume>)
    requires Device(device.sectors) && |device.sectors| < DEVICE_MAX
    modifies device
    ensures v.Some? <==> Survives(old(device.sectors), fl)
    ensures v.Some? ==> && fresh(v.value) && v.value.device == device
                        && FileStart.Formatted(v.value.Abs()) && Inv(v.value.Abs())
                        && device.sectors == FormattedDisk(old(device.sectors), fl)
  {
    hide MapCreated;
    hide Flush;
    hide Flushed;
    hide CreateInode;
    hide CreatesInode;
    hide FileStart.Formatted;
    hide Inv;
    v := CreateMap(device, fl);
    if v.None? {
      return;
    }
    var volume := v.value;
    var stored := volume.StoreMap(fl.store);
    if !stored {
      return None;
    }
    var created := volume.NewInodeAt(ROOT, FileStart.ROOT_ENTRIES * ENTRY, fl.root);
    if !created || !fl.mount {
      return None;
    }
    FormatReaches(old(device.sectors), fl);
    volume := Mount(device);
    FileStart.FormattedHolds(volume.Abs());
    return Some(volume);
  }

  class FileVolume {
    const device: Inode.BlockDevice
    var used: seq<bool>
    var inodes: map<Sector, MemInode>
    var files: map<FileId, File>

    ghost function Abs(): (s: State)
      reads this, device
    {
      State(device.sectors, used, inodes, files)
    }

    /** A device whose free map is `used` and has its inode open. */
    constructor (device: Inode.BlockDevice, used: seq<bool>, data: DiskInode)
      ensures this.device == device
      ensures Abs() == State(device.sectors, used, map[FREE_MAP := MemInode(data, 1, false, 0)], map[])
    {
      this.device, this.used := device, used;
      inodes, files := map[FREE_MAP := MemInode(data, 1, false, 0)], map[];
    }

    // -------------------------------------------------------------- inodes

    /** The in-memory inode of sector `i`. */
    method Handle(i: Sector) returns (o: Inode.OpenInode)
      requires Sane(Abs()) && i in inodes && inodes[i].denyCount >= 0
      ensures fresh(o) && o.device == device && o.Valid() && o.start == inodes[i].data.start
      ensures o.length == inodes[i].data.length && o.denyCount == inodes[i].denyCount
    {
      var m := inodes[i];
      o := new Inode.OpenInode(device, m.data.start, m.data.length);
      o.denyCount := m.denyCount;
    }

    /** inode_write_at. */
    method WriteAt(i: Sector, data: seq<Byte>, offset: nat, memory: bool) returns (n: nat)
      requires Sane(Abs()) && i in inodes && inodes[i].denyCount >= 0
      modifies device
      ensures Abs() == WriteInode(old(Abs()), i, data, offset, memory)
      ensures n == WriteCount(old(Abs()), i, |data|, offset, memory)
    {
      hide Contents;
      hide Patched;
      hide Transfer;
      var o := Handle(i);
      var buffer := new Byte[|data|](k requires 0 <= k < |data| => data[k]);
      n := o.WriteAt(buffer, |data|, offset, memory);
      assert buffer[..] == data && buffer[..n] == data[..n];
    }

    // -------------------------------------------------------------- the free map

    /** bitmap_write to the free map's file. */
    method StoreMap(memory: bool) returns (ok: bool)
      requires Sane(Abs()) && inodes[FREE_MAP].denyCount == 0
      modifies device
      ensures Abs() == Flush(old(Abs()), memory) && (ok <==> Flushed(old(Abs()), memory))
    {
      hide Patched;
      hide Transfer;
      hide EncodeMap;
      var b := EncodeMap(used);
      var n := WriteAt(FREE_MAP, b, 0, memory);
      ok := n == |b|;
    }

    /** free_map_allocate: taken back when the map cannot be stored. */
    method AllocateSectors(count: nat, memory: bool) returns (ok: bool, first: nat)
      requires Sane(Abs()) && inodes[FREE_MAP].denyCount == 0
      modifies this`used, device
      ensures Abs() == Allocate(old(Abs()), count, memory) && (ok <==> Allocates(old(Abs()), count, memory))
      ensures first == FirstFit(old(used), 0, count)
    {
      hide Flush;
      hide Flushed;
      first := FirstFit(used, 0, count);
      if first + count > |used| {
        return false, first;
      }
      var before := used;
      used := SetRun(used, first, count, true);
      ok := StoreMap(memory);
      if !ok {
        used := SetRun(used, first, count, false);
        RunRestored(before, first, count);
      }
    }

    /** bitmap_read from the free map's file, when it has its buffers. */
    method ReadMap() returns (bits: seq<bool>)
      requires Sane(Abs()) && inodes[FREE_MAP].denyCount == 0 && MapSize(|used|) <= inodes[FREE_MAP].data.length
      ensures bits == FilePersistence.DecodeMap(Bytes(device.sectors, inodes[FREE_MAP].data), |used|)
    {
      hide Contents;
      var o := Handle(FREE_MAP);
      var size := MapSize(|used|);
      var buffer := new Byte[size](_ => 0);
      var n := o.ReadAt(buffer, size, 0, true);
      assert buffer[..size] == buffer[..] == o.Bytes()[..size];
      bits := FilePersistence.DecodeMap(buffer[..], |used|);
    }

    /** free_map_release, which asserts that the sectors are in use. */
    method ReleaseSectors(first: nat, count: nat, memory: bool)
      requires Sane(Abs()) && inodes[FREE_MAP].denyCount == 0 && first + count <= |used| && RunUsed(used, first, count)
      modifies this`used, device
      ensures Abs() == Release(old(Abs()), first, count, memory)
    {
      hide Flush;
      used := SetRun(used, first, count, false);
      var _ := StoreMap(memory);
    }

    // -------------------------------------------------------------- inode.c

    method NewInodeAt(sector: Sector, length: nat, lk: Luck) returns (ok: bool)
      requires Sane(Abs()) && inodes[FREE_MAP].denyCount == 0 && 0 <= sector < |device.sectors| < DEVICE_MAX
      requires length < SIZE_MAX
      modifies this`used, device
      ensures Abs() == CreateInode(old(Abs()), sector, length, lk) && (ok <==> CreatesInode(old(Abs()), length, lk))
    {
      hide Allocate;
      hide Allocates;
      hide EncodeInode;
      if !lk.buffer {
        return false;
      }
      var start: nat;
      var count := AskedSectors(length);
      ok, start := AllocateSectors(count, lk.map2);
      if ok {
        AllocatedFits(old(Abs()), count, lk.map2);
        device.sectors := device.sectors[sector := EncodeInode(DiskInode(start, length))];
        ClearSectors(device, start, count);
      }
    }

    /** inode_open. */
    method Open(i: Sector, memory: bool) returns (ok: bool)
      requires Readable(Abs(), i)
      modifies this`inodes
      ensures Abs() == OpenInode(old(Abs()), i, memory) && (ok <==> OpensInode(old(Abs()), i, memory))
    {
      hide DecodeInode;
      if i in inodes {
        inodes := inodes[i := inodes[i].(openCount := inodes[i].openCount + 1)];
        return true;
      }
      ok := memory;
      if ok {
        inodes := inodes[i := MemInode(DecodeInode(device.sectors[i]), 1, false, 0)];
      }
    }

    /** inode_close. */
    method Close(i: Sector, lk: Luck)
      requires Closable(Abs(), i) && inodes[FREE_MAP].denyCount == 0
      modifies this, device
      ensures Abs() == CloseInode(old(Abs()), i, lk) && files == old(files)
    {
      hide Release;
      var m := inodes[i];
      if m.openCount != 1 {
        inodes := inodes[i := m.(openCount := m.openCount - 1)];
      } else {
        inodes := inodes - {i};
        if m.removed {
          ReleaseSectors(i, 1, lk.map2);
          ReleaseSectors(m.data.start, SectorsFor(m.data.length), lk.map3);
        }
      }
    }

    // -------------------------------------------------------------- directory.c

    /** A handle on the root directory. */
    method Root() returns (dir: Directory.Dir)
      requires Sane(Abs()) && DirOpen(Abs()) && inodes[ROOT].denyCount >= 0
      ensures fresh(dir) && dir.Valid() && dir.inode.device == device && dir.inode.length == inodes[ROOT].data.length
      ensures dir.inode.Bytes() == DirBytes(Abs()) && dir.Entries() == Slots(DirBytes(Abs()))
    {
      var o := Handle(ROOT);
      dir := new Directory.Dir(o);
    }

    /** dir_lookup. */
    method Find(name: seq<Byte>, budget: nat) returns (found: bool, k: nat, bytes: seq<Byte>)
      requires Sane(Abs()) && DirOpen(Abs()) && inodes[ROOT].denyCount >= 0
      ensures var v := Visible(Slots(DirBytes(Abs())), budget); k == Lookup(v, name) && (found <==> k < |v|)
      ensures found ==> |bytes| == ENTRY && k < |Slots(DirBytes(Abs()))| && bytes == SlotBytes(DirBytes(Abs()), k)
                        && DecodeEntry(bytes) == Slots(DirBytes(Abs()))[k]
    {
      hide Slots;
      hide DecodeEntry;
      hide Contents;
      var dir := Root();
      found, k, bytes := dir.Lookup(name, budget);
    }

    /** dir_add. */
    method Add(name: seq<Byte>, sector: nat, lk: Luck) returns (ok: bool)
      requires Sane(Abs()) && DirOpen(Abs()) && inodes[ROOT].denyCount >= 0 && inodes[ROOT].data.length % ENTRY == 0
      modifies device
      ensures Abs() == AddEntry(old(Abs()), name, sector, lk) && (ok <==> AddsEntry(old(Abs()), name, lk))
    {
      hide Slots;
      hide DecodeEntry;
      hide Contents;
      hide FilledEntry;
      hide Patched;
      if name == [] || |name| > NAME_MAX {
        return false;
      }
      var found, _, _ := Find(name, lk.lookups);
      if found {
        return false;
      }
      var dir := Root();
      var i, last := dir.FindFree(lk.searches, lk.stack);
      var n := WriteAt(ROOT, FilledEntry(last, name, sector), ENTRY * i, lk.entry);
      ok := n == ENTRY;
      if i == dir.inode.length / ENTRY {
        Directory.NothingStored(dir.inode.length, i, lk.entry);
        PatchedNothing(old(device.sectors), inodes[ROOT].data.start, ENTRY * i);
      }
    }

    /** dir_open_root, which gives the inode back when there is no memory for the handle. */
    method OpenRoot(lk: Luck) returns (ok: bool)
      requires Inv(Abs())
      modifies this, device
      ensures Readable(old(Abs()), ROOT) && (ok <==> RootOpens(old(Abs()), lk))
      ensures Abs() == if ok then WithRoot(old(Abs()), lk) else old(Abs())
    {
      hide Inv;
      hide CloseInode;
      MapWritable(Abs());
      ok := Open(ROOT, lk.inode);
      if ok && !lk.handle {
        OpenCloseRestores(old(Abs()), ROOT, lk.inode, lk);
        Close(ROOT, lk);
        ok := false;
      }
    }

    // -------------------------------------------------------------- filesys.c

    /** filesys_create between opening and closing the root directory. */
    method CreateHere(name: seq<Byte>, size: nat, lk: Luck) returns (ok: bool)
      requires Sane(Abs()) && DirOpen(Abs()) && inodes[ROOT].denyCount >= 0 && inodes[ROOT].data.length % ENTRY == 0
      requires inodes[FREE_MAP].denyCount == 0 && |device.sectors| < DEVICE_MAX && size < SIZE_MAX
      modifies this`used, device
      ensures Abs() == CreateIn(old(Abs()), name, size, lk) && (ok <==> Creates(old(Abs()), name, size, lk))
    {
      hide Allocate;
      hide Allocates;
      hide CreateInode;
      hide CreatesInode;
      hide AddEntry;
      hide AddsEntry;
      hide Release;
      var sector: nat;
      ok, sector := AllocateSectors(1, lk.map1);
      if !ok {
        return;
      }
      AllocatedFits(old(Abs()), 1, lk.map1);
      ok := NewInodeAt(sector, size, lk);
      if ok {
        ok := Add(name, sector, lk);
      }
      if !ok && sector != 0 {
        ReleaseSectors(sector, 1, lk.map3);
      }
    }

    method CreateFile(name: seq<Byte>, size: nat, lk: Luck) returns (ok: bool)
      requires Inv(Abs()) && Enabled(Abs(), FileSystem.Create(name, size, lk))
      modifies this, device
      ensures Did(old(Abs()), FileSystem.Create(name, size, lk), Abs())
      ensures used == if RootOpens(old(Abs()), lk) then FileSpace.UsedAfter(old(used), size, lk, ok) else old(used)
      ensures ok <==> RootOpens(old(Abs()), lk) && Creates(WithRoot(old(Abs()), lk), name, size, lk)
    {
      hide Inv;
      hide CreateIn;
      hide Creates;
      hide CloseInode;
      MapWritable(Abs());
      hide Did;
      hide FileSpace.UsedAfter;
      Does(Abs(), FileSystem.Create(name, size, lk));
      FileSpace.CreateUsed(Abs(), name, size, lk);
      ok := OpenRoot(lk);
      if ok {
        ok := CreateHere(name, size, lk);
        Close(ROOT, lk);
      }
    }

    /** dir_lookup, which opens the inode it finds. */
    method OpenNamed(name: seq<Byte>, lk: Luck) returns (i: Option<Sector>)
      requires Sane(Abs()) && DirOpen(Abs()) && inodes[ROOT].denyCount >= 0 && TargetReadable(Abs(), name, lk)
      modifies this`inodes
      ensures Abs() == OpenIn(old(Abs()), name, lk)
      ensures i == var t := FindIn(old(Abs()), name, lk);
                   if t.Some? && OpensInode(old(Abs()), t.value, lk.target) then t else None
    {
      hide Slots;
      hide DecodeEntry;
      hide Contents;
      hide DecodeInode;
      var found, _, bytes := Find(name, lk.lookups);
      if !found {
        return None;
      }
      var sector := DecodeEntry(bytes).sector;
      var ok := Open(sector, lk.target);
      i := if ok then Some(sector) else None;
    }

    /** file_open, which closes the inode when there is no memory for the file. */
    method MakeFile(i: Option<Sector>, f: FileId, lk: Luck) returns (ok: bool)
      requires Sane(Abs()) && inodes[FREE_MAP].denyCount == 0
      requires i.Some? ==> Closable(Abs(), i.value)
      modifies this, device
      ensures Abs() == FileSystem.OpenFile(old(Abs()), i, f, lk) && (ok <==> i.Some? && lk.file)
    {
      hide CloseInode;
      ok := i.Some? && lk.file;
      if ok {
        files := files[f := File(i.value, 0, false)];
      } else if i.Some? {
        Close(i.value, lk);
      }
    }

    method OpenFile(name: seq<Byte>, f: FileId, lk: Luck) returns (ok: bool)
      requires Inv(Abs()) && Enabled(Abs(), FileSystem.Open(name, f, lk))
      modifies this, device
      ensures Did(old(Abs()), FileSystem.Open(name, f, lk), Abs())
      ensures ok <==> RootOpens(old(Abs()), lk) && Target(old(Abs()), name, lk).Some? && lk.file
    {
      hide Did;
      hide Inv;
      hide Next;
      hide Safe;
      hide FindIn;
      hide FileSystem.OpenFile;
      MapWritable(Abs());
      Does(Abs(), FileSystem.Open(name, f, lk));
      NextOpen(Abs(), name, f, lk);
      ok := OpenRoot(lk);
      if ok {
        var i := OpenNamed(name, lk);
        Close(ROOT, lk);
        ok := MakeFile(i, f, lk);
      }
    }

    /** dir_remove. */
    method RemoveHere(name: seq<Byte>, lk: Luck) returns (ok: bool)
      requires Sane(Abs()) && DirOpen(Abs()) && inodes[ROOT].denyCount >= 0 && inodes[FREE_MAP].denyCount == 0
      requires TargetReadable(Abs(), name, lk) && FindIn(Abs(), name, lk) != Some(ROOT) && Removable(Abs(), name, lk)
      modifies this, device
      ensures Abs() == RemoveIn(old(Abs()), name, lk) && (ok <==> Removes(old(Abs()), name, lk))
      ensures inodes[FREE_MAP].denyCount == 0
    {
      hide Slots;
      hide DecodeEntry;
      hide Contents;
      hide DecodeInode;
      hide EraseEntry;
      hide CloseInode;
      var found, k, bytes := Find(name, lk.lookups);
      if !found {
        return false;
      }
      var i := DecodeEntry(bytes).sector;
      ok := Open(i, lk.target);
      if ok {
        ok := EraseAndClose(k, i, bytes, lk);
      }
    }

    /** The end of dir_remove, with the inode open. */
    method EraseAndClose(k: nat, i: Sector, bytes: seq<Byte>, lk: Luck) returns (ok: bool)
      requires Sane(Abs()) && DirOpen(Abs()) && inodes[ROOT].denyCount >= 0 && inodes[FREE_MAP].denyCount == 0
      requires k < |Slots(DirBytes(Abs()))| && ENTRY * k + ENTRY <= |DirBytes(Abs())| && bytes == SlotBytes(DirBytes(Abs()), k)
      requires i in inodes && i != FREE_MAP && Closable(Erasure(Abs(), k, i, lk), i)
      modifies this, device
      ensures ok <==> WriteCount(old(Abs()), ROOT, ENTRY, ENTRY * k, lk.entry) == ENTRY
      ensures Abs() == CloseInode(Erasure(old(Abs()), k, i, lk), i, lk)
      ensures inodes[FREE_MAP] == old(inodes[FREE_MAP])
    {
      hide Slots;
      hide Contents;
      hide Patched;
      hide Release;
      hide ErasedEntry;
      var n := WriteAt(ROOT, ErasedEntry(bytes), ENTRY * k, lk.entry);
      ok := n == ENTRY;
      if ok {
        inodes := inodes[i := inodes[i].(removed := true)];
      }
      Close(i, lk);
    }

    method RemoveFile(name: seq<Byte>, lk: Luck) returns (ok: bool)
      requires Inv(Abs()) && Enabled(Abs(), FileSystem.Remove(name, lk))
      modifies this, device
      ensures Did(old(Abs()), FileSystem.Remove(name, lk), Abs())
      ensures ok <==> RootOpens(old(Abs()), lk) && Removes(WithRoot(old(Abs()), lk), name, lk)
    {
      hide Inv;
      hide FindIn;
      hide RemoveIn;
      hide Removes;
      hide CloseInode;
      MapWritable(Abs());
      hide Did;
      Does(Abs(), FileSystem.Remove(name, lk));
      ok := OpenRoot(lk);
      if ok {
        ok := RemoveHere(name, lk);
        Close(ROOT, lk);
      }
    }

    // -------------------------------------------------------------- file.c

    method DenyWrites(f: FileId)
      requires Inv(Abs()) && Enabled(Abs(), DenyWrite(f))
      modifies this
      ensures Did(old(Abs()), DenyWrite(f), Abs())
      ensures files == old(files)[f := old(files[f]).(denies := true)]
      ensures var i := files[f].inode;
              i in old(inodes) && inodes == old(inodes)[i := old(inodes)[i].(denyCount := |Deniers(files, i)|)]
    {
      hide Did;
      hide Inv;
      hide Safe;
      hide Deniers;
      Does(Abs(), DenyWrite(f));
      QuietStep(Abs(), DenyWrite(f));
      var h := files[f];
      if !h.denies {
        var m := inodes[h.inode];
        files := files[f := h.(denies := true)];
        inodes := inodes[h.inode := m.(denyCount := m.denyCount + 1)];
      }
    }

    /** file_allow_write. */
    method Permit(f: FileId)
      requires f in files && files[f].inode in inodes
      modifies this
      ensures Abs() == Allow(old(Abs()), f)
    {
      var h := files[f];
      if h.denies {
        var m := inodes[h.inode];
        files := files[f := h.(denies := false)];
        inodes := inodes[h.inode := m.(denyCount := m.denyCount - 1)];
      }
    }

    method AllowWrites(f: FileId)
      requires Inv(Abs()) && Enabled(Abs(), AllowWrite(f))
      modifies this
      ensures Did(old(Abs()), AllowWrite(f), Abs())
      ensures files == old(files)[f := old(files[f]).(denies := false)]
      ensures var i := files[f].inode;
              i in old(inodes) && inodes == old(inodes)[i := old(inodes)[i].(denyCount := |Deniers(files, i)|)]
    {
      hide Did;
      hide Inv;
      hide Safe;
      hide Deniers;
      Does(Abs(), AllowWrite(f));
      QuietStep(Abs(), AllowWrite(f));
      Permit(f);
    }

    method CloseFile(f: FileId, lk: Luck)
      requires Inv(Abs()) && Enabled(Abs(), FileSystem.Close(f, lk))
      modifies this, device
      ensures Did(old(Abs()), FileSystem.Close(f, lk), Abs())
    {
      hide Inv;
      hide CloseInode;
      MapWritable(Abs());
      hide Did;
      Does(Abs(), FileSystem.Close(f, lk));
      var i := files[f].inode;
      Permit(f);
      files := files - {f};
      Close(i, lk);
    }

    /** file_read: the bytes at the file's position, which moves behind them. */
    method ReadFile(f: FileId, size: nat, lk: Luck) returns (data: seq<Byte>)
      requires Inv(Abs()) && Enabled(Abs(), Read(f, size, lk))
      modifies this
      ensures Did(old(Abs()), Read(f, size, lk), Abs())
      ensures data == FileReads.ReadData(old(Abs()), f, size, lk)
      ensures files == old(files)[f := old(files[f]).(pos := old(files[f]).pos + |data|)]
      ensures inodes == old(inodes) && used == old(used)
    {
      hide Did;
      hide Inv;
      hide Next;
      hide Safe;
      hide Contents;
      hide Transfer;
      hide FileReads.ReadData;
      MapWritable(Abs());
      ReadIs(Abs(), f, size, lk);
      var h := files[f];
      var o := Handle(h.inode);
      var buffer := new Byte[size](_ => 0);
      var n := o.ReadAt(buffer, size, h.pos, lk.entry);
      TransferFits(o.length, size, h.pos, lk.entry);
      data := buffer[..n];
      files := files[f := h.(pos := h.pos + n)];
    }

    /** file_write: the bytes go to the file's position, which moves behind them. */
    method WriteFile(f: FileId, data: seq<Byte>, lk: Luck) returns (n: nat)
      requires Inv(Abs()) && Enabled(Abs(), Write(f, data, lk))
      modifies this, device
      ensures Did(old(Abs()), Write(f, data, lk), Abs())
      ensures n == FileReads.WriteSize(old(Abs()), f, |data|, lk)
      ensures files == old(files)[f := old(files[f]).(pos := old(files[f]).pos + n)]
      ensures inodes == old(inodes) && used == old(used)
    {
      hide Did;
      hide Inv;
      hide Next;
      hide Safe;
      hide WriteInode;
      hide WriteCount;
      hide FileReads.WriteSize;
      MapWritable(Abs());
      WriteIs(Abs(), f, data, lk);
      var h := files[f];
      n := WriteAt(h.inode, data, h.pos, lk.entry);
      files := files[f := h.(pos := h.pos + n)];
    }

    /** file_seek. */
    method SeekFile(f: FileId, pos: nat)
      requires Inv(Abs()) && Enabled(Abs(), Seek(f, pos))
      modifies this
      ensures Did(old(Abs()), Seek(f, pos), Abs())
      ensures files == old(files)[f := old(files[f]).(pos := pos)] && inodes == old(inodes) && used == old(used)
    {
      hide Did;
      hide Inv;
      hide Safe;
      Does(Abs(), Seek(f, pos));
      files := files[f := files[f].(pos := pos)];
    }
  }

  lemma NextOpen(s: State, name: seq<Byte>, f: FileId, lk: Luck)
    requires Enabled(s, FileSystem.Open(name, f, lk)) && Safe(s, FileSystem.Open(name, f, lk))
    ensures Readable(s, ROOT) && (RootOpens(s, lk) ==> OpenSafe(s, name, lk))
    ensures Next(s, FileSystem.Open(name, f, lk))
            == if RootOpens(s, lk)
               then FileSystem.OpenFile(CloseInode(OpenIn(WithRoot(s, lk), name, lk), ROOT, lk), Target(s, name, lk), f, lk)
               else s
  {
  }

  lemma NextRead(s: State, f: FileId, size: nat, lk: Luck)
    requires Enabled(s, Read(f, size, lk)) && Safe(s, Read(f, size, lk))
    ensures var h := s.files[f];
            Next(s, Read(f, size, lk)) == s.(files := s.files[f := h.(pos := h.pos + MoveCount(s, f, size, false, lk))])
  {
  }

  lemma NextWrite(s: State, f: FileId, data: seq<Byte>, lk: Luck)
    requires Enabled(s, Write(f, data, lk)) && Safe(s, Write(f, data, lk))
    ensures var h := s.files[f];
            Next(s, Write(f, data, lk))
            == WriteInode(s, h.inode, data, h.pos, lk.entry).(files := s.files[f := h.(pos := h.pos + MoveCount(s, f, |data|, true, lk))])
  {
  }

  lemma ReadIs(s: State, f: FileId, size: nat, lk: Luck)
    requires Inv(s) && Enabled(s, Read(f, size, lk))
    ensures Safe(s, Read(f, size, lk)) && Did(s, Read(f, size, lk), Next(s, Read(f, size, lk)))
    ensures Sane(s) && FileOK(s, f)
    ensures var h := s.files[f];
            var d := s.inodes[h.inode].data;
            var n := Transfer(d.length, size, h.pos, lk.entry);
            && Next(s, Read(f, size, lk)) == s.(files := s.files[f := h.(pos := h.pos + n)])
            && FileReads.ReadData(s, f, size, lk) == if n == 0 then [] else Bytes(s.disk, d)[h.pos..h.pos + n]
  {
    hide Did;
    hide Inv;
    hide Safe;
    hide Next;
    hide Transfer;
    hide FileView.FilesIn;
    hide Live;
    Does(s, Read(f, size, lk));
    NextRead(s, f, size, lk);
    FileView.HandleContent(s, f);
    MapWritable(s);
    MovesMovable(s.inodes[s.files[f].inode].data.length, size, s.files[f].pos, lk.entry);
    hide Movable;
  }

  lemma WriteIs(s: State, f: FileId, data: seq<Byte>, lk: Luck)
    requires Inv(s) && Enabled(s, Write(f, data, lk))
    ensures Safe(s, Write(f, data, lk)) && Did(s, Write(f, data, lk), Next(s, Write(f, data, lk)))
    ensures Sane(s) && FileOK(s, f)
    ensures var h := s.files[f];
            var n := WriteCount(s, h.inode, |data|, h.pos, lk.entry);
            && Next(s, Write(f, data, lk))
               == WriteInode(s, h.inode, data, h.pos, lk.entry).(files := s.files[f := h.(pos := h.pos + n)])
            && FileReads.WriteSize(s, f, |data|, lk) == n
  {
    hide Did;
    hide Inv;
    hide Safe;
    hide Next;
    hide Transfer;
    hide Movable;
    hide WriteInode;
    hide FileView.FilesIn;
    hide Live;
    hide Deniers;
    Does(s, Write(f, data, lk));
    NextWrite(s, f, data, lk);
    FileView.HandleContent(s, f);
    MapWritable(s);
    DenialsCounted(s, s.files[f].inode);
    MovesMovable(s.inodes[s.files[f].inode].data.length, |data|, s.files[f].pos, lk.entry);
  }

  lemma TransferFits(length: nat, size: int, offset: nat, memory: bool)
    ensures var n := Transfer(length, size, offset, memory);
            n <= (if size < 0 then 0 else size) && (n > 0 ==> offset + n <= length)
  {
  }

  lemma MapWritable(s: State)
    requires Inv(s)
    ensures Sane(s) && Readable(s, ROOT) && s.inodes[FREE_MAP].denyCount == 0
    ensures DecodeInode(s.disk[ROOT]).length % ENTRY == 0 && ROOT !in s.inodes
    ensures forall i | i in s.inodes :: s.inodes[i].denyCount >= 0
  {
    RootReadable(s);
    assert CountOK(s.inodes[FREE_MAP], s.files, FREE_MAP, false);
    assert forall f :: f !in Deniers(s.files, FREE_MAP);
    assert Deniers(s.files, FREE_MAP) == {};
  }

  lemma AllocatedFits(s: State, count: nat, memory: bool)
    requires Sane(s) && Allocates(s, count, memory)
    ensures FirstFit(s.used, 0, count) + count <= |s.disk|
  {
  }

  lemma RunRestored(used: seq<bool>, first: nat, count: nat)
    requires first == FirstFit(used, 0, count) && first + count <= |used|
    ensures SetRun(SetRun(used, first, count, true), first, count, false) == used
  {
    FileLayout.FirstFitLowest(used, 0, count);
  }
}
