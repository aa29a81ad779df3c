/** The file system as a transition system: device, free map, open inodes and open files.

    Every call is one step. Each place where the code allocates memory takes its outcome from
    the step's `Luck`, the bounce buffers of directory reads among them. */
module FileSystem {
  import opened Collections
  import opened InodeIo
  import opened DiskFormat
  import Arithmetic

  type Sector = int
  type FileId = int

  datatype MemInode = MemInode(data: DiskInode, openCount: int, removed: bool, denyCount: int)

  datatype File = File(inode: Sector, pos: nat, denies: bool)

  datatype State = State(disk: seq<seq<Byte>>, used: seq<bool>, inodes: map<Sector, MemInode>, files: map<FileId, File>)

  const FREE_MAP := 0
  const ROOT := 1
  const DEVICE_MAX := 0x20_0000 // sectors; larger disks are not registered

  /** Which allocations succeed: the root directory's inode and struct dir, the file's inode, the
      buffer for a new on-disk inode, the struct file, and the bounce buffers of data transfers and
      directory writes and of up to three free map writes. `lookups` and `searches` say how many
      entry reads of lookup and of dir_add's search find one; `stack` is what dir_add's buffer
      holds before its first read. */
  datatype Luck = Luck(inode: bool, handle: bool, target: bool, buffer: bool, file: bool, entry: bool,
                       map1: bool, map2: bool, map3: bool, lookups: nat, searches: nat, stack: EntryBytes)

  ghost predicate FitsInode(disk: seq<seq<Byte>>, d: DiskInode) {
    Fits(disk, d.start, d.length)
  }

  /** Enough order for every operation to be defined. */
  ghost predicate Sane(s: State) {
    && Device(s.disk) && |s.used| == |s.disk| && |s.disk| >= 2 && FREE_MAP in s.inodes
    && forall i | i in s.inodes :: 0 <= i < |s.disk| && FitsInode(s.disk, s.inodes[i].data)
  }

  ghost function Bytes(disk: seq<seq<Byte>>, d: DiskInode): (c: seq<Byte>)
    requires FitsInode(disk, d)
    ensures |c| == d.length
  {
    Contents(disk, d.start, d.length)
  }

  // ---------------------------------------------------------------- the free map

  /** Bits `first` to `first + count` all set to `v`. */
  function SetRun(used: seq<bool>, first: nat, count: nat, v: bool): (r: seq<bool>)
    requires first + count <= |used|
    ensures |r| == |used|
  {
    seq(|used|, k requires 0 <= k < |used| => if first <= k < first + count then v else used[k])
  }

  /** bitmap_all. */
  predicate RunUsed(used: seq<bool>, first: nat, count: nat)
    requires first + count <= |used|
  {
    forall k | first <= k < first + count :: used[k]
  }

  predicate RunFree(used: seq<bool>, first: nat, count: nat)
    requires first + count <= |used|
  {
    forall k | first <= k < first + count :: !used[k]
  }

  /** The first place at or after `from` with `count` free bits; past the end if there is none. */
  function FirstFit(used: seq<bool>, from: nat, count: nat): (first: nat)
    decreases |used| - from
  {
    if from + count > |used| then |used| + 1
    else if RunFree(used, from, count) then from
    else FirstFit(used, from + 1, count)
  }

  /** Bits `k` to `k + n` of the map as a number, the first one lowest. */
  function MapBits(used: seq<bool>, k: nat, n: nat): (b: nat)
    ensures b < Arithmetic.Pow2(n)
    decreases n
  {
    if n == 0 then 0 else (if k < |used| && used[k] then 1 else 0) + 2 * MapBits(used, k + 1, n - 1)
  }

  function MapByte(used: seq<bool>, i: nat): (b: Byte) {
    assert Arithmetic.Pow2(4) == 16 && Arithmetic.Pow2(6) == 4 * Arithmetic.Pow2(4) && Arithmetic.Pow2(8) == 4 * Arithmetic.Pow2(6);
    MapBits(used, 8 * i, 8)
  }

  /** bitmap_file_size: whole 32-bit words. */
  function MapSize(n: nat): (size: nat) {
    (n + 31) / 32 * 4
  }

  /** The bitmap's 32-bit words as bytes. */
  function EncodeMap(used: seq<bool>): (b: seq<Byte>)
    ensures |b| == MapSize(|used|)
  {
    seq(MapSize(|used|), i requires 0 <= i => MapByte(used, i))
  }

  /** bitmap_write: stores the map in its file, and says whether all of it was stored. */
  ghost function Flush(s: State, memory: bool): (r: State)
    requires Sane(s)
    ensures Sane(r) && r == s.(disk := r.disk) && |r.disk| == |s.disk|
  {
    var d, b := s.inodes[FREE_MAP].data, EncodeMap(s.used);
    var n := Transfer(d.length, |b|, 0, memory);
    s.(disk := Patched(s.disk, d.start, 0, b[..n]))
  }

  ghost predicate Flushed(s: State, memory: bool)
    requires Sane(s)
  {
    Transfer(s.inodes[FREE_MAP].data.length, |EncodeMap(s.used)|, 0, memory) == |EncodeMap(s.used)|
  }

  /** free_map_allocate: the first run that fits, unless the map cannot be stored. */
  ghost predicate Allocates(s: State, count: nat, memory: bool)
    requires Sane(s)
  {
    var first := FirstFit(s.used, 0, count);
    first + count <= |s.used| && Flushed(s.(used := SetRun(s.used, first, count, true)), memory)
  }

  ghost function Allocate(s: State, count: nat, memory: bool): (r: State)
    requires Sane(s)
    ensures Sane(r) && r == s.(disk := r.disk, used := r.used) && |r.disk| == |s.disk|
    ensures forall k | 0 <= k < |s.used| && s.used[k] :: r.used[k]
    ensures var first := FirstFit(s.used, 0, count);
            Allocates(s, count, memory) ==> first + count <= |r.used| && RunUsed(r.used, first, count)
  {
    var first := FirstFit(s.used, 0, count);
    if first + count > |s.used| then s
    else
      var r := Flush(s.(used := SetRun(s.used, first, count, true)), memory);
      if Allocates(s, count, memory) then r else r.(used := s.used)
  }

  /** free_map_release, with its assertion. */
  ghost function Release(s: State, first: nat, count: nat, memory: bool): (r: State)
    requires Sane(s) && first + count <= |s.used| && RunUsed(s.used, first, count)
    ensures Sane(r) && r == s.(disk := r.disk, used := r.used) && |r.disk| == |s.disk|
    ensures r.used == SetRun(s.used, first, count, false) && (count == 1 ==> r.used == s.used[first := false])
  {
    assert count == 1 ==> SetRun(s.used, first, count, false) == s.used[first := false];
    Flush(s.(used := SetRun(s.used, first, count, false)), memory)
  }

  // ---------------------------------------------------------------- inodes

  /** Zeros in `count` sectors from `start`. */
  ghost function Zeroed(disk: seq<seq<Byte>>, start: nat, count: nat): (r: seq<seq<Byte>>)
    requires Device(disk)
    ensures Device(r) && |r| == |disk|
  {
    seq(|disk|, k requires 0 <= k < |disk| => if start <= k < start + count then seq(SECTOR, _ => 0) else disk[k])
  }

  /** The device with inode `d` in its sector and zeros for its data. */
  ghost function WithInode(disk: seq<seq<Byte>>, sector: Sector, d: DiskInode): (r: seq<seq<Byte>>)
    requires Device(disk) && 0 <= sector < |disk|
    ensures Device(r) && |r| == |disk|
  {
    Zeroed(disk[sector := EncodeInode(d)], d.start, SectorsFor(d.length))
  }

  ghost function StoreInode(s: State, sector: Sector, d: DiskInode): (r: State)
    requires Sane(s) && 0 <= sector < |s.disk|
    ensures Sane(r) && r == s.(disk := r.disk) && |r.disk| == |s.disk|
  {
    s.(disk := WithInode(s.disk, sector, d))
  }

  const SIZE_MAX := 0x8000_0000

  /** bytes_to_sectors: the sum is a signed 32-bit one, and its quotient becomes a size_t. */
  function AskedSectors(length: nat): (n: nat)
    requires length < SIZE_MAX
    ensures n == SectorsFor(length) || n > DEVICE_MAX
    ensures n == SectorsFor(length) <==> length + SECTOR - 1 < SIZE_MAX
  {
    if length + SECTOR - 1 < SIZE_MAX then SectorsFor(length) else WORD - (WORD - (length + SECTOR - 1)) / SECTOR
  }

  ghost predicate CreatesInode(s: State, length: nat, lk: Luck)
    requires Sane(s) && length < SIZE_MAX
  {
    lk.buffer && Allocates(s, AskedSectors(length), lk.map2)
  }

  /** inode_create: data sectors, then the inode itself, then zeros in the data. */
  ghost function CreateInode(s: State, sector: Sector, length: nat, lk: Luck): (r: State)
    requires Sane(s) && 0 <= sector < |s.disk| && length < SIZE_MAX
    ensures Sane(r) && r == s.(disk := r.disk, used := r.used) && |r.disk| == |s.disk|
    ensures forall k | 0 <= k < |s.used| && s.used[k] :: r.used[k]
  {
    if !lk.buffer then s
    else
      var s1 := Allocate(s, AskedSectors(length), lk.map2);
      if !CreatesInode(s, length, lk) then s1
      else
        var start := FirstFit(s.used, 0, AskedSectors(length));
        StoreInode(s1, sector, DiskInode(start, length))
  }

  predicate OpensInode(s: State, i: Sector, memory: bool) {
    i in s.inodes || memory
  }

  /** inode_open: one in-memory inode per sector. */
  ghost function OpenInode(s: State, i: Sector, memory: bool): (r: State)
    requires Sane(s) && 0 <= i < |s.disk| && FitsInode(s.disk, DecodeInode(s.disk[i]))
    ensures Sane(r) && r == s.(inodes := r.inodes)
  {
    if i in s.inodes then s.(inodes := s.inodes[i := s.inodes[i].(openCount := s.inodes[i].openCount + 1)])
    else if memory then s.(inodes := s.inodes[i := MemInode(DecodeInode(s.disk[i]), 1, false, 0)])
    else s
  }

  ghost function Forgotten(s: State, i: Sector): (r: State)
    requires Sane(s) && i != FREE_MAP
    ensures Sane(r)
  {
    s.(inodes := s.inodes - {i})
  }

  predicate LastRemoved(s: State, i: Sector)
    requires i in s.inodes
  {
    s.inodes[i].openCount == 1 && s.inodes[i].removed
  }

  /** What inode_close's releases assert: the inode's sector is marked used, and so is its data
      once that sector has been given back. */
  ghost predicate Closable(s: State, i: Sector) {
    && Sane(s) && i in s.inodes && i != FREE_MAP
    && (LastRemoved(s, i) ==>
          var d := s.inodes[i].data;
          s.used[i] && RunUsed(s.used[i := false], d.start, SectorsFor(d.length)))
  }

  /** inode_close: when the last opener goes the inode is forgotten, and if it was removed its
      sectors are released. */
  ghost function CloseInode(s: State, i: Sector, lk: Luck): (r: State)
    requires Closable(s, i)
    ensures Sane(r) && |r.disk| == |s.disk| && r.files == s.files
  {
    var m := s.inodes[i];
    if m.openCount != 1 then s.(inodes := s.inodes[i := m.(openCount := m.openCount - 1)])
    else if !m.removed then Forgotten(s, i)
    else
      var s1 := Release(Forgotten(s, i), i, 1, lk.map2);
      Release(s1, m.data.start, SectorsFor(m.data.length), lk.map3)
  }

  // ---------------------------------------------------------------- the root directory

  /** The first entry in use with this name, or the number of entries. */
  function Lookup(es: seq<Entry>, name: seq<Byte>): (i: nat)
    ensures i <= |es|
    ensures i < |es| ==> es[i].inUse && es[i].name == name
    ensures forall k | 0 <= k < i :: !(es[k].inUse && es[k].name == name)
  {
    if es == [] || (es[0].inUse && es[0].name == name) then 0 else 1 + Lookup(es[1..], name)
  }

  /** The first entry not in use, or the number of entries. */
  function FreeSlot(es: seq<Entry>): (i: nat)
    ensures i <= |es| && (i < |es| ==> !es[i].inUse)
    ensures forall k | 0 <= k < i :: es[k].inUse
  {
    if es == [] || !es[0].inUse then 0 else 1 + FreeSlot(es[1..])
  }

  predicate DirOpen(s: State) {
    ROOT in s.inodes
  }

  ghost function DirBytes(s: State): (c: seq<Byte>)
    requires Sane(s) && DirOpen(s)
  {
    Bytes(s.disk, s.inodes[ROOT].data)
  }

  /** inode_write_at on an open inode. */
  ghost function WriteInode(s: State, i: Sector, data: seq<Byte>, offset: nat, memory: bool): (r: State)
    requires Sane(s) && i in s.inodes
    ensures Sane(r) && r == s.(disk := r.disk) && |r.disk| == |s.disk|
  {
    s.(disk := Patched(s.disk, s.inodes[i].data.start, offset, data[..WriteCount(s, i, |data|, offset, memory)]))
  }

  function WriteCount(s: State, i: Sector, size: nat, offset: nat, memory: bool): (n: nat)
    requires i in s.inodes
    ensures n <= size
  {
    if s.inodes[i].denyCount != 0 then 0 else Transfer(s.inodes[i].data.length, size, offset, memory)
  }

  predicate NameOK(name: seq<Byte>) {
    1 <= |name| <= NAME_MAX
  }

  /** The first entry in use with this name among those lookup gets to read. */
  predicate Finds(es: seq<Entry>, name: seq<Byte>, lk: Luck) {
    Lookup(Visible(es, lk.lookups), name) < |Visible(es, lk.lookups)|
  }

  /** Where dir_add stores a new entry: the first free one it gets to read, or behind the last it
      could read. */
  function SlotFor(es: seq<Entry>, lk: Luck): (k: nat)
    ensures k <= |es|
  {
    FreeSlot(Visible(es, lk.searches))
  }

  ghost predicate AddsEntry(s: State, name: seq<Byte>, lk: Luck)
    requires Sane(s) && DirOpen(s)
  {
    var es := Slots(DirBytes(s));
    && NameOK(name) && !Finds(es, name, lk) && SlotFor(es, lk) < |es|
    && WriteCount(s, ROOT, ENTRY, ENTRY * SlotFor(es, lk), lk.entry) == ENTRY
  }

  /** A directory whose size is a multiple of an entry's is never extended by a partial write. */
  ghost function AddEntry(s: State, name: seq<Byte>, sector: Sector, lk: Luck): (r: State)
    requires Sane(s) && DirOpen(s) && sector >= 0
    ensures Sane(r) && r == s.(disk := r.disk) && |r.disk| == |s.disk|
  {
    var c := DirBytes(s);
    var es := Slots(c);
    if !NameOK(name) || Finds(es, name, lk) then s
    else
      var i := SlotFor(es, lk);
      if i == |es| then s
      else WriteInode(s, ROOT, FilledEntry(LeftOver(c, i, lk.searches, lk.stack), name, sector), ENTRY * i, lk.entry)
  }

  ghost function EraseEntry(s: State, i: nat, lk: Luck): (r: State)
    requires Sane(s) && DirOpen(s) && i < |Slots(DirBytes(s))|
    ensures Sane(r) && r == s.(disk := r.disk) && |r.disk| == |s.disk|
  {
    SlotAt(DirBytes(s), i);
    WriteInode(s, ROOT, ErasedEntry(SlotBytes(DirBytes(s), i)), ENTRY * i, lk.entry)
  }

  // ---------------------------------------------------------------- calls

  datatype Action =
    | Create(name: seq<Byte>, size: nat, luck: Luck)
    | Open(name: seq<Byte>, file: FileId, luck: Luck)
    | Remove(name: seq<Byte>, luck: Luck)
    | Close(file: FileId, luck: Luck)
    | Read(file: FileId, count: nat, luck: Luck)
    | Write(file: FileId, data: seq<Byte>, luck: Luck)
    | Seek(file: FileId, pos: nat)
    | DenyWrite(file: FileId)
    | AllowWrite(file: FileId)

  /** Names are C strings and sizes are nonnegative 32-bit offsets; an open file is used until it
      is closed. */
  predicate Enabled(s: State, a: Action) {
    match a
    case Create(name, size, _) => 0 !in name && size < SIZE_MAX
    case Open(name, f, _) => 0 !in name && f !in s.files
    case Remove(name, _) => 0 !in name
    case Seek(f, _) => f in s.files
    case Close(f, _) => f in s.files
    case Read(f, _, _) => f in s.files
    case Write(f, _, _) => f in s.files
    case DenyWrite(f) => f in s.files
    case AllowWrite(f) => f in s.files
  }

  /** The device sector holds an inode whose file fits the device. */
  ghost predicate Readable(s: State, i: Sector) {
    Sane(s) && 0 <= i < |s.disk| && FitsInode(s.disk, DecodeInode(s.disk[i]))
  }

  /** dir_open_root and dir_close around an operation. */
  predicate RootOpens(s: State, lk: Luck) {
    OpensInode(s, ROOT, lk.inode) && lk.handle
  }

  ghost function WithRoot(s: State, lk: Luck): (r: State)
    requires Readable(s, ROOT) && RootOpens(s, lk)
    ensures Sane(r) && DirOpen(r) && |r.disk| == |s.disk|
  {
    OpenInode(s, ROOT, lk.inode)
  }

  /** filesys_create with the root directory open. */
  ghost predicate Creates(s: State, name: seq<Byte>, size: nat, lk: Luck)
    requires Sane(s) && DirOpen(s) && size < SIZE_MAX
  {
    && Allocates(s, 1, lk.map1)
    && CreatesInode(Allocate(s, 1, lk.map1), size, lk)
    && AddsEntry(CreateInode(Allocate(s, 1, lk.map1), NewInode(s), size, lk), name, lk)
  }

  /** The sector filesys_create takes for the inode. */
  ghost function NewInode(s: State): (i: Sector)
    requires Sane(s)
    ensures i >= 0
  {
    FirstFit(s.used, 0, 1)
  }

  ghost function CreateIn(s: State, name: seq<Byte>, size: nat, lk: Luck): (r: State)
    requires Sane(s) && DirOpen(s) && size < SIZE_MAX
    ensures Sane(r) && |r.disk| == |s.disk| && r == s.(disk := r.disk, used := r.used)
  {
    var s1 := Allocate(s, 1, lk.map1);
    if Allocates(s, 1, lk.map1) then CreateAt(s1, NewInode(s), name, size, lk) else s1
  }

  /** The rest of filesys_create, with its rollback, once sector `i` has been allocated. */
  ghost function CreateAt(s: State, i: Sector, name: seq<Byte>, size: nat, lk: Luck): (r: State)
    requires Sane(s) && DirOpen(s) && 0 <= i < |s.used| && s.used[i] && size < SIZE_MAX
    ensures Sane(r) && |r.disk| == |s.disk| && r == s.(disk := r.disk, used := r.used)
  {
    var s1 := CreateInode(s, i, size, lk);
    if !CreatesInode(s, size, lk) then Rollback(s1, i, lk)
    else if AddsEntry(s1, name, lk) then AddEntry(s1, name, i, lk)
    else Rollback(AddEntry(s1, name, i, lk), i, lk)
  }

  /** A sector number of 0 would mean that none had been allocated. */
  ghost function Rollback(s: State, i: Sector, lk: Luck): (r: State)
    requires Sane(s) && 0 <= i < |s.used| && s.used[i]
    ensures Sane(r) && |r.disk| == |s.disk| && r == s.(disk := r.disk, used := r.used)
  {
    if i == 0 then s else Release(s, i, 1, lk.map3)
  }

  ghost function FindIn(s: State, name: seq<Byte>, lk: Luck): (i: Option<Sector>)
    requires Sane(s) && DirOpen(s)
  {
    var v := Visible(Slots(DirBytes(s)), lk.lookups);
    var k := Lookup(v, name);
    if k < |v| then Some(v[k].sector) else None
  }

  ghost predicate TargetReadable(s: State, name: seq<Byte>, lk: Luck)
    requires Sane(s) && DirOpen(s)
  {
    FindIn(s, name, lk).Some? ==> Readable(s, FindIn(s, name, lk).value) && FindIn(s, name, lk).value != FREE_MAP
  }

  /** filesys_open with the root directory open: the file's inode, opened. */
  ghost function OpenIn(s: State, name: seq<Byte>, lk: Luck): (r: State)
    requires Sane(s) && DirOpen(s) && TargetReadable(s, name, lk)
    ensures Sane(r) && r == s.(inodes := r.inodes)
  {
    match FindIn(s, name, lk)
    case None => s
    case Some(i) => OpenInode(s, i, lk.target)
  }

  /** dir_remove's write: the entry erased if there is memory for it, and then the inode marked. */
  ghost function Erasure(s: State, k: nat, i: Sector, lk: Luck): (r: State)
    requires Sane(s) && DirOpen(s) && k < |Slots(DirBytes(s))| && i in s.inodes
    ensures Sane(r) && |r.disk| == |s.disk| && r.files == s.files
  {
    var s1 := EraseEntry(s, k, lk);
    if WriteCount(s, ROOT, ENTRY, ENTRY * k, lk.entry) == ENTRY
    then s1.(inodes := s1.inodes[i := s1.inodes[i].(removed := true)]) else s1
  }

  /** dir_remove's inode_close goes through. */
  ghost predicate Removable(s: State, name: seq<Byte>, lk: Luck)
    requires Sane(s) && DirOpen(s) && TargetReadable(s, name, lk)
  {
    var i := FindIn(s, name, lk);
    i.Some? && OpensInode(s, i.value, lk.target) ==>
      var s1 := OpenInode(s, i.value, lk.target);
      var k := Lookup(Visible(Slots(DirBytes(s)), lk.lookups), name);
      k < |Slots(DirBytes(s1))| && Closable(Erasure(s1, k, i.value, lk), i.value)
  }

  /** dir_remove. */
  ghost function RemoveIn(s: State, name: seq<Byte>, lk: Luck): (r: State)
    requires Sane(s) && DirOpen(s) && TargetReadable(s, name, lk) && Removable(s, name, lk)
    ensures Sane(r) && |r.disk| == |s.disk| && r.files == s.files
  {
    match FindIn(s, name, lk)
    case None => s
    case Some(i) =>
      if !OpensInode(s, i, lk.target) then s
      else
        var k := Lookup(Visible(Slots(DirBytes(s)), lk.lookups), name);
        CloseInode(Erasure(OpenInode(s, i, lk.target), k, i, lk), i, lk)
  }

  /** file_allow_write, as file_close also does. */
  ghost function Allow(s: State, f: FileId): (r: State)
    requires f in s.files && s.files[f].inode in s.inodes
    ensures Sane(s) ==> Sane(r)
    ensures r.files.Keys == s.files.Keys && r.inodes.Keys == s.inodes.Keys
  {
    var h := s.files[f];
    if !h.denies then s
    else
      var m := s.inodes[h.inode];
      s.(files := s.files[f := h.(denies := false)], inodes := s.inodes[h.inode := m.(denyCount := m.denyCount - 1)])
  }

  ghost function Deny(s: State, f: FileId): (r: State)
    requires f in s.files && s.files[f].inode in s.inodes
    ensures Sane(s) ==> Sane(r)
  {
    var h := s.files[f];
    if h.denies then s
    else
      var m := s.inodes[h.inode];
      s.(files := s.files[f := h.(denies := true)], inodes := s.inodes[h.inode := m.(denyCount := m.denyCount + 1)])
  }

  /** Every sector and inode an action touches exists, the assertions about the counts of openers
      and denials hold, and every release is of sectors that are marked used. */
  ghost predicate Safe(s: State, a: Action)
    requires Enabled(s, a)
  {
    && Sane(s) && Readable(s, ROOT)
    && match a
       case Create(name, size, lk) => RootOpens(s, lk) ==> Closable(CreateIn(WithRoot(s, lk), name, size, lk), ROOT)
       case Open(name, f, lk) => RootOpens(s, lk) ==> OpenSafe(s, name, lk)
       case Remove(name, lk) => RootOpens(s, lk) ==> RemoveSafe(s, name, lk)
       case Seek(f, pos) => true
       case Close(f, lk) => FileOK(s, f) && AllowOK(s, f) && Closable(Dropped(s, f), s.files[f].inode)
       case _ => FileOK(s, a.file) && (a.AllowWrite? ==> AllowOK(s, a.file))
  }

  ghost predicate OpenSafe(s: State, name: seq<Byte>, lk: Luck)
    requires Readable(s, ROOT) && RootOpens(s, lk)
  {
    var s1 := WithRoot(s, lk);
    && TargetReadable(s1, name, lk) && FindIn(s1, name, lk) != Some(ROOT)
    && Closable(OpenIn(s1, name, lk), ROOT)
    && (Target(s, name, lk).Some? ==> Closable(CloseInode(OpenIn(s1, name, lk), ROOT, lk), Target(s, name, lk).value))
  }

  ghost predicate RemoveSafe(s: State, name: seq<Byte>, lk: Luck)
    requires Readable(s, ROOT) && RootOpens(s, lk)
  {
    var s1 := WithRoot(s, lk);
    && TargetReadable(s1, name, lk) && FindIn(s1, name, lk) != Some(ROOT)
    && Removable(s1, name, lk) && Closable(RemoveIn(s1, name, lk), ROOT)
  }

  /** file_close up to its inode_close. */
  ghost function Dropped(s: State, f: FileId): (r: State)
    requires f in s.files && s.files[f].inode in s.inodes
    ensures Sane(s) ==> Sane(r)
  {
    var s1 := Allow(s, f);
    s1.(files := s1.files - {f})
  }

  ghost predicate FileOK(s: State, f: FileId) {
    && f in s.files && s.files[f].inode in s.inodes && s.files[f].inode != FREE_MAP
    && s.inodes[s.files[f].inode].denyCount < s.inodes[s.files[f].inode].openCount + (if s.files[f].denies then 1 else 0)
  }

  /** inode_allow_write's assertions. */
  ghost predicate AllowOK(s: State, f: FileId)
    requires FileOK(s, f)
  {
    s.files[f].denies ==> 0 < s.inodes[s.files[f].inode].denyCount <= s.inodes[s.files[f].inode].openCount
  }

  /** How many bytes a Read or Write of `size` moves. */
  function MoveCount(s: State, f: FileId, size: nat, writing: bool, lk: Luck): (n: nat)
    requires f in s.files && s.files[f].inode in s.inodes
  {
    if writing then WriteCount(s, s.files[f].inode, size, s.files[f].pos, lk.entry)
    else Transfer(s.inodes[s.files[f].inode].data.length, size, s.files[f].pos, lk.entry)
  }

  /** The inode filesys_open finds and opens. */
  ghost function Target(s: State, name: seq<Byte>, lk: Luck): (i: Option<Sector>)
    requires Readable(s, ROOT) && RootOpens(s, lk)
  {
    var i := FindIn(WithRoot(s, lk), name, lk);
    if i.Some? && OpensInode(WithRoot(s, lk), i.value, lk.target) then i else None
  }

  /** file_open: a file for the inode, or the inode closed again. */
  ghost function OpenFile(s: State, i: Option<Sector>, f: FileId, lk: Luck): (r: State)
    requires i.Some? ==> Closable(s, i.value)
  {
    if i.None? then s
    else if lk.file then s.(files := s.files[f := File(i.value, 0, false)])
    else CloseInode(s, i.value, lk)
  }

  /** The state after a call. When the root directory cannot be opened, what was opened of it is
      closed again and nothing changes. */
  ghost function Next(s: State, a: Action): (r: State)
    requires Enabled(s, a) && Safe(s, a)
  {
    match a
    case Create(name, size, lk) =>
      if RootOpens(s, lk) then CloseInode(CreateIn(WithRoot(s, lk), name, size, lk), ROOT, lk) else s
    case Open(name, f, lk) =>
      if RootOpens(s, lk) then OpenFile(CloseInode(OpenIn(WithRoot(s, lk), name, lk), ROOT, lk), Target(s, name, lk), f, lk)
      else s
    case Remove(name, lk) =>
      if RootOpens(s, lk) then CloseInode(RemoveIn(WithRoot(s, lk), name, lk), ROOT, lk) else s
    case Close(f, lk) => CloseInode(Dropped(s, f), s.files[f].inode, lk)
    case Read(f, size, lk) =>
      s.(files := s.files[f := s.files[f].(pos := s.files[f].pos + MoveCount(s, f, size, false, lk))])
    case Write(f, data, lk) =>
      var s1 := WriteInode(s, s.files[f].inode, data, s.files[f].pos, lk.entry);
      s1.(files := s.files[f := s.files[f].(pos := s.files[f].pos + MoveCount(s, f, |data|, true, lk))])
    case Seek(f, pos) => s.(files := s.files[f := s.files[f].(pos := pos)])
    case DenyWrite(f) => Deny(s, f)
    case AllowWrite(f) => Allow(s, f)
  }

  /** Opening an inode and closing it again restores the state, so a failed allocation between
      the two leaves no trace. */
  lemma OpenCloseRestores(s: State, i: Sector, memory: bool, lk: Luck)
    requires Readable(s, i) && i != FREE_MAP && OpensInode(s, i, memory)
    requires i in s.inodes ==> s.inodes[i].openCount >= 1
    ensures Closable(OpenInode(s, i, memory), i) && CloseInode(OpenInode(s, i, memory), i, lk) == s
  {
    var s1 := OpenInode(s, i, memory);
    if i in s.inodes {
      assert s.inodes[i := s1.inodes[i]][i := s.inodes[i]] == s.inodes;
    } else {
      assert s1.inodes - {i} == s.inodes;
    }
  }
}
