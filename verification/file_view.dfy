/** The file system as its callers see it: a directory, files by inode number, open inodes and
    handles, and which sectors are in use; and what each call does to that. */
module FileView {
  import opened Collections
  import Bitmap
  import opened InodeIo
  import opened DiskFormat
  import opened FileSystem
  import opened FileLayout
  import opened FileInvariant
  import opened FileCalls
  import opened FileDirectory
  import opened FileHandles
  import opened FileSteps
  import opened FileNames
  import opened FileSpace
  import opened FileMap
  import opened FileRemount
  import opened FileFormat
  import opened FileStart
  import FileRuns

  /** A file: where its data is, and its bytes. */
  datatype Content = Content(data: DiskInode, bytes: seq<Byte>)

  /** `stored` is the free map on the device, which a reboot goes on with. */
  datatype View = View(used: seq<bool>, stored: seq<bool>, inodes: map<Sector, MemInode>, files: map<FileId, File>,
                       entries: seq<Entry>, content: map<Sector, Content>)

  ghost function ContentAt(disk: seq<seq<Byte>>, i: Sector): (c: Content) {
    if Disk(disk) && 0 <= i < |disk| && FitsInode(disk, DecodeInode(disk[i]))
    then Content(DecodeInode(disk[i]), FileBytes(disk, i)) else Content(DiskInode(0, 0), [])
  }

  /** Every file that has a name or is open. */
  ghost function FilesIn(s: State): (c: map<Sector, Content>)
    requires RootFits(s.disk)
  {
    map i | i in Live(s) && i != FREE_MAP && i != ROOT :: ContentAt(s.disk, i)
  }

  ghost predicate Shown(s: State) {
    RootFits(s.disk) && MapReadable(s.disk)
  }

  ghost function ViewOf(s: State): (v: View)
    requires Shown(s)
  {
    View(s.used, StoredMap(s.disk), s.inodes, s.files, Entries(s.disk), FilesIn(s))
  }

  // ---------------------------------------------------------------- what calls do to it

  function Marks(v: View): (m: FreeMap) {
    FreeMap(v.used, v.stored)
  }

  /** The root directory can be opened. */
  predicate DirOpens(v: View, lk: Luck) {
    (ROOT in v.inodes || lk.inode) && lk.handle
  }

  /** The inode a name leads to, if it can be opened. */
  function Leads(v: View, name: seq<Byte>, lk: Luck): (k: Option<nat>) {
    var seen := Visible(v.entries, lk.lookups);
    var k := Lookup(seen, name);
    if DirOpens(v, lk) && k < |seen| && (seen[k].sector in v.inodes || lk.target) then Some(k) else None
  }

  /** A new file of zeros under its name, or nothing but the data's run that stays taken. A file
      whose name the new entry overwrites is lost unless it is open. */
  function CreateView(v: View, name: seq<Byte>, size: nat, lk: Luck): (r: View)
    requires size < SIZE_MAX
  {
    var i, k := FirstFit(v.used, 0, 1), SlotFor(v.entries, lk);
    if !DirOpens(v, lk) then v
    else if !TakesRun(v.used, size, lk) || !NameOK(name) || !lk.entry || Finds(v.entries, name, lk) || k >= |v.entries|
    then v.(used := UsedAfter(v.used, size, lk, false), stored := CreateMap(Marks(v), size, lk, false).stored)
    else
      v.(used := UsedAfter(v.used, size, lk, true), stored := CreateMap(Marks(v), size, lk, true).stored,
         entries := v.entries[k := Entry(i, name, true)],
         content := (v.content - (Gone(v.entries, k) - v.inodes.Keys))[i := Content(DataFor(v.used, size), seq(size, _ => 0))])
  }

  function OpenView(v: View, name: seq<Byte>, f: FileId, lk: Luck): (r: View) {
    match Leads(v, name, lk)
    case None => v
    case Some(k) =>
      if !lk.file || k >= |v.entries| then v
      else
        var i := v.entries[k].sector;
        var m := if i in v.inodes then v.inodes[i].(openCount := v.inodes[i].openCount + 1)
                 else if i in v.content then MemInode(v.content[i].data, 1, false, 0) else MemInode(DiskInode(0, 0), 1, false, 0);
        v.(files := v.files[f := File(i, 0, false)], inodes := v.inodes[i := m])
  }

  /** The map without an inode's own sector and its data sectors. */
  function Unmarked(used: seq<bool>, i: Sector, d: DiskInode): (r: seq<bool>) {
    seq(|used|, k requires 0 <= k < |used| => used[k] && k != i && !InData(d, k))
  }

  /** A file nobody has a name or a handle for any more; its sectors are given back. */
  function Vanished(v: View, i: Sector, lk: Luck): (r: View) {
    if i !in v.content then v
    else
      var d := v.content[i].data;
      v.(used := Unmarked(v.used, i, d), stored := FreeFile(Marks(v), i, d, lk).stored, content := v.content - {i})
  }

  function RemoveView(v: View, name: seq<Byte>, lk: Luck): (r: View) {
    match Leads(v, name, lk)
    case None => v
    case Some(k) =>
      if !lk.entry || k >= |v.entries| then v
      else
        var i, v1 := v.entries[k].sector, v.(entries := v.entries[k := v.entries[k].(inUse := false)]);
        if i in v.inodes then v1.(inodes := v.inodes[i := v.inodes[i].(removed := true)]) else Vanished(v1, i, lk)
  }

  function CloseView(v: View, f: FileId, lk: Luck): (r: View)
    requires f in v.files && v.files[f].inode in v.inodes
  {
    var h := v.files[f];
    var i, m := h.inode, v.inodes[h.inode];
    var denials := m.denyCount - if h.denies then 1 else 0;
    var v1 := v.(files := v.files - {f});
    if m.openCount != 1 then v1.(inodes := v.inodes[i := m.(openCount := m.openCount - 1, denyCount := denials)])
    else
      var v2 := v1.(inodes := v.inodes - {i});
      if m.removed then Vanished(v2, i, lk)
      else if i in Named(v.entries) then v2
      else v2.(content := v.content - {i})
  }

  /** How many bytes move between a handle's position and the end of its file. */
  function Moved(v: View, f: FileId, size: nat, lk: Luck): (n: nat)
    requires f in v.files
  {
    var h := v.files[f];
    if h.inode in v.content then Movable(|v.content[h.inode].bytes|, size, h.pos, lk.entry) else 0
  }

  function Advanced(v: View, f: FileId, n: nat): (r: View)
    requires f in v.files
  {
    v.(files := v.files[f := v.files[f].(pos := v.files[f].pos + n)])
  }

  function WriteView(v: View, f: FileId, data: seq<Byte>, lk: Luck): (r: View)
    requires f in v.files && v.files[f].inode in v.inodes
  {
    var h := v.files[f];
    var n := if v.inodes[h.inode].denyCount != 0 then 0 else Moved(v, f, |data|, lk);
    if h.inode !in v.content || n == 0 then Advanced(v, f, n)
    else
      var c := v.content[h.inode];
      Advanced(v, f, n).(content := v.content[h.inode := c.(bytes := Overlaid(c.bytes, h.pos, data[..n]))])
  }

  /** `c` with `data` over its bytes from `at` on. */
  function Overlaid(c: seq<Byte>, at: nat, data: seq<Byte>): (r: seq<Byte>)
    ensures |r| == |c|
  {
    seq(|c|, k requires 0 <= k < |c| => if at <= k < at + |data| then data[k - at] else c[k])
  }

  /** Denials are counted once for each handle. */
  function DenyView(v: View, f: FileId, deny: bool): (r: View)
    requires f in v.files && v.files[f].inode in v.inodes
  {
    var h := v.files[f];
    var m := v.inodes[h.inode];
    if h.denies == deny then v
    else
      v.(files := v.files[f := h.(denies := deny)],
         inodes := v.inodes[h.inode := m.(denyCount := m.denyCount + if deny then 1 else -1)])
  }

  /** The handle a call is about leads to an open inode. */
  predicate HandleOK(v: View, a: Action) {
    match a
    case Create(_, size, _) => size < SIZE_MAX
    case Open(_, _, _) => true
    case Remove(_, _) => true
    case _ => a.file in v.files && v.files[a.file].inode in v.inodes
  }

  function NextView(v: View, a: Action): (r: View)
    requires HandleOK(v, a)
  {
    match a
    case Create(name, size, lk) => CreateView(v, name, size, lk)
    case Open(name, f, lk) => OpenView(v, name, f, lk)
    case Remove(name, lk) => RemoveView(v, name, lk)
    case Close(f, lk) => CloseView(v, f, lk)
    case Read(f, size, lk) => Advanced(v, f, Moved(v, f, size, lk))
    case Write(f, data, lk) => WriteView(v, f, data, lk)
    case Seek(f, pos) => v.(files := v.files[f := v.files[f].(pos := pos)])
    case DenyWrite(f) => DenyView(v, f, true)
    case AllowWrite(f) => DenyView(v, f, false)
  }

  // ---------------------------------------------------------------- the file system does that

  lemma OpenMirror(s: State, i: Sector)
    requires Inv(s) && i in s.inodes
    ensures 0 <= i < |s.disk| && s.inodes[i].data == DecodeInode(s.disk[i])
  {
    hide Layout;
    hide EntriesOK;
    hide Counts;
    hide Entries;
  }

  /** What is in the view of a file. */
  lemma InView(s: State, i: Sector)
    requires Inv(s) && RootFits(s.disk) && i in Live(s) && i != FREE_MAP && i != ROOT
    ensures 0 <= i < |s.disk| && FitsInode(s.disk, DecodeInode(s.disk[i]))
    ensures i in FilesIn(s) && FilesIn(s)[i] == Content(DecodeInode(s.disk[i]), FileBytes(s.disk, i))
  {
    LiveInRange({}, s, i);
    hide Core;
    hide Live;
  }

  /** Files that stay live and are not disturbed stay in the view. */
  lemma FileKept(s: State, r: State, x: set<Sector>, i: Sector)
    requires RootFits(s.disk) && RootFits(r.disk) && Undisturbed(s, r, x) && i in Live(s) && i in Live(r) && i !in x
    ensures ContentAt(r.disk, i) == ContentAt(s.disk, i)
  {
    assert SameFile(s.disk, r.disk, i);
  }

  /** All files but `gone` are still live, and no others. */
  lemma FilesLess(s: State, r: State, x: set<Sector>, gone: set<Sector>)
    requires RootFits(s.disk) && RootFits(r.disk) && Undisturbed(s, r, x) && x <= {FREE_MAP, ROOT} && Live(r) == Live(s) - gone
    ensures FilesIn(r) == FilesIn(s) - gone
  {
    hide Live;
    hide ContentAt;
    hide Undisturbed;
    forall i | i in FilesIn(r) ensures FilesIn(r)[i] == FilesIn(s)[i] {
      FileKept(s, r, x, i);
    }
    assert FilesIn(r).Keys == FilesIn(s).Keys - gone;
  }

  lemma FilesSame(s: State, r: State, x: set<Sector>)
    requires RootFits(s.disk) && RootFits(r.disk) && Undisturbed(s, r, x) && x <= {FREE_MAP, ROOT} && Live(r) == Live(s)
    ensures FilesIn(r) == FilesIn(s)
  {
    hide Live;
    hide Undisturbed;
    assert Live(s) - {} == Live(s) && FilesIn(s) - {} == FilesIn(s);
    FilesLess(s, r, x, {});
  }

  lemma SameDiskFiles(s: State, r: State)
    requires Inv(s) && RootFits(s.disk) && r.disk == s.disk && Live(r) == Live(s)
    ensures RootFits(r.disk) && FilesIn(r) == FilesIn(s) && Entries(r.disk) == Entries(s.disk)
  {
    hide Core;
    SameDiskUndisturbed({}, s, r, {});
    FilesSame(s, r, {});
  }

  /** A file that is open is in the view, as long as its inode says. */
  lemma HandleContent(s: State, f: FileId)
    requires Inv(s) && f in s.files
    ensures RootFits(s.disk)
    ensures var i := s.files[f].inode;
            && FileOK(s, f) && i != FREE_MAP && i != ROOT && i in Live(s) && 0 <= i < |s.disk|
            && FitsInode(s.disk, DecodeInode(s.disk[i])) && s.inodes[i].data == DecodeInode(s.disk[i])
            && i in FilesIn(s) && FilesIn(s)[i] == Content(DecodeInode(s.disk[i]), FileBytes(s.disk, i))
            && |FilesIn(s)[i].bytes| == s.inodes[i].data.length
  {
    hide Core;
    hide FilesIn;
    hide Live;
    RootReadable(s);
    FileSafe({}, s, f);
    var i := s.files[f].inode;
    OpenIsLive(s, i);
    OpenMirror(s, i);
    InView(s, i);
    FileLength(s.disk, i);
  }

  lemma QuietRefines(s: State, a: Action)
    requires Inv(s) && Enabled(s, a) && KeepsDisk(a)
    ensures Safe(s, a) && Shown(s) && Shown(Next(s, a)) && HandleOK(ViewOf(s), a)
    ensures ViewOf(Next(s, a)) == NextView(ViewOf(s), a)
  {
    hide Core;
    hide Next;
    hide Safe;
    hide FilesIn;
    hide Live;
    hide Entries;
    hide Movable;
    hide FileBytes;
    hide DecodeInode;
    QuietStep(s, a);
    OtherStepMap(s, a);
    HandleContent(s, a.file);
    SameDiskFiles(s, Next(s, a));
    DenialsCounted(s, s.files[a.file].inode);
    var h := s.files[a.file];
    DenialsCount(s.files, a.file, DeniesAfter(h, a), PosAfter(h, s.inodes[h.inode].data.length, a));
  }

  /** How many files deny writes once one of them has changed. */
  lemma DenialsCount(fs: map<FileId, File>, f: FileId, deny: bool, pos: nat)
    requires f in fs
    ensures var i := fs[f].inode;
            |Deniers(fs[f := File(i, pos, deny)], i)| == |Deniers(fs, i)| + if deny == fs[f].denies then 0 else if deny then 1 else -1
  {
    var i := fs[f].inode;
    var fs1 := fs[f := fs[f].(denies := deny)];
    assert Deniers(fs[f := File(i, pos, deny)], i) == Deniers(fs1, i);
    if deny == fs[f].denies {
      assert fs1 == fs;
    } else {
      DeniersChange(fs, f, deny, i);
    }
  }

  lemma OverlaidIs(c: seq<Byte>, at: nat, data: seq<Byte>)
    requires data != [] ==> at + |data| <= |c|
    ensures Overlaid(c, at, data) == Spliced(c, at, data)
  {
  }

  lemma WriteRefines(s: State, f: FileId, data: seq<Byte>, lk: Luck)
    requires Inv(s) && Enabled(s, Write(f, data, lk))
    ensures Safe(s, Write(f, data, lk)) && Shown(s) && Shown(Next(s, Write(f, data, lk)))
    ensures HandleOK(ViewOf(s), Write(f, data, lk))
    ensures ViewOf(Next(s, Write(f, data, lk))) == WriteView(ViewOf(s), f, data, lk)
  {
    hide Core;
    hide Next;
    hide Safe;
    hide FilesIn;
    hide Live;
    hide Entries;
    hide Movable;
    hide Transfer;
    hide Undisturbed;
    hide Overlaid;
    hide DecodeInode;
    WriteStep(s, f, data, lk);
    OtherStepMap(s, Write(f, data, lk));
    var r, i := Next(s, Write(f, data, lk)), s.files[f].inode;
    RootReadable(r);
    HandleContent(s, f);
    HandleContent(r, f);
    MovesMovable(s.inodes[i].data.length, |data|, s.files[f].pos, lk.entry);
    var n := MoveCount(s, f, |data|, true, lk);
    OverlaidIs(FileBytes(s.disk, i), s.files[f].pos, data[..n]);
    WrittenFiles(s, r, i);
    assert n == 0 ==> data[..n] == [];
    assert FilesIn(r)[i].data == FilesIn(s)[i].data;
    assert n == 0 ==> FilesIn(s)[i := FilesIn(s)[i]] == FilesIn(s);
  }

  lemma WrittenFiles(s: State, r: State, i: Sector)
    requires RootFits(s.disk) && RootFits(r.disk) && Undisturbed(s, r, {i}) && Live(r) == Live(s) && i in FilesIn(s)
    ensures i in FilesIn(r) && FilesIn(r) == FilesIn(s)[i := FilesIn(r)[i]]
  {
    hide Live;
    hide ContentAt;
    hide Undisturbed;
    forall j | j in FilesIn(r) && j != i ensures FilesIn(r)[j] == FilesIn(s)[j] {
      FileKept(s, r, {i}, j);
    }
    assert FilesIn(r).Keys == FilesIn(s).Keys;
  }

  /** The file a name leads to. */
  lemma LeadsIs(s: State, name: seq<Byte>, lk: Luck)
    requires Inv(s)
    ensures Readable(s, ROOT) && RootFits(s.disk)
    ensures match Leads(ViewOf(s), name, lk)
            case None => RootOpens(s, lk) ==> Target(s, name, lk) == None
            case Some(k) =>
              && RootOpens(s, lk) && k < |Entries(s.disk)| && Target(s, name, lk) == Some(Entries(s.disk)[k].sector)
              && var i := Entries(s.disk)[k].sector;
                 && 0 <= i < |s.disk| && FitsInode(s.disk, DecodeInode(s.disk[i])) && i in Live(s)
                 && i in FilesIn(s) && FilesIn(s)[i] == Content(DecodeInode(s.disk[i]), FileBytes(s.disk, i))
  {
    hide Core;
    hide Live;
    hide FilesIn;
    hide Lookup;
    hide Slots;
    hide Named;
    hide DecodeInode;
    RootReadable(s);
    FoundInode(s, name, lk);
    hide Visible;
    if RootOpens(s, lk) {
      RootOpened(s, lk);
      var s1 := WithRoot(s, lk);
      assert Slots(DirBytes(s1)) == Entries(s.disk);
      var v := Visible(Entries(s.disk), lk.lookups);
      var k := Lookup(v, name);
      if k < |v| {
        assert v[k].sector in s.inodes <==> v[k].sector in s1.inodes;
        InView(s, v[k].sector);
      }
    }
  }

  lemma OpenRefines(s: State, name: seq<Byte>, f: FileId, lk: Luck)
    requires Inv(s) && Enabled(s, Open(name, f, lk))
    ensures Safe(s, Open(name, f, lk)) && Shown(s) && Shown(Next(s, Open(name, f, lk)))
    ensures ViewOf(Next(s, Open(name, f, lk))) == OpenView(ViewOf(s), name, f, lk)
  {
    hide Core;
    hide Next;
    hide Safe;
    hide FilesIn;
    hide Live;
    hide Entries;
    hide Lookup;
    hide DecodeInode;
    RootReadable(s);
    OpenStep(s, name, f, lk);
    OtherStepMap(s, Open(name, f, lk));
    var r := Next(s, Open(name, f, lk));
    SameDiskFiles(s, r);
    LeadsIs(s, name, lk);
    FoundInode(s, name, lk);
  }

  lemma UnmarkedIs(s: State, i: Sector, r: State)
    requires Disk(s.disk) && 0 <= i < |s.disk| && Freed(s, i, r)
    ensures r.used == Unmarked(s.used, i, DecodeInode(s.disk[i]))
  {
    hide DecodeInode;
  }

  lemma CloseRefines(s: State, f: FileId, lk: Luck)
    requires Inv(s) && Enabled(s, Close(f, lk))
    ensures Safe(s, Close(f, lk)) && Shown(s) && Shown(Next(s, Close(f, lk)))
    ensures HandleOK(ViewOf(s), Close(f, lk)) && ViewOf(Next(s, Close(f, lk))) == CloseView(ViewOf(s), f, lk)
  {
    hide Core;
    hide Next;
    hide Safe;
    hide FilesIn;
    hide Live;
    hide Entries;
    hide Named;
    hide Undisturbed;
    hide Freed;
    hide Unmarked;
    hide DecodeInode;
    CloseStep(s, f, lk);
    CloseStepMap(s, f, lk);
    HandleContent(s, f);
    var r, i := Next(s, Close(f, lk)), s.files[f].inode;
    RootReadable(r);
    RemovedUnnamed(s, i);
    if Leaves(s, i) {
      FilesLess(s, r, {FREE_MAP}, {i});
    } else {
      FilesSame(s, r, {FREE_MAP});
    }
    if LastRemoved(s, i) {
      UnmarkedIs(s, i, r);
    }
  }

  lemma RemovedUnnamed(s: State, i: Sector)
    requires Inv(s) && RootFits(s.disk) && i in s.inodes && i != FREE_MAP && i != ROOT
    ensures s.inodes[i].removed ==> i !in Named(Entries(s.disk))
  {
    hide Layout;
    hide EntriesOK;
    hide Counts;
    hide Entries;
  }

  lemma RemoveRefines(s: State, name: seq<Byte>, lk: Luck)
    requires Inv(s) && Enabled(s, Remove(name, lk))
    ensures Safe(s, Remove(name, lk)) && Shown(s) && Shown(Next(s, Remove(name, lk)))
    ensures ViewOf(Next(s, Remove(name, lk))) == RemoveView(ViewOf(s), name, lk)
  {
    hide Core;
    hide Next;
    hide Safe;
    hide FilesIn;
    hide Live;
    hide Entries;
    hide Lookup;
    hide Unnamed;
    hide DecodeInode;
    RootReadable(s);
    RemoveStep(s, name, lk);
    RemoveStepMap(s, name, lk);
    LeadsIs(s, name, lk);
    FoundInode(s, name, lk);
    hide Named;
    hide Readable;
    var v := Visible(Entries(s.disk), lk.lookups);
    var k, r := Lookup(v, name), Next(s, Remove(name, lk));
    if k < |v| && RootOpens(s, lk) && OpensInode(s, v[k].sector, lk.target) && lk.entry {
      UnnamedView(s, k, lk, r);
    }
  }

  lemma UnnamedView(s: State, k: nat, lk: Luck, r: State)
    requires Inv(s) && Shown(s) && MapReadable(r.disk) && k < |Entries(s.disk)| && Unnamed(s, k, r)
    requires var i := Entries(s.disk)[k].sector;
             && 0 <= i < |s.disk| && i in FilesIn(s) && FilesIn(s)[i].data == DecodeInode(s.disk[i])
             && MapOf(r) == if i in s.inodes then MapOf(s) else FreeFile(MapOf(s), i, DecodeInode(s.disk[i]), lk)
    ensures Shown(r)
    ensures var i, es := Entries(s.disk)[k].sector, Entries(s.disk)[k := Entries(s.disk)[k].(inUse := false)];
            ViewOf(r) == if i in s.inodes
                         then ViewOf(s).(entries := es, inodes := s.inodes[i := s.inodes[i].(removed := true)])
                         else Vanished(ViewOf(s).(entries := es), i, lk)
  {
    hide Core;
    hide FilesIn;
    hide Live;
    hide Entries;
    hide Undisturbed;
    hide Freed;
    hide Unmarked;
    hide DecodeInode;
    CoreRoot({}, r);
    var i := Entries(s.disk)[k].sector;
    if i in s.inodes {
      FilesSame(s, r, {FREE_MAP, ROOT});
    } else {
      FilesLess(s, r, {FREE_MAP, ROOT}, {i});
      UnmarkedIs(s, i, r);
    }
  }

  lemma CreateRefines(s: State, name: seq<Byte>, size: nat, lk: Luck)
    requires Inv(s) && Enabled(s, Create(name, size, lk))
    ensures Safe(s, Create(name, size, lk)) && Shown(s) && Shown(Next(s, Create(name, size, lk)))
    ensures ViewOf(Next(s, Create(name, size, lk))) == CreateView(ViewOf(s), name, size, lk)
  {
    hide Core;
    hide Next;
    hide Safe;
    hide FilesIn;
    hide Live;
    hide Entries;
    hide Finds;
    hide SlotFor;
    hide Created;
    hide Creates;
    hide UsedAfter;
    hide AskedSectors;
    hide MapSize;
    var a := Create(name, size, lk);
    RootReadable(s);
    CreateStep(s, name, size, lk);
    CreateUsed(s, name, size, lk);
    CreateStepMap(s, name, size, lk);
    CreatesIff(s, a);
    RoomIs(s.used, size, lk);
    var r := Next(s, a);
    CreatedCore({}, s, name, size, lk, CreatesEntry(s, a), r);
    CoreRoot({}, r);
    if CreatesEntry(s, a) {
      CreatedView(s, name, size, lk, r);
    } else {
      UncreatedView(s, name, size, lk, r);
    }
  }

  lemma CreatedView(s: State, name: seq<Byte>, size: nat, lk: Luck, r: State)
    requires Sane(s) && RootFits(s.disk) && RootFits(r.disk) && size < SIZE_MAX && Created({}, s, name, size, lk, true, r)
    ensures var i, es := NewInode(s), Entries(s.disk);
            var k := SlotFor(es, lk);
            && r.files == s.files && r.inodes == s.inodes && k < |es| && Entries(r.disk) == es[k := Entry(i, name, true)]
            && FilesIn(r) == (FilesIn(s) - (Gone(es, k) - s.inodes.Keys))[i := Content(DataFor(s.used, size), seq(size, _ => 0))]
  {
    hide Core;
    hide Live;
    hide Entries;
    hide Finds;
    hide SlotFor;
    hide Undisturbed;
    hide DataFor;
    hide DecodeInode;
    hide FileBytes;
    var i, es := NewInode(s), Entries(s.disk);
    var gone := Gone(es, SlotFor(es, lk)) - s.inodes.Keys;
    SystemLive(s);
    assert ContentAt(r.disk, i) == Content(DataFor(s.used, size), seq(size, _ => 0));
    hide ContentAt;
    forall j | j in FilesIn(r) && j != i ensures FilesIn(r)[j] == FilesIn(s)[j] {
      FileKept(s, r, {FREE_MAP, ROOT}, j);
    }
    assert FilesIn(r).Keys == FilesIn(s).Keys - gone + {i};
  }

  lemma SystemLive(s: State)
    requires RootFits(s.disk)
    ensures FREE_MAP in Live(s) && ROOT in Live(s)
  {
  }

  lemma UncreatedView(s: State, name: seq<Byte>, size: nat, lk: Luck, r: State)
    requires Sane(s) && RootFits(s.disk) && RootFits(r.disk) && size < SIZE_MAX && Created({}, s, name, size, lk, false, r)
    ensures r.files == s.files && r.inodes == s.inodes && Entries(r.disk) == Entries(s.disk) && FilesIn(r) == FilesIn(s)
  {
    hide Core;
    hide Live;
    hide Entries;
    hide FilesIn;
    hide Undisturbed;
    FilesSame(s, r, {FREE_MAP, ROOT});
  }

  /** Every call does to the device, the free map and the tables exactly what it does to the
      view. */
  lemma StepRefines(s: State, a: Action)
    requires Inv(s) && Enabled(s, a)
    ensures Safe(s, a) && Inv(Next(s, a)) && Shown(s) && Shown(Next(s, a))
    ensures HandleOK(ViewOf(s), a) && ViewOf(Next(s, a)) == NextView(ViewOf(s), a)
  {
    hide Inv;
    hide Next;
    hide Safe;
    hide ViewOf;
    StepKeeps(s, a);
    match a
    case Create(name, size, lk) => CreateRefines(s, name, size, lk);
    case Open(name, f, lk) => OpenRefines(s, name, f, lk);
    case Remove(name, lk) => RemoveRefines(s, name, lk);
    case Close(f, lk) => CloseRefines(s, f, lk);
    case Write(f, data, lk) => WriteRefines(s, f, data, lk);
    case _ => QuietRefines(s, a);
  }

  // ---------------------------------------------------------------- runs

  /** After a reboot nothing is open, a file without a name is lost, and the map is the stored
      one. */
  function RebootView(v: View): (r: View)
    requires FREE_MAP in v.inodes
  {
    View(v.stored, v.stored, map[FREE_MAP := MemInode(v.inodes[FREE_MAP].data, 1, false, 0)], map[], v.entries,
         map i | i in v.content && i in Named(v.entries) :: v.content[i])
  }

  lemma RebootRefines(s: State)
    requires FileRuns.Holds(s)
    ensures Shown(s) && FREE_MAP in s.inodes && Mountable(s.disk) && Shown(Mounted(s.disk))
    ensures ViewOf(Mounted(s.disk)) == RebootView(ViewOf(s))
  {
    hide Core;
    hide Live;
    hide Entries;
    hide Named;
    hide Stored;
    hide ContentAt;
    RootReadable(s);
    CoreReadable({}, s);
    MountedHolds(s);
    MountedCovers(s.disk);
    var r := Mounted(s.disk);
    assert Live(r) == {FREE_MAP, ROOT} + Named(Entries(s.disk));
    assert r.used == StoredMap(s.disk);
    NamedAreLive(s);
  }

  lemma NamedAreLive(s: State)
    requires RootFits(s.disk)
    ensures Named(Entries(s.disk)) <= Live(s)
  {
  }

  ghost predicate ViewStep(v: View, e: FileRuns.Event, v': View) {
    match e
    case Call(a) => HandleOK(v, a) && v' == NextView(v, a)
    case Reboot => FREE_MAP in v.inodes && v' == RebootView(v)
  }

  /** A new file system: an empty directory, nothing open but the map, and the map stored. */
  ghost predicate Blank(v: View) {
    && v.stored == v.used && v.files == map[] && v.content == map[] && v.inodes.Keys == {FREE_MAP}
    && |v.entries| == ROOT_ENTRIES && forall k | 0 <= k < |v.entries| :: !v.entries[k].inUse
  }

  lemma FormattedBlank(s: State)
    requires Formatted(s)
    ensures Shown(s) && Blank(ViewOf(s))
  {
    hide EncodeInode;
    hide Slots;
    hide EncodeMap;
    hide MapSize;
    hide Contents;
    FormattedEmpty(s);
    FormattedInodes(s);
    SlotCount(FileBytes(s.disk, ROOT));
    FormattedStored(s);
    assert Named(Entries(s.disk)) == {};
    assert FilesIn(s) == map[];
  }

  lemma FormattedStored(s: State)
    requires Formatted(s)
    ensures MapReadable(s.disk) && StoredMap(s.disk) == s.used
  {
    hide EncodeInode;
    hide EncodeMap;
    hide MapSize;
    FormattedInodes(s);
    var b := EncodeMap(s.used);
    forall k: nat | k < |s.used| ensures k / 8 < |b| && Bitmap.Bit(b[k / 8], k % 8) == s.used[k] {
      MixedByte(s.used, b, |b|, k);
      assert Spliced(b, 0, b[..|b|]) == b;
    }
  }

  lemma InvShown(s: State)
    requires Inv(s)
    ensures Shown(s)
  {
    hide Core;
    RootReadable(s);
    CoreReadable({}, s);
  }

  lemma EventRefines(s: State, e: FileRuns.Event, s': State)
    requires FileRuns.Holds(s) && FileRuns.Step(s, e, s')
    ensures Shown(s) && Shown(s') && ViewStep(ViewOf(s), e, ViewOf(s'))
  {
    hide Inv;
    hide MapCovers;
    hide Next;
    hide Safe;
    hide Shown;
    hide NextView;
    match e
    case Call(a) => StepRefines(s, a);
    case Reboot => RebootRefines(s);
  }

  /** Every run of the file system, reboots and failed allocations included, shows a run of views
      that starts blank. */
  lemma RunRefines(ss: seq<State>, es: seq<FileRuns.Event>, n: nat)
    requires FileRuns.IsRun(ss, es) && n < |ss|
    ensures Shown(ss[n]) && (n == 0 ==> Blank(ViewOf(ss[n])))
    ensures n < |es| ==> Shown(ss[n + 1]) && ViewStep(ViewOf(ss[n]), es[n], ViewOf(ss[n + 1]))
  {
    hide FileRuns.Step;
    hide FileRuns.Holds;
    hide Inv;
    hide ViewOf;
    hide Shown;
    hide ViewStep;
    hide Formatted;
    hide Mountable;
    hide Safe;
    hide Blank;
    FileRuns.RunInvariant(ss, es, n);
    InvShown(ss[n]);
    if n == 0 {
      FormattedBlank(ss[0]);
    }
    if n < |es| {
      assert FileRuns.Step(ss[n], es[n], ss[n + 1]);
      EventRefines(ss[n], es[n], ss[n + 1]);
    }
  }

  /** As long as the free map can be stored whenever it changes, the device holds the map in use,
      and a reboot neither takes a sector nor gives one back. */
  lemma {:induction false} RunStored(ss: seq<State>, es: seq<FileRuns.Event>, n: nat)
    requires FileRuns.IsRun(ss, es) && n < |ss|
    requires forall i | 0 <= i < n :: es[i].Call? ==> CallStores(|ss[i].used|, es[i].action)
    ensures Shown(ss[n]) && ViewOf(ss[n]).stored == ss[n].used
    ensures Mountable(ss[n].disk) && Mounted(ss[n].disk).used == ss[n].used
  {
    hide Inv;
    hide MapCovers;
    hide Next;
    hide Safe;
    hide Formatted;
    hide Mounted;
    hide CallStores;
    RunRefines(ss, es, n);
    FileRuns.RunInvariant(ss, es, n);
    if n == 0 {
      FormattedStored(ss[0]);
    } else {
      RunStored(ss, es, n - 1);
      FileRuns.RunInvariant(ss, es, n - 1);
      assert FileRuns.Step(ss[n - 1], es[n - 1], ss[n - 1 + 1]);
      match es[n - 1]
      case Call(a) => StepExact(ss[n - 1], a);
      case Reboot => RebootRefines(ss[n - 1]);
    }
    RebootRefines(ss[n]);
  }
}
