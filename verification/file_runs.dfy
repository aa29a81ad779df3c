/** Whole runs of file system calls and reboots. */
module FileRuns {
  import opened InodeIo
  import opened DiskFormat
  import opened FileSystem
  import opened FileLayout
  import opened FileInvariant
  import opened FileDirectory
  import opened FileSteps
  import opened FileStart
  import opened FileFormat
  import opened FileRemount
  import FileHandles

  /** A call, or the machine going down and the device being mounted again. */
  datatype Event = Call(action: Action) | Reboot

  ghost predicate Step(s: State, e: Event, s': State) {
    match e
    case Call(a) => Enabled(s, a) && Safe(s, a) && s' == Next(s, a)
    case Reboot => Mountable(s.disk) && s' == Mounted(s.disk)
  }

  ghost predicate IsRun(ss: seq<State>, es: seq<Event>) {
    |ss| == |es| + 1 && Formatted(ss[0]) && forall i | 0 <= i < |es| :: Step(ss[i], es[i], ss[i + 1])
  }

  /** What holds between events: the invariant, and a stored map that marks every sector in use. */
  ghost predicate Holds(s: State) {
    Inv(s) && MapCovers(s)
  }

  /** Whatever comes next meets no failing assertion, and the same holds again. */
  lemma EventHolds(s: State, e: Event)
    requires Holds(s)
    ensures e.Call? && Enabled(s, e.action) ==> Safe(s, e.action) && Holds(Next(s, e.action))
    ensures e.Reboot? ==> Mountable(s.disk) && Holds(Mounted(s.disk)) && Mounted(s.disk).disk == s.disk
  {
    hide Inv;
    hide MapCovers;
    hide Next;
    hide Safe;
    match e
    case Call(a) =>
      if Enabled(s, a) {
        StepKeeps(s, a);
        StepCovers(s, a);
      }
    case Reboot =>
      CoversMountable(s);
      MountedHolds(s);
  }

  lemma CoversMountable(s: State)
    requires MapCovers(s)
    ensures Mountable(s.disk)
  {
  }

  /** In every reachable state the invariant holds, the device mounts, and whatever call comes next
      meets no failing assertion. */
  lemma {:induction false} RunInvariant(ss: seq<State>, es: seq<Event>, n: nat)
    requires IsRun(ss, es) && n < |ss|
    ensures Holds(ss[n]) && Inv(ss[n]) && Mountable(ss[n].disk) && forall a | Enabled(ss[n], a) :: Safe(ss[n], a)
  {
    hide Inv;
    hide MapCovers;
    hide Enabled;
    hide Safe;
    hide Next;
    hide Formatted;
    hide Mounted;
    hide Mountable;
    if n == 0 {
      FormattedHolds(ss[0]);
      FormattedCovers(ss[0]);
    } else {
      RunInvariant(ss, es, n - 1);
      assert Step(ss[n - 1], es[n - 1], ss[n - 1 + 1]);
      EventHolds(ss[n - 1], es[n - 1]);
    }
    CoversMountable(ss[n]);
    forall a | Enabled(ss[n], a) ensures Safe(ss[n], a) {
      EventHolds(ss[n], Call(a));
    }
  }

  /** Spelled out: no two names lead to the same inode, every sector of a named or open file is
      allocated, and no sector belongs to two of them. */
  lemma RunDisjoint(ss: seq<State>, es: seq<Event>, n: nat, i: Sector, j: Sector, k: int)
    requires IsRun(ss, es) && n < |ss|
    ensures RootFits(ss[n].disk)
    ensures var es := Entries(ss[n].disk);
            forall a, b | 0 <= a < b < |es| && es[a].inUse && es[b].inUse :: es[a].sector != es[b].sector
    ensures i in Live(ss[n]) && Owns(ss[n].disk, i, k) ==> 0 <= k < |ss[n].used| && ss[n].used[k]
    ensures i in Live(ss[n]) && j in Live(ss[n]) && i != j ==> !(Owns(ss[n].disk, i, k) && Owns(ss[n].disk, j, k))
  {
    RunInvariant(ss, es, n);
    hide Formatted;
    CoreLayout({}, ss[n]);
    CoreEntries({}, ss[n]);
    hide Inv;
    hide Live;
    hide Entries;
    if i in Live(ss[n]) && Owns(ss[n].disk, i, k) {
      assert Placed(ss[n].disk, ss[n].used, i);
    }
  }

  // ---------------------------------------------------------------- isolation

  /** The bytes a file sees. */
  ghost function Seen(s: State, f: FileId): (c: seq<Byte>)
    requires Inv(s) && f in s.files
  {
    FileReadable(s, f);
    FileBytes(s.disk, s.files[f].inode)
  }

  lemma FileReadable(s: State, f: FileId)
    requires Inv(s) && f in s.files
    ensures Disk(s.disk) && RootFits(s.disk)
    ensures var i := s.files[f].inode;
            && 0 <= i < |s.disk| && FitsInode(s.disk, DecodeInode(s.disk[i]))
            && i in Live(s) && i != FREE_MAP && i != ROOT
  {
    FileHandles.FileSafe({}, s, f);
    CoreLayout({}, s);
    OpenIsLive(s, s.files[f].inode);
    LiveInRange({}, s, s.files[f].inode);
  }

  /** Whether a call writes to the inode that `f` has open. */
  predicate WritesTo(s: State, a: Action, f: FileId) {
    f in s.files && a.Write? && a.file in s.files && s.files[a.file].inode == s.files[f].inode
  }

  /** A file that stays open keeps its inode. */
  lemma SameInode(s: State, a: Action, f: FileId)
    requires Inv(s) && Enabled(s, a) && Safe(s, a) && f in s.files && f in Next(s, a).files
    ensures Next(s, a).files[f].inode == s.files[f].inode
  {
    hide Inv;
    hide Next;
    match a
    case Create(name, size, lk) => CreateStep(s, name, size, lk);
    case Remove(name, lk) => RemoveStep(s, name, lk);
    case Close(g, lk) => CloseStep(s, g, lk);
    case Write(g, data, lk) => WriteStep(s, g, data, lk);
    case Open(name, g, lk) => OpenStep(s, name, g, lk);
    case _ => QuietFiles(s, a, f);
  }

  lemma QuietFiles(s: State, a: Action, f: FileId)
    requires Inv(s) && Enabled(s, a) && Safe(s, a) && KeepsDisk(a) && f in s.files && f in Next(s, a).files
    ensures Next(s, a).files[f].inode == s.files[f].inode
  {
    hide Inv;
  }

  /** One call: an open file sees what it saw, unless the call writes to the same inode. */
  lemma StepIsolates(s: State, a: Action, f: FileId)
    requires Inv(s) && Enabled(s, a) && Safe(s, a) && f in s.files && f in Next(s, a).files && !WritesTo(s, a, f)
    ensures Inv(Next(s, a)) && Seen(Next(s, a), f) == Seen(s, f)
  {
    hide Inv;
    hide Next;
    hide Live;
    StepKeeps(s, a);
    SameInode(s, a, f);
    FileReadable(s, f);
    FileReadable(Next(s, a), f);
    assert SameFile(s.disk, Next(s, a).disk, s.files[f].inode);
  }

  /** Any number of calls: as long as a file stays open and nothing writes to its inode, it sees
      the same bytes, even after its name has been removed or given to another file. */
  lemma {:induction false} RunIsolates(ss: seq<State>, es: seq<Event>, i: nat, j: nat, f: FileId)
    requires IsRun(ss, es) && i <= j < |ss|
    requires forall m | i <= m <= j :: f in ss[m].files
    requires forall m | i <= m < j :: es[m].Call? ==> !WritesTo(ss[m], es[m].action, f)
    ensures Inv(ss[i]) && Inv(ss[j]) && Seen(ss[j], f) == Seen(ss[i], f)
    decreases j
  {
    hide Inv;
    hide Next;
    hide Enabled;
    hide Safe;
    hide Formatted;
    hide Seen;
    RunInvariant(ss, es, i);
    RunInvariant(ss, es, j);
    if i < j {
      RunIsolates(ss, es, i, j - 1, f);
      assert Step(ss[j - 1], es[j - 1], ss[j - 1 + 1]);
      assert f in ss[j].files;
      assert es[j - 1].Call?;
      StepIsolates(ss[j - 1], es[j - 1].action, f);
    }
  }

  /** The only call that releases a sector of an open inode is the close of its last file, and
      only once its name is gone; by CloseStep that close releases all of them. */
  lemma ReleasedAtLastClose(s: State, a: Action, f: FileId, k: int)
    requires Inv(s) && Enabled(s, a) && Safe(s, a) && f in s.files && Disk(s.disk) && Owns(s.disk, s.files[f].inode, k)
    requires 0 <= k < |Next(s, a).used| && !Next(s, a).used[k]
    ensures s.files[f].inode in s.inodes && a.Close? && a.file == f && LastRemoved(s, s.files[f].inode)
  {
    hide Core;
    hide Next;
    hide Owns;
    hide Live;
    var r, i := Next(s, a), s.files[f].inode;
    FileHandles.FileSafe({}, s, f);
    FileReadable(s, f);
    StepKeeps(s, a);
    if f in r.files {
      StillOwned(s, a, f, k);
    } else {
      LeavesByClose(s, a, f);
      CloseStep(s, f, a.luck);
      if !LastRemoved(s, i) {
        Allocated(s, i, k);
      }
    }
  }

  lemma Allocated(s: State, i: Sector, k: int)
    requires Inv(s) && RootFits(s.disk) && i in Live(s) && Owns(s.disk, i, k)
    ensures 0 <= k < |s.used| && s.used[k]
  {
    CoreLayout({}, s);
    assert Placed(s.disk, s.used, i);
  }

  lemma StillOwned(s: State, a: Action, f: FileId, k: int)
    requires Inv(s) && Enabled(s, a) && Safe(s, a) && f in s.files && f in Next(s, a).files
    requires Disk(s.disk) && Owns(s.disk, s.files[f].inode, k)
    ensures 0 <= k < |Next(s, a).used| && Next(s, a).used[k]
  {
    hide Inv;
    hide Next;
    hide Live;
    var r, i := Next(s, a), s.files[f].inode;
    StepKeeps(s, a);
    SameInode(s, a, f);
    FileReadable(s, f);
    FileReadable(r, f);
    if WritesTo(s, a, f) {
      WriteSectors(s, a, f);
    } else {
      assert SameFile(s.disk, r.disk, i);
    }
    Allocated(r, i, k);
  }

  /** A write does not move the file it writes. */
  lemma WriteSectors(s: State, a: Action, f: FileId)
    requires Inv(s) && Enabled(s, a) && Safe(s, a) && WritesTo(s, a, f)
    ensures var i := s.files[f].inode;
            0 <= i < |s.disk| == |Next(s, a).disk| && DecodeInode(Next(s, a).disk[i]) == DecodeInode(s.disk[i])
  {
    hide Core;
    hide Live;
    hide WriteInode;
    hide Entries;
    var i := s.files[f].inode;
    FileReadable(s, f);
    FileHandles.FileSafe({}, s, f);
    WriteOnlyFile({}, s, i, a.data, s.files[a.file].pos, a.luck.entry);
  }

  lemma LeavesByClose(s: State, a: Action, f: FileId)
    requires Inv(s) && Enabled(s, a) && Safe(s, a) && f in s.files && f !in Next(s, a).files
    ensures a.Close? && a.file == f
  {
    hide Inv;
    hide Next;
    match a
    case Create(name, size, lk) => CreateStep(s, name, size, lk);
    case Remove(name, lk) => RemoveStep(s, name, lk);
    case Close(g, lk) => CloseStep(s, g, lk);
    case Write(g, data, lk) => WriteStep(s, g, data, lk);
    case Open(name, g, lk) => OpenStep(s, name, g, lk);
    case _ => QuietStays(s, a, f);
  }

  lemma QuietStays(s: State, a: Action, f: FileId)
    requires Inv(s) && Enabled(s, a) && Safe(s, a) && KeepsDisk(a) && f in s.files
    ensures f in Next(s, a).files
  {
    hide Inv;
  }

  // ---------------------------------------------------------------- reboots

  /** In every state of every run, with any allocation failing anywhere and any reboots before: a
      reboot finds a device that mounts, to a state in which every invariant holds again, with the
      same directory and the same files, nothing open, and no sector in use marked free. */
  lemma RunRemounts(ss: seq<State>, es: seq<Event>, n: nat)
    requires IsRun(ss, es) && n < |ss|
    ensures Mountable(ss[n].disk) && RootFits(ss[n].disk)
    ensures var r := Mounted(ss[n].disk);
            && Inv(r) && MapCovers(r) && r.disk == ss[n].disk && r.files == map[]
            && Live(r) == {FREE_MAP, ROOT} + Named(Entries(ss[n].disk))
            && forall k | 0 <= k < |ss[n].used| && ss[n].used[k] :: k < |r.used| && r.used[k]
    ensures IsRun(ss[..n + 1] + [Mounted(ss[n].disk)], es[..n] + [Reboot])
  {
    hide Core;
    hide MapCovers;
    assert |ss| == |es| + 1;
    hide IsRun;
    RunInvariant(ss, es, n);
    CoreLayout({}, ss[n]);
    MountedHolds(ss[n]);
    MountedMarks(ss[n]);
    hide Mounted;
    RebootRuns(ss, es, n);
  }

  lemma RebootRuns(ss: seq<State>, es: seq<Event>, n: nat)
    requires IsRun(ss, es) && n < |ss| && Mountable(ss[n].disk)
    ensures IsRun(ss[..n + 1] + [Mounted(ss[n].disk)], es[..n] + [Reboot])
  {
    hide Formatted;
    hide Mounted;
    hide Mountable;
    hide Next;
    hide Enabled;
    hide Safe;
    var ss', es' := ss[..n + 1] + [Mounted(ss[n].disk)], es[..n] + [Reboot];
    forall i | 0 <= i < |es'| ensures Step(ss'[i], es'[i], ss'[i + 1]) {
      assert i < n ==> Step(ss[i], es[i], ss[i + 1]);
    }
  }
}
