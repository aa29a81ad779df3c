/** Each file system call keeps the invariant and leaves other files alone. */
module FileCalls {
  import opened InodeIo
  import opened DiskFormat
  import opened FileSystem
  import opened FileLayout
  import opened FileInvariant

  /** Files live in both states, outside `x`, hold the same bytes. */
  ghost predicate Undisturbed(s: State, s': State, x: set<Sector>) {
    && RootFits(s.disk) && RootFits(s'.disk) && |s'.disk| == |s.disk|
    && forall i | i in Live(s) && i in Live(s') && i !in x :: SameFile(s.disk, s'.disk, i)
  }

  lemma UndisturbedChain(s: State, s': State, s'': State, x: set<Sector>)
    requires Undisturbed(s, s', x) && Undisturbed(s', s'', x) && Live(s) * Live(s'') <= Live(s') + x
    ensures Undisturbed(s, s'', x)
  {
    hide Live;
    hide FileBytes;
    forall i | i in Live(s) && i in Live(s'') && i !in x ensures SameFile(s.disk, s''.disk, i) {
      assert i in Live(s) * Live(s'');
      assert SameFile(s.disk, s'.disk, i);
      assert SameFile(s'.disk, s''.disk, i);
    }
  }

  lemma SameFilesUndisturbed(s: State, s': State, x: set<Sector>)
    requires RootFits(s.disk) && SameFiles(s, s') && FREE_MAP in x
    ensures Undisturbed(s, s', x)
  {
  }

  lemma SameDiskUndisturbed(tmp: set<Sector>, s: State, s': State, x: set<Sector>)
    requires Core(s, tmp) && s'.disk == s.disk
    ensures Undisturbed(s, s', x)
  {
    forall i | i in Live(s) ensures SameFile(s.disk, s'.disk, i) {
      LiveInRange(tmp, s, i);
    }
  }

  // ---------------------------------------------------------------- opening

  lemma NoOpeners(s: State, tmp: set<Sector>, i: Sector)
    requires Counts(s, tmp) && i !in s.inodes
    ensures Openers(s.files, i) == {} && Deniers(s.files, i) == {}
  {
    assert forall f | f in s.files :: s.files[f].inode != i;
    assert forall f :: f !in Openers(s.files, i) && f !in Deniers(s.files, i);
  }

  lemma OpenCounts(tmp: set<Sector>, s: State, i: Sector, memory: bool)
    requires Readable(s, i) && Counts(s, tmp) && i !in tmp && i != FREE_MAP && OpensInode(s, i, memory)
    requires i == ROOT ==> i !in s.inodes
    ensures Counts(OpenInode(s, i, memory), tmp + {i})
  {
    hide FitsInode;
    var r := OpenInode(s, i, memory);
    if i !in s.inodes {
      NoOpeners(s, tmp, i);
    }
    forall j | j in r.inodes ensures CountOK(r.inodes[j], r.files, j, j in tmp + {i}) {
      assert j in s.inodes ==> CountOK(s.inodes[j], s.files, j, j in tmp);
    }
  }

  lemma OpenMirrors(s: State, i: Sector, memory: bool)
    requires Readable(s, i) && RootFits(s.disk) && OpenOK(s) && i in Live(s) && i != FREE_MAP && OpensInode(s, i, memory)
    ensures var r := OpenInode(s, i, memory);
            && OpenOK(r) && Live(r) == Live(s) && i in r.inodes && r.inodes[i].data == DecodeInode(s.disk[i])
            && (i in Named(Entries(s.disk)) && i != ROOT ==> !r.inodes[i].removed)
  {
    hide Entries;
    hide Named;
    hide FitsInode;
    hide DecodeInode;
  }

  /** The root directory is open only while a call holds it. */
  lemma RootHeld(tmp: set<Sector>, s: State)
    requires Counts(s, tmp) && ROOT in s.inodes
    ensures ROOT in tmp
  {
    assert CountOK(s.inodes[ROOT], s.files, ROOT, ROOT in tmp);
    assert forall f | f in s.files :: s.files[f].inode != ROOT;
    assert forall f :: f !in Openers(s.files, ROOT);
    assert Openers(s.files, ROOT) == {};
  }

  /** What is known of an inode a call holds. */
  lemma Held(tmp: set<Sector>, s: State, i: Sector)
    requires Core(s, tmp) && i in tmp
    ensures Sane(s) && RootFits(s.disk) && i in s.inodes && i != FREE_MAP && 0 <= i < |s.disk|
    ensures s.inodes[i].data == DecodeInode(s.disk[i]) && s.inodes[i].openCount >= 1
    ensures i == ROOT ==> s.inodes[i].openCount == 1 && !s.inodes[i].removed && s.inodes[i].denyCount == 0
    ensures Closable(s, i) && (LastRemoved(s, i) ==> Leaves(s, i))
  {
    HeldUsed(tmp, s, i);
    hide Layout;
    hide EntriesOK;
    hide Entries;
    assert CountOK(s.inodes[i], s.files, i, true);
    assert i == ROOT ==> Deniers(s.files, i) == {};
  }

  /** Every sector of a live inode is marked, and the inode's own is not one of its data. */
  lemma HeldUsed(tmp: set<Sector>, s: State, i: Sector)
    requires Core(s, tmp) && i in s.inodes
    ensures Closable(s, i) || i == FREE_MAP
  {
    hide EntriesOK;
    hide Slots;
    hide Counts;
    assert i in Live(s) && Placed(s.disk, s.used, i) && Owns(s.disk, i, i);
    var d, used := s.inodes[i].data, s.used[i := false];
    forall k | d.start <= k < d.start + SectorsFor(d.length) ensures used[k] {
      assert Owns(s.disk, i, k);
    }
  }

  /** Opening a live inode counts one more opener. */
  lemma OpenKeeps(tmp: set<Sector>, s: State, i: Sector, memory: bool)
    requires Core(s, tmp) && i in Live(s) && i !in tmp && i != FREE_MAP && OpensInode(s, i, memory)
    ensures Readable(s, i)
    ensures var r := OpenInode(s, i, memory);
            && Core(r, tmp + {i}) && Live(r) == Live(s) && i in r.inodes && r.inodes[i].data == DecodeInode(s.disk[i])
            && (i in Named(Entries(s.disk)) && i != ROOT ==> !r.inodes[i].removed)
            && (forall j | j in s.inodes && j != i :: j in r.inodes && r.inodes[j] == s.inodes[j])
  {
    LiveInRange(tmp, s, i);
    if ROOT in s.inodes {
      RootHeld(tmp, s);
    }
    hide Layout;
    hide DirOK;
    hide Live;
    hide OpenOK;
    hide Counts;
    hide Entries;
    CoreRoot(tmp, s);
    OpenCounts(tmp, s, i, memory);
    OpenMirrors(s, i, memory);
  }

  lemma CoreRoot(tmp: set<Sector>, s: State)
    requires Core(s, tmp)
    ensures RootFits(s.disk)
  {
  }

  // ---------------------------------------------------------------- closing

  /** Its last opener gone, an inode without a name is nobody's. */
  ghost predicate Leaves(s: State, i: Sector)
    requires RootFits(s.disk) && i in s.inodes
  {
    s.inodes[i].openCount == 1 && i != ROOT && i !in Named(Entries(s.disk))
  }

  /** One opener fewer, but not the last. */
  lemma DropOpener(tmp: set<Sector>, s: State, i: Sector)
    requires Core(s, tmp) && i in tmp && i in s.inodes && s.inodes[i].openCount != 1
    ensures var r := s.(inodes := s.inodes[i := s.inodes[i].(openCount := s.inodes[i].openCount - 1)]);
            Core(r, tmp - {i}) && Live(r) == Live(s)
  {
    hide Layout;
    hide EntriesOK;
    hide Entries;
    hide Named;
    hide Counts;
    hide FitsInode;
    DropCounts(tmp, s, i);
    var r := s.(inodes := s.inodes[i := s.inodes[i].(openCount := s.inodes[i].openCount - 1)]);
    assert Live(r) == Live(s);
  }

  lemma DropCounts(tmp: set<Sector>, s: State, i: Sector)
    requires Counts(s, tmp) && i in tmp && i in s.inodes && s.inodes[i].openCount != 1
    ensures Counts(s.(inodes := s.inodes[i := s.inodes[i].(openCount := s.inodes[i].openCount - 1)]), tmp - {i})
  {
    var r := s.(inodes := s.inodes[i := s.inodes[i].(openCount := s.inodes[i].openCount - 1)]);
    forall j | j in r.inodes ensures CountOK(r.inodes[j], r.files, j, j in tmp - {i}) {
      assert CountOK(s.inodes[j], s.files, j, j in tmp);
    }
  }

  lemma ForgetCounts(tmp: set<Sector>, s: State, i: Sector)
    requires Sane(s) && Counts(s, tmp) && i in tmp && s.inodes[i].openCount == 1
    ensures Counts(Forgotten(s, i), tmp - {i})
  {
    hide FitsInode;
    var r := Forgotten(s, i);
    assert CountOK(s.inodes[i], s.files, i, true);
    assert Openers(s.files, i) == {};
    assert forall f | f in s.files :: f in Openers(s.files, s.files[f].inode);
    forall j | j in r.inodes ensures CountOK(r.inodes[j], r.files, j, j in tmp - {i}) {
      assert CountOK(s.inodes[j], s.files, j, j in tmp);
    }
  }

  lemma ForgetMirrors(s: State, i: Sector)
    requires Sane(s) && RootFits(s.disk) && OpenOK(s) && i in s.inodes && i != FREE_MAP
    ensures var r := Forgotten(s, i);
            OpenOK(r) && Live(r) == if i == ROOT || i in Named(Entries(s.disk)) then Live(s) else Live(s) - {i}
  {
    hide Entries;
    hide Named;
    hide FitsInode;
    hide DecodeInode;
  }

  /** The last opener: the inode leaves memory, and an inode without a name is no longer live. */
  lemma ForgetKeeps(tmp: set<Sector>, s: State, i: Sector)
    requires Core(s, tmp) && i in tmp && s.inodes[i].openCount == 1
    ensures var r := Forgotten(s, i);
            && Core(r, tmp - {i}) && RootFits(s.disk)
            && Live(r) == if Leaves(s, i) then Live(s) - {i} else Live(s)
  {
    hide Layout;
    hide DirOK;
    hide Live;
    hide OpenOK;
    hide Entries;
    CoreRoot(tmp, s);
    assert CountOK(s.inodes[i], s.files, i, true);
    hide CountOK;
    ForgetCounts(tmp, s, i);
    ForgetMirrors(s, i);
    SmallerLayout(s.disk, s.used, Live(s), Live(Forgotten(s, i)));
  }

  lemma SmallerLayout(disk: seq<seq<Byte>>, used: seq<bool>, live: set<Sector>, live': set<Sector>)
    requires Layout(disk, used, live) && live' <= live
    ensures Layout(disk, used, live')
  {
  }

  /** Once forgotten, a removed inode's sectors belong to nobody. */
  lemma ForgottenUnowned(tmp: set<Sector>, s: State, i: Sector)
    requires Core(s, tmp) && i in tmp && LastRemoved(s, i)
    ensures var r := Forgotten(s, i);
            var d := s.inodes[i].data;
            && RootFits(s.disk) && i !in Live(r) && 0 <= i < |s.used| && d.start + SectorsFor(d.length) <= |s.used|
            && Unowned(r, i, 1) && Unowned(r, d.start, SectorsFor(d.length))
  {
    Held(tmp, s, i);
    ForgetKeeps(tmp, s, i);
    LiveInRange(tmp, s, i);
    var r := Forgotten(s, i);
    hide EntriesOK;
    hide Slots;
    hide Counts;
    forall j, k | j in Live(r) && Owns(r.disk, j, k) ensures !Owns(s.disk, i, k) {
      assert j in Live(s) && i in Live(s);
    }
  }

  /** inode_close took `s` to `r`: sectors are released exactly when the last opener of a removed
      inode went. */
  ghost predicate Closed(tmp: set<Sector>, s: State, i: Sector, r: State)
    requires RootFits(s.disk) && i in s.inodes
  {
    && Core(r, tmp - {i}) && Undisturbed(s, r, {FREE_MAP})
    && Entries(r.disk) == Entries(s.disk)
    && Live(r) == (if Leaves(s, i) then Live(s) - {i} else Live(s))
    && (!LastRemoved(s, i) ==> r.used == s.used && r.disk == s.disk)
    && (LastRemoved(s, i) ==> Freed(s, i, r))
    && (forall j | j in s.inodes && j != i :: j in r.inodes && r.inodes[j] == s.inodes[j])
    && (forall j | j in r.inodes :: j in s.inodes)
    && (i in r.inodes <==> s.inodes[i].openCount != 1)
    && (i in r.inodes ==> r.inodes[i] == s.inodes[i].(openCount := s.inodes[i].openCount - 1))
  }

  ghost predicate Freed(s: State, i: Sector, r: State)
    requires Disk(s.disk)
  {
    |r.used| == |s.used| && forall k | 0 <= k < |s.used| :: r.used[k] <==> s.used[k] && !Owns(s.disk, i, k)
  }

  lemma CloseKeeps(tmp: set<Sector>, s: State, i: Sector, lk: Luck)
    requires Core(s, tmp) && i in tmp
    ensures Closable(s, i) && RootFits(s.disk) && Closed(tmp, s, i, CloseInode(s, i, lk))
  {
    Held(tmp, s, i);
    if LastRemoved(s, i) {
      hide Closed;
      ClosesRemoved(tmp, s, i, lk);
    } else {
      hide Closed;
      ClosesKept(tmp, s, i, lk);
    }
  }

  lemma ClosesKept(tmp: set<Sector>, s: State, i: Sector, lk: Luck)
    requires Core(s, tmp) && i in tmp && Closable(s, i) && RootFits(s.disk) && !LastRemoved(s, i)
    ensures Closed(tmp, s, i, CloseInode(s, i, lk))
  {
    hide Core;
    hide Live;
    hide Undisturbed;
    hide Entries;
    hide Release;
    SameDiskUndisturbed(tmp, s, CloseInode(s, i, lk), {FREE_MAP});
    if s.inodes[i].openCount != 1 {
      DropOpener(tmp, s, i);
    } else {
      ForgetKeeps(tmp, s, i);
    }
  }

  lemma ClosesRemoved(tmp: set<Sector>, s: State, i: Sector, lk: Luck)
    requires Core(s, tmp) && i in tmp && Closable(s, i) && RootFits(s.disk) && LastRemoved(s, i) && Leaves(s, i)
    ensures Closed(tmp, s, i, CloseInode(s, i, lk))
  {
    hide Core;
    hide Live;
    hide Undisturbed;
    hide Entries;
    hide CloseInode;
    hide Owns;
    ReleaseRemoved(tmp, s, i, lk);
  }

  lemma ReleaseRemoved(tmp: set<Sector>, s: State, i: Sector, lk: Luck)
    requires Core(s, tmp) && i in tmp && Closable(s, i) && RootFits(s.disk) && LastRemoved(s, i) && Leaves(s, i)
    ensures var r := CloseInode(s, i, lk);
            && Core(r, tmp - {i}) && Undisturbed(s, r, {FREE_MAP}) && Entries(r.disk) == Entries(s.disk)
            && Live(r) == Live(s) - {i} && r.inodes == s.inodes - {i}
            && Freed(s, i, r)
  {
    hide Core;
    hide Live;
    hide Undisturbed;
    hide Entries;
    hide Release;
    hide Unowned;
    hide SameFiles;
    hide Sane;
    hide RootFits;
    hide Disk;
    hide DecodeInode;
    Held(tmp, s, i);
    ForgetKeeps(tmp, s, i);
    ForgottenUnowned(tmp, s, i);
    var s1, d := Forgotten(s, i), s.inodes[i].data;
    SameDiskUndisturbed(tmp, s, s1, {FREE_MAP});
    ReleaseBoth(tmp - {i}, s1, i, d.start, SectorsFor(d.length), lk);
    UndisturbedChain(s, s1, Release(Release(s1, i, 1, lk.map2), d.start, SectorsFor(d.length), lk.map3), {FREE_MAP});
  }

  /** The two releases of a removed inode. */
  lemma ReleaseBoth(tmp: set<Sector>, s: State, i: Sector, first: nat, count: nat, lk: Luck)
    requires Core(s, tmp) && Sane(s) && 0 <= i < |s.used| && first + count <= |s.used|
    requires RootFits(s.disk) && Unowned(s, i, 1) && Unowned(s, first, count)
    requires s.used[i] && RunUsed(s.used[i := false], first, count)
    ensures var r := Release(Release(s, i, 1, lk.map2), first, count, lk.map3);
            && Core(r, tmp) && Undisturbed(s, r, {FREE_MAP}) && Entries(r.disk) == Entries(s.disk)
            && Live(r) == Live(s) && r.inodes == s.inodes
            && forall k | 0 <= k < |s.used| :: r.used[k] <==> s.used[k] && k != i && !(first <= k < first + count)
  {
    hide Release;
    hide Layout;
    hide EntriesOK;
    hide Counts;
    hide OpenOK;
    ReleaseKeeps(tmp, s, i, 1, lk.map2);
    var s2 := Release(s, i, 1, lk.map2);
    hide Core;
    UnownedSame(tmp, s, s2, first, count);
    ReleaseKeeps(tmp, s2, first, count, lk.map3);
    var r := Release(s2, first, count, lk.map3);
    hide Unowned;
    SameFilesUndisturbed(s, s2, {FREE_MAP});
    SameFilesUndisturbed(s2, r, {FREE_MAP});
    assert Entries(r.disk) == Entries(s.disk);
    hide SameFiles;
    hide Undisturbed;
    hide Live;
    hide Entries;
    UndisturbedChain(s, s2, r, {FREE_MAP});
  }
}
