/** Every call keeps the invariant and disturbs no file but the one it is about. */
module FileSteps {
  import opened Collections
  import opened InodeIo
  import opened DiskFormat
  import opened FileSystem
  import opened FileLayout
  import opened FileInvariant
  import opened FileCalls
  import opened FileDirectory
  import opened FileHandles

  // ---------------------------------------------------------------- create

  /** A sector found free is neither of the system's inodes nor owned by anyone. */
  lemma NewSector(tmp: set<Sector>, s: State, memory: bool)
    requires Core(s, tmp) && Allocates(s, 1, memory)
    ensures var r := Allocate(s, 1, memory);
            && 0 <= NewInode(s) < |s.disk| && NewInode(s) != FREE_MAP && NewInode(s) != ROOT
            && Core(r, tmp) && SameFiles(s, r) && Live(r) == Live(s) && Unowned(r, NewInode(s), 1)
            && r.used == s.used[NewInode(s) := true]
  {
    AllocateKeeps(tmp, s, 1, memory);
    hide Allocate;
    hide SameFiles;
    hide Unowned;
    SystemUsed(tmp, s);
  }

  lemma SystemUsed(tmp: set<Sector>, s: State)
    requires Core(s, tmp)
    ensures |s.used| == |s.disk| >= 2 && s.used[FREE_MAP] && s.used[ROOT]
  {
    assert Placed(s.disk, s.used, FREE_MAP) && Placed(s.disk, s.used, ROOT);
    assert Owns(s.disk, FREE_MAP, FREE_MAP) && Owns(s.disk, ROOT, ROOT);
  }

  /** Where a file of `size` bytes goes once the lowest free sector has been taken for its inode. */
  function DataFor(used: seq<bool>, size: nat): (d: DiskInode)
    requires size < SIZE_MAX
  {
    var i := FirstFit(used, 0, 1);
    NewData(if i < |used| then used[i := true] else used, size)
  }

  /** What filesys_create leaves: a new empty file under its name, or nothing new. A file whose
      name the new entry overwrites is live only if it is open. */
  ghost predicate Created(tmp: set<Sector>, s: State, name: seq<Byte>, size: nat, lk: Luck, success: bool, r: State)
    requires Sane(s) && RootFits(s.disk) && size < SIZE_MAX
  {
    && Core(r, tmp) && Undisturbed(s, r, {FREE_MAP, ROOT}) && r.files == s.files && r.inodes == s.inodes
    && (!success ==> Live(r) == Live(s) && Entries(r.disk) == Entries(s.disk))
    && (success ==>
          var i, es := NewInode(s), Entries(s.disk);
          var k := SlotFor(es, lk);
          && i !in Live(s) && 0 <= i < |r.disk| && FitsInode(r.disk, DecodeInode(r.disk[i]))
          && DecodeInode(r.disk[i]) == DataFor(s.used, size) && FileBytes(r.disk, i) == seq(size, _ => 0)
          && NameOK(name) && !Finds(es, name, lk) && k < |es| && Entries(r.disk) == es[k := Entry(i, name, true)]
          && Live(r) == Live(s) - (Gone(es, k) - s.inodes.Keys) + {i})
  }

  lemma CreatedCore(tmp: set<Sector>, s: State, name: seq<Byte>, size: nat, lk: Luck, success: bool, r: State)
    requires Sane(s) && RootFits(s.disk) && size < SIZE_MAX && Created(tmp, s, name, size, lk, success, r)
    ensures Core(r, tmp)
  {
  }

  lemma CreateInKeeps(tmp: set<Sector>, s: State, name: seq<Byte>, size: nat, lk: Luck)
    requires Core(s, tmp) && ROOT in tmp && 0 !in name && size < SIZE_MAX
    ensures Sane(s) && RootFits(s.disk) && DirOpen(s)
    ensures Created(tmp, s, name, size, lk, Creates(s, name, size, lk), CreateIn(s, name, size, lk))
  {
    Held(tmp, s, ROOT);
    if !Allocates(s, 1, lk.map1) {
      AllocateKeeps(tmp, s, 1, lk.map1);
      hide Core;
      hide Allocate;
      SameFilesUndisturbed(s, Allocate(s, 1, lk.map1), {FREE_MAP, ROOT});
    } else {
      NewSector(tmp, s, lk.map1);
      var s1, i := Allocate(s, 1, lk.map1), NewInode(s);
      CreateInodeKeeps(tmp, s1, i, size, lk);
      var s2 := CreateInode(s1, i, size, lk);
      CoreLayout(tmp, s2);
      hide Core;
      hide Allocate;
      hide CreateInode;
      hide Created;
      hide SameFiles;
      hide Unowned;
      hide Fresh;
      hide Live;
      hide Rollback;
      if CreatesInode(s1, size, lk) {
        NamedOrReleased(tmp, s, s1, s2, name, size, lk);
      } else {
        Released(tmp, s, s1, s2, name, size, lk);
      }
    }
  }

  /** No name: the inode's sector is given back. */
  lemma Released(tmp: set<Sector>, s: State, s1: State, s2: State, name: seq<Byte>, size: nat, lk: Luck)
    requires Sane(s) && RootFits(s.disk) && RootFits(s1.disk) && RootFits(s2.disk) && Core(s2, tmp) && Sane(s2)
    requires SameFiles(s, s1) && SameFiles(s1, s2) && Live(s1) == Live(s) && Live(s2) == Live(s)
    requires 0 < NewInode(s) < |s2.used| && s2.used[NewInode(s)] && Unowned(s2, NewInode(s), 1) && size < SIZE_MAX
    ensures Created(tmp, s, name, size, lk, false, Rollback(s2, NewInode(s), lk))
  {
    ReleaseKeeps(tmp, s2, NewInode(s), 1, lk.map3);
    var r := Release(s2, NewInode(s), 1, lk.map3);
    hide Release;
    hide Core;
    hide NewInode;
    var x := {FREE_MAP, ROOT};
    SameFilesUndisturbed(s, s1, x);
    SameFilesUndisturbed(s1, s2, x);
    SameFilesUndisturbed(s2, r, x);
    assert Entries(r.disk) == Entries(s.disk) && r.files == s.files && r.inodes == s.inodes;
    hide SameFiles;
    hide Undisturbed;
    hide Live;
    hide Entries;
    UndisturbedChain(s, s1, s2, x);
    UndisturbedChain(s, s2, r, x);
  }

  lemma NamedOrReleased(tmp: set<Sector>, s: State, s1: State, s2: State, name: seq<Byte>, size: nat, lk: Luck)
    requires Sane(s) && RootFits(s.disk) && RootFits(s1.disk) && RootFits(s2.disk) && Core(s2, tmp) && Sane(s2) && ROOT in tmp
    requires SameFiles(s, s1) && SameFiles(s1, s2) && Live(s1) == Live(s) && Live(s2) == Live(s)
    requires 0 < NewInode(s) < |s2.used| && s2.used[NewInode(s)] && Unowned(s2, NewInode(s), 1)
    requires size < SIZE_MAX && Fresh(s2, NewInode(s), DataFor(s.used, size)) && 0 !in name
    ensures DirOpen(s2)
    ensures AddsEntry(s2, name, lk) ==> Created(tmp, s, name, size, lk, true, AddEntry(s2, name, NewInode(s), lk))
    ensures !AddsEntry(s2, name, lk) ==>
              Created(tmp, s, name, size, lk, false, Rollback(AddEntry(s2, name, NewInode(s), lk), NewInode(s), lk))
  {
    AddEntryKeeps(tmp, s2, name, NewInode(s), DataFor(s.used, size), lk);
    if AddsEntry(s2, name, lk) {
      AddedCreated(tmp, s, s1, s2, name, size, lk, AddEntry(s2, name, NewInode(s), lk));
    } else {
      hide Created;
      hide SameFiles;
      hide Core;
      hide Live;
      hide Unowned;
      Released(tmp, s, s1, s2, name, size, lk);
    }
  }

  lemma AddedCreated(tmp: set<Sector>, s: State, s1: State, s2: State, name: seq<Byte>, size: nat, lk: Luck, r: State)
    requires Sane(s) && RootFits(s.disk) && RootFits(s1.disk) && RootFits(s2.disk)
    requires SameFiles(s, s1) && SameFiles(s1, s2) && Live(s1) == Live(s) && Live(s2) == Live(s)
    requires size < SIZE_MAX && Fresh(s2, NewInode(s), DataFor(s.used, size))
    requires Added(tmp, s2, SlotFor(Entries(s2.disk), lk), name, NewInode(s), r)
    requires NameOK(name) && !Finds(Entries(s2.disk), name, lk)
    ensures Created(tmp, s, name, size, lk, true, r)
  {
    CoreLayout(tmp, r);
    hide Core;
    hide NewInode;
    hide Finds;
    hide SlotFor;
    hide Gone;
    var x := {FREE_MAP, ROOT};
    SameFilesUndisturbed(s, s1, x);
    SameFilesUndisturbed(s1, s2, x);
    assert Undisturbed(s2, r, x);
    hide Undisturbed;
    UndisturbedChain(s, s1, s2, x);
    UndisturbedChain(s, s2, r, x);
  }

  // ---------------------------------------------------------------- the root directory around a call

  lemma RootReadable(s: State)
    requires Inv(s)
    ensures Sane(s) && RootFits(s.disk) && Readable(s, ROOT) && ROOT !in s.inodes && ROOT in Live(s)
    ensures Counts(s, {})
  {
    hide Layout;
    hide EntriesOK;
    if ROOT in s.inodes {
      RootHeld({}, s);
    }
  }

  /** The directory is open for the call; nothing else has changed. */
  lemma RootOpened(s: State, lk: Luck)
    requires Inv(s) && RootOpens(s, lk)
    ensures Readable(s, ROOT) && RootFits(s.disk)
    ensures var s1 := WithRoot(s, lk);
            && Core(s1, {ROOT}) && Live(s1) == Live(s) && s1 == s.(inodes := s1.inodes)
            && ROOT !in s.inodes && s1.inodes - {ROOT} == s.inodes && DirBytes(s1) == FileBytes(s.disk, ROOT)
  {
    hide Core;
    hide Live;
    RootReadable(s);
    OpenKeeps({}, s, ROOT, lk.inode);
    assert {} + {ROOT} == {ROOT};
  }

  /** Closing the root directory again. */
  lemma RootClosed(tmp: set<Sector>, s: State, lk: Luck)
    requires Core(s, tmp) && ROOT in tmp
    ensures Closable(s, ROOT) && RootFits(s.disk)
    ensures var r := CloseInode(s, ROOT, lk);
            && Core(r, tmp - {ROOT}) && Live(r) == Live(s) && r == s.(inodes := s.inodes - {ROOT})
  {
    hide Core;
    hide Live;
    Held(tmp, s, ROOT);
    ForgetKeeps(tmp, s, ROOT);
  }

  /** filesys_create, whole. */
  lemma CreateStep(s: State, name: seq<Byte>, size: nat, lk: Luck)
    requires Inv(s) && Enabled(s, Create(name, size, lk))
    ensures Safe(s, Create(name, size, lk)) && RootFits(s.disk)
    ensures RootOpens(s, lk) ==> DirOpen(WithRoot(s, lk))
    ensures Created({}, s, name, size, lk, RootOpens(s, lk) && Creates(WithRoot(s, lk), name, size, lk),
                    Next(s, Create(name, size, lk)))
  {
    RootReadable(s);
    if RootOpens(s, lk) {
      RootOpened(s, lk);
      hide Core;
      hide Live;
      hide Created;
      hide CreateIn;
      var s1 := WithRoot(s, lk);
      CreateInKeeps({ROOT}, s1, name, size, lk);
      CreatedClosed(s, s1, name, size, lk, Creates(s1, name, size, lk), CreateIn(s1, name, size, lk));
    } else {
      SameDiskUndisturbed({}, s, s, {FREE_MAP, ROOT});
    }
  }

  lemma CreatedClosed(s: State, s1: State, name: seq<Byte>, size: nat, lk: Luck, success: bool, r: State)
    requires Core(s, {}) && Sane(s) && RootFits(s.disk) && Sane(s1) && RootFits(s1.disk)
    requires s1 == s.(inodes := s1.inodes) && s1.inodes - {ROOT} == s.inodes && Live(s1) == Live(s)
    requires size < SIZE_MAX && Created({ROOT}, s1, name, size, lk, success, r)
    ensures Closable(r, ROOT) && Created({}, s, name, size, lk, success, CloseInode(r, ROOT, lk))
  {
    hide Core;
    hide Live;
    hide Entries;
    hide Undisturbed;
    hide Gone;
    hide Finds;
    hide SlotFor;
    RootClosed({ROOT}, r, lk);
    assert {ROOT} - {ROOT} == {};
    hide CloseInode;
    DisksUndisturbed(s1, r, s, CloseInode(r, ROOT, lk), {FREE_MAP, ROOT});
    if success {
      var gone := Gone(Entries(s.disk), SlotFor(Entries(s.disk), lk));
      GoneNamed({}, s, SlotFor(Entries(s.disk), lk));
      assert ROOT in {FREE_MAP, ROOT};
      assert gone - s1.inodes.Keys == gone - s.inodes.Keys by {
        assert forall i | i != ROOT :: i in s1.inodes - {ROOT} <==> i in s1.inodes;
      }
    }
  }

  /** Only devices and live inodes matter. */
  lemma DisksUndisturbed(s: State, r: State, s': State, r': State, x: set<Sector>)
    requires Undisturbed(s, r, x) && s'.disk == s.disk && r'.disk == r.disk && Live(s') == Live(s) && Live(r') == Live(r)
    ensures Undisturbed(s', r', x)
  {
  }

  // ---------------------------------------------------------------- open

  /** A name that is found leads to a live inode of its own. */
  lemma FoundInode(s: State, name: seq<Byte>, lk: Luck)
    requires Inv(s)
    ensures RootFits(s.disk)
    ensures var v := Visible(Entries(s.disk), lk.lookups);
            var k := Lookup(v, name);
            k < |v| ==> var i := v[k].sector;
                        && v[k] == Entries(s.disk)[k] && v[k].inUse
                        && i in Named(Entries(s.disk)) && i in Live(s) && i != FREE_MAP && i != ROOT && Readable(s, i)
  {
    CoreEntries({}, s);
    var v := Visible(Entries(s.disk), lk.lookups);
    var k := Lookup(v, name);
    if k < |v| {
      assert v[k] == Entries(s.disk)[k];
      LiveInRange({}, s, v[k].sector);
    }
  }

  /** The inode with one opener more than it has. */
  ghost function OneMore(s: State, i: Sector): (m: MemInode)
    requires Readable(s, i)
  {
    if i in s.inodes then s.inodes[i].(openCount := s.inodes[i].openCount + 1)
    else MemInode(DecodeInode(s.disk[i]), 1, false, 0)
  }

  /** filesys_open: the named file opened at its beginning, or nothing changed. */
  lemma OpenStep(s: State, name: seq<Byte>, f: FileId, lk: Luck)
    requires Inv(s) && Enabled(s, Open(name, f, lk))
    ensures Safe(s, Open(name, f, lk)) && RootFits(s.disk)
    ensures var r := Next(s, Open(name, f, lk));
            var v := Visible(Entries(s.disk), lk.lookups);
            && Inv(r) && Live(r) == Live(s) && r.disk == s.disk && r.used == s.used
            && (if RootOpens(s, lk) && Target(s, name, lk).Some? && lk.file
                then Lookup(v, name) < |v|
                     && var i := v[Lookup(v, name)].sector;
                        && r.files == s.files[f := File(i, 0, false)]
                        && Readable(s, i) && r.inodes == s.inodes[i := OneMore(s, i)]
                else r == s)
  {
    hide Core;
    hide Live;
    hide Lookup;
    hide Slots;
    hide Named;
    hide CloseInode;
    hide Visible;
    RootReadable(s);
    FoundInode(s, name, lk);
    if RootOpens(s, lk) {
      RootOpened(s, lk);
      var s1 := WithRoot(s, lk);
      var i := FindIn(s1, name, lk);
      if i.Some? && OpensInode(s1, i.value, lk.target) {
        OpenTarget(s, s1, i.value, f, lk);
      } else {
        RootClosed({ROOT}, s1, lk);
      }
    }
  }

  /** The target opened, the directory closed, and the file made or the target closed again. */
  lemma OpenTarget(s: State, s1: State, i: Sector, f: FileId, lk: Luck)
    requires Core(s, {}) && Core(s1, {ROOT}) && RootFits(s.disk) && RootFits(s1.disk) && Live(s1) == Live(s)
    requires s1 == s.(inodes := s1.inodes) && ROOT in s1.inodes && s1.inodes - {ROOT} == s.inodes && f !in s.files
    requires i in Named(Entries(s.disk)) && i in Live(s) && i != FREE_MAP && i != ROOT && Readable(s1, i) && Readable(s, i)
    requires OpensInode(s1, i, lk.target)
    ensures Closable(OpenInode(s1, i, lk.target), ROOT) && Closable(CloseInode(OpenInode(s1, i, lk.target), ROOT, lk), i)
    ensures var r := OpenFile(CloseInode(OpenInode(s1, i, lk.target), ROOT, lk), Some(i), f, lk);
            && Core(r, {}) && Live(r) == Live(s) && r.disk == s.disk && r.used == s.used
            && (if lk.file then r.files == s.files[f := File(i, 0, false)] && r.inodes == s.inodes[i := OneMore(s, i)]
                else r == s)
  {
    hide Core;
    hide Live;
    OpenKeeps({ROOT}, s1, i, lk.target);
    var s2 := OpenInode(s1, i, lk.target);
    RootClosed({ROOT} + {i}, s2, lk);
    var s3 := CloseInode(s2, ROOT, lk);
    assert {ROOT} + {i} - {ROOT} == {i};
    Held({i}, s3, i);
    SameOpen(s, s1, i, lk.target);
    hide CloseInode;
    if lk.file {
      AddFile({i}, s3, f, i);
      assert {i} - {i} == {};
    } else {
      PositiveCounts({}, s, i);
      OpenCloseRestores(s, i, lk.target, lk);
    }
  }

  lemma PositiveCounts(tmp: set<Sector>, s: State, i: Sector)
    requires Core(s, tmp)
    ensures i in s.inodes ==> s.inodes[i].openCount >= 1
  {
    CoreCounts(tmp, s);
    hide Core;
    assert i in s.inodes ==> CountOK(s.inodes[i], s.files, i, i in tmp);
  }

  /** With or without the directory open, opening another inode does the same. */
  lemma SameOpen(s: State, s1: State, i: Sector, memory: bool)
    requires Readable(s, i) && Readable(s1, i) && i != ROOT && ROOT !in s.inodes
    requires s1 == s.(inodes := s1.inodes) && s1.inodes - {ROOT} == s.inodes
    ensures OpenInode(s1, i, memory).inodes - {ROOT} == OpenInode(s, i, memory).inodes
  {
    hide Sane;
    hide FitsInode;
    assert forall j | j != ROOT :: (j in s.inodes <==> j in s1.inodes) && (j in s.inodes ==> s.inodes[j] == s1.inodes[j]) by {
      assert forall j | j != ROOT && j in s1.inodes :: j in s1.inodes - {ROOT};
    }
  }

  // ---------------------------------------------------------------- remove

  /** filesys_remove took the name away: the inode and its sectors stay while a file has it open,
      and are released at once otherwise. */
  ghost predicate Unnamed(s: State, k: nat, r: State)
    requires RootFits(s.disk) && k < |Entries(s.disk)|
  {
    var i := Entries(s.disk)[k].sector;
    && Core(r, {}) && Undisturbed(s, r, {FREE_MAP, ROOT}) && r.files == s.files
    && Entries(r.disk) == Entries(s.disk)[k := Entries(s.disk)[k].(inUse := false)]
    && Live(r) == (if i in s.inodes then Live(s) else Live(s) - {i})
    && (i in s.inodes ==> r.inodes == s.inodes[i := s.inodes[i].(removed := true)] && r.used == s.used)
    && (i !in s.inodes ==> r.inodes == s.inodes && Freed(s, i, r))
  }

  lemma RemoveStep(s: State, name: seq<Byte>, lk: Luck)
    requires Inv(s) && Enabled(s, Remove(name, lk))
    ensures Safe(s, Remove(name, lk)) && RootFits(s.disk)
    ensures var r := Next(s, Remove(name, lk));
            var v := Visible(Entries(s.disk), lk.lookups);
            var k := Lookup(v, name);
            if k < |v| && RootOpens(s, lk) && OpensInode(s, v[k].sector, lk.target) && lk.entry
            then Unnamed(s, k, r)
            else r == s
  {
    RootReadable(s);
    FoundInode(s, name, lk);
    hide Core;
    hide Live;
    hide Lookup;
    hide Slots;
    hide Named;
    hide CloseInode;
    hide RemoveIn;
    hide Unnamed;
    hide Visible;
    hide Removable;
    if RootOpens(s, lk) {
      RemoveInside(s, name, lk);
    }
  }

  /** Between opening the root directory and closing it. */
  lemma RemoveInside(s: State, name: seq<Byte>, lk: Luck)
    requires Inv(s) && RootOpens(s, lk) && RootFits(s.disk) && Readable(s, ROOT)
    ensures RemoveSafe(s, name, lk)
    ensures var r := CloseInode(RemoveIn(WithRoot(s, lk), name, lk), ROOT, lk);
            var v := Visible(Entries(s.disk), lk.lookups);
            var k := Lookup(v, name);
            if k < |v| && OpensInode(s, v[k].sector, lk.target) && lk.entry then Unnamed(s, k, r) else r == s
  {
    hide Core;
    hide Live;
    hide Lookup;
    hide Slots;
    hide Named;
    hide CloseInode;
    hide Erasure;
    hide Unnamed;
    hide Closable;
    hide Visible;
    FoundInode(s, name, lk);
    RootOpened(s, lk);
    var s1 := WithRoot(s, lk);
    assert Slots(DirBytes(s1)) == Entries(s.disk);
    hide DirBytes;
    hide Entries;
    hide FitsInode;
    var v := Visible(Entries(s.disk), lk.lookups);
    var k := Lookup(v, name);
    if k < |v| && OpensInode(s, v[k].sector, lk.target) {
      RemoveFound(s, s1, k, lk);
    } else {
      RootClosed({ROOT}, s1, lk);
    }
  }

  /** dir_remove once the name has been found and its inode opened, and closing the directory. */
  lemma RemoveFound(s: State, s1: State, k: nat, lk: Luck)
    requires Core(s, {}) && Core(s1, {ROOT}) && RootFits(s.disk) && s1 == s.(inodes := s1.inodes) && Live(s1) == Live(s)
    requires ROOT in s1.inodes && s1.inodes - {ROOT} == s.inodes && ROOT !in s.inodes
    requires k < |Entries(s.disk)| && Entries(s.disk)[k].inUse && Entries(s.disk)[k].sector in Live(s1)
    requires var i := Entries(s.disk)[k].sector;
             i != FREE_MAP && i != ROOT && Readable(s1, i) && OpensInode(s1, i, lk.target)
    ensures var i := Entries(s.disk)[k].sector;
            var s2 := OpenInode(s1, i, lk.target);
            && DirOpen(s2) && k < |Slots(DirBytes(s2))| && i in s2.inodes && Closable(Erasure(s2, k, i, lk), i)
            && var s3 := CloseInode(Erasure(s2, k, i, lk), i, lk);
               && Closable(s3, ROOT)
               && if lk.entry then Unnamed(s, k, CloseInode(s3, ROOT, lk)) else CloseInode(s3, ROOT, lk) == s
  {
    if lk.entry {
      hide Unnamed;
      RemoveNamed(s, s1, k, lk);
    } else {
      hide Core;
      hide Live;
      hide CloseInode;
      RemoveFails(s, s1, k, lk);
      RootClosed({ROOT}, s1, lk);
    }
  }

  /** The entry could not be written: the inode that was opened is closed again. */
  lemma RemoveFails(s: State, s1: State, k: nat, lk: Luck)
    requires Core(s, {}) && Core(s1, {ROOT}) && RootFits(s.disk) && s1 == s.(inodes := s1.inodes)
    requires ROOT in s1.inodes && k < |Entries(s.disk)| && !lk.entry && Entries(s.disk)[k].sector in Live(s1)
    requires var i := Entries(s.disk)[k].sector;
             i != FREE_MAP && i != ROOT && Readable(s1, i) && OpensInode(s1, i, lk.target)
    ensures var i := Entries(s.disk)[k].sector;
            var s2 := OpenInode(s1, i, lk.target);
            && DirOpen(s2) && k < |Slots(DirBytes(s2))| && i in s2.inodes && Closable(Erasure(s2, k, i, lk), i)
            && CloseInode(Erasure(s2, k, i, lk), i, lk) == s1
  {
    hide Core;
    hide Live;
    var i := Entries(s.disk)[k].sector;
    Held({ROOT}, s1, ROOT);
    OpenKeeps({ROOT}, s1, i, lk.target);
    var s2 := OpenInode(s1, i, lk.target);
    Held({ROOT} + {i}, s2, ROOT);
    SlotAt(FileBytes(s.disk, ROOT), k);
    EntryWrite({ROOT} + {i}, s2, k, ErasedEntry(SlotBytes(FileBytes(s.disk, ROOT), k)), false);
    PositiveCounts({ROOT}, s1, i);
    OpenCloseRestores(s1, i, lk.target, lk);
  }

  lemma RemoveNamed(s: State, s1: State, k: nat, lk: Luck)
    requires Core(s, {}) && Core(s1, {ROOT}) && RootFits(s.disk) && s1 == s.(inodes := s1.inodes) && Live(s1) == Live(s)
    requires ROOT in s1.inodes && s1.inodes - {ROOT} == s.inodes && ROOT !in s.inodes
    requires k < |Entries(s.disk)| && Entries(s.disk)[k].inUse && lk.entry && Entries(s.disk)[k].sector in Live(s1)
    requires var i := Entries(s.disk)[k].sector;
             i != FREE_MAP && i != ROOT && Readable(s1, i) && OpensInode(s1, i, lk.target)
    ensures var i := Entries(s.disk)[k].sector;
            var s2 := OpenInode(s1, i, lk.target);
            && DirOpen(s2) && k < |Slots(DirBytes(s2))| && i in s2.inodes && Closable(Erasure(s2, k, i, lk), i)
            && var s3 := CloseInode(Erasure(s2, k, i, lk), i, lk);
               Closable(s3, ROOT) && Unnamed(s, k, CloseInode(s3, ROOT, lk))
  {
    hide Core;
    hide Live;
    hide CloseInode;
    hide Unnamed;
    hide Erased;
    var i := Entries(s.disk)[k].sector;
    Held({ROOT}, s1, ROOT);
    OpenKeeps({ROOT}, s1, i, lk.target);
    var s2 := OpenInode(s1, i, lk.target);
    EraseKeeps({ROOT} + {i}, s2, k, lk);
    OpenedCount({ROOT}, s1, i, lk.target);
    SameOpen(s, s1, i, lk.target);
    hide EraseEntry;
    hide OpenInode;
    RemovedClosed(s, s1, s2, Erasure(s2, k, i, lk), k, lk);
  }

  lemma OpenedCount(tmp: set<Sector>, s: State, i: Sector, memory: bool)
    requires Core(s, tmp) && Readable(s, i) && OpensInode(s, i, memory)
    ensures i in OpenInode(s, i, memory).inodes
    ensures OpenInode(s, i, memory).inodes[i].openCount == 1 <==> i !in s.inodes
  {
    PositiveCounts(tmp, s, i);
  }

  lemma RemovedClosed(s: State, s1: State, s2: State, s4: State, k: nat, lk: Luck)
    requires RootFits(s.disk) && RootFits(s2.disk) && s2 == s.(inodes := s2.inodes) && Live(s2) == Live(s)
    requires k < |Entries(s.disk)| && s1.inodes - {ROOT} == s.inodes
    requires Entries(s.disk)[k].sector != ROOT && Erased({ROOT} + {Entries(s.disk)[k].sector}, s2, k, s4)
    requires Entries(s.disk)[k].sector in s2.inodes
    requires s2.inodes[Entries(s.disk)[k].sector].openCount == 1 <==> Entries(s.disk)[k].sector !in s1.inodes
    requires Readable(s, Entries(s.disk)[k].sector) && ROOT in s2.inodes && ROOT !in s.inodes
    requires s2.inodes - {ROOT} == s.inodes[Entries(s.disk)[k].sector := OneMore(s, Entries(s.disk)[k].sector)]
    ensures Closable(s4, Entries(s.disk)[k].sector)
    ensures var s5 := CloseInode(s4, Entries(s.disk)[k].sector, lk);
            Closable(s5, ROOT) && Unnamed(s, k, CloseInode(s5, ROOT, lk))
  {
    hide Core;
    hide Live;
    hide CloseInode;
    hide Undisturbed;
    hide Entries;
    hide SameFile;
    hide Freed;
    var i := Entries(s.disk)[k].sector;
    var tmp := {ROOT} + {i};
    OpenIsLive(s2, i);
    CoreLayout(tmp, s4);
    SameFileInode(s2.disk, s4.disk, i);
    CloseKeeps(tmp, s4, i, lk);
    Held(tmp, s4, i);
    assert Leaves(s4, i) <==> s4.inodes[i].openCount == 1;
    hide Leaves;
    var s5 := CloseInode(s4, i, lk);
    assert tmp - {i} == {ROOT};
    RootClosed({ROOT}, s5, lk);
    assert {ROOT} - {ROOT} == {};
    var r := CloseInode(s5, ROOT, lk);
    ErasedUndisturbed(tmp, s2, k, s4);
    LiveRange(s4, s5);
    UndisturbedMore(s4, s5, {FREE_MAP}, {FREE_MAP, ROOT});
    UndisturbedChain(s2, s4, s5, {FREE_MAP, ROOT});
    DisksUndisturbed(s2, s5, s, r, {FREE_MAP, ROOT});
    assert i in s1.inodes <==> i in s.inodes by {
      assert i in s1.inodes <==> i in s1.inodes - {ROOT};
    }
    RemovedInodes(s, s2, s4, i, s5);
    if i !in s.inodes {
      FreedSame(s, s2, s4, i, s5, r);
    }
  }

  /** The inode opened, marked and closed again, and the directory's forgotten. */
  lemma RemovedInodes(s: State, s2: State, s4: State, i: Sector, s5: State)
    requires Readable(s, i) && i != ROOT && ROOT !in s.inodes && s2.inodes - {ROOT} == s.inodes[i := OneMore(s, i)]
    requires s4.inodes.Keys == s2.inodes.Keys && i in s2.inodes
    requires forall j | j in s2.inodes :: s4.inodes[j] == s2.inodes[j].(removed := s2.inodes[j].removed || j == i)
    requires forall j | j in s4.inodes && j != i :: j in s5.inodes && s5.inodes[j] == s4.inodes[j]
    requires forall j | j in s5.inodes :: j in s4.inodes
    requires i in s5.inodes <==> s4.inodes[i].openCount != 1
    requires i in s5.inodes ==> s5.inodes[i] == s4.inodes[i].(openCount := s4.inodes[i].openCount - 1)
    requires s2.inodes[i].openCount == 1 <==> i !in s.inodes
    ensures s5.inodes - {ROOT} == if i in s.inodes then s.inodes[i := s.inodes[i].(removed := true)] else s.inodes
  {
    hide Readable;
    var m := s2.inodes - {ROOT};
    assert m[i] == s2.inodes[i];
    forall j | j != ROOT && j != i ensures j in s5.inodes <==> j in s.inodes {
      assert j in s2.inodes <==> j in m;
    }
    forall j | j != ROOT && j != i && j in s.inodes ensures s5.inodes[j] == s.inodes[j] {
      assert j in m && m[j] == s2.inodes[j];
    }
  }

  lemma OpenIsLive(s: State, i: Sector)
    requires RootFits(s.disk) && i in s.inodes
    ensures i in Live(s)
  {
  }

  lemma SameFileInode(disk: seq<seq<Byte>>, disk': seq<seq<Byte>>, i: Sector)
    requires Disk(disk) && Disk(disk') && SameFile(disk, disk', i)
    ensures 0 <= i < |disk| == |disk'| && DecodeInode(disk'[i]) == DecodeInode(disk[i])
  {
  }

  lemma LiveRange(s: State, r: State)
    requires RootFits(s.disk) && RootFits(r.disk)
    ensures Live(s) * Live(r) <= Live(s)
  {
  }

  lemma UndisturbedMore(s: State, r: State, x: set<Sector>, x': set<Sector>)
    requires Undisturbed(s, r, x) && x <= x'
    ensures Undisturbed(s, r, x')
  {
  }

  lemma ErasedUndisturbed(tmp: set<Sector>, s: State, k: nat, r: State)
    requires RootFits(s.disk) && k < |Entries(s.disk)| && Erased(tmp, s, k, r) && RootFits(r.disk)
    ensures Undisturbed(s, r, {FREE_MAP, ROOT})
  {
    hide Core;
  }

  /** The sectors released are those the inode had before its entry was erased. */
  lemma FreedSame(s: State, s2: State, s4: State, i: Sector, s5: State, r: State)
    requires Disk(s.disk) && Disk(s4.disk) && s2.disk == s.disk && s2.used == s.used && s4.used == s2.used && r.used == s5.used
    requires |s4.disk| == |s.disk| && 0 <= i < |s.disk| && DecodeInode(s4.disk[i]) == DecodeInode(s.disk[i])
    requires Freed(s4, i, s5)
    ensures Freed(s, i, r)
  {
    assert forall k :: Owns(s4.disk, i, k) <==> Owns(s.disk, i, k);
  }

  // ---------------------------------------------------------------- open files

  /** The open inodes once file `f` is closed: its denial and its opener are no longer counted. */
  function InodesWithout(s: State, f: FileId): (r: map<Sector, MemInode>)
    requires f in s.files && s.files[f].inode in s.inodes
  {
    var i := s.files[f].inode;
    var m := s.inodes[i];
    if m.openCount == 1 then s.inodes - {i}
    else s.inodes[i := m.(openCount := m.openCount - 1, denyCount := m.denyCount - if s.files[f].denies then 1 else 0)]
  }

  /** file_close: if this was the last file on a removed inode its sectors are released, and
      otherwise nothing on the device changes. */
  lemma CloseStep(s: State, f: FileId, lk: Luck)
    requires Inv(s) && Enabled(s, Close(f, lk))
    ensures Safe(s, Close(f, lk)) && RootFits(s.disk)
    ensures var r := Next(s, Close(f, lk));
            var i := s.files[f].inode;
            && Inv(r) && Undisturbed(s, r, {FREE_MAP}) && Entries(r.disk) == Entries(s.disk)
            && r.files == s.files - {f} && FileOK(s, f) && r.inodes == InodesWithout(s, f)
            && Live(r) == (if Leaves(s, i) then Live(s) - {i} else Live(s))
            && (if LastRemoved(s, i) then Freed(s, i, r) else r.disk == s.disk && r.used == s.used)
  {
    hide Core;
    hide Live;
    hide CloseInode;
    hide Undisturbed;
    hide Entries;
    hide Freed;
    RootReadable(s);
    FileSafe({}, s, f);
    AllowKeeps({}, s, f);
    var s1, i := Allow(s, f), s.files[f].inode;
    DropFile({}, s1, f);
    var s2 := Dropped(s, f);
    assert {} + {i} == {i} && {i} - {i} == {};
    CloseKeeps({i}, s2, i, lk);
    DisksUndisturbed(s2, CloseInode(s2, i, lk), s, CloseInode(s2, i, lk), {FREE_MAP});
    FreedSameDisk(s, s2, i, CloseInode(s2, i, lk));
    ClosedInodes(s, s2, f, CloseInode(s2, i, lk));
  }

  lemma ClosedInodes(s: State, s2: State, f: FileId, r: State)
    requires f in s.files && s.files[f].inode in s.inodes && s2 == Dropped(s, f)
    requires var i := s.files[f].inode;
             && (forall j | j in s2.inodes && j != i :: j in r.inodes && r.inodes[j] == s2.inodes[j])
             && (forall j | j in r.inodes :: j in s2.inodes)
             && (i in r.inodes <==> s2.inodes[i].openCount != 1)
             && (i in r.inodes ==> r.inodes[i] == s2.inodes[i].(openCount := s2.inodes[i].openCount - 1))
    ensures r.inodes == InodesWithout(s, f)
  {
    hide Sane;
    var i, e := s.files[f].inode, InodesWithout(s, f);
    assert forall j | j != i :: (j in s2.inodes <==> j in s.inodes) && (j in s.inodes ==> s2.inodes[j] == s.inodes[j]);
    assert r.inodes.Keys == e.Keys by {
      assert forall j :: j in r.inodes <==> j in e;
    }
    assert forall j | j in e :: r.inodes[j] == e[j];
  }

  lemma FreedSameDisk(s: State, s2: State, i: Sector, r: State)
    requires Disk(s.disk) && s2.disk == s.disk && s2.used == s.used
    ensures Freed(s2, i, r) <==> Freed(s, i, r)
  {
  }

  /** file_write: the bytes from the file's position on, as many as fit, replace those of its
      inode, and no other file changes. */
  lemma WriteStep(s: State, f: FileId, data: seq<Byte>, lk: Luck)
    requires Inv(s) && Enabled(s, Write(f, data, lk))
    ensures Safe(s, Write(f, data, lk)) && RootFits(s.disk)
    ensures var r := Next(s, Write(f, data, lk));
            var i := s.files[f].inode;
            var n := MoveCount(s, f, |data|, true, lk);
            && Inv(r) && Undisturbed(s, r, {i}) && Entries(r.disk) == Entries(s.disk) && Live(r) == Live(s)
            && 0 <= i < |s.disk| && FitsInode(s.disk, DecodeInode(s.disk[i])) && FitsInode(r.disk, DecodeInode(r.disk[i]))
            && n <= |data| && (n > 0 ==> s.files[f].pos + n <= |FileBytes(s.disk, i)|)
            && FileBytes(r.disk, i) == Spliced(FileBytes(s.disk, i), s.files[f].pos, data[..n])
            && r.used == s.used && r.inodes == s.inodes && r.files == s.files[f := s.files[f].(pos := s.files[f].pos + n)]
  {
    hide Core;
    hide Live;
    hide WriteInode;
    hide Entries;
    hide Undisturbed;
    hide OnlyFile;
    hide FileBytes;
    hide Transfer;
    RootReadable(s);
    FileSafe({}, s, f);
    var i, pos := s.files[f].inode, s.files[f].pos;
    OpenIsLive(s, i);
    LiveInRange({}, s, i);
    WriteOnlyFile({}, s, i, data, pos, lk.entry);
    var s1 := WriteInode(s, i, data, pos, lk.entry);
    OnlyFileKeeps({}, s, s1, i);
    CoreLayout({}, s1);
    OnlyUndisturbed(s, s1, i);
    LiveInRange({}, s1, i);
    PositionsKeep({}, s1, f, pos + MoveCount(s, f, |data|, true, lk));
    DisksUndisturbed(s, s1, s, Next(s, Write(f, data, lk)), {i});
    FileLength(s.disk, i);
  }

  lemma FileLength(disk: seq<seq<Byte>>, i: Sector)
    requires Disk(disk) && 0 <= i < |disk| && FitsInode(disk, DecodeInode(disk[i]))
    ensures |FileBytes(disk, i)| == DecodeInode(disk[i]).length
  {
  }

  lemma OnlyUndisturbed(s: State, r: State, i: Sector)
    requires RootFits(s.disk) && RootFits(r.disk) && OnlyFile(s, r, i)
    ensures Undisturbed(s, r, {i})
  {
    hide Live;
  }

  predicate KeepsDisk(a: Action) {
    a.Read? || a.Seek? || a.DenyWrite? || a.AllowWrite?
  }

  /** How many of `size` bytes lie between a position and the end of the file; without memory only
      the whole sectors of an aligned request are moved. */
  function Movable(length: nat, size: nat, pos: nat, memory: bool): (n: nat) {
    var n := if pos >= length then 0 else if size < length - pos then size else length - pos;
    if memory then n else if pos % SECTOR == 0 then n - n % SECTOR else 0
  }

  lemma MovesMovable(length: nat, size: nat, pos: nat, memory: bool)
    ensures Transfer(length, size, pos, memory) == Movable(length, size, pos, memory)
  {
  }

  /** A file's position after a call that keeps the device: reading moves it behind what was read. */
  function PosAfter(h: File, length: nat, a: Action): (pos: nat)
    requires KeepsDisk(a)
  {
    match a
    case Read(_, size, lk) => h.pos + Movable(length, size, h.pos, lk.entry)
    case Seek(_, pos) => pos
    case _ => h.pos
  }

  /** Whether the file denies writes then. */
  predicate DeniesAfter(h: File, a: Action) {
    a.DenyWrite? || (h.denies && !a.AllowWrite?)
  }

  /** Reading, seeking and denying or allowing writes leave the device alone, and of the rest they
      change the position and the denial of one file and count the files that deny. */
  lemma QuietStep(s: State, a: Action)
    requires Inv(s) && Enabled(s, a) && KeepsDisk(a)
    ensures Safe(s, a) && RootFits(s.disk)
    ensures var r := Next(s, a); Inv(r) && r.disk == s.disk && r.used == s.used && Live(r) == Live(s)
    ensures FileOK(s, a.file)
    ensures var r, h := Next(s, a), s.files[a.file];
            var m := s.inodes[h.inode];
            && r.files == s.files[a.file := File(h.inode, PosAfter(h, m.data.length, a), DeniesAfter(h, a))]
            && r.inodes == s.inodes[h.inode := m.(denyCount := |Deniers(r.files, h.inode)|)]
  {
    hide Core;
    hide Live;
    hide FitsInode;
    hide WithRoot;
    hide CreateIn;
    hide RemoveIn;
    hide OpenIn;
    hide OpenFile;
    hide CloseInode;
    hide WriteInode;
    RootReadable(s);
    FileSafe({}, s, a.file);
    match a {
      case Read(f, n, lk) => PositionsKeep({}, s, f, s.files[f].pos + MoveCount(s, f, n, false, lk));
      case Seek(f, pos) => PositionsKeep({}, s, f, pos);
      case DenyWrite(f) => DenyKeeps({}, s, f);
      case AllowWrite(f) => AllowKeeps({}, s, f);
    }
    DenialsCounted(Next(s, a), s.files[a.file].inode);
  }

  lemma DenialsCounted(s: State, i: Sector)
    requires Inv(s) && i in s.inodes
    ensures s.inodes[i].denyCount == |Deniers(s.files, i)|
  {
    CoreCounts({}, s);
    hide Core;
    assert CountOK(s.inodes[i], s.files, i, false);
  }

  // ---------------------------------------------------------------- every call

  /** The inodes whose contents a call may change: the free map and the root directory, and the
      file a write is for. */
  function Touched(s: State, a: Action): (x: set<Sector>)
    requires Enabled(s, a)
  {
    match a
    case Create(_, _, _) => {FREE_MAP, ROOT}
    case Remove(_, _) => {FREE_MAP, ROOT}
    case Close(_, _) => {FREE_MAP}
    case Write(f, _, _) => {s.files[f].inode}
    case _ => {}
  }

  /** Whatever is called next, no assertion fails, the invariant holds again, and no file but
      those the call is about changes. */
  lemma StepKeeps(s: State, a: Action)
    requires Inv(s) && Enabled(s, a)
    ensures Safe(s, a) && Inv(Next(s, a)) && Undisturbed(s, Next(s, a), Touched(s, a))
  {
    hide Core;
    hide Undisturbed;
    hide Next;
    match a
    case Create(name, size, lk) => CreateStep(s, name, size, lk);
    case Remove(name, lk) =>
      RemoveStep(s, name, lk);
      SameDiskUndisturbed({}, s, s, {FREE_MAP, ROOT});
    case Close(f, lk) => CloseStep(s, f, lk);
    case Write(f, data, lk) => WriteStep(s, f, data, lk);
    case Open(name, f, lk) =>
      OpenStep(s, name, f, lk);
      SameDiskUndisturbed({}, s, Next(s, a), {});
    case _ =>
      QuietStep(s, a);
      SameDiskUndisturbed({}, s, Next(s, a), {});
  }
}
