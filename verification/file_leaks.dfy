/** Whether every sector that is marked used belongs to somebody. */
module FileLeaks {
  import opened InodeIo
  import opened DiskFormat
  import opened FileSystem
  import opened FileLayout
  import opened FileInvariant
  import opened FileDirectory
  import opened FileSteps
  import opened FileMap
  import opened FileRemount
  import opened FileSpace
  import opened FileStart
  import opened FileView
  import FileFormat
  import FileRuns

  /** Sector `k` is the inode of the file in sector `i` or one of its data. */
  predicate OwnsIn(v: View, i: Sector, k: int) {
    i in v.content && (k == i || InData(v.content[i].data, k))
  }

  /** The last sector formatting takes: the free map, the root directory and their inodes end there. */
  function SystemEnd(v: View): (k: nat) {
    RootInode(|v.used|).start
  }

  /** Every sector marked used is the system's or belongs to a file that has a name or is open. */
  ghost predicate Accounted(v: View) {
    forall k | SystemEnd(v) < k < |v.used| && v.used[k] :: exists i :: OwnsIn(v, i, k)
  }

  /** Files' sectors are marked and no two files share one; names lead to files. */
  ghost predicate Owned(v: View) {
    && (forall i, k | OwnsIn(v, i, k) :: 0 <= k < |v.used| && v.used[k])
    && (forall i, j, k | OwnsIn(v, i, k) && OwnsIn(v, j, k) :: i == j)
    && (forall i | i in Named(v.entries) :: i in v.content)
  }

  /** The system's sectors stay marked, and no file has one. */
  ghost predicate SystemKept(v: View) {
    && SystemEnd(v) < |v.used| && (forall k | 0 <= k <= SystemEnd(v) :: v.used[k])
    && forall i, k | OwnsIn(v, i, k) :: k > SystemEnd(v)
  }

  lemma ViewOwned(s: State)
    requires Inv(s)
    ensures Shown(s) && Owned(ViewOf(s))
  {
    InvShown(s);
    CoreLayout({}, s);
    CoreEntries({}, s);
    hide Core;
    hide Live;
    hide FilesIn;
    hide Entries;
    hide Shown;
    var v := ViewOf(s);
    forall i, k | OwnsIn(v, i, k) ensures i in Live(s) && Owns(s.disk, i, k) && 0 <= k < |s.used| && s.used[k] {
      OwnsShown(s, i, k);
    }
    forall i | i in Named(v.entries) ensures i in v.content {
      NamedShown(s, i);
    }
  }

  lemma OwnsShown(s: State, i: Sector, k: int)
    requires Inv(s) && Shown(s) && OwnsIn(ViewOf(s), i, k)
    ensures i in Live(s) && Owns(s.disk, i, k) && 0 <= k < |s.used| && s.used[k]
  {
    CoreLayout({}, s);
    hide Core;
    hide Live;
    InView(s, i);
    assert Placed(s.disk, s.used, i);
  }

  lemma NamedShown(s: State, i: Sector)
    requires Inv(s) && Shown(s) && i in Named(Entries(s.disk))
    ensures i in FilesIn(s)
  {
    CoreEntries({}, s);
    NamedAreLive(s);
    hide Core;
    hide Entries;
    hide Live;
    InView(s, i);
  }

  // ---------------------------------------------------------------- what leaks

  /** The create goes through and overwrites the entry of a file that nobody has open. */
  predicate Overwrites(v: View, lk: Luck) {
    SlotFor(v.entries, lk) < |v.entries| && Gone(v.entries, SlotFor(v.entries, lk)) - v.inodes.Keys != {}
  }

  predicate Enters(v: View, name: seq<Byte>, lk: Luck) {
    NameOK(name) && lk.entry && !Finds(v.entries, name, lk) && SlotFor(v.entries, lk) < |v.entries|
  }

  /** Judged before the call: sectors stay marked that nobody has any more. A create got its data but
      cannot enter the name, or overwrites the name of a file; or a file that lost its name in that
      way is closed. */
  predicate Leaks(v: View, a: Action)
    requires HandleOK(v, a)
  {
    match a
    case Create(name, size, lk) =>
      && DirOpens(v, lk) && TakesRun(v.used, size, lk)
      && if Enters(v, name, lk) then Overwrites(v, lk) else AskedSectors(size) > 0
    case Close(f, _) =>
      var i := v.files[f].inode;
      v.inodes[i].openCount == 1 && !v.inodes[i].removed && i !in Named(v.entries) && i in v.content
    case _ => false
  }

  /** A reboot loses the open files that have no name, and marks what only the stored map marks. */
  ghost predicate RebootLeaks(v: View) {
    (exists i :: i in v.content && i !in Named(v.entries)) || exists k :: 0 <= k < |v.used| && k < |v.stored| && v.stored[k] && !v.used[k]
  }

  ghost predicate EventLeaks(v: View, e: FileRuns.Event) {
    match e
    case Call(a) => HandleOK(v, a) && Leaks(v, a)
    case Reboot => RebootLeaks(v)
  }

  // ---------------------------------------------------------------- exactly those

  /** The same files own the same sectors, and the same are marked. */
  lemma SameAccounts(v: View, r: View)
    requires r.used == v.used && r.content.Keys == v.content.Keys
    requires forall i | i in v.content :: r.content[i].data == v.content[i].data
    ensures Accounted(r) <==> Accounted(v)
    ensures SystemKept(r) <==> SystemKept(v)
  {
    assert forall i, k :: OwnsIn(r, i, k) <==> OwnsIn(v, i, k);
  }

  /** A file goes whose sectors are given back. */
  lemma VanishedAccounts(v: View, i: Sector, lk: Luck)
    requires Owned(v) && SystemKept(v) && Accounted(v)
    ensures Accounted(Vanished(v, i, lk)) && SystemKept(Vanished(v, i, lk))
  {
    var r := Vanished(v, i, lk);
    if i in v.content {
      assert forall j, k :: OwnsIn(r, j, k) <==> OwnsIn(v, j, k) && j != i;
      assert forall k | 0 <= k < |v.used| :: r.used[k] <==> v.used[k] && !OwnsIn(v, i, k);
      forall k | SystemEnd(r) < k < |r.used| && r.used[k] ensures exists j :: OwnsIn(r, j, k) {
        var j :| OwnsIn(v, j, k);
        assert OwnsIn(r, j, k);
      }
    }
  }

  /** A file goes whose sectors stay marked. */
  lemma LostLeaks(v: View, r: View, i: Sector)
    requires Owned(v) && SystemKept(v) && i in v.content && r.used == v.used && r.content == v.content - {i}
    ensures !Accounted(r) && SystemKept(r)
  {
    assert OwnsIn(v, i, i);
    assert forall j, k :: OwnsIn(r, j, k) <==> OwnsIn(v, j, k) && j != i;
    assert r.used[i] && SystemEnd(r) < i;
  }

  /** More sectors are marked, and a new file has them. */
  lemma NewAccounts(v: View, r: View, i: Sector, d: DiskInode)
    requires Owned(v) && SystemKept(v) && Accounted(v) && 0 <= i < |v.used| && !v.used[i]
    requires |r.used| == |v.used| && forall k | 0 <= k < |v.used| :: r.used[k] <==> v.used[k] || k == i || InData(d, k)
    requires forall k | 0 <= k < |v.used| && InData(d, k) :: !v.used[k]
    requires i in r.content && r.content.Keys == v.content.Keys + {i} && r.content[i].data == d
    requires forall j | j in v.content && j != i :: r.content[j] == v.content[j]
    ensures Accounted(r) && SystemKept(r)
  {
    assert i !in v.content by {
      if i in v.content {
        assert OwnsIn(v, i, i);
      }
    }
    assert forall j, k | j != i :: OwnsIn(r, j, k) <==> OwnsIn(v, j, k);
    assert forall k :: OwnsIn(r, i, k) <==> k == i || InData(d, k);
    forall k | SystemEnd(r) < k < |r.used| && r.used[k] ensures exists j :: OwnsIn(r, j, k) {
      if v.used[k] {
        var j :| OwnsIn(v, j, k);
        assert j != i && OwnsIn(r, j, k);
      } else {
        assert OwnsIn(r, i, k);
      }
    }
    NewApart(v, i, d);
  }

  lemma NewApart(v: View, i: Sector, d: DiskInode)
    requires SystemKept(v) && 0 <= i < |v.used| && !v.used[i]
    requires forall k | 0 <= k < |v.used| && InData(d, k) :: !v.used[k]
    ensures i > SystemEnd(v) && forall k | InData(d, k) :: k > SystemEnd(v)
  {
    assert forall k | 0 <= k <= SystemEnd(v) :: v.used[k];
    forall k | InData(d, k) ensures k > SystemEnd(v) {
      assert k >= 0;
    }
  }

  /** The same, but the new entry replaces that of file `j`, whose sectors stay marked. */
  lemma OverwriteLeaks(v: View, r: View, i: Sector, d: DiskInode, j: Sector)
    requires Owned(v) && SystemKept(v) && 0 <= i < |v.used| && !v.used[i] && j in v.content
    requires |r.used| == |v.used| && forall k | 0 <= k < |v.used| :: r.used[k] <==> v.used[k] || k == i || InData(d, k)
    requires forall k | 0 <= k < |v.used| && InData(d, k) :: !v.used[k]
    requires i in r.content && r.content.Keys == v.content.Keys - {j} + {i} && r.content[i].data == d
    requires forall x | x in v.content && x != i && x != j :: r.content[x] == v.content[x]
    ensures !Accounted(r) && SystemKept(r)
  {
    assert OwnsIn(v, j, j);
    assert i != j && v.used[j] && j > SystemEnd(v);
    assert forall x, k | x != i :: OwnsIn(r, x, k) <==> OwnsIn(v, x, k) && x != j;
    assert forall k :: OwnsIn(r, i, k) <==> k == i || InData(d, k);
    assert forall x :: !OwnsIn(r, x, j);
    NewApart(v, i, d);
  }

  /** Sectors are marked for data that no file gets. */
  lemma RunLeaks(v: View, r: View, start: nat, n: nat)
    requires Owned(v) && SystemKept(v) && Accounted(v) && start + n <= |v.used| && RunFree(v.used, start, n)
    requires r.used == SetRun(v.used, start, n, true) && r.content == v.content
    ensures (Accounted(r) <==> n == 0) && SystemKept(r)
  {
    assert forall i, k :: OwnsIn(r, i, k) <==> OwnsIn(v, i, k);
    if n == 0 {
      assert r.used == v.used;
    } else {
      assert r.used[start] && !v.used[start];
      assert forall i :: !OwnsIn(r, i, start);
      assert start > SystemEnd(r);
    }
  }

  lemma CreateAccounts(v: View, name: seq<Byte>, size: nat, lk: Luck)
    requires Owned(v) && SystemKept(v) && Accounted(v) && |v.used| < DEVICE_MAX && size < SIZE_MAX
    ensures var r := CreateView(v, name, size, lk);
            SystemKept(r) && (Accounted(r) <==> !Leaks(v, Create(name, size, lk)))
  {
    hide Owned;
    hide SystemKept;
    hide Accounted;
    hide CreateMap;
    hide Finds;
    hide SlotFor;
    hide FirstFit;
    hide MapSize;
    var r, d := CreateView(v, name, size, lk), DataFor(v.used, size);
    if !DirOpens(v, lk) {
      SameAccounts(v, r);
    } else if !TakesRun(v.used, size, lk) {
      SameAccounts(v, r);
    } else {
      RunApart(v.used, size, lk);
      assert AskedSectors(size) == SectorsFor(size);
      if Enters(v, name, lk) {
        CreatedAccounts(v, name, size, lk);
      } else {
        RunLeaks(v, r, d.start, AskedSectors(size));
      }
    }
  }

  lemma CreatedAccounts(v: View, name: seq<Byte>, size: nat, lk: Luck)
    requires Owned(v) && SystemKept(v) && Accounted(v) && size < SIZE_MAX && AskedSectors(size) == SectorsFor(size)
    requires DirOpens(v, lk) && TakesRun(v.used, size, lk) && Enters(v, name, lk)
    requires var i, d := FirstFit(v.used, 0, 1), DataFor(v.used, size);
             !v.used[i] && !(d.start <= i < d.start + SectorsFor(size)) && RunFree(v.used, d.start, SectorsFor(size))
    ensures var r := CreateView(v, name, size, lk);
            SystemKept(r) && (Accounted(r) <==> !Overwrites(v, lk))
  {
    hide SystemKept;
    hide Accounted;
    hide CreateMap;
    hide Finds;
    hide SlotFor;
    hide FirstFit;
    hide MapSize;
    hide SectorsFor;
    var r, d, i := CreateView(v, name, size, lk), DataFor(v.used, size), FirstFit(v.used, 0, 1);
    var k := SlotFor(v.entries, lk);
    var gone := Gone(v.entries, k) - v.inodes.Keys;
    assert r.content[i].data == d;
    if Overwrites(v, lk) {
      var j := v.entries[k].sector;
      assert j in Named(v.entries) && gone == {j};
      hide Owned;
      OverwriteLeaks(v, r, i, d, j);
    } else {
      assert v.content - gone == v.content;
      hide Owned;
      NewAccounts(v, r, i, d);
    }
  }

  lemma CloseAccounts(v: View, f: FileId, lk: Luck)
    requires Owned(v) && SystemKept(v) && Accounted(v) && HandleOK(v, Close(f, lk))
    ensures var r := CloseView(v, f, lk);
            SystemKept(r) && (Accounted(r) <==> !Leaks(v, Close(f, lk)))
  {
    hide SystemKept;
    hide Accounted;
    hide Vanished;
    var r, i := CloseView(v, f, lk), v.files[f].inode;
    if v.inodes[i].openCount != 1 {
      hide Owned;
      SameAccounts(v, r);
    } else if v.inodes[i].removed {
      var v2 := v.(files := v.files - {f}, inodes := v.inodes - {i});
      assert Owned(v2) by {
        assert forall j, k :: OwnsIn(v2, j, k) <==> OwnsIn(v, j, k);
      }
      hide Owned;
      SameAccounts(v, v2);
      VanishedAccounts(v2, i, lk);
    } else if i in Named(v.entries) || i !in v.content {
      hide Owned;
      assert i !in v.content ==> v.content - {i} == v.content;
      SameAccounts(v, r);
    } else {
      hide Owned;
      LostLeaks(v, r, i);
    }
  }

  lemma RemoveAccounts(v: View, name: seq<Byte>, lk: Luck)
    requires Owned(v) && SystemKept(v) && Accounted(v)
    ensures var r := RemoveView(v, name, lk); SystemKept(r) && Accounted(r)
  {
    hide SystemKept;
    hide Accounted;
    hide Vanished;
    hide Named;
    var r := RemoveView(v, name, lk);
    match Leads(v, name, lk)
    case None => SameAccounts(v, r);
    case Some(k) =>
      if !lk.entry || k >= |v.entries| || v.entries[k].sector in v.inodes {
        SameAccounts(v, r);
      } else {
        var v1 := v.(entries := v.entries[k := v.entries[k].(inUse := false)]);
        SameAccounts(v, v1);
        OneLess(v, k);
        VanishedAccounts(v1, v.entries[k].sector, lk);
      }
  }

  lemma OneLess(v: View, k: nat)
    requires Owned(v) && k < |v.entries|
    ensures Owned(v.(entries := v.entries[k := v.entries[k].(inUse := false)]))
  {
    var v1 := v.(entries := v.entries[k := v.entries[k].(inUse := false)]);
    assert forall j, x :: OwnsIn(v1, j, x) <==> OwnsIn(v, j, x);
    forall j | j in Named(v1.entries) ensures j in v.content {
      var m :| 0 <= m < |v1.entries| && v1.entries[m].inUse && v1.entries[m].sector == j;
      assert v.entries[m].inUse && v.entries[m].sector == j;
      assert j in Named(v.entries);
    }
  }

  lemma OtherAccounts(v: View, a: Action)
    requires HandleOK(v, a) && (a.Open? || a.Write? || KeepsDisk(a))
    ensures var r := NextView(v, a); (SystemKept(r) <==> SystemKept(v)) && (Accounted(r) <==> Accounted(v)) && !Leaks(v, a)
  {
    hide SystemKept;
    hide Accounted;
    hide Moved;
    hide Overlaid;
    SameAccounts(v, NextView(v, a));
  }

  /** One call leaves every marked sector somebody's exactly when it is not one of those. */
  lemma StepAccountedIff(s: State, a: Action)
    requires Inv(s) && Enabled(s, a) && Shown(s) && SystemKept(ViewOf(s)) && Accounted(ViewOf(s))
    ensures Safe(s, a) && Shown(Next(s, a)) && HandleOK(ViewOf(s), a) && SystemKept(ViewOf(Next(s, a)))
    ensures Accounted(ViewOf(Next(s, a))) <==> !Leaks(ViewOf(s), a)
  {
    StepRefines(s, a);
    ViewOwned(s);
    Small(s);
    hide Core;
    hide Next;
    hide Safe;
    hide ViewOf;
    hide Shown;
    hide SystemKept;
    hide Accounted;
    hide Owned;
    hide Leaks;
    var v := ViewOf(s);
    match a
    case Create(name, size, lk) => CreateAccounts(v, name, size, lk);
    case Remove(name, lk) =>
      RemoveAccounts(v, name, lk);
      assert !Leaks(v, a);
    case Close(f, lk) => CloseAccounts(v, f, lk);
    case _ => OtherAccounts(v, a);
  }

  lemma Small(s: State)
    requires Inv(s) && Shown(s)
    ensures |ViewOf(s).used| < DEVICE_MAX && |StoredMap(s.disk)| == |s.used|
  {
    CoreLayout({}, s);
    hide Core;
  }

  lemma RebootAccounts(v: View)
    requires Owned(v) && SystemKept(v) && Accounted(v) && FREE_MAP in v.inodes && Covering(Marks(v))
    ensures var r := RebootView(v); SystemKept(r) && (Accounted(r) <==> !RebootLeaks(v))
  {
    var r := RebootView(v);
    hide Named;
    assert forall j, k :: OwnsIn(r, j, k) <==> OwnsIn(v, j, k) && j in Named(v.entries);
    if i :| i in v.content && i !in Named(v.entries) {
      assert OwnsIn(v, i, i);
      assert forall j :: !OwnsIn(r, j, i);
      assert r.used[i] && i > SystemEnd(r);
    } else if k :| 0 <= k < |v.used| && k < |v.stored| && v.stored[k] && !v.used[k] {
      assert forall j :: !OwnsIn(r, j, k);
      assert r.used[k] && k > SystemEnd(r);
    } else {
      forall k | SystemEnd(r) < k < |r.used| && r.used[k] ensures exists j :: OwnsIn(r, j, k) {
        var j :| OwnsIn(v, j, k);
        assert OwnsIn(r, j, k);
      }
    }
  }

  lemma EventAccountedIff(s: State, e: FileRuns.Event, s': State)
    requires FileRuns.Holds(s) && FileRuns.Step(s, e, s') && Shown(s) && SystemKept(ViewOf(s)) && Accounted(ViewOf(s))
    ensures Shown(s') && SystemKept(ViewOf(s')) && (Accounted(ViewOf(s')) <==> !EventLeaks(ViewOf(s), e))
  {
    hide Core;
    hide Next;
    hide Safe;
    hide Shown;
    hide SystemKept;
    hide Accounted;
    hide Leaks;
    hide RebootLeaks;
    hide MapCovers;
    hide FileFormat.Mounted;
    match e
    case Call(a) => StepAccountedIff(s, a);
    case Reboot =>
      RebootRefines(s);
      ViewOwned(s);
      hide Owned;
      CoveringShown(s);
      RebootAccounts(ViewOf(s));
  }

  lemma CoveringShown(s: State)
    requires FileRuns.Holds(s) && Shown(s)
    ensures Covering(Marks(ViewOf(s)))
  {
    hide Inv;
    hide MapCovers;
    CoveringIff(s);
  }

  lemma FormattedAccounted(s: State)
    requires Formatted(s) && Shown(s)
    ensures SystemKept(ViewOf(s)) && Accounted(ViewOf(s))
  {
    FormattedBlank(s);
  }

  /** Over every run of calls and reboots: up to a moment every marked sector has always been the
      system's or a file's exactly when no event before was one of those. */
  lemma {:induction false} RunAccountedIff(ss: seq<State>, es: seq<FileRuns.Event>, n: nat)
    requires FileRuns.IsRun(ss, es) && n < |ss|
    ensures forall m | 0 <= m <= n :: Shown(ss[m])
    ensures (forall m | 0 <= m <= n :: Accounted(ViewOf(ss[m]))) <==> (forall m | 0 <= m < n :: !EventLeaks(ViewOf(ss[m]), es[m]))
    ensures (forall m | 0 <= m <= n :: Accounted(ViewOf(ss[m]))) ==> SystemKept(ViewOf(ss[n]))
  {
    hide FileRuns.Step;
    hide FileRuns.Holds;
    hide Inv;
    hide ViewOf;
    hide Shown;
    hide SystemKept;
    hide Accounted;
    hide EventLeaks;
    hide Formatted;
    hide Safe;
    FileRuns.RunInvariant(ss, es, n);
    InvShown(ss[n]);
    if n == 0 {
      FormattedAccounted(ss[0]);
    } else {
      RunAccountedIff(ss, es, n - 1);
      FileRuns.RunInvariant(ss, es, n - 1);
      assert FileRuns.Step(ss[n - 1], es[n - 1], ss[n - 1 + 1]);
      if forall m | 0 <= m <= n - 1 :: Accounted(ViewOf(ss[m])) {
        EventAccountedIff(ss[n - 1], es[n - 1], ss[n]);
      }
    }
  }
}
