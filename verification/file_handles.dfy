/** Open files: what adding, dropping and changing them does to the counts. */
module FileHandles {
  import opened FileSystem
  import opened FileLayout
  import opened FileInvariant

  lemma SubsetSize<T>(a: set<T>, b: set<T>)
    requires a <= b
    ensures |a| <= |b| && (a < b ==> |a| < |b|)
  {
    assert b == a + (b - a);
    assert a < b ==> b - a != {};
  }

  /** A change of `files` and of the open inodes' counts that keeps the counts right. */
  lemma CountsCore(tmp: set<Sector>, tmp': set<Sector>, s: State, r: State)
    requires Core(s, tmp) && r == s.(files := r.files, inodes := r.inodes) && r.inodes.Keys == s.inodes.Keys
    requires forall i | i in s.inodes :: r.inodes[i] == s.inodes[i].(denyCount := r.inodes[i].denyCount)
    requires Counts(r, tmp')
    ensures Core(r, tmp') && Live(r) == Live(s)
  {
    hide Layout;
    hide Entries;
    hide Named;
    hide EntriesOK;
    hide CountOK;
    assert Live(r) == Live(s);
  }

  lemma CoreCounts(tmp: set<Sector>, s: State)
    requires Core(s, tmp)
    ensures Counts(s, tmp) && RootFits(s.disk) && Sane(s)
  {
  }

  /** Moving positions. */
  lemma PositionsKeep(tmp: set<Sector>, s: State, f: FileId, pos: nat)
    requires Core(s, tmp) && f in s.files
    ensures var r := s.(files := s.files[f := s.files[f].(pos := pos)]);
            Core(r, tmp) && Live(r) == Live(s)
  {
    hide Core;
    hide Live;
    CoreCounts(tmp, s);
    var r := s.(files := s.files[f := s.files[f].(pos := pos)]);
    forall i | i in s.inodes ensures CountOK(r.inodes[i], r.files, i, i in tmp) {
      assert CountOK(s.inodes[i], s.files, i, i in tmp);
      assert Openers(r.files, i) == Openers(s.files, i) && Deniers(r.files, i) == Deniers(s.files, i);
    }
    CountsCore(tmp, tmp, s, r);
  }

  /** A new file takes over the opener its call held. */
  lemma AddFile(tmp: set<Sector>, s: State, f: FileId, i: Sector)
    requires Core(s, tmp) && i in tmp && i != ROOT && f !in s.files
    ensures var r := s.(files := s.files[f := File(i, 0, false)]);
            Core(r, tmp - {i}) && Live(r) == Live(s)
  {
    hide Core;
    hide Live;
    CoreCounts(tmp, s);
    AddFileCounts(tmp, s, f, i);
    CountsCore(tmp, tmp - {i}, s, s.(files := s.files[f := File(i, 0, false)]));
  }

  lemma AddFileCounts(tmp: set<Sector>, s: State, f: FileId, i: Sector)
    requires Counts(s, tmp) && i in tmp && i != ROOT && f !in s.files
    ensures Counts(s.(files := s.files[f := File(i, 0, false)]), tmp - {i})
  {
    var fs := s.files[f := File(i, 0, false)];
    forall j | j in s.inodes ensures CountOK(s.inodes[j], fs, j, j in tmp - {i}) {
      assert CountOK(s.inodes[j], s.files, j, j in tmp);
      OpenersAdd(s.files, f, i, j);
    }
  }

  lemma OpenersAdd(fs: map<FileId, File>, f: FileId, i: Sector, j: Sector)
    requires f !in fs
    ensures var fs' := fs[f := File(i, 0, false)];
            && |Openers(fs', j)| == |Openers(fs, j)| + (if j == i then 1 else 0)
            && Deniers(fs', j) == Deniers(fs, j)
  {
    var fs' := fs[f := File(i, 0, false)];
    if j == i {
      assert Openers(fs', j) == Openers(fs, j) + {f} && f !in Openers(fs, j);
    } else {
      assert Openers(fs', j) == Openers(fs, j);
    }
  }

  /** A file that goes leaves its opener to the call that closes it. */
  lemma DropFile(tmp: set<Sector>, s: State, f: FileId)
    requires Core(s, tmp) && f in s.files && !s.files[f].denies && s.files[f].inode !in tmp
    ensures var r := s.(files := s.files - {f});
            && Core(r, tmp + {s.files[f].inode}) && Live(r) == Live(s)
            && s.files[f].inode in s.inodes && s.files[f].inode != FREE_MAP && s.files[f].inode != ROOT
  {
    hide Core;
    hide Live;
    CoreCounts(tmp, s);
    DropFileCounts(tmp, s, f);
    CountsCore(tmp, tmp + {s.files[f].inode}, s, s.(files := s.files - {f}));
  }

  lemma DropFileCounts(tmp: set<Sector>, s: State, f: FileId)
    requires Counts(s, tmp) && f in s.files && !s.files[f].denies && s.files[f].inode !in tmp
    ensures Counts(s.(files := s.files - {f}), tmp + {s.files[f].inode})
  {
    var fs, i := s.files - {f}, s.files[f].inode;
    forall j | j in s.inodes ensures CountOK(s.inodes[j], fs, j, j in tmp + {i}) {
      assert CountOK(s.inodes[j], s.files, j, j in tmp);
      assert Deniers(fs, j) == Deniers(s.files, j);
      assert Openers(fs, j) == Openers(s.files, j) - {f};
      assert f in Openers(s.files, j) <==> j == i;
    }
  }

  /** What an open file guarantees: its inode is open, and the assertions about denial counts
      hold. */
  lemma FileSafe(tmp: set<Sector>, s: State, f: FileId)
    requires Core(s, tmp) && f in s.files
    ensures FileOK(s, f) && AllowOK(s, f) && s.files[f].inode != ROOT
  {
    hide Core;
    CoreCounts(tmp, s);
    var i := s.files[f].inode;
    assert CountOK(s.inodes[i], s.files, i, i in tmp);
    assert f in Openers(s.files, i) && (f in Deniers(s.files, i) <==> s.files[f].denies);
    SubsetSize(Deniers(s.files, i), Openers(s.files, i));
    if s.files[f].denies {
      SubsetSize({f}, Deniers(s.files, i));
    } else {
      assert Deniers(s.files, i) < Openers(s.files, i);
    }
  }

  /** One file starts or stops denying writes. */
  function SetDeny(s: State, f: FileId, v: bool): (r: State)
    requires f in s.files && s.files[f].inode in s.inodes
  {
    var i, d := s.files[f].inode, if v then 1 else -1;
    s.(files := s.files[f := s.files[f].(denies := v)],
       inodes := s.inodes[i := s.inodes[i].(denyCount := s.inodes[i].denyCount + d)])
  }

  lemma SetDenyCounts(tmp: set<Sector>, s: State, f: FileId, v: bool)
    requires Counts(s, tmp) && f in s.files && s.files[f].denies == !v
    ensures Counts(SetDeny(s, f, v), tmp)
  {
    var r, i := SetDeny(s, f, v), s.files[f].inode;
    forall j | j in s.inodes ensures CountOK(r.inodes[j], r.files, j, j in tmp) {
      assert CountOK(s.inodes[j], s.files, j, j in tmp);
      assert Openers(r.files, j) == Openers(s.files, j);
      DeniersChange(s.files, f, v, j);
    }
  }

  lemma DeniersChange(fs: map<FileId, File>, f: FileId, v: bool, j: Sector)
    requires f in fs && fs[f].denies == !v
    ensures |Deniers(fs[f := fs[f].(denies := v)], j)|
            == |Deniers(fs, j)| + if j != fs[f].inode then 0 else if v then 1 else -1
  {
    var fs' := fs[f := fs[f].(denies := v)];
    if j != fs[f].inode {
      assert Deniers(fs', j) == Deniers(fs, j);
    } else if v {
      assert Deniers(fs', j) == Deniers(fs, j) + {f} && f !in Deniers(fs, j);
    } else {
      assert Deniers(fs', j) == Deniers(fs, j) - {f} && f in Deniers(fs, j);
    }
  }

  lemma SetDenyKeeps(tmp: set<Sector>, s: State, f: FileId, v: bool)
    requires Core(s, tmp) && f in s.files && s.files[f].denies == !v
    ensures s.files[f].inode in s.inodes && Core(SetDeny(s, f, v), tmp) && Live(SetDeny(s, f, v)) == Live(s)
  {
    hide Core;
    hide Live;
    CoreCounts(tmp, s);
    SetDenyCounts(tmp, s, f, v);
    CountsCore(tmp, tmp, s, SetDeny(s, f, v));
  }

  lemma DenyKeeps(tmp: set<Sector>, s: State, f: FileId)
    requires Core(s, tmp) && f in s.files
    ensures s.files[f].inode in s.inodes && Core(Deny(s, f), tmp) && Live(Deny(s, f)) == Live(s)
  {
    hide Core;
    hide Live;
    CoreCounts(tmp, s);
    if !s.files[f].denies {
      SetDenyKeeps(tmp, s, f, true);
    }
  }

  lemma AllowKeeps(tmp: set<Sector>, s: State, f: FileId)
    requires Core(s, tmp) && f in s.files
    ensures s.files[f].inode in s.inodes && Core(Allow(s, f), tmp) && Live(Allow(s, f)) == Live(s)
    ensures f in Allow(s, f).files && !Allow(s, f).files[f].denies && Allow(s, f).files[f].inode == s.files[f].inode
  {
    hide Core;
    hide Live;
    CoreCounts(tmp, s);
    if s.files[f].denies {
      SetDenyKeeps(tmp, s, f, false);
    }
  }
}
