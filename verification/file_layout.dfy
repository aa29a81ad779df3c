/** Which sectors belong to which inode, and what operations on the device do to that. */
module FileLayout {
  import opened InodeIo
  import opened DiskFormat
  import opened FileSystem

  predicate InData(d: DiskInode, k: int) {
    d.start <= k < d.start + SectorsFor(d.length)
  }

  ghost predicate Disk(disk: seq<seq<Byte>>) {
    Device(disk) && |disk| < DEVICE_MAX
  }

  /** Sector `k` is the inode's own or one of its data sectors. */
  predicate Owns(disk: seq<seq<Byte>>, i: Sector, k: int)
    requires Disk(disk)
  {
    0 <= i < |disk| && (k == i || InData(DecodeInode(disk[i]), k))
  }

  ghost predicate Placed(disk: seq<seq<Byte>>, used: seq<bool>, i: Sector)
    requires Disk(disk)
  {
    && 0 <= i < |disk| == |used|
    && FitsInode(disk, DecodeInode(disk[i]))
    && !InData(DecodeInode(disk[i]), i)
    && forall k | Owns(disk, i, k) :: used[k]
  }

  /** The inodes in `live` are in place, all their sectors are marked used, and no sector belongs
      to two of them. */
  ghost predicate Layout(disk: seq<seq<Byte>>, used: seq<bool>, live: set<Sector>) {
    && Disk(disk) && |used| == |disk|
    && (forall i | i in live :: Placed(disk, used, i))
    && forall i, j, k | i in live && j in live && Owns(disk, i, k) && Owns(disk, j, k) :: i == j
  }

  ghost function FileBytes(disk: seq<seq<Byte>>, i: Sector): (c: seq<Byte>)
    requires Disk(disk) && 0 <= i < |disk| && FitsInode(disk, DecodeInode(disk[i]))
  {
    Bytes(disk, DecodeInode(disk[i]))
  }

  /** The inode and everything its file holds are the same on both devices. */
  ghost predicate SameFile(disk: seq<seq<Byte>>, disk': seq<seq<Byte>>, i: Sector)
    requires Disk(disk) && Disk(disk')
  {
    && 0 <= i < |disk| == |disk'| && FitsInode(disk, DecodeInode(disk[i]))
    && DecodeInode(disk'[i]) == DecodeInode(disk[i])
    && FileBytes(disk', i) == FileBytes(disk, i)
  }

  /** A device that agrees on an inode's sectors agrees on its file. */
  lemma SameSectorsSameFile(disk: seq<seq<Byte>>, disk': seq<seq<Byte>>, i: Sector)
    requires Disk(disk) && Disk(disk') && 0 <= i < |disk| == |disk'| && FitsInode(disk, DecodeInode(disk[i]))
    requires forall k | 0 <= k < |disk| && Owns(disk, i, k) :: disk'[k] == disk[k]
    ensures SameFile(disk, disk', i)
  {
    assert Owns(disk, i, i);
    var d := DecodeInode(disk[i]);
    var c, c' := FileBytes(disk, i), FileBytes(disk', i);
    forall p | 0 <= p < d.length ensures c'[p] == c[p] {
      ContentsAt(disk, d.start, d.length, p);
      ContentsAt(disk', d.start, d.length, p);
      assert Owns(disk, i, d.start + p / SECTOR);
    }
  }

  lemma SameInodesSameLayout(disk: seq<seq<Byte>>, disk': seq<seq<Byte>>, used: seq<bool>, live: set<Sector>)
    requires Layout(disk, used, live) && Disk(disk') && |disk'| == |disk|
    requires forall i | i in live :: 0 <= i < |disk| && DecodeInode(disk'[i]) == DecodeInode(disk[i])
    ensures Layout(disk', used, live)
  {
    assert forall i, k | i in live :: Owns(disk', i, k) <==> Owns(disk, i, k);
    forall i | i in live ensures Placed(disk', used, i) {
      assert Placed(disk, used, i);
    }
    forall i, j, k | i in live && j in live && Owns(disk', i, k) && Owns(disk', j, k) ensures i == j {
      assert Owns(disk, i, k) && Owns(disk, j, k);
    }
  }

  /** Storing into one file changes what that file holds and no other. */
  lemma StoreKeeps(disk: seq<seq<Byte>>, used: seq<bool>, live: set<Sector>, j: Sector, offset: nat, data: seq<Byte>)
    requires Layout(disk, used, live) && j in live
    requires 0 <= j < |disk| && (data != [] ==> offset + |data| <= DecodeInode(disk[j]).length)
    ensures var disk' := Patched(disk, DecodeInode(disk[j]).start, offset, data);
            && Layout(disk', used, live)
            && (forall i | i in live && i != j :: SameFile(disk, disk', i))
            && DecodeInode(disk'[j]) == DecodeInode(disk[j])
            && FitsInode(disk, DecodeInode(disk[j]))
            && FileBytes(disk', j) == Spliced(FileBytes(disk, j), offset, data)
  {
    var d := DecodeInode(disk[j]);
    var disk' := Patched(disk, d.start, offset, data);
    assert Placed(disk, used, j);
    hide Patched;
    PatchedElsewhere(disk, d.start, d.length, offset, data, j);
    PatchedContents(disk, d.start, d.length, offset, data);
    forall i | i in live && i != j ensures SameFile(disk, disk', i) {
      assert Placed(disk, used, i);
      forall k | 0 <= k < |disk| && Owns(disk, i, k) ensures disk'[k] == disk[k] {
        var owned := Owns(disk, j, k);
        assert !owned;
        PatchedElsewhere(disk, d.start, d.length, offset, data, k);
      }
      SameSectorsSameFile(disk, disk', i);
    }
    StoredInodes(disk, disk', used, live, j);
  }

  lemma StoredInodes(disk: seq<seq<Byte>>, disk': seq<seq<Byte>>, used: seq<bool>, live: set<Sector>, j: Sector)
    requires Layout(disk, used, live) && Disk(disk') && |disk'| == |disk| && 0 <= j < |disk|
    requires disk'[j] == disk[j] && forall i | i in live && i != j :: SameFile(disk, disk', i)
    ensures Layout(disk', used, live)
  {
    forall i | i in live ensures 0 <= i < |disk| && DecodeInode(disk'[i]) == DecodeInode(disk[i]) {
      assert Placed(disk, used, i);
      assert i != j ==> SameFile(disk, disk', i);
    }
    SameInodesSameLayout(disk, disk', used, live);
  }

  /** Marking more sectors as used keeps the layout. */
  lemma MarkKeeps(disk: seq<seq<Byte>>, used: seq<bool>, used': seq<bool>, live: set<Sector>)
    requires Layout(disk, used, live) && |used'| == |used|
    requires forall i, k | i in live && Owns(disk, i, k) && 0 <= k < |used| :: used'[k]
    ensures Layout(disk, used', live)
  {
    forall i | i in live ensures Placed(disk, used', i) {
      assert Placed(disk, used, i);
    }
  }

  /** Sectors outside every live file may be rewritten. */
  lemma RewriteKeeps(disk: seq<seq<Byte>>, disk': seq<seq<Byte>>, used: seq<bool>, live: set<Sector>)
    requires Layout(disk, used, live) && Disk(disk') && |disk'| == |disk|
    requires forall i, k | i in live && 0 <= k < |disk| && Owns(disk, i, k) :: disk'[k] == disk[k]
    ensures Layout(disk', used, live) && forall i | i in live :: SameFile(disk, disk', i)
  {
    forall i | i in live ensures SameFile(disk, disk', i) {
      assert Placed(disk, used, i);
      SameSectorsSameFile(disk, disk', i);
    }
    forall i | i in live ensures 0 <= i < |disk| && DecodeInode(disk'[i]) == DecodeInode(disk[i]) {
      assert SameFile(disk, disk', i);
    }
    SameInodesSameLayout(disk, disk', used, live);
  }

  /** A new inode on sectors that nobody owned joins the layout, its data all zeros. */
  lemma NewInodeKeeps(disk: seq<seq<Byte>>, used: seq<bool>, live: set<Sector>, sector: Sector, d: DiskInode)
    requires Layout(disk, used, live) && 0 <= sector < |disk| && d.start + SectorsFor(d.length) <= |disk|
    requires used[sector] && !InData(d, sector) && d.length < WORD && d.start < WORD
    requires forall k | 0 <= k < |disk| && InData(d, k) :: used[k]
    requires forall i, k | i in live && Owns(disk, i, k) :: k != sector && !InData(d, k)
    ensures var disk' := WithInode(disk, sector, d);
            && Layout(disk', used, live + {sector})
            && (forall i | i in live :: SameFile(disk, disk', i))
            && DecodeInode(disk'[sector]) == d
            && FileBytes(disk', sector) == seq(d.length, _ => 0)
  {
    hide SectorsFor;
    hide EncodeInode;
    var disk' := WithInode(disk, sector, d);
    InodeRoundTrip(d);
    RewriteKeeps(disk, disk', used, live);
    ZeroBytes(disk[sector := EncodeInode(d)], d);
    assert Placed(disk', used, sector);
    forall i, k | i in live && Owns(disk', i, k) ensures !Owns(disk', sector, k) {
      assert SameFile(disk, disk', i) && Owns(disk, i, k);
    }
    hide Zeroed;
    hide Owns;
    hide Placed;
    Joins(disk', used, live, sector);
  }

  lemma Joins(disk: seq<seq<Byte>>, used: seq<bool>, live: set<Sector>, sector: Sector)
    requires Layout(disk, used, live) && Placed(disk, used, sector)
    requires forall i, k | i in live && Owns(disk, i, k) :: !Owns(disk, sector, k)
    ensures Layout(disk, used, live + {sector})
  {
  }

  lemma ZeroBytes(disk: seq<seq<Byte>>, d: DiskInode)
    requires Disk(disk) && FitsInode(disk, d)
    ensures Bytes(Zeroed(disk, d.start, SectorsFor(d.length)), d) == seq(d.length, _ => 0)
  {
    var disk' := Zeroed(disk, d.start, SectorsFor(d.length));
    forall p | 0 <= p < d.length ensures Bytes(disk', d)[p] == 0 {
      ContentsAt(disk', d.start, d.length, p);
    }
  }

  // ---------------------------------------------------------------- first fit

  /** The scan returns the lowest place with `count` free bits, and past the end only if there
      is none. */
  lemma {:induction false} FirstFitLowest(used: seq<bool>, from: nat, count: nat)
    ensures var first := FirstFit(used, from, count);
            && (first + count <= |used| ==> from <= first && RunFree(used, first, count))
            && forall k | from <= k < first && k + count <= |used| :: !RunFree(used, k, count)
    decreases |used| - from
  {
    if from + count <= |used| && !RunFree(used, from, count) {
      FirstFitLowest(used, from + 1, count);
    }
  }
}
