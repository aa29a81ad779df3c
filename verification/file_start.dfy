/** The file system as formatting leaves it. */
module FileStart {
  import opened InodeIo
  import opened DiskFormat
  import opened FileSystem
  import opened FileLayout
  import opened FileInvariant

  const ROOT_ENTRIES := 16

  function MapInode(n: nat): (d: DiskInode) {
    DiskInode(2, MapSize(n))
  }

  function RootInode(n: nat): (d: DiskInode) {
    DiskInode(2 + SectorsFor(MapInode(n).length), ROOT_ENTRIES * ENTRY)
  }

  function ZeroSector(): (z: seq<Byte>) {
    seq(SECTOR, _ => 0)
  }

  /** A freshly formatted and mounted file system: the free map's file and an empty root
      directory of sixteen entries, and no file open but the map's own. */
  ghost predicate Formatted(s: State) {
    var n := |s.disk|;
    && Device(s.disk) && RootInode(n).start < n < DEVICE_MAX && |s.used| == n
    && s.disk[FREE_MAP] == EncodeInode(MapInode(n)) && s.disk[ROOT] == EncodeInode(RootInode(n))
    && s.disk[RootInode(n).start] == ZeroSector()
    && (forall k | 0 <= k < n :: s.used[k] <==> k <= RootInode(n).start)
    && s.inodes == map[FREE_MAP := MemInode(MapInode(n), 1, false, 0)] && s.files == map[]
    && MapStored(s.disk, s.used)
  }

  /** The free map's file holds the map. */
  ghost predicate MapStored(disk: seq<seq<Byte>>, used: seq<bool>)
    requires Device(disk) && RootInode(|disk|).start <= |disk|
  {
    Bytes(disk, MapInode(|disk|)) == EncodeMap(used)
  }

  lemma FormattedInodes(s: State)
    requires Formatted(s)
    ensures Disk(s.disk) && DecodeInode(s.disk[FREE_MAP]) == MapInode(|s.disk|)
    ensures DecodeInode(s.disk[ROOT]) == RootInode(|s.disk|)
    ensures SectorsFor(RootInode(|s.disk|).length) == 1
  {
    InodeRoundTrip(MapInode(|s.disk|));
    InodeRoundTrip(RootInode(|s.disk|));
  }

  lemma FormattedLayout(s: State)
    requires Formatted(s)
    ensures RootFits(s.disk) && Layout(s.disk, s.used, {FREE_MAP, ROOT})
  {
    FormattedInodes(s);
    hide EncodeInode;
    hide DecodeInode;
    hide ZeroSector;
    hide SectorsFor;
  }

  lemma FormattedEmpty(s: State)
    requires Formatted(s)
    ensures RootFits(s.disk) && forall k | 0 <= k < |Entries(s.disk)| :: !Entries(s.disk)[k].inUse
  {
    hide EncodeInode;
    hide Slots;
    hide FileBytes;
    FormattedLayout(s);
    FormattedZero(s);
    var c := FileBytes(s.disk, ROOT);
    SlotCount(c);
    forall k | 0 <= k < |Entries(s.disk)| ensures !Entries(s.disk)[k].inUse {
      SlotAt(c, k);
      assert SlotBytes(c, k)[19] == c[ENTRY * k + 19];
    }
  }

  lemma SlotCount(c: seq<Byte>)
    ensures |Slots(c)| == |c| / ENTRY
  {
  }

  lemma FormattedZero(s: State)
    requires Formatted(s)
    ensures RootFits(s.disk) && forall p | 0 <= p < |FileBytes(s.disk, ROOT)| :: FileBytes(s.disk, ROOT)[p] == 0
  {
    hide EncodeInode;
    hide DecodeInode;
    FormattedInodes(s);
    FormattedLayout(s);
    var d := RootInode(|s.disk|);
    assert FileBytes(s.disk, ROOT) == Contents(s.disk, d.start, d.length);
    hide Contents;
    hide FileBytes;
    forall p | 0 <= p < d.length ensures Contents(s.disk, d.start, d.length)[p] == 0 {
      ContentsAt(s.disk, d.start, d.length, p);
    }
  }

  lemma FormattedHolds(s: State)
    requires Formatted(s)
    ensures Inv(s)
  {
    FormattedInodes(s);
    FormattedLayout(s);
    FormattedEmpty(s);
    hide Layout;
    hide EncodeInode;
    hide DecodeInode;
    hide Slots;
    hide FileBytes;
    hide ZeroSector;
    assert Named(Entries(s.disk)) == {};
    assert Live(s) == {FREE_MAP, ROOT};
    assert Openers(s.files, FREE_MAP) == {} && Deniers(s.files, FREE_MAP) == {};
  }
}
