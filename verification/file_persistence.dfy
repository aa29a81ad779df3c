/** What the free map's file holds: the map, as it will be read back at the next mount. */
module FilePersistence {
  import opened InodeIo
  import opened DiskFormat
  import opened FileSystem
  import opened FileLayout
  import opened FileInvariant
  import Bitmap
  import Arithmetic

  /** The first `n` bits of a file of little-endian words. */
  function DecodeMap(b: seq<Byte>, n: nat): (used: seq<bool>)
    requires MapSize(n) <= |b|
  {
    seq(n, i requires 0 <= i < n => Bitmap.Bit(b[i / 8], i % 8))
  }

  /** Bit `j` of the number is bit `k + j` of the map. */
  lemma {:induction false} MapBitAt(used: seq<bool>, k: nat, n: nat, j: nat)
    requires j < n
    ensures MapBits(used, k, n) / Arithmetic.Pow2(j) % 2 == (if k + j < |used| && used[k + j] then 1 else 0)
    decreases j
  {
    var x, y := MapBits(used, k, n), MapBits(used, k + 1, n - 1);
    if j > 0 {
      MapBitAt(used, k + 1, n - 1, j - 1);
      assert x / 2 == y;
      Arithmetic.DivDiv(x, 2, Arithmetic.Pow2(j - 1));
    }
  }

  lemma MapByteIs(used: seq<bool>, i: nat, j: nat)
    requires j < 8
    ensures Bitmap.Bit(MapByte(used, i), j) <==> 8 * i + j < |used| && used[8 * i + j]
  {
    MapBitAt(used, 8 * i, 8, j);
  }

  /** Reading back the bytes of a map gives the map. */
  lemma MapRoundTrip(used: seq<bool>)
    ensures DecodeMap(EncodeMap(used), |used|) == used
  {
    var b := EncodeMap(used);
    forall i | 0 <= i < |used| ensures DecodeMap(b, |used|)[i] == used[i] {
      MapByteIs(used, i / 8, i % 8);
    }
  }

  /** After a flush that stored all of it, the free map's file holds the map. */
  lemma FlushPersists(tmp: set<Sector>, s: State, memory: bool)
    requires Core(s, tmp) && Flushed(s, memory)
    ensures var r := Flush(s, memory);
            && Disk(r.disk) && |r.disk| >= 2 && FitsInode(r.disk, DecodeInode(r.disk[FREE_MAP]))
            && MapSize(|s.used|) <= |FileBytes(r.disk, FREE_MAP)|
            && DecodeMap(FileBytes(r.disk, FREE_MAP), |s.used|) == s.used
  {
    hide Layout;
    hide EntriesOK;
    hide Counts;
    hide Slots;
    hide EncodeMap;
    hide DecodeMap;
    var b := EncodeMap(s.used);
    MapRoundTrip(s.used);
    FlushKeeps(tmp, s, memory);
    LiveInRange(tmp, s, FREE_MAP);
    LiveInRange(tmp, Flush(s, memory), FREE_MAP);
    StoreOnlyFile(tmp, s, FREE_MAP, 0, b);
    assert b[..|b|] == b;
    assert Spliced(FileBytes(s.disk, FREE_MAP), 0, b) == b;
  }
}
