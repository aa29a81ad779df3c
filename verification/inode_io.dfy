/** Byte access to a file that lives in whole sectors: the chunk loops of inode_read_at and
    inode_write_at refine a plain sequence of bytes. */
module InodeIo {
  const SECTOR := 512

  type Byte = b: int | 0 <= b < 256

  /** A device: sectors of exactly SECTOR bytes. */
  ghost predicate Device(disk: seq<seq<Byte>>) {
    forall k | 0 <= k < |disk| :: |disk[k]| == SECTOR
  }

  function SectorsFor(length: nat): (n: nat) {
    (length + SECTOR - 1) / SECTOR
  }

  /** The file's sectors exist on the device. */
  ghost predicate Fits(disk: seq<seq<Byte>>, start: nat, length: nat) {
    Device(disk) && start + SectorsFor(length) <= |disk|
  }

  lemma InRange(disk: seq<seq<Byte>>, start: nat, length: nat, i: nat)
    requires Fits(disk, start, length) && i < length
    ensures start + i / SECTOR < |disk| && |disk[start + i / SECTOR]| == SECTOR
  {
  }

  function ByteAt(disk: seq<seq<Byte>>, start: nat, i: nat): (b: Byte)
    requires start + i / SECTOR < |disk| && |disk[start + i / SECTOR]| == SECTOR
  {
    disk[start + i / SECTOR][i % SECTOR]
  }

  /** What the file holds. */
  ghost function Contents(disk: seq<seq<Byte>>, start: nat, length: nat): (c: seq<Byte>)
    requires Fits(disk, start, length)
    ensures |c| == length
  {
    seq(length, i requires 0 <= i < length => InRange(disk, start, length, i); ByteAt(disk, start, i))
  }

  /** How many bytes a transfer moves: what lies inside the file, and without memory for the
      bounce buffer only the whole sectors at the front of an aligned request. */
  function Transfer(length: nat, size: int, offset: nat, memory: bool): (n: nat)
    ensures n > 0 ==> offset + n <= length && n <= size
  {
    var n := if size <= 0 || offset >= length then 0 else if size < length - offset then size else length - offset;
    if memory then n else if offset % SECTOR != 0 then 0 else n / SECTOR * SECTOR
  }

  /** The device after `data` has been stored at `offset` of the file that starts at `start`. */
  ghost function Patched(disk: seq<seq<Byte>>, start: nat, offset: nat, data: seq<Byte>): (r: seq<seq<Byte>>)
    requires Device(disk)
    ensures Device(r) && |r| == |disk|
  {
    seq(|disk|, k requires 0 <= k < |disk| =>
      seq(SECTOR, j requires 0 <= j < SECTOR =>
        var p := (k - start) * SECTOR + j - offset;
        if 0 <= p < |data| then data[p] else disk[k][j]))
  }

  ghost function Spliced(c: seq<Byte>, offset: nat, data: seq<Byte>): (r: seq<Byte>)
    requires data != [] ==> offset + |data| <= |c|
  {
    if data == [] then c else c[..offset] + data + c[offset + |data|..]
  }

  // ---------------------------------------------------------------- lemmas

  lemma ContentsAt(disk: seq<seq<Byte>>, start: nat, length: nat, i: nat)
    requires Fits(disk, start, length) && i < length
    ensures start + i / SECTOR < |disk| && |disk[start + i / SECTOR]| == SECTOR
    ensures Contents(disk, start, length)[i] == disk[start + i / SECTOR][i % SECTOR]
  {
    InRange(disk, start, length, i);
  }

  lemma PatchedAt(disk: seq<seq<Byte>>, start: nat, offset: nat, data: seq<Byte>, k: nat, j: nat)
    requires Device(disk) && k < |disk| && j < SECTOR
    ensures var p := (k - start) * SECTOR + j - offset;
            Patched(disk, start, offset, data)[k][j] == if 0 <= p < |data| then data[p] else disk[k][j]
  {
  }

  /** Storing inside the file replaces exactly that slice of what it holds. */
  lemma PatchedContents(disk: seq<seq<Byte>>, start: nat, length: nat, offset: nat, data: seq<Byte>)
    requires Fits(disk, start, length) && (data != [] ==> offset + |data| <= length)
    ensures Contents(Patched(disk, start, offset, data), start, length)
            == Spliced(Contents(disk, start, length), offset, data)
  {
    hide Patched;
    var r := Patched(disk, start, offset, data);
    var c, c' := Contents(disk, start, length), Contents(r, start, length);
    hide Contents;
    var e := Spliced(c, offset, data);
    forall i | 0 <= i < length ensures c'[i] == e[i] {
      PatchedByte(disk, start, length, offset, data, i);
    }
  }

  lemma PatchedByte(disk: seq<seq<Byte>>, start: nat, length: nat, offset: nat, data: seq<Byte>, i: nat)
    requires Fits(disk, start, length) && i < length
    ensures Contents(Patched(disk, start, offset, data), start, length)[i]
            == if offset <= i < offset + |data| then data[i - offset] else Contents(disk, start, length)[i]
  {
    hide Contents;
    var r := Patched(disk, start, offset, data);
    hide Patched;
    ContentsAt(r, start, length, i);
    ContentsAt(disk, start, length, i);
    PatchedAt(disk, start, offset, data, start + i / SECTOR, i % SECTOR);
    assert (start + i / SECTOR - start) * SECTOR + i % SECTOR - offset == i - offset;
  }

  /** Sectors the stored bytes do not reach stay as they were. */
  lemma PatchedElsewhere(disk: seq<seq<Byte>>, start: nat, length: nat, offset: nat, data: seq<Byte>, k: nat)
    requires Device(disk) && k < |disk| && (data != [] ==> offset + |data| <= length)
    requires !(start <= k < start + SectorsFor(length))
    ensures Patched(disk, start, offset, data)[k] == disk[k]
  {
    forall j | 0 <= j < SECTOR ensures Patched(disk, start, offset, data)[k][j] == disk[k][j] {
      PatchedAt(disk, start, offset, data, k, j);
      OutsideFile(start, length, offset, |data|, k, j);
    }
  }

  lemma OutsideFile(start: nat, length: nat, offset: nat, n: nat, k: nat, j: nat)
    requires j < SECTOR && (n != 0 ==> offset + n <= length)
    requires !(start <= k < start + SectorsFor(length))
    ensures !(0 <= (k - start) * SECTOR + j - offset < n)
  {
    if k < start {
      assert (k - start) * SECTOR <= -SECTOR;
    } else {
      assert (k - start) * SECTOR >= SectorsFor(length) * SECTOR >= length;
    }
  }

  /** One more chunk: storing `data` and then the bytes of the next chunk stores both. */
  lemma PatchedChunk(disk: seq<seq<Byte>>, start: nat, offset: nat, buffer: seq<Byte>, done: nat, chunk: nat, sector: seq<Byte>)
    requires Device(disk) && done + chunk <= |buffer| && chunk > 0
    requires (offset + done) % SECTOR + chunk <= SECTOR
    requires start + (offset + done) / SECTOR < |disk| && |sector| == SECTOR
    requires var k := start + (offset + done) / SECTOR;
             var o := (offset + done) % SECTOR;
             sector == Patched(disk, start, offset, buffer[..done])[k][..o]
                     + buffer[done..done + chunk]
                     + Patched(disk, start, offset, buffer[..done])[k][o + chunk..]
    ensures Patched(disk, start, offset, buffer[..done])[start + (offset + done) / SECTOR := sector]
            == Patched(disk, start, offset, buffer[..done + chunk])
  {
    var at := offset + done;
    var k0, o := start + at / SECTOR, at % SECTOR;
    var old', r := Patched(disk, start, offset, buffer[..done]), Patched(disk, start, offset, buffer[..done + chunk]);
    forall k | 0 <= k < |disk| ensures old'[k0 := sector][k] == r[k] {
      forall j | 0 <= j < SECTOR ensures old'[k0 := sector][k][j] == r[k][j] {
        PatchedAt(disk, start, offset, buffer[..done], k, j);
        PatchedAt(disk, start, offset, buffer[..done + chunk], k, j);
        ChunkPosition(start, at, chunk, k, j);
      }
    }
  }

  /** Byte j of sector k lies in the chunk exactly when k is the chunk's sector and j is in its
      part of it. */
  lemma ChunkPosition(start: nat, at: nat, chunk: nat, k: nat, j: nat)
    requires j < SECTOR && 0 < chunk && at % SECTOR + chunk <= SECTOR
    ensures var p := (k - start) * SECTOR + j - at;
            && (0 <= p < chunk <==> k == start + at / SECTOR && at % SECTOR <= j < at % SECTOR + chunk)
            && (k == start + at / SECTOR ==> p == j - at % SECTOR)
  {
    if k < start + at / SECTOR {
      assert (k - start) * SECTOR + SECTOR <= at / SECTOR * SECTOR;
    } else if k > start + at / SECTOR {
      assert (k - start) * SECTOR >= at / SECTOR * SECTOR + SECTOR;
    }
  }

  lemma PatchedNothing(disk: seq<seq<Byte>>, start: nat, offset: nat)
    requires Device(disk)
    ensures Patched(disk, start, offset, []) == disk
  {
    var r := Patched(disk, start, offset, []);
    forall k | 0 <= k < |disk| ensures r[k] == disk[k] {
      assert forall j | 0 <= j < SECTOR :: r[k][j] == disk[k][j];
    }
  }
}
