/** The in-memory inode's reads and writes, chunk by chunk. */
module Inode {
  import opened InodeIo

  class BlockDevice {
    var sectors: seq<seq<Byte>>

    constructor (n: nat)
      ensures Device(sectors) && |sectors| == n
    {
      sectors := seq(n, _ => seq(SECTOR, _ => 0));
    }
  }

  class OpenInode {
    const device: BlockDevice
    var start: nat
    var length: nat
    var denyCount: nat

    ghost predicate Valid()
      reads this, device
    {
      Fits(device.sectors, start, length)
    }

    ghost function Bytes(): (c: seq<Byte>)
      requires Valid()
      reads this, device
      ensures |c| == length
    {
      Contents(device.sectors, start, length)
    }

    constructor (device: BlockDevice, start: nat, length: nat)
      requires Fits(device.sectors, start, length)
      ensures Valid() && this.device == device && this.start == start && this.length == length && denyCount == 0
    {
      this.device, this.start, this.length, denyCount := device, start, length, 0;
    }

    /** One chunk, which lies inside a sector. */
    method ReadChunk(buffer: array<Byte>, n: nat, at: nat, chunk: nat)
      requires Valid() && 0 < chunk && n + chunk <= buffer.Length && at + chunk <= length && at % SECTOR + chunk <= SECTOR
      modifies buffer
      ensures buffer[..n + chunk] == old(buffer[..n]) + Bytes()[at..at + chunk]
      ensures forall i | n + chunk <= i < buffer.Length :: buffer[i] == old(buffer[i])
    {
      hide Contents;
      ChunkBytes(device.sectors, start, length, at, chunk);
      var o := at % SECTOR;
      CopyInto(buffer, n, device.sectors[start + at / SECTOR][o..o + chunk]);
      assert buffer[..n + chunk] == buffer[..n] + buffer[n..n + chunk];
    }

    /** Copies the bytes at `offset` into the buffer, a sector or part of one at a time. `memory`
        says whether the bounce buffer can be allocated when it is first needed. */
    method ReadAt(buffer: array<Byte>, size: int, offset: nat, memory: bool) returns (n: nat)
      requires Valid() && size <= buffer.Length
      modifies buffer
      ensures n == Transfer(length, size, offset, memory)
      ensures n > 0 ==> buffer[..n] == Bytes()[offset..offset + n]
      ensures forall i | n <= i < buffer.Length :: buffer[i] == old(buffer[i])
    {
      hide Contents;
      hide Transfer;
      hide Progress;
      StartProgress(length, size, offset, memory);
      ghost var c := Bytes();
      n := 0;
      while n < size
        invariant n == 0 || (n <= size && offset + n <= length)
        invariant n > 0 ==> buffer[..n] == c[offset..offset + n]
        invariant forall i | n <= i < buffer.Length :: buffer[i] == old(buffer[i])
        invariant Progress(length, size, offset, memory, n)
        decreases size - n
      {
        var at := offset + n;
        var sectorLeft := SECTOR - at % SECTOR;
        var minLeft := if length - at < sectorLeft then length - at else sectorLeft;
        var chunk := if size - n < minLeft then size - n else minLeft;
        if chunk <= 0 {
          break;
        }
        if !(at % SECTOR == 0 && chunk == SECTOR) && !memory {
          break;
        }
        ReadChunk(buffer, n, at, chunk);
        Joined(buffer[..n + chunk], c, offset, n, chunk);
        NextProgress(length, size, offset, memory, n, chunk);
        n := n + chunk;
      }
      StopProgress(length, size, offset, memory, n);
    }

    /** Stores the buffer at `offset`, unless writes are denied. A partly covered sector is read
        first, so that the bytes around the chunk survive. */
    method WriteAt(buffer: array<Byte>, size: int, offset: nat, memory: bool) returns (n: nat)
      requires Valid() && size <= buffer.Length
      modifies device
      ensures Valid() && |device.sectors| == |old(device.sectors)|
      ensures n == if denyCount > 0 then 0 else Transfer(length, size, offset, memory)
      ensures device.sectors == Patched(old(device.sectors), start, offset, buffer[..n])
      ensures Bytes() == Spliced(old(Bytes()), offset, buffer[..n])
    {
      hide Contents;
      hide Patched;
      ghost var disk := device.sectors;
      n := 0;
      PatchedNothing(disk, start, offset);
      assert buffer[..0] == [];
      PatchedContents(disk, start, length, offset, []);
      if denyCount > 0 {
        return;
      }
      while n < size
        invariant n == 0 || (n <= size && offset + n <= length)
        invariant device.sectors == Patched(disk, start, offset, buffer[..n])
        invariant Progress(length, size, offset, memory, n)
        decreases size - n
      {
        var at := offset + n;
        var sectorLeft := SECTOR - at % SECTOR;
        var minLeft := if length - at < sectorLeft then length - at else sectorLeft;
        var chunk := if size - n < minLeft then size - n else minLeft;
        if chunk <= 0 {
          break;
        }
        InRange(device.sectors, start, length, at);
        var k, o := start + at / SECTOR, at % SECTOR;
        var bounce: seq<Byte>;
        if o == 0 && chunk == SECTOR {
          bounce := buffer[n..n + chunk];
        } else {
          if !memory {
            break;
          }
          if o > 0 || chunk < sectorLeft {
            bounce := device.sectors[k];
          } else {
            // Zeros for a sector that is wholly covered: such a chunk takes the branch above.
            assert false;
          }
          bounce := bounce[..o] + buffer[n..n + chunk] + bounce[o + chunk..];
        }
        assert buffer[..][..n] == buffer[..n] && buffer[..][n..n + chunk] == buffer[n..n + chunk];
        assert buffer[..][..n + chunk] == buffer[..n + chunk];
        PatchedChunk(disk, start, offset, buffer[..], n, chunk, bounce);
        device.sectors := device.sectors[k := bounce];
        NextProgress(length, size, offset, memory, n, chunk);
        n := n + chunk;
      }
      StopProgress(length, size, offset, memory, n);
      PatchedContents(disk, start, length, offset, buffer[..n]);
    }
  }

  /** memcpy into the buffer at position `at`. */
  method CopyInto(buffer: array<Byte>, at: nat, bytes: seq<Byte>)
    requires at + |bytes| <= buffer.Length
    modifies buffer
    ensures buffer[..at] == old(buffer[..at]) && buffer[at..at + |bytes|] == bytes
    ensures forall i | at + |bytes| <= i < buffer.Length :: buffer[i] == old(buffer[i])
  {
    for j := 0 to |bytes|
      invariant buffer[..at] == old(buffer[..at]) && buffer[at..at + j] == bytes[..j]
      invariant forall i | at + j <= i < buffer.Length :: buffer[i] == old(buffer[i])
    {
      buffer[at + j] := bytes[j];
    }
  }

  lemma Joined(read: seq<Byte>, c: seq<Byte>, offset: nat, n: nat, chunk: nat)
    requires offset + n + chunk <= |c| && n + chunk == |read|
    requires read == (if n == 0 then [] else c[offset..offset + n]) + c[offset + n..offset + n + chunk]
    ensures read == c[offset..offset + n + chunk]
  {
  }

  /** What the loops know: `n` bytes are done, and without memory they are whole sectors. */
  ghost predicate Progress(length: nat, size: int, offset: nat, memory: bool, n: nat) {
    && (n > 0 ==> n <= size && offset + n <= length)
    && (!memory && n > 0 ==> offset % SECTOR == 0 && n % SECTOR == 0)
  }

  lemma StartProgress(length: nat, size: int, offset: nat, memory: bool)
    ensures Progress(length, size, offset, memory, 0)
  {
  }

  lemma NextProgress(length: nat, size: int, offset: nat, memory: bool, n: nat, chunk: nat)
    requires Progress(length, size, offset, memory, n) && 0 < chunk && n + chunk <= size && offset + n + chunk <= length
    requires !memory ==> (offset + n) % SECTOR == 0 && chunk == SECTOR
    ensures Progress(length, size, offset, memory, n + chunk)
  {
  }

  /** Where the loops stop. */
  lemma StopProgress(length: nat, size: int, offset: nat, memory: bool, n: nat)
    requires Progress(length, size, offset, memory, n)
    requires || n >= size || offset + n >= length
             || (!memory && var left := if size < length - offset then size - n else length - offset - n;
                 (offset + n) % SECTOR != 0 || left < SECTOR)
    ensures n == Transfer(length, size, offset, memory)
  {
  }

  /** A chunk's bytes are consecutive in its sector. */
  lemma ChunkBytes(disk: seq<seq<Byte>>, start: nat, length: nat, at: nat, chunk: nat)
    requires Fits(disk, start, length) && 0 < chunk && at + chunk <= length && at % SECTOR + chunk <= SECTOR
    ensures start + at / SECTOR < |disk| && |disk[start + at / SECTOR]| == SECTOR
    ensures disk[start + at / SECTOR][at % SECTOR..at % SECTOR + chunk] == Contents(disk, start, length)[at..at + chunk]
  {
    ContentsAt(disk, start, length, at);
    var s := disk[start + at / SECTOR][at % SECTOR..at % SECTOR + chunk];
    var c := Contents(disk, start, length)[at..at + chunk];
    forall j | 0 <= j < chunk ensures s[j] == c[j] {
      ContentsAt(disk, start, length, at + j);
      assert (at + j) / SECTOR == at / SECTOR && (at + j) % SECTOR == at % SECTOR + j;
    }
  }
}
