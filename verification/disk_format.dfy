/** On-disk formats: little-endian words, inodes and directory entries, with their inverses. */
module DiskFormat {
  import opened InodeIo

  const WORD := 0x1_0000_0000
  const ENTRY := 20
  const NAME_MAX := 14

  datatype DiskInode = DiskInode(start: nat, length: nat)

  /** A directory entry as the code reads it: the name up to its NUL. */
  datatype Entry = Entry(sector: nat, name: seq<Byte>, inUse: bool)

  function Word(x: nat): (b: seq<Byte>)
    ensures |b| == 4
  {
    [x % 256, x / 256 % 256, x / 0x10000 % 256, x / 0x1000000 % 256]
  }

  function FromWord(b: seq<Byte>): (x: nat)
    requires |b| == 4
    ensures x < WORD
  {
    var b0: int, b1: int, b2: int, b3: int := b[0], b[1], b[2], b[3];
    b0 + 256 * b1 + 0x10000 * b2 + 0x1000000 * b3
  }

  lemma WordRoundTrip(x: nat)
    requires x < WORD
    ensures FromWord(Word(x)) == x
  {
    var a := x / 256;
    var b := a / 256;
    var c := b / 256;
    assert x == 256 * a + x % 256 && a == 256 * b + a % 256 && b == 256 * c + b % 256 && c < 256;
    assert x / 0x10000 == b && x / 0x1000000 == c;
  }

  const MAGIC := 0x494e4f44

  function EncodeInode(d: DiskInode): (b: seq<Byte>)
    ensures |b| == SECTOR
  {
    Word(d.start) + Word(d.length) + Word(MAGIC) + seq(500, _ => 0)
  }

  function DecodeInode(b: seq<Byte>): (d: DiskInode)
    requires |b| == SECTOR
  {
    DiskInode(FromWord(b[..4]), FromWord(b[4..8]))
  }

  lemma InodeRoundTrip(d: DiskInode)
    requires d.start < WORD && d.length < WORD
    ensures DecodeInode(EncodeInode(d)) == d
  {
    var b := EncodeInode(d);
    assert b[..4] == Word(d.start) && b[4..8] == Word(d.length);
    WordRoundTrip(d.start);
    WordRoundTrip(d.length);
  }

  function Power256(k: nat): (p: nat)
    ensures p > 0
  {
    if k == 0 then 1 else 256 * Power256(k - 1)
  }

  /** Where each byte of struct inode_disk goes: start, length and "INOD" backwards, lowest bytes
      first, and nothing behind them. */
  lemma InodeBytes(d: DiskInode, i: nat)
    requires i < SECTOR
    ensures EncodeInode(d)[i] == if i < 4 then d.start / Power256(i) % 256
                                 else if i < 8 then d.length / Power256(i - 4) % 256
                                 else if i < 12 then [0x44, 0x4f, 0x4e, 0x49][i - 8] else 0
  {
    WordByte(d.start, if i < 4 then i else 0);
    WordByte(d.length, if 4 <= i < 8 then i - 4 else 0);
    assert Word(MAGIC) == [0x44, 0x4f, 0x4e, 0x49];
  }

  lemma WordByte(x: nat, k: nat)
    requires k < 4
    ensures Word(x)[k] == x / Power256(k) % 256
  {
    assert Power256(1) == 256 && Power256(2) == 0x10000 && Power256(3) == 256 * Power256(2);
  }

  /** A NUL-terminated string. */
  function CString(b: seq<Byte>): (s: seq<Byte>)
    ensures |s| <= |b| && s == b[..|s|] && 0 !in s
  {
    if b == [] || b[0] == 0 then [] else [b[0]] + CString(b[1..])
  }

  lemma {:induction false} CStringOf(s: seq<Byte>, rest: seq<Byte>)
    requires 0 !in s
    ensures CString(s + [0] + rest) == s
  {
    if s != [] {
      assert (s + [0] + rest)[1..] == s[1..] + [0] + rest;
      CStringOf(s[1..], rest);
    }
  }

  function DecodeEntry(b: seq<Byte>): (e: Entry)
    requires |b| == ENTRY
  {
    Entry(FromWord(b[..4]), CString(b[4..19]), b[19] != 0)
  }

  /** A slot's bytes once a name and a sector have been stored in it; what follows the name's
      NUL is left over from before. */
  function FilledEntry(old': seq<Byte>, name: seq<Byte>, sector: nat): (b: seq<Byte>)
    requires |old'| == ENTRY && |name| <= NAME_MAX
    ensures |b| == ENTRY
  {
    Word(sector) + name + [0] + old'[5 + |name|..19] + [1]
  }

  lemma FilledDecodes(old': seq<Byte>, name: seq<Byte>, sector: nat)
    requires |old'| == ENTRY && |name| <= NAME_MAX && 0 !in name && sector < WORD
    ensures DecodeEntry(FilledEntry(old', name, sector)) == Entry(sector, name, true)
  {
    var b := FilledEntry(old', name, sector);
    assert b[..4] == Word(sector);
    WordRoundTrip(sector);
    assert b[4..19] == name + [0] + old'[5 + |name|..19];
    CStringOf(name, old'[5 + |name|..19]);
  }

  /** Where each byte of struct dir_entry goes: the sector, the name and its NUL, and the flag. */
  lemma EntryBytesAt(old': seq<Byte>, name: seq<Byte>, sector: nat, i: nat)
    requires |old'| == ENTRY && |name| <= NAME_MAX && i < ENTRY
    ensures FilledEntry(old', name, sector)[i] == if i < 4 then sector / Power256(i) % 256
                                                  else if i < 4 + |name| then name[i - 4]
                                                  else if i == 4 + |name| then 0
                                                  else if i < 19 then old'[i] else 1
  {
    WordByte(sector, if i < 4 then i else 0);
  }

  /** A slot's bytes once it has been marked free. */
  function ErasedEntry(old': seq<Byte>): (b: seq<Byte>)
    requires |old'| == ENTRY
    ensures |b| == ENTRY
  {
    old'[..19] + [0]
  }

  lemma ErasedDecodes(old': seq<Byte>)
    requires |old'| == ENTRY
    ensures DecodeEntry(ErasedEntry(old')) == DecodeEntry(old').(inUse := false)
  {
    var b := ErasedEntry(old');
    assert b[..4] == old'[..4] && b[4..19] == old'[4..19];
  }

  // ---------------------------------------------------------------- directories

  function SlotBytes(c: seq<Byte>, i: nat): (b: seq<Byte>)
    requires ENTRY * i + ENTRY <= |c|
    ensures |b| == ENTRY
  {
    c[ENTRY * i..ENTRY * i + ENTRY]
  }

  /** The entries a directory's bytes hold. */
  function Slots(c: seq<Byte>): (es: seq<Entry>)
    ensures |es| == |c| / ENTRY
  {
    seq(|c| / ENTRY, i requires 0 <= i < |c| / ENTRY => DecodeEntry(SlotBytes(c, i)))
  }

  lemma SlotAt(c: seq<Byte>, i: nat)
    requires i < |c| / ENTRY
    ensures ENTRY * i + ENTRY <= |c| && Slots(c)[i] == DecodeEntry(SlotBytes(c, i))
  {
  }

  /** The entries a loop over the directory sees when memory for its reads lasts for `budget` of
      them: a read without a bounce buffer comes back short, which the loops take for the end. */
  function Visible(es: seq<Entry>, budget: nat): (v: seq<Entry>)
    ensures |v| == if budget < |es| then budget else |es|
    ensures v <= es
  {
    if budget < |es| then es[..budget] else es
  }

  /** The bytes of one entry. */
  type EntryBytes = b: seq<Byte> | |b| == ENTRY witness seq(ENTRY, _ => 0)

  /** What the search for a free entry leaves in its buffer when it stops at index `k`: the free
      entry, or the last one it could read, or what was on the stack before. */
  function LeftOver(c: seq<Byte>, k: nat, budget: nat, stack: EntryBytes): (b: EntryBytes)
    requires k <= |c| / ENTRY
  {
    if k < budget && k < |c| / ENTRY then SlotBytes(c, k) else if k > 0 then SlotBytes(c, k - 1) else stack
  }

  /** Storing one entry's bytes changes that entry only. */
  lemma SlotStored(c: seq<Byte>, i: nat, b: seq<Byte>)
    requires i < |c| / ENTRY && |b| == ENTRY
    ensures Slots(Spliced(c, ENTRY * i, b)) == Slots(c)[i := DecodeEntry(b)]
  {
    var r := Spliced(c, ENTRY * i, b);
    assert |r| == |c|;
    forall k | 0 <= k < |c| / ENTRY ensures Slots(r)[k] == Slots(c)[i := DecodeEntry(b)][k] {
      SlotAt(c, k);
      SlotAt(r, k);
      if k == i {
        assert SlotBytes(r, i) == b;
      } else {
        SlotApart(c, i, b, k);
      }
    }
  }

  lemma SlotApart(c: seq<Byte>, i: nat, b: seq<Byte>, k: nat)
    requires ENTRY * i + ENTRY <= |c| && ENTRY * k + ENTRY <= |c| && |b| == ENTRY && k != i
    ensures SlotBytes(Spliced(c, ENTRY * i, b), k) == SlotBytes(c, k)
  {
    assert ENTRY * k + ENTRY <= ENTRY * i || ENTRY * i + ENTRY <= ENTRY * k;
  }
}
