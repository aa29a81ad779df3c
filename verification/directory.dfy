/** The root directory's loops over its entries, as they read and write the directory's inode.

    Every read of an entry needs a bounce buffer. `budget` says how many reads find the memory
    for it before one does not; such a read comes back short, which the loops take for the end
    of the directory. */
module Directory {
  import opened InodeIo
  import opened DiskFormat
  import opened Inode
  import FileSystem

  /** dir_add on the entries: what it leaves when `lookups` and `searches` reads succeed. */
  function AddTo(es: seq<Entry>, name: seq<Byte>, sector: nat, lookups: nat, searches: nat, memory: bool): (r: seq<Entry>)
    ensures |r| == |es|
  {
    var k := FileSystem.FreeSlot(Visible(es, searches));
    if AddsTo(es, name, lookups, searches, memory) then es[k := Entry(sector, name, true)] else es
  }

  predicate AddsTo(es: seq<Entry>, name: seq<Byte>, lookups: nat, searches: nat, memory: bool) {
    && FileSystem.NameOK(name) && memory
    && FileSystem.Lookup(Visible(es, lookups), name) == |Visible(es, lookups)|
    && FileSystem.FreeSlot(Visible(es, searches)) < |es|
  }

  ghost predicate UniqueNames(es: seq<Entry>) {
    forall k, m | 0 <= k < m < |es| && es[k].inUse && es[m].inUse :: es[k].name != es[m].name
  }

  /** Every entry that was in use still is. */
  ghost predicate NothingLost(es: seq<Entry>, r: seq<Entry>) {
    |r| == |es| && forall k | 0 <= k < |es| && es[k].inUse :: r[k] == es[k]
  }

  /** The name is in use at an entry the lookup did not get to read. */
  ghost predicate HiddenName(es: seq<Entry>, name: seq<Byte>, lookups: nat) {
    exists m :: lookups <= m < |es| && es[m].inUse && es[m].name == name
  }

  /** The search for a free entry ran out of memory in front of one in use. */
  predicate CutShort(es: seq<Entry>, searches: nat) {
    searches < |es| && es[searches].inUse && FileSystem.FreeSlot(es) > searches
  }

  /** A successful dir_add of a new inode keeps names unique and loses no entry exactly when the
      lookup saw every use of the name and the search was not cut short at an entry in use. */
  lemma AddSoundIff(es: seq<Entry>, name: seq<Byte>, sector: nat, lookups: nat, searches: nat)
    requires UniqueNames(es) && AddsTo(es, name, lookups, searches, true)
    requires forall m | 0 <= m < |es| && es[m].inUse :: es[m].sector != sector
    ensures var r := AddTo(es, name, sector, lookups, searches, true);
            UniqueNames(r) && NothingLost(es, r) <==> !HiddenName(es, name, lookups) && !CutShort(es, searches)
  {
    var k := FileSystem.FreeSlot(Visible(es, searches));
    var r := AddTo(es, name, sector, lookups, searches, true);
    SearchEnds(es, searches);
    assert r[k] == Entry(sector, name, true) && forall m | 0 <= m < |es| && m != k :: r[m] == es[m];
    if CutShort(es, searches) {
      assert es[k].inUse && r[k] != es[k];
    } else if HiddenName(es, name, lookups) {
      var m :| lookups <= m < |es| && es[m].inUse && es[m].name == name;
      assert r[m] == es[m] && m != k;
      assert !UniqueNames(r);
    } else {
      NameUnused(es, name, lookups);
    }
  }

  lemma NameUnused(es: seq<Entry>, name: seq<Byte>, lookups: nat)
    requires FileSystem.Lookup(Visible(es, lookups), name) == |Visible(es, lookups)| && !HiddenName(es, name, lookups)
    ensures forall m | 0 <= m < |es| && es[m].inUse :: es[m].name != name
  {
    assert forall m | 0 <= m < |Visible(es, lookups)| :: Visible(es, lookups)[m] == es[m];
  }

  /** Where the search stops, and that it stops at an entry in use exactly when cut short. */
  lemma SearchEnds(es: seq<Entry>, searches: nat)
    ensures var k := FileSystem.FreeSlot(Visible(es, searches));
            k < |es| ==> (es[k].inUse <==> CutShort(es, searches))
  {
    var v := Visible(es, searches);
    var k := FileSystem.FreeSlot(v);
    assert forall m | 0 <= m < |v| :: v[m] == es[m];
    assert FileSystem.FreeSlot(es) <= |es|;
    if k < |v| {
      assert !es[k].inUse && FileSystem.FreeSlot(es) <= k;
    }
  }

  /** Memory that lasts through the directory is enough. */
  lemma AddSound(es: seq<Entry>, name: seq<Byte>, sector: nat, lookups: nat, searches: nat)
    requires UniqueNames(es) && AddsTo(es, name, lookups, searches, true) && |es| <= lookups && |es| <= searches
    requires forall m | 0 <= m < |es| && es[m].inUse :: es[m].sector != sector
    ensures var r := AddTo(es, name, sector, lookups, searches, true);
            UniqueNames(r) && NothingLost(es, r)
  {
    AddSoundIff(es, name, sector, lookups, searches);
  }

  /** With memory for no lookup but for one search, a name already in the directory is added a
      second time. */
  lemma LowMemoryDuplicates()
    ensures var es := [Entry(5, [97], true), Entry(0, [], false)];
            && UniqueNames(es) && AddsTo(es, [97], 0, 2, true)
            && !UniqueNames(AddTo(es, [97], 6, 0, 2, true))
  {
    var es := [Entry(5, [97], true), Entry(0, [], false)];
    assert Visible(es, 0) == [] && Visible(es, 2) == es;
    assert FileSystem.FreeSlot(es) == 1 by {
      assert es[1..] == [Entry(0, [], false)];
    }
    var r := AddTo(es, [97], 6, 0, 2, true);
    assert r[0].name == r[1].name && r[0].inUse && r[1].inUse;
  }

  // ---------------------------------------------------------------- the loops

  /** A short read is one the entry does not fit in the file for, or without memory. */
  lemma EntryRead(length: nat, i: nat, memory: bool)
    ensures Transfer(length, ENTRY, ENTRY * i, memory) == ENTRY <==> memory && i < length / ENTRY
  {
    if i >= length / ENTRY {
      assert ENTRY * i + ENTRY > length;
    }
  }

  lemma NothingStored(length: nat, i: nat, memory: bool)
    requires length % ENTRY == 0 && i <= length / ENTRY && !(memory && i < length / ENTRY)
    ensures Transfer(length, ENTRY, ENTRY * i, memory) == 0
  {
  }

  class Dir {
    const inode: OpenInode
    var pos: nat

    ghost predicate Valid()
      reads this, inode, inode.device
    {
      inode.Valid() && pos % ENTRY == 0
    }

    ghost function Entries(): (es: seq<Entry>)
      requires Valid()
      reads this, inode, inode.device
    {
      Slots(inode.Bytes())
    }

    constructor (inode: OpenInode)
      requires inode.Valid()
      ensures Valid() && this.inode == inode && pos == 0
    {
      this.inode, pos := inode, 0;
    }

    /** One read of the entry at index `i`. */
    method ReadEntry(i: nat, memory: bool) returns (ok: bool, bytes: seq<Byte>)
      requires Valid()
      ensures ok <==> memory && i < |Entries()|
      ensures ok ==> |bytes| == ENTRY && ENTRY * i + ENTRY <= inode.length && bytes == SlotBytes(inode.Bytes(), i)
      ensures ok ==> DecodeEntry(bytes) == Entries()[i]
    {
      var buffer := new Byte[ENTRY](_ => 0);
      var n := inode.ReadAt(buffer, ENTRY, ENTRY * i, memory);
      EntryRead(inode.length, i, memory);
      ok, bytes := n == ENTRY, buffer[..];
      if ok {
        SlotAt(inode.Bytes(), i);
      }
    }

    /** lookup: the first entry in use with the name, among those it gets to read. */
    method Lookup(name: seq<Byte>, budget: nat) returns (found: bool, i: nat, bytes: seq<Byte>)
      requires Valid()
      ensures i == FileSystem.Lookup(Visible(Entries(), budget), name)
      ensures found <==> i < |Visible(Entries(), budget)|
      ensures found ==> |bytes| == ENTRY && i < |Entries()| && DecodeEntry(bytes) == Entries()[i]
      ensures found ==> ENTRY * i + ENTRY <= inode.length && bytes == SlotBytes(inode.Bytes(), i)
    {
      ghost var v := Visible(Entries(), budget);
      i := 0;
      bytes := [];
      while true
        invariant i <= |v| && v == Visible(Entries(), budget)
        invariant FileSystem.Lookup(v, name) == i + FileSystem.Lookup(v[i..], name)
        decreases |v| - i
      {
        var ok, b := ReadEntry(i, i < budget);
        if !ok {
          assert v[i..] == [];
          return false, i, bytes;
        }
        var e := DecodeEntry(b);
        assert v[i] == e && v[i..][0] == e && v[i..][1..] == v[i + 1..];
        if e.inUse && e.name == name {
          return true, i, b;
        }
        i := i + 1;
      }
    }

    /** dir_add's search: the first free entry it gets to read, or where its reads came back
        short. */
    method FindFree(budget: nat, stack: EntryBytes) returns (i: nat, last: EntryBytes)
      requires Valid()
      ensures i == FileSystem.FreeSlot(Visible(Entries(), budget))
      ensures last == LeftOver(inode.Bytes(), i, budget, stack)
    {
      ghost var v := Visible(Entries(), budget);
      i, last := 0, stack;
      while true
        invariant i <= |v| && v == Visible(Entries(), budget)
        invariant last == if i > 0 then SlotBytes(inode.Bytes(), i - 1) else stack
        invariant FileSystem.FreeSlot(v) == i + FileSystem.FreeSlot(v[i..])
        decreases |v| - i
      {
        var ok, b := ReadEntry(i, i < budget);
        if !ok {
          assert v[i..] == [];
          return;
        }
        last := b;
        assert v[i] == DecodeEntry(b) && v[i..][0] == DecodeEntry(b) && v[i..][1..] == v[i + 1..];
        if !DecodeEntry(b).inUse {
          return;
        }
        i := i + 1;
      }
    }

    /** Stores one entry's bytes at index `i`; past the last entry nothing is stored. */
    method WriteEntry(i: nat, bytes: seq<Byte>, memory: bool) returns (ok: bool)
      requires Valid() && |bytes| == ENTRY && inode.length % ENTRY == 0 && i <= |Entries()| && inode.denyCount == 0
      modifies inode.device
      ensures Valid() && (ok <==> memory && i < |old(Entries())|)
      ensures Entries() == if ok then old(Entries())[i := DecodeEntry(bytes)] else old(Entries())
    {
      hide Slots;
      hide DecodeEntry;
      var buffer := new Byte[ENTRY](k requires 0 <= k < ENTRY => bytes[k]);
      assert buffer[..] == bytes;
      var n := inode.WriteAt(buffer, ENTRY, ENTRY * i, memory);
      EntryRead(inode.length, i, memory);
      ok := n == ENTRY;
      if ok {
        assert buffer[..n] == bytes;
        SlotStored(old(inode.Bytes()), i, bytes);
      } else {
        NothingStored(inode.length, i, memory);
      }
    }

    /** dir_add. */
    method Add(name: seq<Byte>, sector: nat, lookups: nat, searches: nat, stack: EntryBytes, memory: bool)
        returns (ok: bool)
      requires Valid() && inode.length % ENTRY == 0 && inode.denyCount == 0 && 0 !in name && sector < WORD
      modifies inode.device
      ensures Valid() && (ok <==> AddsTo(old(Entries()), name, lookups, searches, memory))
      ensures Entries() == AddTo(old(Entries()), name, sector, lookups, searches, memory)
    {
      hide Slots;
      hide DecodeEntry;
      hide FilledEntry;
      if name == [] || |name| > NAME_MAX {
        return false;
      }
      var found, _, _ := Lookup(name, lookups);
      if found {
        return false;
      }
      var i, last := FindFree(searches, stack);
      FilledDecodes(last, name, sector);
      ok := WriteEntry(i, FilledEntry(last, name, sector), memory);
    }

    /** dir_remove's part in the directory: the entry is marked free. */
    method Erase(name: seq<Byte>, lookups: nat, memory: bool) returns (ok: bool)
      requires Valid() && inode.length % ENTRY == 0 && inode.denyCount == 0
      modifies inode.device
      ensures Valid()
      ensures var es := old(Entries());
              var i := FileSystem.Lookup(Visible(es, lookups), name);
              && (ok <==> memory && i < |Visible(es, lookups)|)
              && Entries() == if ok then es[i := es[i].(inUse := false)] else es
    {
      hide Slots;
      hide DecodeEntry;
      hide ErasedEntry;
      var found, i, bytes := Lookup(name, lookups);
      if !found {
        return false;
      }
      ErasedDecodes(bytes);
      ok := WriteEntry(i, ErasedEntry(bytes), memory);
    }

    /** Index of the first entry in use at or after `i`, or the number of entries. */
    static function NextInUse(es: seq<Entry>, i: nat): (k: nat)
      ensures k < |es| ==> i <= k && es[k].inUse
      ensures forall m | i <= m < k && m < |es| :: !es[m].inUse
      decreases |es| - i
    {
      if i >= |es| then |es| else if es[i].inUse then i else NextInUse(es, i + 1)
    }

    /** dir_readdir: the next entry in use, leaving the position behind it. */
    method ReadDir(budget: nat) returns (found: bool, name: seq<Byte>)
      requires Valid()
      modifies this`pos
      ensures Valid()
      ensures var es := Visible(Entries(), budget);
              var k := NextInUse(es, old(pos) / ENTRY);
              && (found <==> k < |es|)
              && (found ==> name == es[k].name && pos == ENTRY * (k + 1))
              && (!found ==> old(pos) <= pos && pos / ENTRY >= |es|)
    {
      hide Slots;
      hide DecodeEntry;
      ghost var es := Visible(Entries(), budget);
      var i := pos / ENTRY;
      name := [];
      while true
        invariant pos == ENTRY * i && Valid() && es == Visible(Entries(), budget) && old(pos) <= pos
        invariant NextInUse(es, old(pos) / ENTRY) == NextInUse(es, i)
        decreases if i < |es| then |es| - i else 0
      {
        var ok, b := ReadEntry(i, i < budget);
        if !ok {
          return false, name;
        }
        i := i + 1;
        pos := pos + ENTRY;
        var e := DecodeEntry(b);
        if e.inUse {
          return true, e.name;
        }
      }
    }
  }
}
