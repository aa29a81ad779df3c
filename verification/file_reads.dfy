/** Reading a file piece by piece. */
module FileReads {
  import opened InodeIo
  import opened DiskFormat
  import opened FileSystem
  import opened FileInvariant
  import opened FileSteps
  import opened FileStart
  import opened FileMap
  import opened FileSpace
  import opened FileRuns
  import opened FileView

  /** What a read returns. */
  ghost function ReadData(s: State, f: FileId, size: nat, lk: Luck): (data: seq<Byte>)
    requires Inv(s) && f in s.files
    ensures var c, pos := Seen(s, f), s.files[f].pos;
            |data| == Movable(|c|, size, pos, lk.entry) && (data != [] ==> pos + |data| <= |c| && data == c[pos..pos + |data|])
  {
    var c, pos := Seen(s, f), s.files[f].pos;
    var n := Movable(|c|, size, pos, lk.entry);
    if n == 0 then [] else c[pos..pos + n]
  }

  /** How many of `size` bytes a write stores: none while a file denies writes. */
  ghost function WriteSize(s: State, f: FileId, size: nat, lk: Luck): (n: nat)
    requires Inv(s) && f in s.files
  {
    if Deniers(s.files, s.files[f].inode) != {} then 0 else Movable(|Seen(s, f)|, size, s.files[f].pos, lk.entry)
  }

  /** The call sets the position of `f` or writes to its inode. */
  predicate Disturbs(s: State, e: Event, f: FileId) {
    e.Call? && ((e.action.Seek? && e.action.file == f) || WritesTo(s, e.action, f))
  }

  /** What an event reads from `f`. */
  ghost function EventReads(s: State, e: Event, f: FileId): (data: seq<Byte>)
    requires Inv(s) && f in s.files
  {
    if e.Call? && e.action.Read? && e.action.file == f then ReadData(s, f, e.action.count, e.action.luck) else []
  }

  /** A position is moved by the read, write or seek of its own file. */
  lemma ViewPosition(v: View, a: Action, f: FileId)
    requires HandleOK(v, a) && f in v.files && f in NextView(v, a).files
    requires (a.Seek? || a.Write?) ==> a.file != f
    requires a.Open? ==> a.file != f
    ensures NextView(v, a).files[f].pos == v.files[f].pos + if a.Read? && a.file == f then Moved(v, f, a.count, a.luck) else 0
  {
    hide Moved;
    hide UsedAfter;
    hide TakesRun;
    hide CreateMap;
    hide FreeFile;
    hide Overlaid;
    hide Unmarked;
    hide DataFor;
    hide Leads;
  }

  /** A call that does not disturb `f` moves its position by what it reads from it. */
  lemma StepPosition(s: State, a: Action, f: FileId)
    requires Inv(s) && Enabled(s, a) && Safe(s, a) && f in s.files && f in Next(s, a).files && !Disturbs(s, Call(a), f)
    ensures Next(s, a).files[f].pos == s.files[f].pos + |EventReads(s, Call(a), f)|
  {
    hide Inv;
    hide Next;
    hide NextView;
    hide Movable;
    hide FilesIn;
    hide Safe;
    StepRefines(s, a);
    ViewPosition(ViewOf(s), a, f);
    if a.Read? && a.file == f {
      HandleContent(s, f);
    }
  }

  /** The stretch of a run in which `f` stays open and undisturbed. */
  ghost predicate Undisturbing(ss: seq<State>, es: seq<Event>, i: nat, j: nat, f: FileId) {
    && IsRun(ss, es) && i <= j < |ss|
    && (forall m | i <= m <= j :: Inv(ss[m]) && f in ss[m].files)
    && forall m | i <= m < j :: !Disturbs(ss[m], es[m], f)
  }

  /** What the reads from `f` between two states return, one after the other. */
  ghost function Reads(ss: seq<State>, es: seq<Event>, i: nat, j: nat, f: FileId): (data: seq<Byte>)
    requires Undisturbing(ss, es, i, j, f)
    decreases j
  {
    if i == j then [] else Reads(ss, es, i, j - 1, f) + EventReads(ss[j - 1], es[j - 1], f)
  }

  /** The bytes of `c` from `from` on; no bytes are a slice wherever they are. */
  predicate SliceOf(data: seq<Byte>, c: seq<Byte>, from: nat) {
    data != [] ==> from + |data| <= |c| && data == c[from..from + |data|]
  }

  lemma SlicesJoin(a: seq<Byte>, b: seq<Byte>, c: seq<Byte>, from: nat)
    requires SliceOf(a, c, from) && SliceOf(b, c, from + |a|)
    ensures SliceOf(a + b, c, from)
  {
    if b == [] {
      assert a + b == a;
    } else if a == [] {
      assert a + b == b;
    } else {
      assert a + b == c[from..from + |a + b|];
    }
  }

  lemma EventSlice(s: State, e: Event, f: FileId)
    requires Inv(s) && f in s.files
    ensures SliceOf(EventReads(s, e, f), Seen(s, f), s.files[f].pos)
  {
    hide Inv;
    hide Seen;
    hide Movable;
  }

  /** Successive reads return successive bytes: whatever else is called in between, together they
      are the one slice of the file between the first position and the last. */
  lemma {:induction false} RunReads(ss: seq<State>, es: seq<Event>, i: nat, j: nat, f: FileId)
    requires Undisturbing(ss, es, i, j, f)
    ensures var data, c := Reads(ss, es, i, j, f), Seen(ss[i], f);
            && ss[j].files[f].pos == ss[i].files[f].pos + |data| && Seen(ss[j], f) == c
            && SliceOf(data, c, ss[i].files[f].pos)
    decreases j
  {
    hide Inv;
    hide Seen;
    hide EventReads;
    hide SliceOf;
    hide Disturbs;
    hide Step;
    hide Formatted;
    assert |ss| == |es| + 1;
    hide IsRun;
    if i == j {
      assert SliceOf([], Seen(ss[i], f), ss[i].files[f].pos) by {
        NoSlice(Seen(ss[i], f), ss[i].files[f].pos);
      }
    } else {
      RunReads(ss, es, i, j - 1, f);
      assert Inv(ss[j - 1]) && !Disturbs(ss[j - 1], es[j - 1], f) && f in ss[j].files;
      RunStep(ss, es, j - 1);
      EventPosition(ss[j - 1], es[j - 1], ss[j], f);
      EventSlice(ss[j - 1], es[j - 1], f);
      SlicesJoin(Reads(ss, es, i, j - 1, f), EventReads(ss[j - 1], es[j - 1], f), Seen(ss[i], f), ss[i].files[f].pos);
    }
  }

  lemma NoSlice(c: seq<Byte>, from: nat)
    ensures SliceOf([], c, from)
  {
  }

  lemma RunStep(ss: seq<State>, es: seq<Event>, n: nat)
    requires IsRun(ss, es) && n < |es|
    ensures Step(ss[n], es[n], ss[n + 1])
  {
    hide Step;
    hide Formatted;
  }

  /** An event that leaves `f` open and undisturbed. */
  lemma EventPosition(s: State, e: Event, s': State, f: FileId)
    requires Inv(s) && Step(s, e, s') && f in s.files && f in s'.files && !Disturbs(s, e, f) && Inv(s')
    ensures s'.files[f].pos == s.files[f].pos + |EventReads(s, e, f)| && Seen(s', f) == Seen(s, f)
  {
    hide Inv;
    hide Next;
    hide Enabled;
    hide Safe;
    hide Seen;
    hide EventReads;
    StillOpen(s, e, s', f);
    StepPosition(s, e.action, f);
    StepIsolates(s, e.action, f);
  }

  lemma StillOpen(s: State, e: Event, s': State, f: FileId)
    requires Step(s, e, s') && f in s'.files
    ensures e.Call?
  {
    hide Next;
    hide Safe;
  }

  /** Reading until nothing more comes, with memory at hand, returns the rest of the file. */
  lemma ReadsToEnd(ss: seq<State>, es: seq<Event>, i: nat, j: nat, f: FileId, size: nat, lk: Luck)
    requires Undisturbing(ss, es, i, j, f) && lk.entry && size > 0 && ReadData(ss[j], f, size, lk) == []
    requires ss[i].files[f].pos <= |Seen(ss[i], f)|
    ensures Reads(ss, es, i, j, f) == Seen(ss[i], f)[ss[i].files[f].pos..]
  {
    hide Inv;
    hide IsRun;
    hide Seen;
    RunReads(ss, es, i, j, f);
    var c, data := Seen(ss[i], f), Reads(ss, es, i, j, f);
    assert ss[j].files[f].pos >= |c|;
    if data == [] {
      assert c[ss[i].files[f].pos..] == [];
    } else {
      assert c[ss[i].files[f].pos..ss[j].files[f].pos] == c[ss[i].files[f].pos..];
    }
  }
}
