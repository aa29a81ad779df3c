/** The page allocator: a pool's pages under interleaved, bit-by-bit allocation and freeing.

    Allocators hold the pool's lock while they test and set bits; freeing clears bits without
    the lock. Each test, set or clear of one bit is a step of its own. */
module Palloc {
  import opened Collections

  type Tid = int
  type AllocId = int

  /** What a thread is doing in the allocator. */
  datatype Phase =
    | Outside
    | Waiting(count: nat)                        // about to take the lock
    | Scanning(count: nat, first: nat, done: nat) // `done` bits from `first` on were found clear
    | Marking(count: nat, first: nat, done: nat)  // `done` bits from `first` on have been set
    | Clearing(count: nat, first: nat, done: nat) // `done` bits from `first` on have been cleared

  /** `live` holds the pages that callers own; threads map to their phase. */
  datatype Pool = Pool(used: seq<bool>, lock: Option<Tid>, phase: map<Tid, Phase>, live: map<AllocId, set<nat>>)

  datatype Action =
    | Begin(t: Tid, count: nat)               // palloc_get_multiple, before lock_acquire
    | Lock(t: Tid)                            // lock_acquire returns
    | TestBit(t: Tid)                         // one test of bitmap_scan
    | MarkBit(t: Tid, id: AllocId)            // one set of bitmap_set_multiple, or the return
    | Free(t: Tid, id: AllocId, first: nat, count: nat)  // palloc_free_multiple, before its loop
    | ClearBit(t: Tid)                        // one clear of bitmap_set_multiple

  predicate InRun(first: nat, count: nat, k: int) {
    first <= k < first + count
  }

  function Pages(first: nat, count: nat): (p: set<nat>) {
    set k: nat | first <= k < first + count && InRun(first, count, k)
  }

  function PhaseOf(s: Pool, t: Tid): (p: Phase) {
    if t in s.phase then s.phase[t] else Outside
  }

  /** Each thread follows its code; a caller frees only pages it owns. */
  predicate Enabled(s: Pool, a: Action) {
    var p := PhaseOf(s, a.t);
    match a
    case Begin(t, count) => p.Outside? && count > 0
    case Lock(t) => p.Waiting? && s.lock.None?
    case TestBit(t) => p.Scanning?
    case MarkBit(t, id) => p.Marking? && id !in s.live
    case Free(t, id, first, count) => p.Outside? && count > 0 && id in s.live && Pages(first, count) <= s.live[id]
    case ClearBit(t) => p.Clearing?
  }

  /** The accesses a step makes are inside the bitmap. */
  predicate Safe(s: Pool, a: Action)
    requires Enabled(s, a)
  {
    var p := PhaseOf(s, a.t);
    match a
    case TestBit(t) => p.first + p.count <= |s.used| && p.done < p.count ==> p.first + p.done < |s.used|
    case MarkBit(t, id) => p.done < p.count ==> p.first + p.done < |s.used|
    case ClearBit(t) => p.done < p.count ==> p.first + p.done < |s.used|
    case Free(t, id, first, count) => first + count <= |s.used| && forall k | first <= k < first + count :: s.used[k]
    case _ => true
  }

  function Next(s: Pool, a: Action): (r: Pool)
    requires Enabled(s, a) && Safe(s, a)
  {
    var p := PhaseOf(s, a.t);
    match a
    case Begin(t, count) => s.(phase := s.phase[t := Waiting(count)])
    case Lock(t) => s.(lock := Some(t), phase := s.phase[t := Scanning(p.count, 0, 0)])
    case TestBit(t) =>
      if p.first + p.count > |s.used| then s.(lock := None, phase := s.phase[t := Outside])
      else if p.done == p.count then s.(phase := s.phase[t := Marking(p.count, p.first, 0)])
      else if p.done < p.count && s.used[p.first + p.done] then s.(phase := s.phase[t := Scanning(p.count, p.first + 1, 0)])
      else s.(phase := s.phase[t := Scanning(p.count, p.first, p.done + 1)])
    case MarkBit(t, id) =>
      if p.done < p.count then
        s.(used := s.used[p.first + p.done := true], phase := s.phase[t := Marking(p.count, p.first, p.done + 1)])
      else s.(lock := None, phase := s.phase[t := Outside], live := s.live[id := Pages(p.first, p.count)])
    case Free(t, id, first, count) =>
      s.(phase := s.phase[t := Clearing(count, first, 0)], live := s.live[id := s.live[id] - Pages(first, count)])
    case ClearBit(t) =>
      if p.done < p.count then
        s.(used := s.used[p.first + p.done := false], phase := s.phase[t := Clearing(p.count, p.first, p.done + 1)])
      else s.(phase := s.phase[t := Outside])
  }

  // ---------------------------------------------------------------- who claims a page

  /** The owner of a live allocation, or a thread part-way through marking or clearing. */
  datatype Claimant = Owner(id: AllocId) | Worker(t: Tid)

  predicate Claims(s: Pool, c: Claimant, k: int) {
    match c
    case Owner(id) => k >= 0 && id in s.live && k in s.live[id]
    case Worker(t) =>
      var p := PhaseOf(s, t);
      || (p.Marking? && p.first <= k < p.first + p.done)
      || (p.Clearing? && p.first + p.done <= k < p.first + p.count)
  }

  /** A page is marked exactly when someone claims it, and nobody else does. */
  ghost predicate Exact(s: Pool) {
    && (forall c, k | Claims(s, c, k) :: 0 <= k < |s.used| && s.used[k])
    && (forall k | 0 <= k < |s.used| && s.used[k] :: exists c :: Claims(s, c, k))
    && (forall c, c', k | Claims(s, c, k) && Claims(s, c', k) :: c == c')
  }

  /** Only the lock's holder scans or marks; what it has found clear is still clear. */
  ghost predicate Locked(s: Pool) {
    forall t :: var p := PhaseOf(s, t);
      && (p.Scanning? || p.Marking? ==> s.lock == Some(t))
      && PhaseOK(s.used, p)
  }

  ghost predicate PhaseOK(used: seq<bool>, p: Phase) {
    match p
    case Scanning(count, first, done) =>
      && count > 0 && done <= count && first + done <= |used|
      && forall k | first <= k < first + done :: !used[k]
    case Marking(count, first, done) =>
      && count > 0 && done <= count && first + count <= |used|
      && forall k | first + done <= k < first + count :: !used[k]
    case Clearing(count, first, done) => done <= count && first + count <= |used|
    case Waiting(count) => count > 0
    case Outside => true
  }

  ghost predicate Inv(s: Pool) {
    Exact(s) && Locked(s)
  }

  // ---------------------------------------------------------------- every step keeps it

  lemma StepSafe(s: Pool, a: Action)
    requires Inv(s) && Enabled(s, a)
    ensures Safe(s, a)
  {
    assert PhaseOK(s.used, PhaseOf(s, a.t));
    if a.Free? {
      forall k | a.first <= k < a.first + a.count ensures k < |s.used| && s.used[k] {
        assert k in Pages(a.first, a.count);
        assert Claims(s, Owner(a.id), k);
      }
      assert a.first + a.count - 1 in Pages(a.first, a.count);
      assert Claims(s, Owner(a.id), a.first + a.count - 1);
    }
  }

  /** Steps that neither set nor clear a bit and move no claim. */
  lemma SameClaims(s: Pool, s': Pool)
    requires Exact(s) && s'.used == s.used
    requires forall c, k :: Claims(s', c, k) <==> Claims(s, c, k)
    ensures Exact(s')
  {
    forall k | 0 <= k < |s'.used| && s'.used[k] ensures exists c :: Claims(s', c, k) {
      var c :| Claims(s, c, k);
      assert Claims(s', c, k);
    }
  }

  /** Only the phase of `t` changes, and it claims nothing before or after. */
  lemma PhaseKeeps(s: Pool, r: Pool, t: Tid)
    requires Inv(s) && r == s.(lock := r.lock, phase := r.phase) && forall u | u != t :: PhaseOf(r, u) == PhaseOf(s, u)
    requires !PhaseOf(s, t).Clearing? && (PhaseOf(s, t).Marking? ==> PhaseOf(s, t).done == 0)
    requires !PhaseOf(r, t).Clearing? && (PhaseOf(r, t).Marking? ==> PhaseOf(r, t).done == 0)
    requires PhaseOK(r.used, PhaseOf(r, t))
    requires PhaseOf(r, t).Scanning? || PhaseOf(r, t).Marking? ==> r.lock == Some(t)
    requires r.lock == s.lock || s.lock == None || s.lock == Some(t)
    ensures Inv(r)
  {
    assert forall c, k :: Claims(r, c, k) <==> Claims(s, c, k);
    SameClaims(s, r);
    hide Exact;
    forall u ensures PhaseOK(r.used, PhaseOf(r, u)) && (PhaseOf(r, u).Scanning? || PhaseOf(r, u).Marking? ==> r.lock == Some(u)) {
      assert PhaseOK(s.used, PhaseOf(s, u));
    }
  }

  lemma QuietKeeps(s: Pool, a: Action)
    requires Inv(s) && Enabled(s, a) && Safe(s, a) && (a.Begin? || a.Lock? || a.TestBit?)
    ensures Inv(Next(s, a))
  {
    hide Exact;
    var r, p := Next(s, a), PhaseOf(s, a.t);
    assert PhaseOK(s.used, p);
    assert forall t | t != a.t :: PhaseOf(r, t) == PhaseOf(s, t);
    PhaseKeeps(s, r, a.t);
  }

  /** Marking the next page of a run found free. */
  lemma MarkKeeps(s: Pool, t: Tid, id: AllocId)
    requires Inv(s) && Enabled(s, MarkBit(t, id)) && Safe(s, MarkBit(t, id)) && PhaseOf(s, t).done < PhaseOf(s, t).count
    ensures Inv(Next(s, MarkBit(t, id)))
  {
    var r, p := Next(s, MarkBit(t, id)), PhaseOf(s, t);
    var x := p.first + p.done;
    assert PhaseOK(s.used, p) && !s.used[x];
    assert forall u | u != t :: PhaseOf(r, u) == PhaseOf(s, u);
    assert forall c, k :: Claims(r, c, k) <==> Claims(s, c, k) || (c == Worker(t) && k == x);
    assert forall c :: !Claims(s, c, x);
    MovedClaim(s, r, Worker(t), x);
    MarkLocked(s, t, id);
  }

  /** One unclaimed page becomes marked and claimed. */
  lemma MovedClaim(s: Pool, r: Pool, w: Claimant, x: int)
    requires Exact(s) && 0 <= x < |s.used| && r.used == s.used[x := true]
    requires forall c :: !Claims(s, c, x)
    requires forall c, k :: Claims(r, c, k) <==> Claims(s, c, k) || (c == w && k == x)
    ensures Exact(r)
  {
    forall k | 0 <= k < |r.used| && r.used[k] ensures exists c :: Claims(r, c, k) {
      if k == x {
        assert Claims(r, w, x);
      } else {
        var c :| Claims(s, c, k);
        assert Claims(r, c, k);
      }
    }
  }

  lemma MarkLocked(s: Pool, t: Tid, id: AllocId)
    requires Inv(s) && Enabled(s, MarkBit(t, id)) && Safe(s, MarkBit(t, id)) && PhaseOf(s, t).done < PhaseOf(s, t).count
    ensures Locked(Next(s, MarkBit(t, id)))
  {
    var r, p := Next(s, MarkBit(t, id)), PhaseOf(s, t);
    assert PhaseOK(s.used, p) && s.lock == Some(t);
    forall u ensures PhaseOK(r.used, PhaseOf(r, u)) && (PhaseOf(r, u).Scanning? || PhaseOf(r, u).Marking? ==> r.lock == Some(u)) {
      assert PhaseOK(s.used, PhaseOf(s, u));
      assert u != t ==> !PhaseOf(s, u).Scanning? && !PhaseOf(s, u).Marking?;
    }
  }

  /** The run is complete and passes to its owner. */
  lemma ReturnKeeps(s: Pool, t: Tid, id: AllocId)
    requires Inv(s) && Enabled(s, MarkBit(t, id)) && Safe(s, MarkBit(t, id)) && PhaseOf(s, t).done == PhaseOf(s, t).count
    ensures Inv(Next(s, MarkBit(t, id)))
  {
    var r, p := Next(s, MarkBit(t, id)), PhaseOf(s, t);
    assert forall u | u != t :: PhaseOf(r, u) == PhaseOf(s, u);
    assert forall k :: Claims(r, Owner(id), k) <==> Claims(s, Worker(t), k);
    assert forall k :: !Claims(r, Worker(t), k) && !Claims(s, Owner(id), k);
    assert forall c, k | c != Owner(id) && c != Worker(t) :: Claims(r, c, k) <==> Claims(s, c, k);
    PassedClaims(s, r, Worker(t), Owner(id));
    forall u ensures PhaseOK(r.used, PhaseOf(r, u)) && (PhaseOf(r, u).Scanning? || PhaseOf(r, u).Marking? ==> r.lock == Some(u)) {
      assert PhaseOK(s.used, PhaseOf(s, u));
      assert s.lock == Some(t);
    }
  }

  /** All claims of one claimant pass to another that had none. */
  lemma PassedClaims(s: Pool, r: Pool, a: Claimant, b: Claimant)
    requires Exact(s) && r.used == s.used && a != b
    requires forall k :: Claims(r, b, k) <==> Claims(s, a, k)
    requires forall k :: !Claims(r, a, k) && !Claims(s, b, k)
    requires forall c, k | c != a && c != b :: Claims(r, c, k) <==> Claims(s, c, k)
    ensures Exact(r)
  {
    forall k | 0 <= k < |r.used| && r.used[k] ensures exists c :: Claims(r, c, k) {
      var c :| Claims(s, c, k);
      assert Claims(r, if c == a then b else c, k);
    }
    forall c, c', k | Claims(r, c, k) && Claims(r, c', k) ensures c == c' {
      assert Claims(s, if c == b then a else c, k) && Claims(s, if c' == b then a else c', k);
    }
  }

  /** Part of an allocation passes to the thread that frees it. */
  lemma FreeKeeps(s: Pool, a: Action)
    requires Inv(s) && Enabled(s, a) && Safe(s, a) && a.Free?
    ensures Inv(Next(s, a))
  {
    var r := Next(s, a);
    assert forall u | u != a.t :: PhaseOf(r, u) == PhaseOf(s, u);
    assert forall k :: Claims(r, Worker(a.t), k) <==> a.first <= k < a.first + a.count;
    assert forall k :: !Claims(s, Worker(a.t), k);
    forall k | a.first <= k < a.first + a.count ensures Claims(s, Owner(a.id), k) {
      assert k in Pages(a.first, a.count);
    }
    assert forall k :: Claims(r, Owner(a.id), k) <==> Claims(s, Owner(a.id), k) && !(a.first <= k < a.first + a.count);
    assert forall c, k | c != Owner(a.id) && c != Worker(a.t) :: Claims(r, c, k) <==> Claims(s, c, k);
    SplitClaims(s, r, Owner(a.id), Worker(a.t));
    forall u ensures PhaseOK(r.used, PhaseOf(r, u)) && (PhaseOf(r, u).Scanning? || PhaseOf(r, u).Marking? ==> r.lock == Some(u)) {
      assert PhaseOK(s.used, PhaseOf(s, u));
    }
  }

  /** Some claims of one claimant pass to another that had none. */
  lemma SplitClaims(s: Pool, r: Pool, a: Claimant, b: Claimant)
    requires Exact(s) && r.used == s.used && a != b
    requires forall k :: !Claims(s, b, k)
    requires forall k :: Claims(r, b, k) ==> Claims(s, a, k)
    requires forall k :: Claims(r, a, k) <==> Claims(s, a, k) && !Claims(r, b, k)
    requires forall c, k | c != a && c != b :: Claims(r, c, k) <==> Claims(s, c, k)
    ensures Exact(r)
  {
    forall k | 0 <= k < |r.used| && r.used[k] ensures exists c :: Claims(r, c, k) {
      var c :| Claims(s, c, k);
      assert Claims(r, c, k) || Claims(r, b, k);
    }
    forall c, c', k | Claims(r, c, k) && Claims(r, c', k) ensures c == c' {
      assert Claims(s, if c == b then a else c, k) && Claims(s, if c' == b then a else c', k);
    }
  }

  /** Clearing the next page; nobody who tests or marks bits relies on it being set. */
  lemma ClearKeeps(s: Pool, t: Tid)
    requires Inv(s) && Enabled(s, ClearBit(t)) && Safe(s, ClearBit(t))
    ensures Inv(Next(s, ClearBit(t)))
  {
    var r, p := Next(s, ClearBit(t)), PhaseOf(s, t);
    hide Exact;
    ClearLocked(s, t);
    assert PhaseOK(s.used, p);
    hide Locked;
    if p.done == p.count {
      assert forall c, k :: Claims(r, c, k) <==> Claims(s, c, k);
      SameClaims(s, r);
    } else {
      var x := p.first + p.done;
      assert Claims(s, Worker(t), x);
      assert forall c, k :: Claims(r, c, k) <==> Claims(s, c, k) && !(c == Worker(t) && k == x);
      DroppedClaim(s, r, Worker(t), x);
    }
  }

  lemma ClearLocked(s: Pool, t: Tid)
    requires Locked(s) && Enabled(s, ClearBit(t)) && Safe(s, ClearBit(t))
    ensures Locked(Next(s, ClearBit(t)))
  {
    var r := Next(s, ClearBit(t));
    forall u ensures PhaseOK(r.used, PhaseOf(r, u)) && (PhaseOf(r, u).Scanning? || PhaseOf(r, u).Marking? ==> r.lock == Some(u)) {
      assert PhaseOK(s.used, PhaseOf(s, u));
    }
  }

  lemma DroppedClaim(s: Pool, r: Pool, w: Claimant, x: int)
    requires Exact(s) && 0 <= x < |s.used| && r.used == s.used[x := false] && Claims(s, w, x)
    requires forall c, k :: Claims(r, c, k) <==> Claims(s, c, k) && !(c == w && k == x)
    ensures Exact(r)
  {
    forall k | 0 <= k < |r.used| && r.used[k] ensures exists c :: Claims(r, c, k) {
      var c :| Claims(s, c, k);
      assert Claims(r, c, k);
    }
  }

  lemma StepKeeps(s: Pool, a: Action)
    requires Inv(s) && Enabled(s, a)
    ensures Safe(s, a) && Inv(Next(s, a))
  {
    StepSafe(s, a);
    hide Exact;
    match a
    case MarkBit(t, id) =>
      assert PhaseOK(s.used, PhaseOf(s, t));
      if PhaseOf(s, t).done < PhaseOf(s, t).count { MarkKeeps(s, t, id); } else { ReturnKeeps(s, t, id); }
    case Free(_, _, _, _) => FreeKeeps(s, a);
    case ClearBit(t) => ClearKeeps(s, t);
    case _ => QuietKeeps(s, a);
  }

  // ---------------------------------------------------------------- runs

  ghost predicate Init(s: Pool) {
    s.lock == None && s.phase == map[] && s.live == map[] && forall k | 0 <= k < |s.used| :: !s.used[k]
  }

  ghost predicate Step(s: Pool, a: Action, s': Pool) {
    Enabled(s, a) && Safe(s, a) && s' == Next(s, a)
  }

  ghost predicate IsRun(ss: seq<Pool>, acts: seq<Action>) {
    |ss| == |acts| + 1 && Init(ss[0]) && forall i | 0 <= i < |acts| :: Step(ss[i], acts[i], ss[i + 1])
  }

  lemma InitHolds(s: Pool)
    requires Init(s)
    ensures Inv(s)
  {
    assert forall c, k :: !Claims(s, c, k);
  }

  lemma {:induction false} RunInvariant(ss: seq<Pool>, acts: seq<Action>, n: nat)
    requires IsRun(ss, acts) && n < |ss|
    ensures Inv(ss[n])
  {
    hide Inv;
    hide Enabled;
    hide Safe;
    hide Next;
    if n == 0 {
      InitHolds(ss[0]);
    } else {
      RunInvariant(ss, acts, n - 1);
      assert Step(ss[n - 1], acts[n - 1], ss[n - 1 + 1]);
      StepKeeps(ss[n - 1], acts[n - 1]);
    }
  }

  /** Under every interleaving, no page belongs to two allocations, and a page that is being freed
      belongs to none; every page handed out is inside the pool, and marked. */
  lemma NeverSharedTwice(ss: seq<Pool>, acts: seq<Action>, n: nat, id: AllocId, id': AllocId, k: nat)
    requires IsRun(ss, acts) && n < |ss| && id in ss[n].live && id' in ss[n].live && k in ss[n].live[id]
    ensures k < |ss[n].used| && ss[n].used[k]
    ensures k in ss[n].live[id'] ==> id == id'
    ensures forall t :: var p := PhaseOf(ss[n], t); p.Clearing? ==> !(p.first + p.done <= k < p.first + p.count)
  {
    hide Enabled;
    hide Safe;
    hide Next;
    RunInvariant(ss, acts, n);
    assert Claims(ss[n], Owner(id), k);
    assert k in ss[n].live[id'] ==> Claims(ss[n], Owner(id'), k);
    forall t ensures var p := PhaseOf(ss[n], t); p.Clearing? ==> !(p.first + p.done <= k < p.first + p.count) {
      assert Worker(t) != Owner(id);
      var pool := ss[n];
      var p := PhaseOf(pool, t);
      assert p.Clearing? && p.first + p.done <= k < p.first + p.count ==> Claims(pool, Worker(t), k);
    }
  }
}

/** Where the two pools and their bitmaps lie in memory. */
module Pools {
  import opened Arithmetic
  import opened Collections

  const PGSIZE := 4096
  const FREE_START := 0x10_0000

  /** A pool's storage: its bitmap from `map` on, then `count` pages from `base` on. */
  datatype Pool = Pool(map': nat, base: nat, count: nat)

  datatype Layout = Layout(kernel: Pool, user: Pool)

  /** Bytes for a bitmap of `n` bits with its two-word header. */
  function BufSize(n: nat): (b: nat) {
    8 + 4 * ((n + 31) / 32)
  }

  function MapPages(n: nat): (p: nat) {
    (BufSize(n) + PGSIZE - 1) / PGSIZE
  }

  /** init_pool: the bitmap takes the first pages; None stands for the panic. */
  function InitPool(start: nat, n: nat): (p: Option<Pool>)
    ensures p.None? <==> MapPages(n) > n
  {
    if MapPages(n) > n then None else Some(Pool(start, start + MapPages(n) * PGSIZE, n - MapPages(n)))
  }

  function Min(a: nat, b: nat): (m: nat) {
    if a < b then a else b
  }

  function UserPages(ram: nat, limit: nat): (n: nat)
    requires ram * PGSIZE >= FREE_START
  {
    Min((ram - FREE_START / PGSIZE) / 2, limit)
  }

  /** palloc_init over `ram` pages of memory. */
  function Init(ram: nat, limit: nat): (l: Option<Layout>)
    requires ram * PGSIZE >= FREE_START
  {
    var free := ram - FREE_START / PGSIZE;
    var user := UserPages(ram, limit);
    var kernel := free - user;
    var k := InitPool(FREE_START, kernel);
    var u := InitPool(FREE_START + kernel * PGSIZE, user);
    if k.Some? && u.Some? then Some(Layout(k.value, u.value)) else None
  }

  /** The address palloc_get_multiple returns for a run. */
  function Address(p: Pool, first: nat): (a: nat) {
    p.base + PGSIZE * first
  }

  predicate FromPool(p: Pool, a: nat) {
    p.base / PGSIZE <= a / PGSIZE < p.base / PGSIZE + p.count
  }

  lemma ScaleRun(first: nat, count: nat, n: nat)
    requires first + count <= n
    ensures PGSIZE * first + PGSIZE * count <= PGSIZE * n
  {
  }

  /** The bitmap fits in the pages set aside for it. */
  lemma MapFits(start: nat, n: nat)
    requires InitPool(start, n).Some?
    ensures var p := InitPool(start, n).value; p.map' + BufSize(p.count) <= p.base
  {
  }

  /** Every run inside a pool lies in that pool's part of memory, outside both bitmaps and the
      other pool, and its address leads back to its pool and its index. */
  lemma RunsApart(ram: nat, limit: nat, user: bool, first: nat, count: nat)
    requires ram * PGSIZE >= FREE_START && Init(ram, limit).Some?
    requires var l := Init(ram, limit).value; first + count <= (if user then l.user else l.kernel).count && count > 0
    ensures var l := Init(ram, limit).value;
            var p, q := if user then l.user else l.kernel, if user then l.kernel else l.user;
            var a := Address(p, first);
            && Apart(a, PGSIZE * count, p.map', BufSize(p.count))
            && Apart(a, PGSIZE * count, q.map', BufSize(q.count))
            && Apart(a, PGSIZE * count, q.base, PGSIZE * q.count)
            && FREE_START <= a && a + PGSIZE * count <= ram * PGSIZE
            && a % PGSIZE == 0 && FromPool(p, a) && !FromPool(q, a) && a / PGSIZE - p.base / PGSIZE == first
  {
    hide BufSize;
    hide MapPages;
    hide Init;
    hide InitPool;
    hide UserPages;
    hide FromPool;
    var l := Init(ram, limit).value;
    InitPlaces(ram, limit);
    ScaleRun(first, count, if user then l.user.count else l.kernel.count);
    var p, q := if user then l.user else l.kernel, if user then l.kernel else l.user;
    SamePool(p, first, count);
    OtherPool(p, q, first, count);
  }

  /** The kernel's bitmap and pages, then the user's, up to the end of memory. */
  lemma InitPlaces(ram: nat, limit: nat)
    requires ram * PGSIZE >= FREE_START && Init(ram, limit).Some?
    ensures var l := Init(ram, limit).value;
            && FREE_START == l.kernel.map' && l.kernel.map' + BufSize(l.kernel.count) <= l.kernel.base
            && l.kernel.base + PGSIZE * l.kernel.count == l.user.map'
            && l.user.map' + BufSize(l.user.count) <= l.user.base && l.user.base + PGSIZE * l.user.count == ram * PGSIZE
            && l.kernel.base % PGSIZE == 0 && l.user.base % PGSIZE == 0
  {
    hide BufSize;
    hide MapPages;
    hide UserPages;
    var userPages := UserPages(ram, limit);
    var kernel := ram - FREE_START / PGSIZE - userPages;
    MapFits(FREE_START, kernel);
    MapFits(FREE_START + kernel * PGSIZE, userPages);
  }

  lemma SamePool(p: Pool, first: nat, count: nat)
    requires p.base % PGSIZE == 0 && first + count <= p.count && count > 0
    ensures var a := Address(p, first); a % PGSIZE == 0 && FromPool(p, a) && a / PGSIZE - p.base / PGSIZE == first
  {
    assert Address(p, first) == PGSIZE * (p.base / PGSIZE + first);
  }

  lemma OtherPool(p: Pool, q: Pool, first: nat, count: nat)
    requires p.base % PGSIZE == 0 && q.base % PGSIZE == 0 && first + count <= p.count && count > 0
    requires p.base + PGSIZE * p.count <= q.base || q.base + PGSIZE * q.count <= p.base
    ensures !FromPool(q, Address(p, first))
  {
    assert Address(p, first) == PGSIZE * (p.base / PGSIZE + first);
    assert p.base == PGSIZE * (p.base / PGSIZE) && q.base == PGSIZE * (q.base / PGSIZE);
  }
}

/** One pool's code, with nobody else in it. */
module PageAllocator {
  import opened Collections
  import opened Bitmap
  import Pools
  import FileSystem

  class PagePool {
    const used: Bitmap
    const base: nat

    ghost predicate Valid()
      reads this, used
    {
      used.Valid()
    }

    ghost function Place(): (p: Pools.Pool)
      reads this, used
    {
      Pools.Pool(0, base, used.size)
    }

    constructor (base: nat, n: nat)
      ensures Valid() && fresh(used) && fresh(used.elems) && this.base == base && used.size == n
      ensures used.Bits() == seq(n, _ => false)
    {
      used := new Bitmap(n);
      this.base := base;
    }

    /** palloc_get_multiple: the lowest run of free pages, or nothing for no pages or too many. */
    method GetMultiple(count: nat) returns (page: Option<nat>)
      requires Valid()
      modifies used.elems
      ensures Valid()
      ensures var first := FirstRun(old(used.Bits()), 0, count, false);
              if count == 0 || first + count > used.size
              then page == None && used.Bits() == old(used.Bits())
              else && page == Some(Pools.Address(Place(), first))
                   && RunOf(old(used.Bits()), first, count, false)
                   && used.Bits() == FileSystem.SetRun(old(used.Bits()), first, count, true)
    {
      if count == 0 {
        return None;
      }
      var found, first := used.ScanAndFlip(0, count, false);
      return if found then Some(base + Pools.PGSIZE * first) else None;
    }

    /** palloc_free_multiple of a run this pool handed out. */
    method FreeMultiple(page: nat, count: nat)
      requires Valid() && base % Pools.PGSIZE == 0 && page % Pools.PGSIZE == 0 && page >= base
      requires var first := page / Pools.PGSIZE - base / Pools.PGSIZE;
               first + count <= used.size && RunOf(used.Bits(), first, count, true)
      modifies used.elems
      ensures Valid()
      ensures used.Bits() == FileSystem.SetRun(old(used.Bits()), page / Pools.PGSIZE - base / Pools.PGSIZE, count, false)
    {
      used.SetMultiple(page / Pools.PGSIZE - base / Pools.PGSIZE, count, false);
    }
  }

  /** Freeing what was just handed out restores the pool. */
  lemma FreeUndoesGet(bits: seq<bool>, count: nat)
    requires FirstRun(bits, 0, count, false) + count <= |bits|
    ensures var first := FirstRun(bits, 0, count, false);
            && RunOf(FileSystem.SetRun(bits, first, count, true), first, count, true)
            && FileSystem.SetRun(FileSystem.SetRun(bits, first, count, true), first, count, false) == bits
  {
    FirstRunFound(bits, 0, count, false);
  }
}
