/** What every step keeps about semaphores, locks and donations. */
module SchedulerSync {
  import opened Collections
  import opened Ordering
  import opened Scheduler
  import opened SchedulerQueues

  /** Between its successful sema_down and its sema_up on the lock's semaphore. */
  ghost predicate Owns(s: State, t: Tid, l: LockId) {
    && t in s.threads && l in s.holder
    && (s.holder[l] == Some(t) || InTransit(s.threads[t].pc, l))
  }

  /** Holding the lock's semaphore but not recorded as holder. */
  predicate InTransit(pc: Pc, l: LockId) {
    pc == Got(l) || pc == Taking(l) || pc == Giving(l)
  }

  /** A lock's semaphore is 1 or 0; it is 0 exactly when a thread owns it, and that thread is
      the history's one owner. */
  ghost predicate LockOK(s: State, l: LockId)
    requires l in s.holder
  {
    && l in s.owner && OfLock(l) in s.semas
    && s.semas[OfLock(l)].value == (if s.owner[l].None? then 1 else 0)
    && (forall t :: s.owner[l] == Some(t) <==> Owns(s, t, l))
    && (forall t | t in s.threads && InTransit(s.threads[t].pc, l) :: s.holder[l].None?)
  }

  ghost predicate Mutex(s: State) {
    forall l | l in s.holder :: LockOK(s, l)
  }

  /** `d` waits for a lock that `h` holds. */
  ghost predicate WaitsFor(s: State, d: Tid, h: Tid) {
    && d in s.threads && s.threads[d].waiting.Some?
    && var l := s.threads[d].waiting.value;
       l in s.holder && s.holder[l] == Some(h) && s.threads[d].pc.Down? && s.threads[d].pc.sema == OfLock(l)
  }

  /** Donation lists hold distinct threads that wait for a lock of the list's owner. */
  ghost predicate Donors(s: State) {
    forall h | h in s.threads ::
      && Distinct(s.threads[h].donations)
      && forall d | d in s.threads[h].donations :: WaitsFor(s, d, h)
  }

  /** waiting_lock is set only inside lock_acquire, and never under MLFQS. */
  ghost predicate WaitingFields(s: State) {
    forall t | t in s.threads ::
      var th := s.threads[t];
      && (th.waiting.Some? ==> !s.mlfqs && InAcquire(th.pc, th.waiting.value))
      && (s.mlfqs ==> th.donations == [])
  }

  predicate InAcquire(pc: Pc, l: LockId) {
    (pc.Down? && pc.sema == OfLock(l)) || pc == Got(l)
  }

  ghost predicate BaseBelow(s: State) {
    !s.mlfqs ==> forall t | t in s.threads :: s.threads[t].base <= s.threads[t].priority
  }

  ghost predicate Sync(s: State) {
    Shape(s) && Mutex(s) && Donors(s) && WaitingFields(s) && BaseBelow(s)
  }

  /** Every thread's priority is at least that of each thread in its donation list. */
  ghost predicate Covered(s: State) {
    !s.mlfqs ==> forall h, d | h in s.threads && d in s.threads[h].donations :: Pri(s.threads, h) >= Pri(s.threads, d)
  }

  // ---------------------------------------------------------------- list operations change nothing here

  ghost predicate SameSyncThread(mlfqs: bool, a: Thread, b: Thread) {
    && b.base == a.base && b.waiting == a.waiting && b.donations == a.donations
    && (mlfqs || b.priority == a.priority)
    && (b.pc == a.pc || (a.pc == Asleep && b.pc == Free))
  }

  ghost predicate SameSync(s: State, s': State) {
    && s'.mlfqs == s.mlfqs && s'.holder == s.holder && s'.owner == s.owner
    && s'.semas.Keys == s.semas.Keys
    && (forall l | OfLock(l) in s.semas :: s'.semas[OfLock(l)].value == s.semas[OfLock(l)].value)
    && s'.idle == s.idle && (s.loadAvg >= 0 ==> s'.loadAvg >= 0)
    && s'.threads.Keys == s.threads.Keys
    && forall t | t in s.threads :: SameSyncThread(s.mlfqs, s.threads[t], s'.threads[t])
  }

  lemma SameSyncKeeps(s: State, s': State)
    requires Sync(s) && SameSync(s, s')
    ensures Sync(s') && (Covered(s) <==> Covered(s'))
  {
    assert forall t, l :: Owns(s', t, l) <==> Owns(s, t, l);
    assert forall d, h :: WaitsFor(s', d, h) <==> WaitsFor(s, d, h);
    assert forall t :: !s.mlfqs ==> Pri(s'.threads, t) == Pri(s.threads, t);
  }

  lemma SameSyncTransitive(s: State, s': State, s'': State)
    requires SameSync(s, s') && SameSync(s', s'')
    ensures SameSync(s, s'')
  {
  }

  lemma DispatchSame(s: State)
    requires CanDispatch(s)
    ensures SameSync(s, Dispatch(s))
  {
  }

  lemma YieldSame(s: State)
    requires CanYield(s)
    ensures SameSync(s, Yield(s))
  {
    hide InsertOrdered;
    assert SameSync(s, Requeue(s));
    DispatchSame(Requeue(s));
    hide Requeue;
    hide Dispatch;
    SameSyncTransitive(s, Requeue(s), Yield(s));
  }

  lemma BlockSame(s: State)
    requires CanBlock(s)
    ensures SameSync(s, Block(s))
  {
    var s1 := SetStatus(s, s.current, Blocked);
    assert SameSync(s, s1);
    DispatchSame(s1);
    hide Dispatch;
    hide SetStatus;
    SameSyncTransitive(s, s1, Block(s));
  }

  lemma {:induction false} WakeSame(s: State)
    requires Queues(s) && Live(s) && forall t | t in s.sleep :: t in s.threads
    ensures SameSync(s, Wake(s))
    decreases |s.sleep|
  {
    if s.sleep != [] && WakeTick(s.threads, s.sleep[0]) <= s.ticks {
      hide Wake;
      WakeFrontSame(s);
      WakeFrontKeeps(s);
      WakeStep(s);
      WakeSame(WakeFront(s));
      SameSyncTransitive(s, WakeFront(s), Wake(s));
    }
  }

  lemma WakeStep(s: State)
    requires Queues(s) && Live(s) && s.sleep != [] && WakeTick(s.threads, s.sleep[0]) <= s.ticks
    ensures s.sleep[0] in s.threads
    ensures forall t | t in s.sleep :: t in s.threads
    ensures forall t | t in WakeFront(s).sleep :: t in WakeFront(s).threads
    ensures Wake(s) == Wake(WakeFront(s))
  {
    assert s.sleep[0] in s.sleep;
  }

  lemma WakeFrontSame(s: State)
    requires Queues(s) && s.sleep != []
    ensures s.sleep[0] in s.threads && SameSync(s, WakeFront(s))
  {
    assert s.sleep[0] in s.sleep;
  }

  // ---------------------------------------------------------------- steps that leave locks alone

  predicate Outside(pc: Pc) {
    !pc.Got? && !pc.Taking? && !pc.Giving?
  }

  /** The current thread moves on without taking or giving a lock, and keeps its wait if it has one. */
  ghost predicate Recorded(s: State, s': State) {
    && s.current in s.threads && s'.threads.Keys == s.threads.Keys
    && s'.mlfqs == s.mlfqs && s'.holder == s.holder && s'.owner == s.owner && s'.idle == s.idle
    && s'.loadAvg == s.loadAvg && s'.semas.Keys == s.semas.Keys
    && (forall l | OfLock(l) in s.semas :: s'.semas[OfLock(l)].value == s.semas[OfLock(l)].value)
    && (forall t | t in s.threads && t != s.current :: SameSyncThread(s.mlfqs, s.threads[t], s'.threads[t]))
    && var a, b := s.threads[s.current], s'.threads[s.current];
       && Outside(a.pc) && Outside(b.pc) && b.waiting == a.waiting && b.donations == a.donations
       && (a.waiting.Some? ==> a.pc.Down? && b.pc.Down? && b.pc.sema == a.pc.sema)
       && (b.pc.Down? ==> b.pc.sema in s.semas)
       && (!s.mlfqs ==> b.base <= b.priority)
  }

  lemma RecordMutex(s: State, s': State)
    requires Shape(s) && Mutex(s) && Recorded(s, s')
    ensures Mutex(s')
  {
    assert forall t, l :: Owns(s', t, l) <==> Owns(s, t, l);
  }

  lemma RecordRest(s: State, s': State)
    requires Shape(s) && WaitingFields(s) && BaseBelow(s) && Recorded(s, s')
    ensures Shape(s') && WaitingFields(s') && BaseBelow(s')
  {
  }

  lemma RecordDonors(s: State, s': State)
    requires Donors(s) && Recorded(s, s')
    ensures Donors(s')
  {
    assert forall d, h :: WaitsFor(s, d, h) ==> WaitsFor(s', d, h);
  }

  lemma RecordKeeps(s: State, s': State)
    requires Sync(s) && Recorded(s, s')
    ensures Sync(s')
  {
    hide Shape;
    hide Mutex;
    hide Donors;
    hide WaitingFields;
    hide BaseBelow;
    hide Recorded;
    RecordMutex(s, s');
    RecordDonors(s, s');
    RecordRest(s, s');
  }

  /** A new thread starts outside every lock. */
  lemma CreateSync(s: State, t: Tid, p: int)
    requires Sync(s) && s.current in s.threads && s.threads[s.current].pc == Free && t !in s.threads
    ensures Sync(SetPc(s.(threads := s.threads[t := NewThread(p)]), s.current, Created(p)))
  {
    CreateMutex(s, t, p);
    CreateDonors(s, t, p);
    hide Mutex;
    hide Donors;
  }

  lemma CreateMutex(s: State, t: Tid, p: int)
    requires Shape(s) && Mutex(s) && s.current in s.threads && s.threads[s.current].pc == Free && t !in s.threads
    ensures Mutex(SetPc(s.(threads := s.threads[t := NewThread(p)]), s.current, Created(p)))
  {
    var s' := SetPc(s.(threads := s.threads[t := NewThread(p)]), s.current, Created(p));
    assert forall u, l :: Owns(s', u, l) <==> Owns(s, u, l);
  }

  lemma CreateDonors(s: State, t: Tid, p: int)
    requires Donors(s) && s.current in s.threads && s.threads[s.current].pc == Free && t !in s.threads
    ensures Donors(SetPc(s.(threads := s.threads[t := NewThread(p)]), s.current, Created(p)))
  {
    var s' := SetPc(s.(threads := s.threads[t := NewThread(p)]), s.current, Created(p));
    assert forall d, h :: WaitsFor(s, d, h) <==> WaitsFor(s', d, h);
  }

  /** A thread that holds no lock leaves nothing behind. */
  lemma ExitSync(s: State)
    requires Sync(s) && s.current in s.threads && s.threads[s.current].pc == Free
    requires forall l | l in s.holder :: s.holder[l] != Some(s.current)
    ensures Sync(Removed(s))
  {
    var s' := Removed(s);
    assert forall u, l :: Owns(s', u, l) <==> Owns(s, u, l);
    assert forall d, h :: WaitsFor(s, d, h) ==> d != s.current;
    assert forall d, h :: WaitsFor(s, d, h) ==> WaitsFor(s', d, h);
  }

  // ---------------------------------------------------------------- steps that take and give locks

  /** Only the current thread and lock `l` change. */
  ghost predicate AtLock(s: State, s': State, l: LockId) {
    && s'.mlfqs == s.mlfqs && s'.idle == s.idle && s'.loadAvg == s.loadAvg
    && l in s.holder && s'.holder.Keys == s.holder.Keys && s'.owner.Keys == s.owner.Keys && s'.semas.Keys == s.semas.Keys
    && s.current in s.threads && s'.threads.Keys == s.threads.Keys
    && (forall t | t in s.threads && t != s.current :: SameSyncThread(s.mlfqs, s.threads[t], s'.threads[t]))
    && (forall l' | l' in s.holder && l' != l :: s'.holder[l'] == s.holder[l'])
    && (forall l' | l' in s.owner && l' != l :: s'.owner[l'] == s.owner[l'])
    && (forall l' | l' in s.holder && l' != l && OfLock(l') in s.semas ::
          s'.semas[OfLock(l')].value == s.semas[OfLock(l')].value)
  }

  ghost predicate AtMostTransit(pc: Pc, l: LockId) {
    Outside(pc) || InTransit(pc, l)
  }

  lemma OtherLocks(s: State, s': State, l: LockId, l': LockId)
    requires AtLock(s, s', l) && l' in s.holder && l' != l && LockOK(s, l')
    requires AtMostTransit(s.threads[s.current].pc, l) && AtMostTransit(s'.threads[s.current].pc, l)
    ensures LockOK(s', l')
  {
    assert forall t :: Owns(s', t, l') <==> Owns(s, t, l');
  }

  lemma AllLocks(s: State, s': State, l: LockId)
    requires AtLock(s, s', l) && Mutex(s) && LockOK(s', l)
    requires AtMostTransit(s.threads[s.current].pc, l) && AtMostTransit(s'.threads[s.current].pc, l)
    ensures Mutex(s')
  {
    forall l' | l' in s'.holder ensures LockOK(s', l') {
      if l' != l {
        OtherLocks(s, s', l, l');
      }
    }
  }

  /** Donors stay donors if the current thread is none and the waits for `l` still have their holder. */
  lemma DonorsKeep(s: State, s': State, l: LockId)
    requires AtLock(s, s', l) && Donors(s) && WaitingFields(s)
    requires !s.threads[s.current].pc.Down? || (forall h :: !WaitsFor(s, s.current, h))
    requires s'.holder[l] == s.holder[l] || s.holder[l].None?
    requires s'.threads[s.current].donations == s.threads[s.current].donations
    ensures Donors(s')
  {
    assert forall d, h :: WaitsFor(s, d, h) ==> d != s.current;
    assert forall d, h :: WaitsFor(s, d, h) ==> WaitsFor(s', d, h);
  }

  lemma RestKeeps(s: State, s': State, l: LockId)
    requires AtLock(s, s', l) && Shape(s) && WaitingFields(s) && BaseBelow(s)
    requires ThreadShape(s', s'.threads[s.current])
    requires s'.holder[l].Some? ==> s'.holder[l].value in s.threads && s'.holder[l].value != s.idle
    requires var b := s'.threads[s.current];
             && (b.waiting.Some? ==> !s.mlfqs && InAcquire(b.pc, b.waiting.value))
             && (s.mlfqs ==> b.donations == []) && (!s.mlfqs ==> b.base <= b.priority)
    ensures Shape(s') && WaitingFields(s') && BaseBelow(s')
  {
  }

  lemma Unowned(s: State, l: LockId)
    requires l in s.holder && LockOK(s, l) && s.owner[l].None? && HoldersExist(s)
    ensures s.holder[l].None? && forall t :: !Owns(s, t, l)
  {
    if s.holder[l].Some? {
      assert Owns(s, s.holder[l].value, l);
    }
  }

  /** An owner that is not recorded as holder is the only one, and nobody is recorded. */
  lemma OwnerInTransit(s: State, l: LockId)
    requires l in s.holder && LockOK(s, l) && s.current in s.threads && InTransit(s.threads[s.current].pc, l)
    ensures s.owner[l] == Some(s.current) && s.holder[l].None? && s.semas[OfLock(l)].value == 0
    ensures forall t :: Owns(s, t, l) ==> t == s.current
  {
    assert Owns(s, s.current, l);
  }

  /** The current thread decrements lock `l`'s semaphore, which nobody owned. */
  lemma TakeSync(s: State, l: LockId, pc: Pc)
    requires Sync(s) && s.current in s.threads && l in s.holder
    requires s.semas[OfLock(l)].value > 0
    requires AtTake(s, l, pc)
    ensures Sync(SetPc(Take(s, OfLock(l)), s.current, pc))
  {
    hide WaitingFields;
    hide BaseBelow;
    hide Donors;
    hide Mutex;
    var s' := SetPc(Take(s, OfLock(l)), s.current, pc);
    MutexAt(s, l);
    TakeLock(s, l, pc);
    hide LockOK;
    AllLocks(s, s', l);
    NoWaits(s, l);
    DonorsKeep(s, s', l);
    TakeRest(s, l, pc);
  }

  /** At the test of sema_down on the lock's semaphore, or in lock_try_acquire. */
  predicate AtTake(s: State, l: LockId, pc: Pc) {
    && s.current in s.threads
    && ((s.threads[s.current].pc.Down? && s.threads[s.current].pc.sema == OfLock(l) && pc == Got(l))
        || (s.threads[s.current].pc == Free && pc == Taking(l)))
  }

  lemma TakeLock(s: State, l: LockId, pc: Pc)
    requires l in s.holder && LockOK(s, l) && HoldersExist(s) && AtTake(s, l, pc) && s.semas[OfLock(l)].value > 0
    ensures LockOK(SetPc(Take(s, OfLock(l)), s.current, pc), l) && s.holder[l].None?
  {
    var s' := SetPc(Take(s, OfLock(l)), s.current, pc);
    Unowned(s, l);
    assert forall t | t != s.current :: Owns(s', t, l) <==> Owns(s, t, l);
    assert Owns(s', s.current, l);
  }

  lemma NoWaits(s: State, l: LockId)
    requires s.current in s.threads && l in s.holder && s.holder[l].None?
    requires s.threads[s.current].pc.Down? ==> s.threads[s.current].pc.sema == OfLock(l)
    ensures forall h :: !WaitsFor(s, s.current, h)
  {
  }

  lemma TakeRest(s: State, l: LockId, pc: Pc)
    requires Shape(s) && WaitingFields(s) && BaseBelow(s) && l in s.holder && s.holder[l].None? && AtTake(s, l, pc)
    requires s.semas[OfLock(l)].value > 0
    ensures var s' := SetPc(Take(s, OfLock(l)), s.current, pc); Shape(s') && WaitingFields(s') && BaseBelow(s')
  {
    RestKeeps(s, SetPc(Take(s, OfLock(l)), s.current, pc), l);
  }

  lemma MutexAt(s: State, l: LockId)
    requires Mutex(s) && l in s.holder
    ensures LockOK(s, l)
  {
  }

  lemma ClearWaitingSync(s: State)
    requires Sync(s) && Enabled(s, ClearWaiting)
    ensures Sync(Next(s, ClearWaiting))
  {
    var l, s' := s.threads[s.current].pc.lock, Next(s, ClearWaiting);
    assert LockOK(s, l);
    assert LockOK(s', l) by {
      assert forall t :: Owns(s', t, l) <==> Owns(s, t, l);
    }
    hide LockOK;
    AllLocks(s, s', l);
    hide Mutex;
    DonorsKeep(s, s', l);
    hide Donors;
    RestKeeps(s, s', l);
  }

  lemma SetHolderSync(s: State)
    requires Sync(s) && Enabled(s, SetHolder) && s.current != s.idle
    ensures Sync(Next(s, SetHolder))
  {
    var l, s' := s.threads[s.current].pc.lock, Next(s, SetHolder);
    assert LockOK(s, l);
    OwnerInTransit(s, l);
    assert LockOK(s', l) by {
      assert forall t | t in s.threads && InTransit(s.threads[t].pc, l) :: Owns(s, t, l);
      assert forall t :: Owns(s', t, l) <==> t == s.current;
    }
    hide LockOK;
    AllLocks(s, s', l);
    hide Mutex;
    DonorsKeep(s, s', l);
    hide Donors;
    RestKeeps(s, s', l);
  }

  lemma GiveUpSync(s: State)
    requires Sync(s) && Enabled(s, GiveUp) && Safe(s, GiveUp)
    ensures Sync(Next(s, GiveUp))
  {
    hide Up;
    hide Next;
    hide Safe;
    hide Enabled;
    GiveUpIs(s);
    var l, s' := s.threads[s.current].pc.lock, Next(s, GiveUp);
    UpFrame(s, OfLock(l));
    assert LockOK(s, l);
    OwnerInTransit(s, l);
    assert LockOK(s', l) by {
      assert forall t | t in s.threads && InTransit(s.threads[t].pc, l) :: Owns(s, t, l);
      assert forall t :: !Owns(s', t, l);
    }
    hide LockOK;
    AllLocks(s, s', l);
    hide Mutex;
    DonorsKeep(s, s', l);
    hide Donors;
    RestKeeps(s, s', l);
  }

  // ---------------------------------------------------------------- release

  lemma {:induction false} DropDonorsMembers(ts: map<Tid, Thread>, ds: seq<Tid>, l: LockId)
    ensures forall d :: d in DropDonors(ts, ds, l) <==> d in ds && !(d in ts && ts[d].waiting == Some(l))
    ensures Distinct(ds) ==> Distinct(DropDonors(ts, ds, l))
  {
    if ds != [] {
      var rest := ds[1..];
      DropDonorsMembers(ts, rest, l);
      assert forall d :: d in ds <==> d == ds[0] || d in rest;
      var r := DropDonors(ts, rest, l);
      if ds[0] in ts && ts[ds[0]].waiting == Some(l) {
        assert DropDonors(ts, ds, l) == r;
      } else {
        assert DropDonors(ts, ds, l) == [ds[0]] + r;
        if Distinct(ds) {
          assert ds[0] !in rest && ds[0] !in r;
        }
      }
    }
  }

  /** The effective priority is the maximum of the base and the donors' priorities. */
  lemma {:induction false} EffectiveIsMax(ts: map<Tid, Thread>, base: int, ds: seq<Tid>)
    ensures base <= Effective(ts, base, ds)
    ensures forall d | d in ds :: Pri(ts, d) <= Effective(ts, base, ds)
    ensures Effective(ts, base, ds) == base || exists d | d in ds :: Pri(ts, d) == Effective(ts, base, ds)
    decreases |ds|
  {
    if ds != [] {
      var n := |ds| - 1;
      EffectiveIsMax(ts, base, ds[..n]);
      assert forall d :: d in ds <==> d == ds[n] || d in ds[..n];
    }
  }

  lemma ReleaseSync(s: State, l: LockId)
    requires Sync(s) && Enabled(s, Release(l))
    ensures Sync(Next(s, Release(l)))
  {
    hide Effective;
    hide DropDonors;
    hide WaitingFields;
    hide BaseBelow;
    hide Donors;
    hide Mutex;
    hide Next;
    hide Safe;
    hide Enabled;
    ReleaseIs(s, l);
    ReleaseDonors(s, l);
    MutexAt(s, l);
    ReleaseLock(s, l);
    hide LockOK;
    AllLocks(s, StartRelease(s, l), l);
    ReleaseRest(s, l);
  }

  lemma ReleaseLock(s: State, l: LockId)
    requires s.current in s.threads && l in s.holder && s.holder[l] == Some(s.current) && LockOK(s, l)
    requires s.threads[s.current].pc == Free
    ensures LockOK(StartRelease(s, l), l)
  {
    hide Effective;
    hide DropDonors;
    var c, s' := s.current, StartRelease(s, l);
    assert Owns(s, c, l);
    assert forall t :: Owns(s', t, l) <==> t == c;
  }

  lemma ReleaseRest(s: State, l: LockId)
    requires Shape(s) && WaitingFields(s) && BaseBelow(s) && Works(s) && l in s.holder
    ensures var s' := StartRelease(s, l); Shape(s') && WaitingFields(s') && BaseBelow(s')
  {
    hide Effective;
    hide DropDonors;
    var c, s1 := s.current, SetPc(s.(holder := s.holder[l := None]), s.current, Giving(l));
    EffectiveIsMax(s1.threads, s.threads[c].base, DropDonors(s1.threads, s.threads[c].donations, l));
    RestKeeps(s, StartRelease(s, l), l);
  }

  lemma ReleaseDonors(s: State, l: LockId)
    requires Donors(s) && WaitingFields(s) && Enabled(s, Release(l))
    ensures Donors(Next(s, Release(l)))
  {
    hide Effective;
    hide DropDonors;
    var c, s' := s.current, Next(s, Release(l));
    var ts := SetPc(s.(holder := s.holder[l := None]), c, Giving(l)).threads;
    DropDonorsMembers(ts, s.threads[c].donations, l);
    assert forall d, h :: WaitsFor(s, d, h) ==> d != c;
    assert forall d, h :: WaitsFor(s, d, h) && s.threads[d].waiting != Some(l) ==> WaitsFor(s', d, h);
    assert forall d, h :: WaitsFor(s, d, h) && s.threads[d].waiting == Some(l) ==> h == c;
    assert s.mlfqs ==> s.threads[c].donations == [];
  }

  // ---------------------------------------------------------------- acquisition

  lemma RegisteredMutex(s: State, l: LockId)
    requires Mutex(s) && HoldersExist(s) && Enabled(s, Acquire(l))
    ensures s.holder[l].Some? ==> s.holder[l].value in s.threads
    ensures Mutex(Registered(s, l))
  {
    var s' := Registered(s, l);
    forall l' | l' in s.holder ensures LockOK(s', l') {
      assert LockOK(s, l');
      assert forall t :: Owns(s', t, l') <==> Owns(s, t, l');
    }
  }

  lemma RegisteredDonors(s: State, l: LockId)
    requires Donors(s) && HoldersExist(s) && Enabled(s, Acquire(l))
    ensures s.holder[l].Some? ==> s.holder[l].value in s.threads
    ensures Donors(Registered(s, l))
  {
    var c, s' := s.current, Registered(s, l);
    assert forall d, h :: WaitsFor(s, d, h) ==> d != c;
    assert forall d, h :: WaitsFor(s, d, h) ==> WaitsFor(s', d, h);
    if !s.mlfqs && s.holder[l].Some? {
      var h := s.holder[l].value;
      assert c !in s.threads[h].donations;
      assert WaitsFor(s', c, h);
    }
  }

  lemma RegisteredSync(s: State, l: LockId)
    requires Sync(s) && Enabled(s, Acquire(l)) && s.current != s.idle
    ensures s.holder[l].Some? ==> s.holder[l].value in s.threads
    ensures Sync(Registered(s, l))
  {
    hide Mutex;
    hide Donors;
    RegisteredMutex(s, l);
    RegisteredDonors(s, l);
  }

  lemma PrioritiesSync(s: State, s': State)
    requires Sync(s) && OnlyPriorities(s, s') && BaseBelow(s')
    ensures Sync(s')
  {
    assert forall t, l :: Owns(s', t, l) <==> Owns(s, t, l);
    assert forall d, h :: WaitsFor(s, d, h) ==> WaitsFor(s', d, h);
  }

  lemma {:induction false} DonateBase(s: State, t: Tid, depth: nat)
    requires BaseBelow(s)
    ensures BaseBelow(Donate(s, t, depth))
    decreases depth
  {
    if depth > 0 && Blocker(s, t).Some? && Blocker(s, t).value in s.threads
       && Pri(s.threads, Blocker(s, t).value) < Pri(s.threads, t) {
      var h, p := Blocker(s, t).value, Pri(s.threads, t);
      RaiseFrame(s, h, p);
      hide Raise;
      DonateBase(Raise(s, h, p), h, depth - 1);
    }
  }

  lemma AcquireSync(s: State, l: LockId)
    requires Sync(s) && Enabled(s, Acquire(l)) && s.current != s.idle
    ensures s.holder[l].Some? ==> s.holder[l].value in s.threads
    ensures Sync(StartAcquire(s, l))
  {
    hide Sync;
    hide Donate;
    RegisteredSync(s, l);
    var s1 := Registered(s, l);
    DonateFrame(s1, s.current, DONATION_DEPTH);
    SyncBase(s1);
    DonateBase(s1, s.current, DONATION_DEPTH);
    PrioritiesSync(s1, Donate(s1, s.current, DONATION_DEPTH));
  }

  lemma SyncBase(s: State)
    requires Sync(s)
    ensures BaseBelow(s) && Shape(s)
  {
  }

  // ---------------------------------------------------------------- every step

  lemma AccountSame(s: State)
    requires s.current in s.threads && s.loadAvg >= 0
    ensures SameSync(s, Account(s)) && Account(s).loadAvg >= 0
  {
    hide Account;
    AccountFrame(s);
  }

  lemma MlfqsTickSame(s: State)
    requires s.mlfqs && s.current in s.threads && s.loadAvg >= 0
    ensures SameSync(s, MlfqsTick(s))
  {
    hide StableSort;
    hide Account;
    AccountSame(s);
  }

  lemma TickSync(s: State)
    requires Queues(s) && Live(s) && Sync(s)
    ensures forall t | t in s.sleep :: t in s.threads
    ensures CanYield(TimerInterrupt(s))
    ensures SameSync(s, TimerInterrupt(s)) && SameSync(s, Yield(TimerInterrupt(s)))
  {
    hide Queues;
    hide Wake;
    hide MlfqsTick;
    hide Sync;
    hide Yield;
    SyncBase(s);
    SleepersExist(s);
    var s1 := s.(ticks := s.ticks + 1);
    SamePrioritiesKeep(s, s1);
    if s.mlfqs {
      MlfqsTickKeeps(s1);
      MlfqsTickSame(s1);
    }
    var s2 := if s.mlfqs then MlfqsTick(s1) else s1;
    var s3 := s2.(slice := s2.slice + 1);
    SamePrioritiesKeep(s2, s3);
    SleepersExist(s3);
    WakeSame(s3);
    assert SameSync(s, s3);
    SameSyncTransitive(s, s3, TimerInterrupt(s));
    TickKeeps(s);
    YieldSame(TimerInterrupt(s));
    SameSyncTransitive(s, TimerInterrupt(s), Yield(TimerInterrupt(s)));
  }

  lemma PlainUpSame(s: State, id: SemaId)
    requires WaitersBlocked(s, id) && id.Plain?
    ensures SameSync(s, Up(s, id))
  {
    UpFrame(s, id);
    hide Up;
  }

  lemma EnqueueSame(s: State, t: Tid)
    requires t in s.threads
    ensures SameSync(s, Enqueue(s, t))
  {
    hide InsertOrdered;
  }

  /** Steps of the current thread outside lock_acquire and lock_release. */
  lemma PlainStepSync(s: State, a: Action)
    requires Sync(s) && Enabled(s, a) && s.current in s.threads
    requires a.SetPriority? || a.SetNice? || a.BeginDown? || a.TryDown?
    ensures Safe(s, a) && Sync(Next(s, a))
  {
    hide Sync;
    hide Recorded;
    PlainStepRecorded(s, a);
    RecordKeeps(s, Next(s, a));
  }

  lemma PlainStepRecorded(s: State, a: Action)
    requires Sync(s) && Enabled(s, a) && s.current in s.threads
    requires a.SetPriority? || a.SetNice? || a.BeginDown? || a.TryDown?
    ensures Safe(s, a) && Recorded(s, Next(s, a))
  {
    hide Effective;
    hide Sync;
    hide Mlfqs.Priority;
    hide Next;
    hide Safe;
    hide Enabled;
    SyncFields(s, s.current);
    match a
    case SetPriority(p) =>
      SetPriorityIs(s, p);
      EffectiveIsMax(s.threads, p, s.threads[s.current].donations);
    case SetNice(n) => SetNiceIs(s, n);
    case BeginDown(id) => BeginDownIs(s, id);
    case TryDown(id) => TryIs(s, a);
  }

  lemma SyncFields(s: State, t: Tid)
    requires Sync(s) && t in s.threads
    ensures s.threads[t].waiting.Some? ==> InAcquire(s.threads[t].pc, s.threads[t].waiting.value)
    ensures !s.mlfqs ==> s.threads[t].base <= s.threads[t].priority
    ensures s.threads[t].pc.Down? ==> s.threads[t].pc.sema in s.semas
  {
  }

  lemma FreeSync(s: State)
    requires Sync(s) && s.current in s.threads
    requires s.threads[s.current].pc.Created? || s.threads[s.current].pc.Recheck?
    ensures Sync(SetPc(s, s.current, Free))
  {
    hide Sync;
    SyncFields(s, s.current);
    RecordKeeps(s, SetPc(s, s.current, Free));
  }

  lemma SleepSync(s: State, wake: int)
    requires Sync(s) && s.current in s.threads && s.threads[s.current].pc == Free
    ensures Sync(StartSleep(s, wake))
  {
    hide Sync;
    hide InsertOrdered;
    SyncFields(s, s.current);
    RecordKeeps(s, StartSleep(s, wake));
  }

  lemma WaitSync(s: State, id: SemaId)
    requires Sync(s) && s.current in s.threads && s.threads[s.current].pc.Down? && s.threads[s.current].pc.sema == id
    ensures id in s.semas && Sync(StartWait(s, id))
  {
    hide Sync;
    hide InsertOrdered;
    SyncFields(s, s.current);
    RecordKeeps(s, StartWait(s, id));
  }

  lemma TestDownSync(s: State)
    requires Queues(s) && Live(s) && Sync(s) && Enabled(s, TestDown)
    ensures Safe(s, TestDown) && Sync(Next(s, TestDown))
  {
    hide Queues;
    hide Sync;
    hide Block;
    hide CanBlock;
    hide StartWait;
    TestDownKeeps(s);
    SyncFields(s, s.current);
    var id := s.threads[s.current].pc.sema;
    if s.semas[id].value == 0 {
      WaitSync(s, id);
      BlockSame(StartWait(s, id));
      SameSyncKeeps(StartWait(s, id), Block(StartWait(s, id)));
    } else if id.Plain? {
      RecordKeeps(s, Next(s, TestDown));
    } else {
      SyncLock(s, id.lock);
      TakeSync(s, id.lock, Got(id.lock));
    }
  }

  lemma SyncLock(s: State, l: LockId)
    requires Sync(s)
    ensures l in s.holder <==> OfLock(l) in s.semas
  {
  }

  lemma SemaUpSync(s: State, id: SemaId)
    requires Sync(s) && Enabled(s, SemaUp(id)) && Safe(s, SemaUp(id))
    ensures Sync(Next(s, SemaUp(id)))
  {
    hide Sync;
    hide Up;
    UpFrame(s, id);
    SyncFields(s, s.current);
    RecordKeeps(s, Next(s, SemaUp(id)));
  }

  lemma CreateStepSync(s: State, t: Tid, p: int)
    requires Sync(s) && Enabled(s, Create(t, p))
    ensures Sync(Next(s, Create(t, p)))
  {
    hide Sync;
    hide Enqueue;
    CreateSync(s, t, p);
    var s1 := SetPc(s.(threads := s.threads[t := NewThread(p)]), s.current, Created(p));
    EnqueueSame(s1, t);
    SameSyncKeeps(s1, Enqueue(s1, t));
  }

  /** Steps that end in a dispatch. */
  lemma SwitchStepSync(s: State, a: Action)
    requires Queues(s) && Live(s) && Sync(s) && Enabled(s, a) && Safe(s, a)
    requires a.CreateTest? || a.PreemptTest? || a.YieldCpu? || a.Exit? || a.Sleep? || a.IdleBlock?
    ensures Sync(Next(s, a))
  {
    hide Queues;
    hide Sync;
    hide Yield;
    hide CanYield;
    hide Block;
    hide CanBlock;
    hide Dispatch;
    hide CanDispatch;
    hide StartSleep;
    hide Removed;
    hide SetPc;
    if a.Exit? {
      ExitSync(s);
      DispatchSame(Removed(s));
      SameSyncKeeps(Removed(s), Next(s, a));
    } else if a.Sleep? {
      SleepSync(s, a.wake);
      BlockSame(StartSleep(s, a.wake));
      SameSyncKeeps(StartSleep(s, a.wake), Next(s, a));
    } else if a.IdleBlock? {
      BlockSame(s);
      SameSyncKeeps(s, Next(s, a));
    } else if a.YieldCpu? {
      YieldSame(s);
      SameSyncKeeps(s, Next(s, a));
    } else {
      var s1 := SetPc(s, s.current, Free);
      FreeSync(s);
      if Next(s, a) != s1 {
        YieldSame(s1);
        SameSyncKeeps(s1, Next(s, a));
      }
    }
  }

  /** Whatever runs next, locks stay exclusive and donation lists stay true. */
  lemma StepKeepsSync(s: State, a: Action)
    requires Queues(s) && Live(s) && Sync(s) && Enabled(s, a)
    ensures Safe(s, a) && Sync(Next(s, a))
  {
    hide Queues;
    hide Sync;
    hide Live;
    hide TimerInterrupt;
    hide Up;
    hide Yield;
    hide StartAcquire;
    SyncBase(s);
    IdlePosition(s);
    StepKeepsQueues(s, a);
    match a
    case Tick =>
      TickSync(s);
      SameSyncKeeps(s, Next(s, a));
    case IntrUp(id) =>
      PlainUpSame(s, id);
      SameSyncKeeps(s, Next(s, a));
    case Create(t, p) => CreateStepSync(s, t, p);
    case TestDown => TestDownSync(s);
    case SemaUp(id) => SemaUpSync(s, id);
    case Acquire(l) => AcquireSync(s, l);
    case ClearWaiting => ClearWaitingSync(s);
    case SetHolder => SetHolderSync(s);
    case TryAcquire(l) => TryAcquireSync(s, l);
    case Release(l) => ReleaseSync(s, l);
    case GiveUp => GiveUpSync(s);
    case SetPriority(_) => PlainStepSync(s, a);
    case SetNice(_) => PlainStepSync(s, a);
    case BeginDown(_) => PlainStepSync(s, a);
    case TryDown(_) => PlainStepSync(s, a);
    case IdleStart => IdleStartSync(s);
    case _ => SwitchStepSync(s, a);
  }

  lemma TryAcquireSync(s: State, l: LockId)
    requires Sync(s) && Enabled(s, TryAcquire(l))
    ensures Sync(Next(s, TryAcquire(l)))
  {
    hide Sync;
    if s.semas[OfLock(l)].value > 0 {
      TakeSync(s, l, Taking(l));
    }
  }

  lemma IdleStartSync(s: State)
    requires Sync(s) && Enabled(s, IdleStart)
    ensures Sync(Next(s, IdleStart))
  {
    SameSyncKeeps(s, Next(s, IdleStart));
  }
}
