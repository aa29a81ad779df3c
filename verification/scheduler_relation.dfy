/** Every step of the scheduler as a relation between the state before and the state after, told by
    places in lists and by what stays the same. Every step is in the relation, and the relation
    leaves one state after each step. */
module SchedulerRelation {
  import opened Collections
  import opened Ordering
  import opened Scheduler
  import opened SchedulerQueues
  import opened SchedulerSync
  import opened SchedulerDonation
  import opened SchedulerEffects
  import opened SchedulerChains
  import opened SchedulerTicks
  import Mlfqs

  /** The current thread's record changes to `th`, and nothing else does. */
  ghost predicate Becomes(s: State, th: Thread, r: State) {
    r == s.(threads := s.threads[s.current := th])
  }

  ghost predicate Effect(s: State, a: Action, r: State)
    requires Enabled(s, a)
  {
    var c, th := s.current, s.threads[s.current];
    match a
    case Tick => Ticks(s, r)
    case IntrUp(id) => Wakes(s, id, r)
    case Create(t, p) => Creates(s, t, p, r)
    case CreateTest => Tests(s, Pri(s.threads, c) < th.pc.priority, r)
    case YieldCpu => Yields(s, r)
    case Exit => Exits(s, r)
    case Sleep(w) => GoesToSleep(s, w, r)
    case SetPriority(p) => SetsPriority(s, p, r)
    case SetNice(n) => Becomes(s, th.(nice := n, priority := Mlfqs.Priority(th.recentCpu, n), pc := Recheck), r)
    case PreemptTest => Tests(s, exists t :: t in s.ready && Pri(s.threads, t) > Pri(s.threads, c), r)
    case BeginDown(id) => Becomes(s, th.(pc := Down(id, false)), r)
    case TestDown =>
      if s.semas[th.pc.sema].value == 0 then Waits(s, th.pc.sema, r)
      else Takes(s, th.pc.sema, if th.pc.sema.OfLock? then Got(th.pc.sema.lock) else Free, r)
    case TryDown(id) => if s.semas[id].value == 0 then r == s else Takes(s, id, Free, r)
    case SemaUp(id) => WakesThen(s, id, Recheck, r)
    case Acquire(l) => Acquires(s, l, r)
    case ClearWaiting => Becomes(s, th.(waiting := None, pc := Taking(th.pc.lock)), r)
    case SetHolder => Becomes(s.(holder := s.holder[th.pc.lock := Some(c)]), th.(pc := Free), r)
    case TryAcquire(l) => if s.semas[OfLock(l)].value == 0 then r == s else Takes(s, OfLock(l), Taking(l), r)
    case Release(l) => Releases(s, l, r)
    case GiveUp =>
      exists m :: WakesThen(s, OfLock(th.pc.lock), Recheck, m) && r == m.(owner := s.owner[th.pc.lock := None])
    case IdleStart => r == s.(idleUp := true)
    case IdleBlock =>
      Parks(s, th, r) && r == s.(threads := r.threads, ready := r.ready, current := r.current, slice := 0)
  }

  // ---------------------------------------------------------------- every step is in it

  lemma TakeEffect(s: State, id: SemaId, pc: Pc)
    requires s.current in s.threads && id in s.semas && s.semas[id].value > 0
    ensures Takes(s, id, pc, SetPc(Take(s, id), s.current, pc))
  {
  }

  lemma UpThenEffect(s: State, id: SemaId, pc: Pc)
    requires WaitersBlocked(s, id) && s.current in s.threads
    ensures s.current in Up(s, id).threads && WakesThen(s, id, pc, SetPc(Up(s, id), s.current, pc))
  {
    UpEffect(s, id);
    UpKeys(s, id);
    hide Up;
    hide Wakes;
  }

  lemma UpKeys(s: State, id: SemaId)
    requires WaitersBlocked(s, id)
    ensures Up(s, id).threads.Keys == s.threads.Keys
  {
    hide InsertOrdered;
    hide StableSort;
    StableSortMembers(Higher(s.threads), s.semas[id].waiters);
    if s.semas[id].waiters != [] {
      var t := StableSort(Higher(s.threads), s.semas[id].waiters)[0];
      assert t in StableSort(Higher(s.threads), s.semas[id].waiters);
      assert t in s.semas[id].waiters;
    }
  }

  lemma GiveUpEffect(s: State)
    requires Enabled(s, GiveUp) && Safe(s, GiveUp)
    ensures Effect(s, GiveUp, Next(s, GiveUp))
  {
    hide Next;
    hide Safe;
    hide Enabled;
    hide Up;
    hide WakesThen;
    GiveUpIs(s);
    var l := s.threads[s.current].pc.lock;
    UpThenEffect(s, OfLock(l), Recheck);
    var m := SetPc(Up(s, OfLock(l)), s.current, Recheck);
    assert Next(s, GiveUp) == m.(owner := s.owner[l := None]);
  }

  lemma {:induction false} KeptDonors(ts: map<Tid, Thread>, ds: seq<Tid>, l: LockId)
    ensures DropDonors(ts, ds, l) == Filter(NotWaitingFor(ts, l), ds)
  {
    if ds != [] {
      KeptDonors(ts, ds[1..], l);
    }
  }

  lemma {:induction false} EffectiveHighest(ts: map<Tid, Thread>, base: int, ds: seq<Tid>)
    ensures IsHighest(ts, base, ds, Effective(ts, base, ds))
  {
    if ds != [] {
      var n := |ds| - 1;
      EffectiveHighest(ts, base, ds[..n]);
      assert ds == ds[..n] + [ds[n]];
      var p := Effective(ts, base, ds[..n]);
      if Pri(ts, ds[n]) <= p && p != base {
        var d :| d in ds[..n] && p == Pri(ts, d);
        assert d in ds;
      }
    }
  }

  lemma ReleaseEffect(s: State, l: LockId)
    requires Enabled(s, Release(l)) && Safe(s, Release(l))
    ensures Effect(s, Release(l), Next(s, Release(l)))
  {
    hide Next;
    hide Safe;
    hide Enabled;
    hide Effective;
    hide DropDonors;
    hide Filter;
    ReleaseIs(s, l);
    var c, th := s.current, s.threads[s.current];
    var ts := s.threads[c := th.(pc := Giving(l))];
    var ds := DropDonors(ts, th.donations, l);
    KeptDonors(ts, th.donations, l);
    FilterSame(NotWaitingFor(ts, l), NotWaitingFor(s.threads, l), th.donations);
    EffectiveHighest(ts, th.base, ds);
    assert forall d :: Pri(ts, d) == Pri(s.threads, d);
    SameHighest(ts, s.threads, th.base, ds, Effective(ts, th.base, ds));
    hide IsHighest;
    var r := Next(s, Release(l));
    assert s.threads[c := th.(pc := Giving(l))][c := r.threads[c]] == s.threads[c := r.threads[c]];
    assert s.mlfqs ==> r.threads[c] == th.(pc := Giving(l), donations := th.donations, priority := th.priority);
  }

  lemma SameHighest(ts: map<Tid, Thread>, ts': map<Tid, Thread>, base: int, ds: seq<Tid>, p: int)
    requires IsHighest(ts, base, ds, p) && forall d :: Pri(ts', d) == Pri(ts, d)
    ensures IsHighest(ts', base, ds, p)
  {
    if p != base {
      var d :| d in ds && p == Pri(ts, d);
      assert d in ds && p == Pri(ts', d);
    }
  }

  lemma SetPriorityEffect(s: State, p: int)
    requires Enabled(s, SetPriority(p))
    ensures Safe(s, SetPriority(p)) && Effect(s, SetPriority(p), Next(s, SetPriority(p)))
  {
    hide Next;
    hide Safe;
    hide Enabled;
    hide Effective;
    SetPriorityIs(s, p);
    EffectiveHighest(s.threads, p, s.threads[s.current].donations);
    hide IsHighest;
  }

  lemma CreateEffect(s: State, t: Tid, p: int)
    requires Enabled(s, Create(t, p)) && Safe(s, Create(t, p))
    ensures Effect(s, Create(t, p), Next(s, Create(t, p)))
  {
    hide InsertOrdered;
    hide Placed;
    var c := s.current;
    var ts := s.threads[t := NewThread(p)][c := s.threads[c].(pc := Created(p))];
    var r := Next(s, Create(t, p));
    assert r.ready == InsertOrdered(Higher(ts), s.ready, t);
    InsertPlaces(ts, s.ready, t);
    assert r.threads == s.threads[t := NewThread(p).(status := Ready)][c := s.threads[c].(pc := Created(p))];
    assert forall x :: Pri(r.threads, x) == Pri(ts, x);
    SamePlaced(ts, r.threads, s.ready, r.ready, t);
  }

  lemma SamePlaced(ts: map<Tid, Thread>, ts': map<Tid, Thread>, q: seq<Tid>, r: seq<Tid>, t: Tid)
    requires Placed(ts, q, r, t) && forall x :: Pri(ts', x) == Pri(ts, x)
    ensures Placed(ts', q, r, t)
  {
    var k: nat :| PlacedAt(ts, q, r, t, k);
    assert PlacedAt(ts', q, r, t, k);
  }

  lemma SwitchEffect(s: State, a: Action)
    requires Inv(s) && Enabled(s, a) && Safe(s, a)
    requires a.Tick? || a.CreateTest? || a.PreemptTest? || a.Exit? || a.Sleep? || a.YieldCpu? || a.Acquire?
    ensures Effect(s, a, Next(s, a))
  {
    hide Inv;
    hide Ticks;
    hide Tests;
    hide Yields;
    hide Exits;
    hide GoesToSleep;
    hide Acquires;
    hide Yield;
    hide CanYield;
    match a
    case Tick => TickEffect(s);
    case CreateTest => TestsEffect(s, a);
    case PreemptTest => TestsEffect(s, a);
    case Exit => ExitEffect(s);
    case Sleep(w) => SleepEffect(s, w);
    case Acquire(l) => AcquireEffect(s, l);
    case YieldCpu => YieldEffect(s);
  }

  /** Every step does what the relation says. */
  lemma StepEffect(s: State, a: Action)
    requires Inv(s) && Enabled(s, a)
    ensures Safe(s, a) && Effect(s, a, Next(s, a))
  {
    hide Inv;
    hide Next;
    hide Safe;
    hide Enabled;
    hide Effect;
    StepKeepsInv(s, a);
    match a
    case SetPriority(p) => SetPriorityEffect(s, p);
    case Create(t, p) => CreateEffect(s, t, p);
    case Release(l) => ReleaseEffect(s, l);
    case GiveUp => GiveUpEffect(s);
    case _ =>
      if a.Tick? || a.CreateTest? || a.PreemptTest? || a.Exit? || a.Sleep? || a.YieldCpu? || a.Acquire? {
        SwitchEffect(s, a);
      } else {
        OtherEffect(s, a);
      }
  }

  lemma OtherEffect(s: State, a: Action)
    requires Enabled(s, a) && Safe(s, a)
    requires a.IntrUp? || a.SetNice? || a.BeginDown? || a.TestDown? || a.TryDown? || a.SemaUp? || a.ClearWaiting?
          || a.SetHolder? || a.TryAcquire? || a.IdleStart? || a.IdleBlock?
    ensures Effect(s, a, Next(s, a))
  {
    hide Up;
    hide Block;
    hide CanBlock;
    hide StartWait;
    hide Take;
    hide Wakes;
    hide WakesThen;
    hide Waits;
    hide Takes;
    hide Mlfqs.Priority;
    match a
    case IntrUp(id) => UpEffect(s, id);
    case SemaUp(id) => UpThenEffect(s, id, Recheck);
    case TestDown =>
      TestDownIs(s);
      var id := s.threads[s.current].pc.sema;
      if s.semas[id].value == 0 { WaitEffect(s, id); } else { TakeEffect(s, id, AfterDown(id)); }
    case TryDown(id) =>
      if s.semas[id].value > 0 { TryEffect(s, id, Free); }
    case TryAcquire(l) =>
      if s.semas[OfLock(l)].value > 0 { TakeEffect(s, OfLock(l), Taking(l)); }
    case IdleBlock => IdleBlockEffect(s);
    case _ =>
  }

  lemma TryEffect(s: State, id: SemaId, pc: Pc)
    requires s.current in s.threads && id in s.semas && s.semas[id].value > 0 && s.threads[s.current].pc == pc
    ensures Takes(s, id, pc, Take(s, id))
  {
    assert s.threads[s.current := s.threads[s.current].(pc := pc)] == s.threads;
  }

  lemma IdleBlockEffect(s: State)
    requires Enabled(s, IdleBlock) && Safe(s, IdleBlock)
    ensures Effect(s, IdleBlock, Next(s, IdleBlock))
  {
    LeaveIs(s, IdleBlock);
    hide Next;
    hide Safe;
    hide Enabled;
    hide Block;
    BlockEffect(s);
    assert s.threads[s.current := s.threads[s.current]] == s.threads;
  }
}
