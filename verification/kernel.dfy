/** The scheduler's code as it updates the kernel's state in place. Each method is proved to
    take the state to the one the transition system names. */
module Kernel {
  import opened Collections
  import opened Ordering
  import opened Scheduler
  import opened SchedulerQueues
  import opened SchedulerSync
  import opened SchedulerDonation
  import opened SchedulerEffects
  import opened SchedulerRelation
  import SchedulerRuns
  import Mlfqs

  class Machine {
    const mlfqs: bool
    const idle: Tid
    var threads: map<Tid, Thread>
    var ready: seq<Tid>
    var sleep: seq<Tid>
    var semas: map<SemaId, Sema>
    var holder: map<LockId, Option<Tid>>
    var owner: map<LockId, Option<Tid>>
    var current: Tid
    var idleUp: bool
    var ticks: nat
    var slice: nat
    var loadAvg: int

    function Abs(): (s: State)
      reads this
    {
      State(mlfqs, threads, ready, sleep, semas, holder, owner, current, idle, idleUp, ticks, slice, loadAvg)
    }

    /** The state after thread_start, with the semaphores and locks that will be used. */
    constructor (mlfqs: bool, main: Tid, idle: Tid, semas: map<SemaId, Sema>, holder: map<LockId, Option<Tid>>)
      requires main != idle
      requires forall id | id in semas :: semas[id] == Sema(semas[id].value, [], semas[id].value, 0, 0)
      requires forall l | l in holder :: holder[l] == None && OfLock(l) in semas && semas[OfLock(l)].value == 1
      requires forall l :: OfLock(l) in semas ==> l in holder
      ensures SchedulerRuns.Init(Abs(), main) && Inv(Abs())
      ensures Abs().mlfqs == mlfqs && Abs().idle == idle && Abs().semas == semas && Abs().holder == holder
    {
      this.mlfqs, this.idle := mlfqs, idle;
      threads := map[main := NewThread(SchedulerRuns.PRI_DEFAULT).(status := Running),
                     idle := NewThread(Mlfqs.PRI_MIN).(status := Ready)];
      ready, sleep, current, idleUp := [idle], [], main, false;
      this.semas, this.holder, owner := semas, holder, holder;
      ticks, slice, loadAvg := 0, 0, 0;
      new;
      hide Inv;
      SchedulerRuns.InitHolds(Abs(), main);
    }

    // -------------------------------------------------------------- thread.c

    /** thread_unblock: a blocked thread becomes ready, in front of the first thread in the list
        that its priority exceeds. */
    method Unblock(t: Tid)
      requires t in threads && threads[t].status == Blocked
      modifies this
      ensures Abs() == Enqueue(old(Abs()), t) && threads[t].status == Ready
      ensures exists k :: PlacedAt(threads, old(ready), ready, t, k)
    {
      assert PlacedAt(threads, ready, InsertOrdered(Higher(threads), ready, t), t, InsertAt(Higher(threads), ready, t));
      ready := InsertOrdered(Higher(threads), ready, t);
      ghost var k := InsertAt(Higher(threads), old(ready), t);
      threads := threads[t := threads[t].(status := Ready)];
      assert PlacedAt(threads, old(ready), ready, t, k);
    }

    /** schedule: called by a thread that no longer runs, it runs the front of the ready list, and
        idle when there is none. */
    method Schedule()
      requires CanDispatch(Abs()) && (current in threads ==> threads[current].status != Running)
      modifies this
      ensures Abs() == Dispatch(old(Abs()))
      ensures current in threads && threads[current].status == Running && slice == 0
      ensures old(ready) == [] ==> current == idle
      ensures Descending(old(threads), old(ready)) ==>
                forall t | t in old(ready) :: Pri(threads, t) <= Pri(threads, current)
    {
      var next := idle;
      if ready != [] {
        next, ready := ready[0], ready[1..];
      }
      current := next;
      threads := threads[next := threads[next].(status := Running)];
      slice := 0;
      assert forall t :: Pri(threads, t) == Pri(old(threads), t);
    }

    /** thread_yield: afterwards no ready thread has a higher priority than the running one. */
    method YieldProcessor()
      requires Queues(Abs()) && Live(Abs())
      modifies this
      ensures CanYield(old(Abs())) && Abs() == Yield(old(Abs()))
      ensures Queues(Abs()) && Live(Abs()) && SchedulerRuns.RunsHighest(Abs()) && Yields(old(Abs()), Abs())
    {
      hide InsertOrdered;
      hide Yields;
      YieldKeeps(Abs());
      YieldEffect(Abs());
      SchedulerRuns.YieldHighest(Abs());
      hide Queues;
      hide SchedulerRuns.RunsHighest;
      if !(idleUp && current == idle) {
        ready := InsertOrdered(Higher(threads), ready, current);
      }
      threads := threads[current := threads[current].(status := Ready)];
      Schedule();
    }

    /** thread_block, when the lists already count the current thread as blocked. */
    method BlockThread()
      requires current in threads
      requires Queues(SetStatus(Abs(), current, Blocked)) && Quiet(SetStatus(Abs(), current, Blocked))
      modifies this
      ensures CanBlock(old(Abs())) && Abs() == Block(old(Abs()))
      ensures Queues(Abs()) && Live(Abs()) && SchedulerRuns.RunsHighest(Abs())
    {
      DispatchKeeps(SetStatus(Abs(), current, Blocked));
      SchedulerRuns.DispatchHighest(SetStatus(Abs(), current, Blocked));
      hide Queues;
      hide SchedulerRuns.RunsHighest;
      threads := threads[current := threads[current].(status := Blocked)];
      Schedule();
    }

    method YieldThread()
      requires Inv(Abs()) && Enabled(Abs(), YieldCpu)
      modifies this
      ensures Safe(old(Abs()), YieldCpu) && Abs() == Next(old(Abs()), YieldCpu) && Inv(Abs())
      ensures Effect(old(Abs()), YieldCpu, Abs())
    {
      hide Effect;
      hide Queues;
      hide Sync;
      hide Live;
      StepKeepsInv(Abs(), YieldCpu);
      StepEffect(Abs(), YieldCpu);
      YieldProcessor();
    }

    /** thread_create: the new thread is unblocked. */
    method CreateThread(t: Tid, priority: int)
      requires Inv(Abs()) && Enabled(Abs(), Create(t, priority))
      modifies this
      ensures Safe(old(Abs()), Create(t, priority)) && Abs() == Next(old(Abs()), Create(t, priority)) && Inv(Abs())
      ensures Effect(old(Abs()), Create(t, priority), Abs())
    {
      hide Effect;
      hide Queues;
      hide Sync;
      hide Live;
      hide Enqueue;
      hide PlacedAt;
      StepKeepsInv(Abs(), Create(t, priority));
      StepEffect(Abs(), Create(t, priority));
      threads := threads[t := NewThread(priority)];
      threads := threads[current := threads[current].(pc := Created(priority))];
      Unblock(t);
    }

    method ExitThread()
      requires Inv(Abs()) && Enabled(Abs(), Exit)
      modifies this
      ensures Safe(old(Abs()), Exit) && Abs() == Next(old(Abs()), Exit) && Inv(Abs())
      ensures Effect(old(Abs()), Exit, Abs())
    {
      hide Effect;
      hide Queues;
      hide Sync;
      hide Live;
      hide Dispatch;
      hide CanDispatch;
      StepKeepsInv(Abs(), Exit);
      StepEffect(Abs(), Exit);
      ExitQuiet(Abs());
      threads := threads - {current};
      Schedule();
    }

    method SleepThread(wake: int)
      requires Inv(Abs()) && Enabled(Abs(), Sleep(wake))
      modifies this
      ensures Safe(old(Abs()), Sleep(wake)) && Abs() == Next(old(Abs()), Sleep(wake)) && Inv(Abs())
      ensures Effect(old(Abs()), Sleep(wake), Abs())
    {
      hide Effect;
      hide InsertOrdered;
      hide Queues;
      hide Sync;
      hide Live;
      hide Block;
      hide CanBlock;
      StepKeepsInv(Abs(), Sleep(wake));
      StepEffect(Abs(), Sleep(wake));
      SleptKeeps(Abs(), wake);
      threads := threads[current := threads[current].(wakeTick := wake, pc := Asleep)];
      sleep := InsertOrdered(Earlier(threads), sleep, current);
      BlockThread();
    }

    /** Walks the sleep list from its front until a thread is not due. */
    method WakeThreads()
      requires SleepersBlocked(Abs())
      modifies this
      ensures Abs() == Wake(old(Abs()))
    {
      hide PlacedAt;
      hide Enqueue;
      while sleep != [] && WakeTick(threads, sleep[0]) <= ticks
        invariant SleepersBlocked(Abs())
        invariant Wake(Abs()) == Wake(old(Abs()))
        decreases |sleep|
      {
        WakesFront(Abs());
        var t := sleep[0];
        sleep := sleep[1..];
        threads := threads[t := threads[t].(pc := Free)];
        Unblock(t);
      }
    }

    /** Every thread's recent_cpu, one after the other. */
    method UpdateAllRecentCpu()
      requires loadAvg >= 0
      modifies this
      ensures Abs() == old(Abs()).(threads := UpdateRecentCpu(old(Abs())))
    {
      hide Mlfqs.NextRecentCpu;
      var rest := threads.Keys;
      while rest != {}
        invariant Abs() == old(Abs()).(threads := threads) && threads.Keys == old(threads).Keys && rest <= threads.Keys
        invariant forall t | t in rest :: threads[t] == old(threads[t])
        invariant forall t | t in threads.Keys - rest :: threads[t] == UpdateRecentCpu(old(Abs()))[t]
        decreases rest
      {
        NonEmpty(rest);
        var t :| t in rest;
        if !(idleUp && t == idle) {
          var th := threads[t];
          threads := threads[t := th.(recentCpu := Mlfqs.NextRecentCpu(loadAvg, th.recentCpu, th.nice))];
        }
        rest := rest - {t};
      }
      assert threads == UpdateRecentCpu(old(Abs()));
    }

    /** Every thread's priority, then the ready list sorted again. */
    method UpdateAllPriorities()
      modifies this
      ensures var ts := UpdatePriorities(old(Abs()));
              Abs() == old(Abs()).(threads := ts, ready := StableSort(Higher(ts), old(ready)))
    {
      hide StableSort;
      hide Mlfqs.Priority;
      var rest := threads.Keys;
      while rest != {}
        invariant Abs() == old(Abs()).(threads := threads) && threads.Keys == old(threads).Keys && rest <= threads.Keys
        invariant forall t | t in rest :: threads[t] == old(threads[t])
        invariant forall t | t in threads.Keys - rest :: threads[t] == UpdatePriorities(old(Abs()))[t]
        decreases rest
      {
        NonEmpty(rest);
        var t :| t in rest;
        if !(idleUp && t == idle) {
          var th := threads[t];
          threads := threads[t := th.(priority := Mlfqs.Priority(th.recentCpu, th.nice))];
        }
        rest := rest - {t};
      }
      assert threads == UpdatePriorities(old(Abs()));
      ready := StableSort(Higher(threads), ready);
    }

    method Tick()
      requires Inv(Abs())
      modifies this
      ensures Enabled(old(Abs()), Action.Tick) && Safe(old(Abs()), Action.Tick)
      ensures Abs() == Next(old(Abs()), Action.Tick) && Inv(Abs())
      ensures Effect(old(Abs()), Action.Tick, Abs())
    {
      hide Effect;
      SyncBase(Abs());
      assert Enabled(Abs(), Action.Tick);
      StepKeepsInv(Abs(), Action.Tick);
      StepEffect(Abs(), Action.Tick);
      TickKeeps(Abs());
      hide Queues;
      hide Sync;
      hide Live;
      hide TimerInterrupt;
      TickParts();
      if slice >= TIME_SLICE {
        YieldProcessor();
      }
    }

    /** timer_interrupt with thread_tick and thread_wake, before the preemption. */
    method TickParts()
      requires current in threads && loadAvg >= 0 && SleepersBlocked(Abs())
      modifies this
      ensures Abs() == TimerInterrupt(old(Abs()))
    {
      hide Wake;
      hide StableSort;
      hide UpdatePriorities;
      ticks := ticks + 1;
      if mlfqs {
        AccountTick();
      }
      slice := slice + 1;
      ghost var before := old(Abs()).(ticks := old(ticks) + 1);
      assert SleepersBlocked(Abs()) by {
        if mlfqs { TickKeys(before); }
      }
      WakeThreads();
    }

    method AccountTick()
      requires current in threads && loadAvg >= 0
      modifies this
      ensures Abs() == MlfqsTick(old(Abs()))
    {
      hide StableSort;
      hide UpdatePriorities;
      hide UpdateRecentCpu;
      hide Mlfqs.NextLoadAvg;
      if !(idleUp && current == idle) {
        threads := threads[current := threads[current].(recentCpu := threads[current].recentCpu + Mlfqs.ONE)];
      }
      if ticks % TIMER_FREQ == 0 {
        var readyThreads := |ready|;
        if !(idleUp && current == idle) {
          readyThreads := readyThreads + 1;
        }
        loadAvg := Mlfqs.NextLoadAvg(loadAvg, readyThreads);
        UpdateAllRecentCpu();
        UpdateAllPriorities();
      } else if ticks % TIME_SLICE == 0 {
        UpdateAllPriorities();
      }
    }

    // -------------------------------------------------------------- synch.c

    /** The front of the waiters in priority order is woken, then the value goes up. */
    method RaiseSema(id: SemaId)
      requires WaitersBlocked(Abs(), id)
      modifies this
      ensures Abs() == Up(old(Abs()), id)
    {
      hide StableSort;
      hide InsertOrdered;
      hide PlacedAt;
      var m := semas[id];
      if m.waiters != [] {
        var w := StableSort(Higher(threads), m.waiters);
        StableSortMembers(Higher(threads), m.waiters);
        StableSortElements(Higher(threads), m.waiters);
        assert w[0] in w;
        semas := semas[id := m.(waiters := w[1..])];
        Unblock(w[0]);
      }
      var m' := semas[id];
      semas := semas[id := m'.(value := m'.value + 1, ups := m'.ups + 1)];
    }

    method TryDownSema(id: SemaId) returns (success: bool)
      requires Inv(Abs()) && Enabled(Abs(), TryDown(id))
      modifies this
      ensures Safe(old(Abs()), TryDown(id)) && Abs() == Next(old(Abs()), TryDown(id)) && Inv(Abs())
      ensures success <==> old(semas[id].value) > 0
      ensures Effect(old(Abs()), TryDown(id), Abs())
    {
      hide Effect;
      hide Queues;
      hide Sync;
      hide Live;
      StepKeepsInv(Abs(), TryDown(id));
      StepEffect(Abs(), TryDown(id));
      success := semas[id].value > 0;
      if success {
        semas := semas[id := semas[id].(value := semas[id].value - 1, downs := semas[id].downs + 1)];
      }
    }

    /** Waits at a semaphore, behind the waiters of the same or a higher priority. */
    method WaitAt(id: SemaId)
      requires Queues(Abs()) && Live(Abs()) && current != idle && id in semas
      modifies this
      ensures CanBlock(StartWait(old(Abs()), id)) && Abs() == Block(StartWait(old(Abs()), id))
      ensures Queues(Abs()) && Live(Abs()) && SchedulerRuns.RunsHighest(Abs())
    {
      WaitedKeeps(Abs(), id);
      hide Queues;
      hide InsertOrdered;
      hide Block;
      hide CanBlock;
      hide SchedulerRuns.RunsHighest;
      semas := semas[id := semas[id].(waiters := InsertOrdered(Higher(threads), semas[id].waiters, current))];
      threads := threads[current := threads[current].(pc := Down(id, true))];
      BlockThread();
    }

    /** One round of sema_down's loop: waits at value 0, takes otherwise. */
    method TestDownSema()
      requires Inv(Abs()) && Enabled(Abs(), TestDown)
      modifies this
      ensures Safe(old(Abs()), TestDown) && Abs() == Next(old(Abs()), TestDown) && Inv(Abs())
      ensures Effect(old(Abs()), TestDown, Abs())
    {
      hide Effect;
      hide Queues;
      hide Sync;
      hide Live;
      hide StartWait;
      hide Block;
      hide CanBlock;
      StepKeepsInv(Abs(), TestDown);
      StepEffect(Abs(), TestDown);
      var id := threads[current].pc.sema;
      var m := semas[id];
      if m.value == 0 {
        NotIdle(Abs());
        WaitAt(id);
      } else {
        semas := semas[id := m.(value := m.value - 1, downs := m.downs + 1)];
        if id.OfLock? {
          owner := owner[id.lock := Some(current)];
        }
        threads := threads[current := threads[current].(pc := AfterDown(id))];
      }
    }

    /** Entering sema_down. */
    method EnterDown(id: SemaId)
      requires Inv(Abs()) && Enabled(Abs(), BeginDown(id))
      modifies this
      ensures Safe(old(Abs()), BeginDown(id)) && Abs() == Next(old(Abs()), BeginDown(id)) && Inv(Abs())
      ensures OffLists(Abs(), current)
      ensures Effect(old(Abs()), BeginDown(id), Abs())
    {
      hide Effect;
      hide Queues;
      hide Sync;
      hide Live;
      StepKeepsInv(Abs(), BeginDown(id));
      StepEffect(Abs(), BeginDown(id));
      threads := threads[current := threads[current].(pc := Down(id, false))];
      RunningOffLists(Abs());
    }

    /** sema_up by a thread, up to its preemption test. */
    method UpSema(id: SemaId)
      requires Inv(Abs()) && Enabled(Abs(), SemaUp(id))
      modifies this
      ensures Safe(old(Abs()), SemaUp(id)) && Abs() == Next(old(Abs()), SemaUp(id)) && Inv(Abs())
      ensures Effect(old(Abs()), SemaUp(id), Abs())
    {
      hide Effect;
      hide Queues;
      hide Sync;
      hide Live;
      hide Up;
      StepKeepsInv(Abs(), SemaUp(id));
      StepEffect(Abs(), SemaUp(id));
      UpFields(Abs(), id);
      RaiseSema(id);
      threads := threads[current := threads[current].(pc := Recheck)];
    }

    /** sema_up by an interrupt handler. */
    method InterruptUp(id: SemaId)
      requires Inv(Abs()) && Enabled(Abs(), IntrUp(id))
      modifies this
      ensures Safe(old(Abs()), IntrUp(id)) && Abs() == Next(old(Abs()), IntrUp(id)) && Inv(Abs())
      ensures Effect(old(Abs()), IntrUp(id), Abs())
    {
      hide Effect;
      hide Queues;
      hide Sync;
      hide Live;
      hide Up;
      StepKeepsInv(Abs(), IntrUp(id));
      StepEffect(Abs(), IntrUp(id));
      RaiseSema(id);
    }

    /** Climbs the chain of waits, at most DONATION_DEPTH holders. */
    method DonatePriority(start: Tid)
      modifies this
      ensures Abs() == Donate(old(Abs()), start, DONATION_DEPTH)
    {
      hide Donate;
      hide Raise;
      var t, depth := start, 0;
      while t in threads && threads[t].waiting.Some? && threads[t].waiting.value in holder && depth < DONATION_DEPTH
        invariant 0 <= depth <= DONATION_DEPTH
        invariant Donate(Abs(), t, DONATION_DEPTH - depth) == Donate(old(Abs()), start, DONATION_DEPTH)
        decreases DONATION_DEPTH - depth
      {
        DonateStep(Abs(), t, DONATION_DEPTH - depth);
        var h := holder[threads[t].waiting.value];
        if h.None? || h.value !in threads || Pri(threads, h.value) >= Pri(threads, t) {
          return;
        }
        RaiseThread(h.value, threads[t].priority);
        t, depth := h.value, depth + 1;
      }
      DonateStep(Abs(), t, DONATION_DEPTH - depth);
    }

    /** One donation: the new priority, and a ready thread's new place in the list. */
    method RaiseThread(t: Tid, priority: int)
      requires t in threads
      modifies this
      ensures Abs() == Raise(old(Abs()), t, priority)
    {
      hide InsertOrdered;
      hide Without;
      threads := threads[t := threads[t].(priority := priority)];
      if threads[t].status == Ready {
        ready := InsertOrdered(Higher(threads), Without(ready, t), t);
      }
    }

    /** Deletes the donors that wait for `l`, one list element at a time. */
    method RemoveDonations(t: Tid, l: LockId)
      requires t in threads
      modifies this
      ensures var th := old(threads[t]);
              Abs() == old(Abs()).(threads := old(threads)[t := th.(donations := DropDonors(old(threads), th.donations, l))])
    {
      var ds := KeptDonors(threads[t].donations, l);
      threads := threads[t := threads[t].(donations := ds)];
    }

    method KeptDonors(donations: seq<Tid>, l: LockId) returns (ds: seq<Tid>)
      ensures ds == DropDonors(threads, donations, l)
    {
      ds := donations;
      var e := 0;
      while e < |ds|
        invariant 0 <= e <= |ds|
        invariant ds[..e] + DropDonors(threads, ds[e..], l) == DropDonors(threads, donations, l)
        decreases |ds| - e
      {
        if ds[e] in threads && threads[ds[e]].waiting == Some(l) {
          var ds' := ds[..e] + ds[e + 1..];
          assert ds[e..][1..] == ds[e + 1..] == ds'[e..] && ds'[..e] == ds[..e];
          ds := ds';
        } else {
          assert ds[e..][1..] == ds[e + 1..] && ds[..e] + [ds[e]] == ds[..e + 1];
          e := e + 1;
        }
      }
      assert ds[..e] == ds && ds[e..] == [];
    }

    /** The largest of a base priority and the donors' priorities. */
    method EffectivePriority(t: Tid, base: int) returns (max: int)
      requires t in threads
      ensures max == Effective(threads, base, threads[t].donations)
    {
      max := base;
      var ds := threads[t].donations;
      for e := 0 to |ds|
        invariant max == Effective(threads, base, ds[..e])
      {
        assert ds[..e + 1][..e] == ds[..e];
        var p := Pri(threads, ds[e]);
        if p > max {
          max := p;
        }
      }
      assert ds[..|ds|] == ds;
    }

    method ChangePriority(priority: int)
      requires Inv(Abs()) && Enabled(Abs(), SetPriority(priority))
      modifies this
      ensures Safe(old(Abs()), SetPriority(priority)) && Abs() == Next(old(Abs()), SetPriority(priority)) && Inv(Abs())
      ensures Effect(old(Abs()), SetPriority(priority), Abs())
    {
      hide Effect;
      hide Queues;
      hide Sync;
      hide Live;
      hide Effective;
      StepKeepsInv(Abs(), SetPriority(priority));
      StepEffect(Abs(), SetPriority(priority));
      if !mlfqs {
        var p := EffectivePriority(current, priority);
        threads := threads[current := threads[current].(base := priority, priority := p, pc := Recheck)];
      }
    }

    method AcquireLock(l: LockId)
      requires Inv(Abs()) && Enabled(Abs(), Acquire(l))
      modifies this
      ensures Safe(old(Abs()), Acquire(l)) && Abs() == Next(old(Abs()), Acquire(l)) && Inv(Abs())
      ensures Effect(old(Abs()), Acquire(l), Abs())
    {
      hide Effect;
      hide Queues;
      hide Sync;
      hide Live;
      hide Donate;
      StepKeepsInv(Abs(), Acquire(l));
      StepEffect(Abs(), Acquire(l));
      threads := threads[current := threads[current].(pc := Down(OfLock(l), false))];
      if !mlfqs && holder[l].Some? {
        var h := holder[l].value;
        threads := threads[current := threads[current].(waiting := Some(l))];
        threads := threads[h := threads[h].(donations := threads[h].donations + [current])];
        DonatePriority(current);
      }
    }

    method ReleaseLock(l: LockId)
      requires Inv(Abs()) && Enabled(Abs(), Release(l))
      modifies this
      ensures Safe(old(Abs()), Release(l)) && Abs() == Next(old(Abs()), Release(l)) && Inv(Abs())
      ensures Effect(old(Abs()), Release(l), Abs())
    {
      hide Effect;
      hide Queues;
      hide Sync;
      hide Live;
      hide Effective;
      hide DropDonors;
      StepKeepsInv(Abs(), Release(l));
      StepEffect(Abs(), Release(l));
      SyncDonors(Abs());
      FreeIsNoDonor(Abs(), current);
      ReleaseParts(l);
    }

    /** lock_acquire behind its sema_down: waiting_lock, then the holder. */
    method ClearWaitingLock()
      requires Inv(Abs()) && Enabled(Abs(), ClearWaiting)
      modifies this
      ensures Safe(old(Abs()), ClearWaiting) && Abs() == Next(old(Abs()), ClearWaiting) && Inv(Abs())
      ensures var l := threads[current].pc.lock; l in owner && owner[l] == Some(current) && l in holder && holder[l].None?
      ensures forall h | h in threads :: current !in threads[h].donations
      ensures Effect(old(Abs()), ClearWaiting, Abs())
    {
      hide Effect;
      hide Queues;
      hide Sync;
      hide Live;
      StepKeepsInv(Abs(), ClearWaiting);
      StepEffect(Abs(), ClearWaiting);
      threads := threads[current := threads[current].(waiting := None, pc := Taking(threads[current].pc.lock))];
      TakerOwns(Abs());
      NotWaitingNoDonor(Abs());
    }

    method RecordHolder()
      requires Inv(Abs()) && Enabled(Abs(), SetHolder)
      modifies this
      ensures Safe(old(Abs()), SetHolder) && Abs() == Next(old(Abs()), SetHolder) && Inv(Abs())
      ensures var l := old(threads[current].pc.lock);
              l in holder && l in owner && holder[l] == owner[l] == Some(current) && old(holder)[l].None?
      ensures Effect(old(Abs()), SetHolder, Abs())
    {
      hide Effect;
      hide Queues;
      hide Sync;
      hide Live;
      StepKeepsInv(Abs(), SetHolder);
      StepEffect(Abs(), SetHolder);
      TakerOwns(Abs());
      holder := holder[threads[current].pc.lock := Some(current)];
      threads := threads[current := threads[current].(pc := Free)];
    }

    method TryAcquireLock(l: LockId) returns (success: bool)
      requires Inv(Abs()) && Enabled(Abs(), TryAcquire(l))
      modifies this
      ensures Safe(old(Abs()), TryAcquire(l)) && Abs() == Next(old(Abs()), TryAcquire(l)) && Inv(Abs())
      ensures success <==> old(owner)[l].None?
      ensures Effect(old(Abs()), TryAcquire(l), Abs())
    {
      hide Effect;
      hide Queues;
      hide Sync;
      hide Live;
      StepKeepsInv(Abs(), TryAcquire(l));
      StepEffect(Abs(), TryAcquire(l));
      FreeLock(Abs(), l);
      var m := semas[OfLock(l)];
      success := m.value > 0;
      if success {
        semas := semas[OfLock(l) := m.(value := m.value - 1, downs := m.downs + 1)];
        owner := owner[l := Some(current)];
        threads := threads[current := threads[current].(pc := Taking(l))];
      }
    }

    /** lock_release's sema_up, up to its preemption test. */
    method GiveUpLock()
      requires Inv(Abs()) && Enabled(Abs(), GiveUp)
      modifies this
      ensures Safe(old(Abs()), GiveUp) && Abs() == Next(old(Abs()), GiveUp) && Inv(Abs())
      ensures Effect(old(Abs()), GiveUp, Abs())
    {
      hide Effect;
      hide Queues;
      hide Sync;
      hide Live;
      hide Up;
      StepKeepsInv(Abs(), GiveUp);
      StepEffect(Abs(), GiveUp);
      var l := threads[current].pc.lock;
      UpFields(Abs(), OfLock(l));
      RaiseSema(OfLock(l));
      owner := owner[l := None];
      threads := threads[current := threads[current].(pc := Recheck)];
    }

    // -------------------------------------------------------------- tests and idle

    /** The preemption test at the end of thread_create. */
    method TestCreated()
      requires Inv(Abs()) && Enabled(Abs(), CreateTest)
      modifies this
      ensures Safe(old(Abs()), CreateTest) && Abs() == Next(old(Abs()), CreateTest) && Inv(Abs())
      ensures Effect(old(Abs()), CreateTest, Abs())
    {
      hide Effect;
      hide Queues;
      hide Sync;
      hide Live;
      hide Yield;
      hide CanYield;
      StepKeepsInv(Abs(), CreateTest);
      StepEffect(Abs(), CreateTest);
      TestedKeeps(Abs());
      var priority := threads[current].pc.priority;
      threads := threads[current := threads[current].(pc := Free)];
      if threads[current].priority < priority {
        YieldProcessor();
      }
    }

    /** The preemption test against the front of the ready list; afterwards no ready thread has a
        higher priority than the running one. */
    method TestFront()
      requires Inv(Abs()) && Enabled(Abs(), PreemptTest)
      modifies this
      ensures Safe(old(Abs()), PreemptTest) && Abs() == Next(old(Abs()), PreemptTest) && Inv(Abs())
      ensures SchedulerRuns.RunsHighest(Abs())
      ensures Effect(old(Abs()), PreemptTest, Abs())
    {
      hide Effect;
      hide Queues;
      hide Sync;
      hide Live;
      hide Yield;
      hide CanYield;
      hide SchedulerRuns.RunsHighest;
      StepKeepsInv(Abs(), PreemptTest);
      StepEffect(Abs(), PreemptTest);
      SchedulerRuns.SwitchesRunHighest(Abs(), PreemptTest);
      TestedKeeps(Abs());
      threads := threads[current := threads[current].(pc := Free)];
      if ready != [] && Pri(threads, ready[0]) > Pri(threads, current) {
        YieldProcessor();
      }
    }

    method ChangeNice(nice: int)
      requires Inv(Abs()) && Enabled(Abs(), SetNice(nice))
      modifies this
      ensures Safe(old(Abs()), SetNice(nice)) && Abs() == Next(old(Abs()), SetNice(nice)) && Inv(Abs())
      ensures Mlfqs.PRI_MIN <= threads[current].priority <= Mlfqs.PRI_MAX
      ensures forall t | t in old(threads) && t != current :: t in threads && threads[t] == old(threads)[t]
      ensures Effect(old(Abs()), SetNice(nice), Abs())
    {
      hide Effect;
      hide Queues;
      hide Sync;
      hide Live;
      hide Mlfqs.Priority;
      StepKeepsInv(Abs(), SetNice(nice));
      StepEffect(Abs(), SetNice(nice));
      var th := threads[current];
      threads := threads[current := th.(nice := nice, priority := Mlfqs.Priority(th.recentCpu, nice), pc := Recheck)];
    }

    /** idle registers itself, and blocks whenever it runs. */
    method StartIdle()
      requires Inv(Abs()) && Enabled(Abs(), IdleStart)
      modifies this
      ensures Safe(old(Abs()), IdleStart) && Abs() == Next(old(Abs()), IdleStart) && Inv(Abs())
      ensures IsIdle(Abs(), current) && OffLists(Abs(), current)
      ensures Effect(old(Abs()), IdleStart, Abs())
    {
      hide Effect;
      hide Queues;
      hide Sync;
      hide Live;
      StepKeepsInv(Abs(), IdleStart);
      StepEffect(Abs(), IdleStart);
      idleUp := true;
      RunningOffLists(Abs());
    }

    method BlockIdle()
      requires Inv(Abs()) && Enabled(Abs(), IdleBlock)
      modifies this
      ensures Safe(old(Abs()), IdleBlock) && Abs() == Next(old(Abs()), IdleBlock) && Inv(Abs())
      ensures Effect(old(Abs()), IdleBlock, Abs())
    {
      hide Effect;
      hide Queues;
      hide Sync;
      hide Live;
      StepKeepsInv(Abs(), IdleBlock);
      StepEffect(Abs(), IdleBlock);
      IdleQuiet(Abs());
      BlockThread();
    }

    method ReleaseParts(l: LockId)
      requires current in threads && l in holder
      requires forall d | d in threads[current].donations :: d != current
      modifies this
      ensures Abs() == StartRelease(old(Abs()), l)
    {
      hide Effective;
      hide DropDonors;
      holder := holder[l := None];
      threads := threads[current := threads[current].(pc := Giving(l))];
      if !mlfqs {
        ghost var ts := threads;
        RemoveDonations(current, l);
        var p := EffectivePriority(current, threads[current].base);
        DropDonorsSubset(ts, ts[current].donations, l);
        EffectiveFrame(ts, threads, threads[current].base, threads[current].donations);
        threads := threads[current := threads[current].(priority := p)];
      }
    }
  }

  lemma NonEmpty(s: set<Tid>)
    requires s != {}
    ensures exists t: Tid :: t in s
  {
    assert (forall t: Tid :: t !in s) ==> s == {};
  }

  lemma TickKeys(s: State)
    requires s.current in s.threads && s.loadAvg >= 0
    ensures MlfqsTick(s).threads.Keys == s.threads.Keys && MlfqsTick(s).sleep == s.sleep
    ensures forall t | t in s.threads :: MlfqsTick(s).threads[t].status == s.threads[t].status
  {
    hide StableSort;
    hide Account;
    AccountFrame(s);
  }

  lemma DonateStep(s: State, t: Tid, depth: nat)
    ensures var h := Blocker(s, t);
            if depth > 0 && h.Some? && h.value in s.threads && Pri(s.threads, h.value) < Pri(s.threads, t)
            then Donate(s, t, depth) == Donate(Raise(s, h.value, Pri(s.threads, t)), h.value, depth - 1)
            else Donate(s, t, depth) == s
  {
    hide Raise;
  }

  lemma WakesFront(s: State)
    requires SleepersBlocked(s) && s.sleep != [] && WakeTick(s.threads, s.sleep[0]) <= s.ticks
    ensures var r := Enqueue(SetPc(s.(sleep := s.sleep[1..]), s.sleep[0], Free), s.sleep[0]);
            |r.sleep| < |s.sleep| && SleepersBlocked(r) && Wake(r) == Wake(s)
  {
    hide InsertOrdered;
    assert s.sleep[0] !in s.sleep[1..];
  }

  lemma UpFields(s: State, id: SemaId)
    requires WaitersBlocked(s, id)
    ensures var r := Up(s, id);
            r.threads.Keys == s.threads.Keys && r.current == s.current && r.owner == s.owner
  {
    hide Up;
    UpFrame(s, id);
  }

  /** The semaphore of a lock is up exactly when no thread owns the lock. */
  lemma FreeLock(s: State, l: LockId)
    requires Inv(s) && l in s.holder
    ensures l in s.owner && OfLock(l) in s.semas && (s.semas[OfLock(l)].value > 0 <==> s.owner[l].None?)
  {
    hide Queues;
    hide Live;
    assert LockOK(s, l);
  }

  /** On none of the kernel's lists. */
  ghost predicate OffLists(s: State, t: Tid) {
    t !in s.ready && t !in s.sleep && forall id | id in s.semas :: t !in s.semas[id].waiters
  }

  lemma RunningOffLists(s: State)
    requires Inv(s)
    ensures OffLists(s, s.current)
  {
    hide Sync;
    assert Queues(s) && Live(s);
    forall id | id in s.semas ensures s.current !in s.semas[id].waiters {
      assert !WaitsAt(s, s.current, id);
    }
    assert s.threads[s.current].pc != Asleep;
  }

  /** A thread behind the sema_down of lock_acquire owns the lock, and is not recorded yet. */
  lemma TakerOwns(s: State)
    requires Inv(s) && s.current in s.threads && s.threads[s.current].pc.Taking?
    ensures var l := s.threads[s.current].pc.lock;
            l in s.owner && s.owner[l] == Some(s.current) && l in s.holder && s.holder[l].None?
  {
    hide Queues;
    hide Live;
    var l := s.threads[s.current].pc.lock;
    assert LockOK(s, l);
  }

  lemma NotWaitingNoDonor(s: State)
    requires Inv(s) && s.current in s.threads && s.threads[s.current].waiting.None?
    ensures forall h | h in s.threads :: s.current !in s.threads[h].donations
  {
    hide Queues;
    hide Live;
    forall h | h in s.threads ensures s.current !in s.threads[h].donations {
      assert s.current in s.threads[h].donations ==> WaitsFor(s, s.current, h);
    }
  }

  /** Idle never waits at a semaphore. */
  lemma NotIdle(s: State)
    requires Inv(s) && Enabled(s, TestDown)
    ensures Queues(s) && Live(s) && s.current != s.idle
  {
    IdlePosition(s);
  }

  lemma ExitQuiet(s: State)
    requires Inv(s) && Enabled(s, Exit)
    ensures CanDispatch(Removed(s))
  {
    ExitKeeps(s);
  }

  lemma {:induction false} DropDonorsSubset(ts: map<Tid, Thread>, ds: seq<Tid>, l: LockId)
    ensures forall d | d in DropDonors(ts, ds, l) :: d in ds
  {
    if ds != [] {
      DropDonorsSubset(ts, ds[1..], l);
    }
  }

  lemma {:induction false} EffectiveFrame(ts: map<Tid, Thread>, ts': map<Tid, Thread>, base: int, ds: seq<Tid>)
    requires forall d | d in ds :: Pri(ts, d) == Pri(ts', d)
    ensures Effective(ts, base, ds) == Effective(ts', base, ds)
  {
    if ds != [] {
      assert ds[|ds| - 1] in ds;
      EffectiveFrame(ts, ts', base, ds[..|ds| - 1]);
    }
  }
}
