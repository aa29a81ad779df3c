/** Semaphores lose no wake-up and no count. */
module SchedulerWakeups {
  import opened Collections
  import opened Ordering
  import opened Scheduler
  import opened SchedulerQueues
  import opened SchedulerSync
  import opened SchedulerDonation

  /** Woken from `id`'s waiters but not yet back at the test. */
  predicate IsWoken(s: State, t: Tid, id: SemaId) {
    t in s.threads && s.threads[t].pc == Down(id, true) && s.threads[t].status != Blocked
  }

  function Woken(s: State, id: SemaId): (w: set<Tid>) {
    set t | t in s.threads && IsWoken(s, t, id)
  }

  /** While threads wait, every unit of the value has a woken thread on its way to it. */
  ghost predicate NoLostWakeup(s: State) {
    forall id | id in s.semas && s.semas[id].waiters != [] :: s.semas[id].value <= |Woken(s, id)|
  }

  ghost predicate Balanced(s: State) {
    forall id | id in s.semas :: s.semas[id].value == s.semas[id].initial + s.semas[id].ups - s.semas[id].downs
  }

  ghost predicate SameWoken(s: State, s': State) {
    forall t, id :: IsWoken(s', t, id) <==> IsWoken(s, t, id)
  }

  lemma SameWokenSets(s: State, s': State, id: SemaId)
    requires SameWoken(s, s')
    ensures Woken(s', id) == Woken(s, id)
  {
    assert forall t :: t in Woken(s', id) <==> t in Woken(s, id);
  }

  lemma NoLostFrame(s: State, s': State)
    requires NoLostWakeup(s) && Balanced(s) && SameWoken(s, s') && s'.semas == s.semas
    ensures NoLostWakeup(s') && Balanced(s')
  {
    forall id | id in s'.semas && s'.semas[id].waiters != [] ensures s'.semas[id].value <= |Woken(s', id)| {
      SameWokenSets(s, s', id);
    }
  }

  // ---------------------------------------------------------------- list operations

  lemma DispatchWoken(s: State)
    requires Queues(s) && CanDispatch(s)
    ensures SameWoken(s, Dispatch(s)) && Dispatch(s).semas == s.semas
  {
    assert s.ready != [] ==> s.ready[0] in s.ready;
  }

  lemma YieldWoken(s: State)
    requires Queues(s) && Live(s) && CanYield(s)
    ensures SameWoken(s, Yield(s)) && Yield(s).semas == s.semas
  {
    hide InsertOrdered;
    assert SameWoken(s, Requeue(s)) && Requeue(s).semas == s.semas;
    RequeueKeeps(s);
    hide Queues;
    hide Requeue;
    DispatchWoken(Requeue(s));
  }

  lemma {:induction false} WakeWoken(s: State)
    requires Queues(s) && Live(s) && forall t | t in s.sleep :: t in s.threads
    ensures SameWoken(s, Wake(s)) && Wake(s).semas == s.semas
    decreases |s.sleep|
  {
    if s.sleep != [] && WakeTick(s.threads, s.sleep[0]) <= s.ticks {
      hide Wake;
      WakeStep(s);
      assert SameWoken(s, WakeFront(s)) by {
        assert s.sleep[0] in s.sleep;
      }
      WakeFrontKeeps(s);
      WakeWoken(WakeFront(s));
    }
  }

  lemma AccountWoken(s: State)
    requires s.current in s.threads && s.loadAvg >= 0
    ensures SameWoken(s, MlfqsTick(s)) && MlfqsTick(s).semas == s.semas
  {
    hide StableSort;
    hide Account;
    AccountFrame(s);
  }

  lemma TickWoken(s: State)
    requires Queues(s) && Live(s) && s.loadAvg >= 0
    ensures forall t | t in s.sleep :: t in s.threads
    ensures CanYield(TimerInterrupt(s))
    ensures SameWoken(s, TimerInterrupt(s)) && TimerInterrupt(s).semas == s.semas
    ensures SameWoken(s, Yield(TimerInterrupt(s))) && Yield(TimerInterrupt(s)).semas == s.semas
  {
    hide Queues;
    hide Wake;
    hide MlfqsTick;
    hide Yield;
    hide CanYield;
    SleepersExist(s);
    var s1 := s.(ticks := s.ticks + 1);
    SamePrioritiesKeep(s, s1);
    if s.mlfqs {
      MlfqsTickKeeps(s1);
      AccountWoken(s1);
    }
    var s2 := if s.mlfqs then MlfqsTick(s1) else s1;
    var s3 := s2.(slice := s2.slice + 1);
    SamePrioritiesKeep(s2, s3);
    SleepersExist(s3);
    WakeWoken(s3);
    assert SameWoken(s, s1) && SameWoken(s1, s2) && SameWoken(s2, s3);
    TickKeeps(s);
    YieldWoken(TimerInterrupt(s));
  }

  // ---------------------------------------------------------------- semaphore operations

  /** An up adds one unit and, if anyone waits, one woken thread. */
  lemma UpWoken(s: State, id: SemaId)
    requires Queues(s) && NoLostWakeup(s) && Balanced(s) && WaitersBlocked(s, id)
    ensures NoLostWakeup(Up(s, id)) && Balanced(Up(s, id))
  {
    UpFrame(s, id);
    var r := Up(s, id);
    if s.semas[id].waiters == [] {
      assert SameWoken(s, r);
      forall id' | id' in r.semas && r.semas[id'].waiters != [] ensures r.semas[id'].value <= |Woken(r, id')| {
        SameWokenSets(s, r, id');
      }
    } else {
      var k := UpWakesMax(s, id);
      var t := s.semas[id].waiters[k];
      assert t in s.semas[id].waiters && WaitsAt(s, t, id);
      hide Up;
      hide StableSort;
      hide Queues;
      UpWokenSets(s, r, id, t);
    }
  }

  lemma UpWokenSets(s: State, r: State, id: SemaId, t: Tid)
    requires NoLostWakeup(s) && Balanced(s) && id in s.semas && WaitsAt(s, t, id) && s.semas[id].waiters != []
    requires r.threads == s.threads[t := s.threads[t].(status := Ready)] && r.semas.Keys == s.semas.Keys
    requires forall id' | id' in s.semas && id' != id :: r.semas[id'] == s.semas[id']
    requires r.semas[id].value == s.semas[id].value + 1 && r.semas[id].ups == s.semas[id].ups + 1
    requires r.semas[id].initial == s.semas[id].initial && r.semas[id].downs == s.semas[id].downs
    ensures NoLostWakeup(r) && Balanced(r)
  {
    forall id' | id' in r.semas && r.semas[id'].waiters != [] ensures r.semas[id'].value <= |Woken(r, id')| {
      WokenAfterUp(s, r, id, t, id');
    }
  }

  lemma WokenAfterUp(s: State, r: State, id: SemaId, t: Tid, id': SemaId)
    requires WaitsAt(s, t, id) && r.threads == s.threads[t := s.threads[t].(status := Ready)]
    ensures |Woken(r, id')| == |Woken(s, id')| + if id' == id then 1 else 0
  {
    if id' == id {
      assert Woken(r, id) == Woken(s, id) + {t} && t !in Woken(s, id);
    } else {
      assert Woken(r, id') == Woken(s, id');
    }
  }

  /** A decrement takes one unit and at most one woken thread, the one that decrements. */
  lemma TakeWoken(s: State, s': State, id: SemaId)
    requires NoLostWakeup(s) && Balanced(s) && id in s.semas && s.semas[id].value > 0 && s.current in s.threads
    requires s'.semas == Take(s, id).semas && s'.threads.Keys == s.threads.Keys
    requires forall t | t in s.threads && t != s.current :: s'.threads[t] == s.threads[t]
    requires !s'.threads[s.current].pc.Down?
    requires forall id' | id' != id :: !IsWoken(s, s.current, id')
    ensures NoLostWakeup(s') && Balanced(s')
  {
    hide Woken;
    hide IsWoken;
    forall id' | id' in s'.semas && s'.semas[id'].waiters != [] ensures s'.semas[id'].value <= |Woken(s', id')| {
      TakenFrom(s, s', id, id');
    }
  }

  /** The taker leaves the woken threads of the semaphore it takes from. */
  lemma TakenFrom(s: State, s': State, id: SemaId, id': SemaId)
    requires s.current in s.threads && s'.threads.Keys == s.threads.Keys
    requires forall t | t in s.threads && t != s.current :: s'.threads[t] == s.threads[t]
    requires !s'.threads[s.current].pc.Down?
    requires id' != id ==> !IsWoken(s, s.current, id')
    ensures if id' == id then |Woken(s', id')| >= |Woken(s, id')| - 1 else Woken(s', id') == Woken(s, id')
  {
    var c := s.current;
    assert forall t :: t in Woken(s', id') <==> t in Woken(s, id') && t != c;
    if c in Woken(s, id') {
      assert Woken(s', id') == Woken(s, id') - {c};
    } else {
      assert Woken(s', id') == Woken(s, id');
    }
  }

  /** Whoever goes to wait found the value at 0. */
  lemma WaitWoken(s: State, id: SemaId)
    requires Queues(s) && Live(s) && NoLostWakeup(s) && Balanced(s)
    requires id in s.semas && s.semas[id].value == 0 && s.threads[s.current].pc.Down? && s.threads[s.current].pc.sema == id
    requires CanBlock(StartWait(s, id))
    ensures NoLostWakeup(Block(StartWait(s, id))) && Balanced(Block(StartWait(s, id)))
  {
    hide Queues;
    hide Woken;
    hide Block;
    hide CanBlock;
    hide StartWait;
    var r := Block(StartWait(s, id));
    WaitFrame(s, id);
    hide IsWoken;
    forall id' | id' in r.semas && r.semas[id'].waiters != [] ensures r.semas[id'].value <= |Woken(r, id')| {
      if id' != id {
        WaitFrom(s, r, id');
      }
    }
  }

  lemma WaitFrame(s: State, id: SemaId)
    requires Queues(s) && Live(s) && id in s.semas && s.threads[s.current].pc.Down? && s.threads[s.current].pc.sema == id
    requires CanBlock(StartWait(s, id))
    ensures var r := Block(StartWait(s, id));
            && (forall t, id' :: IsWoken(r, t, id') <==> IsWoken(s, t, id') && t != s.current)
            && (forall id' | id' != id :: !IsWoken(s, s.current, id'))
            && r.semas == s.semas[id := s.semas[id].(waiters := r.semas[id].waiters)]
  {
    hide InsertOrdered;
    assert s.ready != [] ==> s.ready[0] in s.ready;
  }

  lemma WaitFrom(s: State, r: State, id: SemaId)
    requires forall t :: IsWoken(r, t, id) <==> IsWoken(s, t, id) && t != s.current
    requires !IsWoken(s, s.current, id)
    ensures Woken(r, id) == Woken(s, id)
  {
    assert forall t :: t in Woken(r, id) <==> t in Woken(s, id);
  }

  // ---------------------------------------------------------------- steps

  /** Where the steps that dispatch stand just before they do. */
  function BeforeSwitch(s: State, a: Action): (r: State)
    requires s.current in s.threads
  {
    match a
    case Sleep(w) => StartSleep(s, w)
    case CreateTest => SetPc(s, s.current, Free)
    case PreemptTest => SetPc(s, s.current, Free)
    case _ => s
  }

  lemma BlockWoken(s: State)
    requires CanBlock(s) && !s.threads[s.current].pc.Down?
    requires forall t | t in s.ready :: t in s.threads && s.threads[t].status == Ready
    requires s.idleUp ==> s.idle in s.threads && !s.threads[s.idle].pc.Down?
    ensures SameWoken(s, Block(s)) && Block(s).semas == s.semas
  {
    assert s.ready != [] ==> s.ready[0] in s.ready;
  }

  lemma SleepWoken(s: State, w: int)
    requires Queues(s) && Live(s) && Enabled(s, Sleep(w)) && Safe(s, Sleep(w))
    ensures SameWoken(s, Next(s, Sleep(w))) && Next(s, Sleep(w)).semas == s.semas
  {
    hide InsertOrdered;
    assert SameWoken(s, StartSleep(s, w));
    hide Block;
    BlockWoken(StartSleep(s, w));
  }

  lemma SetFreeWoken(s: State)
    requires s.current in s.threads && !s.threads[s.current].pc.Down?
    ensures SameWoken(s, SetPc(s, s.current, Free))
  {
  }

  lemma SwitchWoken(s: State, a: Action)
    requires Queues(s) && Live(s) && Enabled(s, a) && Safe(s, a)
    requires a.CreateTest? || a.PreemptTest? || a.YieldCpu?
    ensures SameWoken(s, Next(s, a)) && Next(s, a).semas == s.semas
  {
    hide Yield;
    hide CanYield;
    SetFreeWoken(s);
    TestedKeeps(s);
    hide Queues;
    hide Live;
    var s1 := BeforeSwitch(s, a);
    if Next(s, a) != s1 {
      YieldWoken(s1);
    }
  }

  lemma ExitWoken(s: State)
    requires Queues(s) && Live(s) && Enabled(s, Exit) && Safe(s, Exit)
    ensures SameWoken(s, Next(s, Exit)) && Next(s, Exit).semas == s.semas
  {
    assert s.ready != [] ==> s.ready[0] in s.ready;
  }

  lemma IdleBlockWoken(s: State)
    requires Queues(s) && Live(s) && Enabled(s, IdleBlock) && Safe(s, IdleBlock)
    ensures SameWoken(s, Next(s, IdleBlock)) && Next(s, IdleBlock).semas == s.semas
  {
    BlockWoken(s);
  }

  lemma AcquireWoken(s: State, l: LockId)
    requires Enabled(s, Acquire(l)) && Safe(s, Acquire(l))
    ensures SameWoken(s, Next(s, Acquire(l))) && Next(s, Acquire(l)).semas == s.semas
  {
    hide Donate;
    if !s.mlfqs && s.holder[l].Some? {
      var c, h := s.current, s.holder[l].value;
      var s1 := SetPc(s, c, Down(OfLock(l), false));
      var ts := s1.threads[c := s1.threads[c].(waiting := Some(l))];
      var ts' := ts[h := ts[h].(donations := ts[h].donations + [c])];
      assert SameWoken(s, s1.(threads := ts'));
      DonateFrame(s1.(threads := ts'), c, DONATION_DEPTH);
      assert SameWoken(s1.(threads := ts'), Next(s, Acquire(l)));
    }
  }

  lemma RecordWoken(s: State, a: Action)
    requires Enabled(s, a) && Safe(s, a)
    requires a.Create? || a.SetPriority? || a.SetNice? || a.BeginDown? || a.ClearWaiting? || a.SetHolder?
          || a.Release? || a.IdleStart?
    ensures SameWoken(s, Next(s, a)) && Next(s, a).semas == s.semas
  {
    hide InsertOrdered;
    hide Effective;
    hide DropDonors;
    hide TimerInterrupt;
    hide Yield;
    hide Block;
    hide Dispatch;
    hide CanYield;
    hide CanBlock;
    hide CanDispatch;
    hide Up;
    hide Donate;
  }

  lemma TakingWoken(s: State, a: Action)
    requires NoLostWakeup(s) && Balanced(s) && Enabled(s, a) && Safe(s, a)
    requires a.TryDown? || a.TryAcquire? || (a.TestDown? && s.semas[s.threads[s.current].pc.sema].value > 0)
    ensures NoLostWakeup(Next(s, a)) && Balanced(Next(s, a))
  {
    var id := if a.TryDown? then a.id else if a.TryAcquire? then OfLock(a.lock) else s.threads[s.current].pc.sema;
    if s.semas[id].value > 0 {
      hide NoLostWakeup;
      hide Balanced;
      hide Block;
      TakeWoken(s, Next(s, a), id);
    }
  }

  lemma UppingWoken(s: State, a: Action)
    requires Queues(s) && NoLostWakeup(s) && Balanced(s) && Enabled(s, a) && Safe(s, a)
    requires a.IntrUp? || a.SemaUp? || a.GiveUp?
    ensures NoLostWakeup(Next(s, a)) && Balanced(Next(s, a))
  {
    hide Up;
    hide Queues;
    hide NoLostWakeup;
    hide Balanced;
    var id := if a.GiveUp? then OfLock(s.threads[s.current].pc.lock) else a.id;
    UpFrame(s, id);
    UpWoken(s, id);
    assert SameWoken(Up(s, id), Next(s, a));
    NoLostFrame(Up(s, id), Next(s, a));
  }

  /** Whatever runs next, no count and no wake-up is lost. */
  lemma StepKeepsWakeups(s: State, a: Action)
    requires Inv(s) && NoLostWakeup(s) && Balanced(s) && Enabled(s, a)
    ensures Safe(s, a) && NoLostWakeup(Next(s, a)) && Balanced(Next(s, a))
  {
    SyncBase(s);
    StepKeepsInv(s, a);
    hide Queues;
    hide Live;
    hide Sync;
    hide NoLostWakeup;
    hide Balanced;
    hide SameWoken;
    if a.IntrUp? || a.SemaUp? || a.GiveUp? {
      UppingWoken(s, a);
    } else if a.TryDown? || a.TryAcquire? {
      TakingWoken(s, a);
    } else if a.TestDown? {
      var id := s.threads[s.current].pc.sema;
      if s.semas[id].value > 0 { TakingWoken(s, a); } else { WaitWoken(s, id); }
    } else {
      OtherWoken(s, a);
      NoLostFrame(s, Next(s, a));
    }
  }

  lemma OtherWoken(s: State, a: Action)
    requires Queues(s) && Live(s) && Enabled(s, a) && Safe(s, a)
    requires !a.IntrUp? && !a.SemaUp? && !a.GiveUp? && !a.TryDown? && !a.TryAcquire? && !a.TestDown?
    ensures SameWoken(s, Next(s, a)) && Next(s, a).semas == s.semas
  {
    hide Queues;
    hide Live;
    hide SameWoken;
    match a
    case Tick => TickWoken(s);
    case Sleep(w) => SleepWoken(s, w);
    case Exit => ExitWoken(s);
    case IdleBlock => IdleBlockWoken(s);
    case Acquire(l) => AcquireWoken(s, l);
    case CreateTest => SwitchWoken(s, a);
    case PreemptTest => SwitchWoken(s, a);
    case YieldCpu => SwitchWoken(s, a);
    case _ => RecordWoken(s, a);
  }
}
