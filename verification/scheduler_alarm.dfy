/** The alarm clock: a sleeping thread becomes ready in exactly one tick. */
module SchedulerAlarm {
  import opened Collections
  import opened Ordering
  import opened Scheduler
  import opened SchedulerQueues
  import opened SchedulerSync
  import opened SchedulerDonation

  /** `t` sleeps in both states, with the same wake-up time and clock. */
  ghost predicate StillAsleep(s: State, s': State, t: Tid) {
    && t in s'.sleep && t in s.threads && t in s'.threads
    && s'.threads[t].wakeTick == s.threads[t].wakeTick
    && s'.ticks == s.ticks
  }

  // ---------------------------------------------------------------- the tick

  lemma {:induction false} WakeLeavesReady(s: State, t: Tid)
    requires Queues(s) && Live(s) && (forall u | u in s.sleep :: u in s.threads) && t in s.ready
    ensures t in Wake(s).ready
    decreases |s.sleep|
  {
    if s.sleep != [] && WakeTick(s.threads, s.sleep[0]) <= s.ticks {
      hide Queues;
      hide Live;
      hide Wake;
      WakeStep(s);
      WakeFrontKeeps(s);
      InsertOrderedMembers(Higher(s.threads[s.sleep[0] := s.threads[s.sleep[0]].(pc := Free)]), s.ready, s.sleep[0]);
      WakeLeavesReady(WakeFront(s), t);
    }
  }

  lemma FrontDue(s: State, t: Tid)
    requires Queues(s) && t in s.sleep
    ensures s.sleep[0] in s.threads && t in s.threads
    ensures WakeTick(s.threads, s.sleep[0]) <= WakeTick(s.threads, t)
  {
    var i :| 0 <= i < |s.sleep| && s.sleep[i] == t;
    assert s.sleep[0] in s.sleep;
    assert i > 0 ==> WakeTick(s.threads, s.sleep[0]) <= WakeTick(s.threads, s.sleep[i]);
  }

  /** thread_wake wakes the sleepers whose time has come and no others. */
  lemma {:induction false} WakeExact(s: State, t: Tid)
    requires Queues(s) && Live(s) && (forall u | u in s.sleep :: u in s.threads) && t in s.sleep
    ensures t in Wake(s).threads && Wake(s).threads[t].wakeTick == s.threads[t].wakeTick
    ensures Wake(s).ticks == s.ticks
    ensures t in Wake(s).sleep <==> s.threads[t].wakeTick > s.ticks
    ensures s.threads[t].wakeTick <= s.ticks ==> t in Wake(s).ready
    decreases |s.sleep|
  {
    FrontDue(s, t);
    if s.sleep != [] && WakeTick(s.threads, s.sleep[0]) <= s.ticks {
      var r := WakeFront(s);
      WakeStep(s);
      WakeFrontKeeps(s);
      FrontMoved(s, t);
      hide Wake;
      hide WakeFront;
      hide Queues;
      hide Live;
      if t == s.sleep[0] {
        WakeLeavesReady(r, t);
        WakeFrame(r, t);
        ReadyNotAsleep(Wake(r), t);
      } else {
        WakeExact(r, t);
      }
    }
  }

  lemma FrontMoved(s: State, t: Tid)
    requires t in s.sleep && t in s.threads && s.sleep[0] in s.threads
    ensures var r := WakeFront(s);
            && t in r.threads && r.threads[t].wakeTick == s.threads[t].wakeTick && r.ticks == s.ticks
            && (t != s.sleep[0] ==> t in r.sleep) && s.sleep[0] in r.ready && r.sleep == s.sleep[1..]
  {
    InsertOrderedMembers(Higher(s.threads[s.sleep[0] := s.threads[s.sleep[0]].(pc := Free)]), s.ready, s.sleep[0]);
  }

  lemma {:induction false} WakeFrame(s: State, t: Tid)
    requires Queues(s) && Live(s) && (forall u | u in s.sleep :: u in s.threads) && t in s.threads
    ensures t in Wake(s).threads && Wake(s).threads[t].wakeTick == s.threads[t].wakeTick
    ensures Wake(s).ticks == s.ticks && Queues(Wake(s))
    decreases |s.sleep|
  {
    hide Queues;
    hide Live;
    WakeKeeps(s);
    if s.sleep != [] && WakeTick(s.threads, s.sleep[0]) <= s.ticks {
      WakeStep(s);
      WakeFrontKeeps(s);
      hide Wake;
      WakeFrame(WakeFront(s), t);
    }
  }

  lemma ReadyNotAsleep(s: State, t: Tid)
    requires Queues(s) && t in s.ready
    ensures t !in s.sleep
  {
  }

  lemma AccountAsleep(s: State, t: Tid)
    requires s.current in s.threads && s.loadAvg >= 0 && t in s.sleep && t in s.threads
    ensures StillAsleep(s, MlfqsTick(s), t)
  {
    hide StableSort;
    assert StillAsleep(s, Account(s), t) && Account(s).loadAvg >= 0;
    hide Account;
  }

  /** The tick that reaches the wake-up time makes the sleeper ready; an earlier one leaves it. */
  lemma TickWakes(s: State, t: Tid)
    requires Queues(s) && Live(s) && s.loadAvg >= 0 && t in s.sleep
    requires forall u | u in s.sleep :: u in s.threads
    ensures var r := TimerInterrupt(s);
            && r.ticks == s.ticks + 1
            && t in r.threads && r.threads[t].wakeTick == s.threads[t].wakeTick
            && (t in r.sleep <==> s.threads[t].wakeTick > r.ticks)
            && (s.threads[t].wakeTick <= r.ticks ==> t in r.ready)
  {
    hide Queues;
    hide Wake;
    hide MlfqsTick;
    var s1 := s.(ticks := s.ticks + 1);
    SamePrioritiesKeep(s, s1);
    if s.mlfqs {
      MlfqsTickKeeps(s1);
      AccountAsleep(s1, t);
    }
    var s2 := if s.mlfqs then MlfqsTick(s1) else s1;
    var s3 := s2.(slice := s2.slice + 1);
    SamePrioritiesKeep(s2, s3);
    SleepersExist(s3);
    WakeExact(s3, t);
  }

  // ---------------------------------------------------------------- every other step

  lemma YieldAsleep(s: State, t: Tid)
    requires CanYield(s) && t in s.sleep && t in s.threads
    ensures StillAsleep(s, Yield(s), t)
  {
    hide Yield;
    hide CanYield;
    YieldFrame(s);
  }

  lemma SleeperNotCurrent(s: State, t: Tid)
    requires Inv(s) && t in s.sleep
    ensures t in s.threads && t != s.current && s.threads[t].status == Blocked
  {
  }

  lemma SleepAsleep(s: State, t: Tid, w: int)
    requires Enabled(s, Sleep(w)) && Safe(s, Sleep(w)) && t in s.threads && t in s.sleep && t != s.current
    ensures StillAsleep(s, Next(s, Sleep(w)), t)
  {
    hide InsertOrdered;
    InsertOrderedMembers(Earlier(StartSleep(s, w).threads), s.sleep, s.current);
  }

  lemma SwitchAsleep(s: State, t: Tid, a: Action)
    requires Enabled(s, a) && Safe(s, a) && t in s.threads && t in s.sleep && t != s.current
    requires a.CreateTest? || a.PreemptTest? || a.YieldCpu? || a.Exit? || a.IdleBlock?
          || (a.TestDown? && s.semas[s.threads[s.current].pc.sema].value == 0)
    ensures StillAsleep(s, Next(s, a), t)
  {
    hide InsertOrdered;
    hide Yield;
    hide CanYield;
    if a.CreateTest? || a.PreemptTest? || a.YieldCpu? {
      var s1 := if a.YieldCpu? then s else SetPc(s, s.current, Free);
      if Next(s, a) != s1 {
        YieldAsleep(s1, t);
      }
    }
  }

  lemma AcquireAsleep(s: State, t: Tid, l: LockId)
    requires Enabled(s, Acquire(l)) && Safe(s, Acquire(l)) && t in s.threads && t in s.sleep
    ensures StillAsleep(s, Next(s, Acquire(l)), t)
  {
    hide Donate;
    if !s.mlfqs && s.holder[l].Some? {
      var c, h := s.current, s.holder[l].value;
      var s1 := SetPc(s, c, Down(OfLock(l), false));
      var ts := s1.threads[c := s1.threads[c].(waiting := Some(l))];
      var ts' := ts[h := ts[h].(donations := ts[h].donations + [c])];
      DonateFrame(s1.(threads := ts'), c, DONATION_DEPTH);
    }
  }

  lemma RecordAsleep(s: State, t: Tid, a: Action)
    requires Enabled(s, a) && Safe(s, a) && t in s.threads && t in s.sleep
    requires !a.Tick? && !a.Sleep? && !a.Acquire? && !a.IntrUp? && !a.SemaUp? && !a.GiveUp?
    requires !a.CreateTest? && !a.PreemptTest? && !a.YieldCpu? && !a.Exit? && !a.IdleBlock?
    requires a.TestDown? ==> s.semas[s.threads[s.current].pc.sema].value > 0
    ensures StillAsleep(s, Next(s, a), t)
  {
    hide InsertOrdered;
    hide Effective;
    hide DropDonors;
    hide TimerInterrupt;
    hide Yield;
    hide Block;
    hide Dispatch;
    hide CanYield;
    hide CanBlock;
    hide CanDispatch;
    hide Up;
    hide Donate;
  }

  lemma UpAsleep(s: State, t: Tid, a: Action)
    requires Enabled(s, a) && Safe(s, a) && t in s.threads && t in s.sleep && (a.IntrUp? || a.SemaUp? || a.GiveUp?)
    ensures StillAsleep(s, Next(s, a), t)
  {
    hide Up;
    UpFrame(s, if a.GiveUp? then OfLock(s.threads[s.current].pc.lock) else a.id);
  }

  /** Nothing but a tick takes a thread off the sleep list. */
  lemma OthersLeaveAsleep(s: State, t: Tid, a: Action)
    requires Inv(s) && Enabled(s, a) && t in s.sleep && !a.Tick?
    ensures Safe(s, a) && StillAsleep(s, Next(s, a), t)
  {
    hide Queues;
    hide Live;
    hide Sync;
    StepKeepsInv(s, a);
    SleeperNotCurrent(s, t);
    if a.IntrUp? || a.SemaUp? || a.GiveUp? {
      UpAsleep(s, t, a);
    } else if a.CreateTest? || a.PreemptTest? || a.YieldCpu? || a.Exit? || a.IdleBlock?
           || (a.TestDown? && s.semas[s.threads[s.current].pc.sema].value == 0) {
      SwitchAsleep(s, t, a);
    } else if a.Sleep? {
      SleepAsleep(s, t, a.wake);
    } else if a.Acquire? {
      AcquireAsleep(s, t, a.lock);
    } else {
      RecordAsleep(s, t, a);
    }
  }

  /** One tick: the sleeper is ready inside the interrupt if its time has come, and otherwise
      still asleep after it. */
  lemma TickOnSleeper(s: State, t: Tid)
    requires Inv(s) && t in s.sleep
    ensures Enabled(s, Tick) && Safe(s, Tick) && t in s.threads
    ensures Next(s, Tick).ticks == s.ticks + 1
    ensures s.threads[t].wakeTick > s.ticks + 1 ==>
              t in Next(s, Tick).sleep && t in Next(s, Tick).threads
              && Next(s, Tick).threads[t].wakeTick == s.threads[t].wakeTick
    ensures s.threads[t].wakeTick <= s.ticks + 1 ==>
              t in TimerInterrupt(s).ready && t !in Next(s, Tick).sleep
  {
    SleeperNotCurrent(s, t);
    SyncBase(s);
    hide Queues;
    hide Sync;
    hide TimerInterrupt;
    hide CanYield;
    StepKeepsInv(s, Tick);
    hide Live;
    hide Yield;
    TickWakes(s, t);
    if TickExpires(s) {
      YieldSleep(TimerInterrupt(s), t);
    }
  }

  lemma YieldSleep(s: State, t: Tid)
    requires CanYield(s) && t in s.threads
    ensures Yield(s).sleep == s.sleep && Yield(s).ticks == s.ticks
    ensures t in Yield(s).threads && Yield(s).threads[t].wakeTick == s.threads[t].wakeTick
  {
    hide Yield;
    hide CanYield;
    YieldFrame(s);
  }

  /** Entering the sleep list. */
  lemma SleepEnters(s: State, w: int)
    requires Inv(s) && Enabled(s, Sleep(w))
    ensures Safe(s, Sleep(w))
    ensures var r := Next(s, Sleep(w));
            s.current in r.sleep && s.current in r.threads && r.threads[s.current].wakeTick == w && r.ticks == s.ticks
  {
    hide Queues;
    hide Sync;
    hide Live;
    hide InsertOrdered;
    StepKeepsInv(s, Sleep(w));
    InsertOrderedMembers(Earlier(StartSleep(s, w).threads), s.sleep, s.current);
  }
}
