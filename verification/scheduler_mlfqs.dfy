/** The numeric limits of the multi-level feedback queue accounting, kept by every step. */
module SchedulerMlfqs {
  import opened Collections
  import opened Ordering
  import opened Scheduler
  import opened SchedulerQueues
  import opened SchedulerSync
  import opened SchedulerDonation
  import Mlfqs

  predicate NiceOK(n: int) {
    -Mlfqs.NICE_MAX <= n <= Mlfqs.NICE_MAX
  }

  /** How long ago `t`'s recent_cpu was last decayed; idle's never is once it has registered. */
  function SinceUpdate(s: State, t: Tid): (n: nat) {
    if IsIdle(s, t) then TIMER_FREQ else s.ticks % TIMER_FREQ
  }

  predicate ThreadBounded(s: State, t: Tid, bound: nat)
    requires t in s.threads
  {
    && NiceOK(s.threads[t].nice)
    && Mlfqs.RecentMin(bound) <= s.threads[t].recentCpu <= Mlfqs.RecentMax(bound, SinceUpdate(s, t))
  }

  /** The limits when no update has seen more than `bound` ready threads. */
  ghost predicate Bounded(s: State, bound: nat) {
    && 0 <= s.loadAvg <= bound * Mlfqs.ONE
    && forall t | t in s.threads :: ThreadBounded(s, t, bound)
  }

  /** Neither time nor any thread's accounting changes. */
  ghost predicate SameAccounts(s: State, s': State) {
    && s'.loadAvg == s.loadAvg && s'.ticks == s.ticks && s'.idle == s.idle && s'.idleUp == s.idleUp
    && forall t | t in s'.threads ::
         t in s.threads && s'.threads[t].nice == s.threads[t].nice && s'.threads[t].recentCpu == s.threads[t].recentCpu
  }

  lemma SameAccountsBounded(s: State, s': State, bound: nat)
    requires Bounded(s, bound) && SameAccounts(s, s')
    ensures Bounded(s', bound)
  {
    forall t | t in s'.threads ensures ThreadBounded(s', t, bound) {
      assert ThreadBounded(s, t, bound);
    }
  }

  // ---------------------------------------------------------------- the tick

  lemma {:induction false} WakeAccounts(s: State)
    requires forall t | t in s.sleep :: t in s.threads
    ensures SameAccounts(s, Wake(s))
    decreases |s.sleep|
  {
    if s.sleep != [] && WakeTick(s.threads, s.sleep[0]) <= s.ticks {
      hide InsertOrdered;
      var r := WakeFront(s);
      assert SameAccounts(s, r) && r.sleep == s.sleep[1..];
      assert forall t | t in r.sleep :: t in r.threads;
      WakeAccounts(r);
    }
  }

  lemma YieldAccounts(s: State)
    requires CanYield(s)
    ensures SameAccounts(s, Yield(s))
  {
    hide Yield;
    hide CanYield;
    YieldFrame(s);
  }

  /** After the charge every recent_cpu is within one more tick's limit. */
  lemma ChargedBounded(s: State, bound: nat)
    requires Bounded(s, bound) && s.current in s.threads
    ensures Charged(s).loadAvg == s.loadAvg
    ensures forall t | t in s.threads ::
              && t in Charged(s).threads && NiceOK(Charged(s).threads[t].nice)
              && Mlfqs.RecentMin(bound) <= Charged(s).threads[t].recentCpu
              && Charged(s).threads[t].recentCpu <=
                   Mlfqs.RecentMax(bound, if IsIdle(s, t) then TIMER_FREQ else SinceUpdate(s, t) + 1)
  {
    assert forall t | t in s.threads :: ThreadBounded(s, t, bound);
  }

  lemma AccountBounded(s: State, bound: nat)
    requires Bounded(s, bound) && s.current in s.threads
    requires (s.ticks + 1) % TIMER_FREQ == 0 ==> ReadyCount(s) <= bound
    ensures Bounded(Account(s.(ticks := s.ticks + 1)), bound)
    ensures Account(s.(ticks := s.ticks + 1)).ticks == s.ticks + 1
  {
    hide Mlfqs.NextLoadAvg;
    hide Mlfqs.NextRecentCpu;
    hide Mlfqs.RecentMax;
    hide Mlfqs.RecentMin;
    ChargedBounded(s, bound);
    if (s.ticks + 1) % TIMER_FREQ == 0 {
      SecondBounded(s, bound);
    } else {
      assert (s.ticks + 1) % TIMER_FREQ == s.ticks % TIMER_FREQ + 1;
    }
  }

  /** The tick on which a second is complete. */
  lemma SecondBounded(s: State, bound: nat)
    requires Bounded(s, bound) && s.current in s.threads
    requires (s.ticks + 1) % TIMER_FREQ == 0 && ReadyCount(s) <= bound
    ensures Bounded(Account(s.(ticks := s.ticks + 1)), bound)
    ensures Account(s.(ticks := s.ticks + 1)).ticks == s.ticks + 1
  {
    hide Mlfqs.NextLoadAvg;
    hide Mlfqs.RecentMax;
    hide Mlfqs.RecentMin;
    hide ReadyCount;
    hide UpdateRecentCpu;
    hide Account;
    ChargedBounded(s, bound);
    Mlfqs.NextLoadAvgRange(s.loadAvg, ReadyCount(s), bound);
    AccountSecond(s);
    var c := Charged(s).(ticks := s.ticks + 1, loadAvg := Mlfqs.NextLoadAvg(s.loadAvg, ReadyCount(s)));
    hide Charged;
    RecentFrame(c);
    forall t | t in c.threads ensures ThreadBounded(c.(threads := UpdateRecentCpu(c)), t, bound) {
      SecondThread(c, bound, t);
    }
  }

  lemma AccountSecond(s: State)
    requires s.current in s.threads && s.loadAvg >= 0 && (s.ticks + 1) % TIMER_FREQ == 0
    ensures var c := Charged(s).(ticks := s.ticks + 1, loadAvg := Mlfqs.NextLoadAvg(s.loadAvg, ReadyCount(s)));
            Account(s.(ticks := s.ticks + 1)) == c.(threads := UpdateRecentCpu(c))
  {
    hide Mlfqs.NextLoadAvg;
    hide UpdateRecentCpu;
    hide Charged;
    hide ReadyCount;
    ChargedLater(s, s.ticks + 1);
  }

  lemma ChargedLater(s: State, ticks: nat)
    requires s.current in s.threads
    ensures Charged(s.(ticks := ticks)) == Charged(s).(ticks := ticks) && Charged(s).loadAvg == s.loadAvg
    ensures ReadyCount(Charged(s).(ticks := ticks)) == ReadyCount(s)
  {
  }

  lemma SecondThread(c: State, bound: nat, t: Tid)
    requires 0 <= c.loadAvg <= bound * Mlfqs.ONE && c.ticks % TIMER_FREQ == 0
    requires t in c.threads && NiceOK(c.threads[t].nice)
    requires Mlfqs.RecentMin(bound) <= c.threads[t].recentCpu <= Mlfqs.RecentMax(bound, TIMER_FREQ)
    ensures t in UpdateRecentCpu(c) && ThreadBounded(c.(threads := UpdateRecentCpu(c)), t, bound)
  {
    hide Mlfqs.NextRecentCpu;
    hide Mlfqs.RecentMax;
    hide Mlfqs.RecentMin;
    if !IsIdle(c, t) {
      Mlfqs.NextRecentCpuRange(c.loadAvg, c.threads[t].recentCpu, c.threads[t].nice, bound);
    }
  }

  lemma MlfqsTickAccounts(s: State)
    requires s.current in s.threads && s.loadAvg >= 0 && Account(s).loadAvg >= 0
    ensures SameAccounts(Account(s), MlfqsTick(s))
  {
    hide Account;
    hide StableSort;
  }

  lemma SameAccountsChain(s: State, s': State, s'': State)
    requires SameAccounts(s, s') && SameAccounts(s', s'')
    ensures SameAccounts(s, s'')
  {
  }

  lemma SliceAccounts(s: State)
    ensures SameAccounts(s, s.(slice := s.slice + 1))
  {
  }

  /** After the accounting, the rest of a tick leaves the accounts alone. */
  lemma TickAccounts(s: State)
    requires Enabled(s, Tick) && Safe(s, Tick) && s.mlfqs
    ensures SameAccounts(Account(s.(ticks := s.ticks + 1)), Next(s, Tick))
  {
    hide *;
    TickUnfold(s);
    var s0 := s.(ticks := s.ticks + 1);
    MlfqsTickAccounts(s0);
    RestAccounts(Account(s0), MlfqsTick(s0));
  }

  /** The slice, the sleepers and the preemption. */
  lemma RestAccounts(a: State, m: State)
    requires SameAccounts(a, m) && forall t | t in m.sleep :: t in m.threads
    ensures var s1 := m.(slice := m.slice + 1);
            && SameAccounts(a, Wake(s1)) && (CanYield(Wake(s1)) ==> SameAccounts(a, Yield(Wake(s1))))
  {
    hide *;
    var s1 := m.(slice := m.slice + 1);
    SliceAccounts(m);
    SameAccountsChain(a, m, s1);
    WakeAccounts(s1);
    SameAccountsChain(a, s1, Wake(s1));
    if CanYield(Wake(s1)) {
      YieldAccounts(Wake(s1));
      SameAccountsChain(a, Wake(s1), Yield(Wake(s1)));
    }
  }

  lemma TickUnfold(s: State)
    requires Enabled(s, Tick) && Safe(s, Tick) && s.mlfqs
    ensures s.current in s.threads && s.loadAvg >= 0 && (forall t | t in s.sleep :: t in s.threads)
    ensures var s0 := s.(ticks := s.ticks + 1);
            var s1 := MlfqsTick(s0).(slice := MlfqsTick(s0).slice + 1);
            && (forall t | t in MlfqsTick(s0).sleep :: t in MlfqsTick(s0).threads)
            && Account(s0).loadAvg >= 0
            && (Next(s, Tick) == Wake(s1) || (CanYield(Wake(s1)) && Next(s, Tick) == Yield(Wake(s1))))
  {
    hide TimerInterrupt;
    hide Account;
    hide MlfqsTick;
    hide Wake;
    hide Yield;
    hide CanYield;
    AccountFrame(s.(ticks := s.ticks + 1));
    TickSleepers(s.(ticks := s.ticks + 1));
    InterruptUnfold(s);
  }

  lemma InterruptUnfold(s: State)
    requires s.current in s.threads && s.loadAvg >= 0 && s.mlfqs && forall t | t in s.sleep :: t in s.threads
    ensures var m := MlfqsTick(s.(ticks := s.ticks + 1));
            (forall t | t in m.sleep :: t in m.threads) && TimerInterrupt(s) == Wake(m.(slice := m.slice + 1))
  {
    hide MlfqsTick;
    hide Wake;
    TickSleepers(s.(ticks := s.ticks + 1));
  }

  lemma TickBounded(s: State, bound: nat)
    requires Inv(s) && s.mlfqs && Bounded(s, bound)
    requires (s.ticks + 1) % TIMER_FREQ == 0 ==> ReadyCount(s) <= bound
    ensures Enabled(s, Tick) && Safe(s, Tick) && Bounded(Next(s, Tick), bound)
  {
    SyncBase(s);
    StepKeepsInv(s, Tick);
    AccountBounded(s, bound);
    hide *;
    TickAccounts(s);
    SameAccountsBounded(Account(s.(ticks := s.ticks + 1)), Next(s, Tick), bound);
  }

  lemma TickSleepers(s: State)
    requires s.current in s.threads && s.loadAvg >= 0 && forall t | t in s.sleep :: t in s.threads
    ensures forall t | t in MlfqsTick(s).sleep :: t in MlfqsTick(s).threads
  {
    hide StableSort;
    hide Account;
    AccountFrame(s);
  }

  // ---------------------------------------------------------------- every other step

  lemma SwitchAccounts(s: State, a: Action)
    requires Enabled(s, a) && Safe(s, a)
    requires a.CreateTest? || a.PreemptTest? || a.YieldCpu? || a.Exit? || a.IdleBlock? || a.Sleep?
          || (a.TestDown? && s.semas[s.threads[s.current].pc.sema].value == 0)
    ensures SameAccounts(s, Next(s, a))
  {
    hide InsertOrdered;
    hide Yield;
    hide CanYield;
    hide Next;
    hide Safe;
    hide Enabled;
    if a.CreateTest? || a.PreemptTest? || a.YieldCpu? {
      SwitchIs(s, a);
      var s1 := if a.YieldCpu? then s else SetPc(s, s.current, Free);
      if CanYield(s1) {
        YieldAccounts(s1);
      }
    } else if a.TestDown? {
      TestDownIs(s);
    } else {
      LeaveIs(s, a);
    }
  }

  lemma AcquireAccounts(s: State, l: LockId)
    requires Enabled(s, Acquire(l)) && Safe(s, Acquire(l))
    ensures SameAccounts(s, Next(s, Acquire(l)))
  {
    hide Donate;
    if !s.mlfqs && s.holder[l].Some? {
      var c, h := s.current, s.holder[l].value;
      var s1 := SetPc(s, c, Down(OfLock(l), false));
      var ts := s1.threads[c := s1.threads[c].(waiting := Some(l))];
      var ts' := ts[h := ts[h].(donations := ts[h].donations + [c])];
      DonateFrame(s1.(threads := ts'), c, DONATION_DEPTH);
    }
  }

  lemma RecordAccounts(s: State, a: Action)
    requires Enabled(s, a) && Safe(s, a)
    requires a.SetPriority? || a.BeginDown? || a.TryDown? || a.ClearWaiting? || a.SetHolder? || a.TryAcquire? || a.Release?
          || (a.TestDown? && s.semas[s.threads[s.current].pc.sema].value > 0)
    ensures SameAccounts(s, Next(s, a))
  {
    hide InsertOrdered;
    hide Effective;
    hide DropDonors;
    hide Next;
    hide Safe;
    hide Enabled;
    match a
    case SetPriority(p) => SetPriorityIs(s, p);
    case BeginDown(id) => BeginDownIs(s, id);
    case TryDown(id) => TryIs(s, a);
    case TryAcquire(l) => TryIs(s, a);
    case ClearWaiting => TakenIs(s, a);
    case SetHolder => TakenIs(s, a);
    case Release(l) => ReleaseIs(s, l);
    case TestDown => TestDownIs(s);
  }

  lemma UpAccounts(s: State, a: Action)
    requires Enabled(s, a) && Safe(s, a) && (a.IntrUp? || a.SemaUp? || a.GiveUp?)
    ensures SameAccounts(s, Next(s, a))
  {
    hide Up;
    UpFrame(s, if a.GiveUp? then OfLock(s.threads[s.current].pc.lock) else a.id);
  }

  lemma ChangeBounded(s: State, a: Action, bound: nat)
    requires Inv(s) && Bounded(s, bound) && Enabled(s, a) && Safe(s, a)
    requires a.Create? || a.IdleStart? || (a.SetNice? && NiceOK(a.nice))
    ensures Bounded(Next(s, a), bound)
  {
    hide InsertOrdered;
    hide TimerInterrupt;
    hide Queues;
    hide Sync;
    var s' := Next(s, a);
    forall t | t in s'.threads ensures ThreadBounded(s', t, bound) {
      if t in s.threads {
        assert ThreadBounded(s, t, bound);
      }
    }
  }

  // ---------------------------------------------------------------- who counts

  /** The threads that are ready or run, idle apart. */
  function Runnable(s: State): (ts: set<Tid>) {
    set t | t in s.threads && (s.threads[t].status == Ready || s.threads[t].status == Running) && !IsIdle(s, t)
  }

  lemma {:induction false} DistinctSize<T>(q: seq<T>, ts: set<T>)
    requires Distinct(q) && forall x :: x in q <==> x in ts
    ensures |ts| == |q|
  {
    if q == [] {
      assert ts == {};
    } else {
      assert q == [q[0]] + q[1..] && q[0] !in q[1..];
      DistinctSize(q[1..], ts - {q[0]});
    }
  }

  function Waiting(s: State): (ts: set<Tid>) {
    set t | t in s.threads && s.threads[t].status == Ready && !IsIdle(s, t)
  }

  lemma WaitingSize(s: State)
    requires ReadyExact(s)
    ensures |Waiting(s)| == |s.ready|
  {
    forall t ensures t in s.ready <==> t in Waiting(s) {
      assert t in s.ready <==> t in s.threads && s.threads[t].status == Ready && !IsIdle(s, t);
    }
    DistinctSize(s.ready, Waiting(s));
  }

  /** The number update_load_avg computes from the length of the ready list. */
  lemma ReadyCountIs(s: State)
    requires Inv(s)
    ensures ReadyCount(s) == |Runnable(s)|
  {
    assert ReadyExact(s) && Live(s);
    hide Inv;
    WaitingSize(s);
    hide ReadyExact;
    if IsIdle(s, s.current) {
      assert Runnable(s) == Waiting(s);
    } else {
      assert Runnable(s) == Waiting(s) + {s.current} && s.current !in Waiting(s);
    }
  }

  /** Every step keeps the limits, provided once-a-second updates see at most `bound` ready
      threads and nice values stay in range. */
  lemma StepKeepsBounded(s: State, a: Action, bound: nat)
    requires Inv(s) && s.mlfqs && Bounded(s, bound) && Enabled(s, a)
    requires a.Tick? && (s.ticks + 1) % TIMER_FREQ == 0 ==> |Runnable(s)| <= bound
    requires a.SetNice? ==> NiceOK(a.nice)
    ensures Safe(s, a) && Bounded(Next(s, a), bound)
  {
    hide Queues;
    hide Live;
    hide Sync;
    hide Bounded;
    hide SameAccounts;
    StepKeepsInv(s, a);
    ReadyCountIs(s);
    if a.Tick? {
      TickBounded(s, bound);
    } else if a.Create? || a.IdleStart? || a.SetNice? {
      ChangeBounded(s, a, bound);
    } else {
      OtherAccounts(s, a);
      SameAccountsBounded(s, Next(s, a), bound);
    }
  }

  lemma OtherAccounts(s: State, a: Action)
    requires Enabled(s, a) && Safe(s, a) && !a.Tick? && !a.Create? && !a.IdleStart? && !a.SetNice?
    ensures SameAccounts(s, Next(s, a))
  {
    hide SameAccounts;
    if a.IntrUp? || a.SemaUp? || a.GiveUp? {
      UpAccounts(s, a);
    } else if a.Acquire? {
      AcquireAccounts(s, a.lock);
    } else if a.CreateTest? || a.PreemptTest? || a.YieldCpu? || a.Exit? || a.IdleBlock? || a.Sleep?
           || (a.TestDown? && s.semas[s.threads[s.current].pc.sema].value == 0) {
      SwitchAccounts(s, a);
    } else {
      RecordAccounts(s, a);
    }
  }

  /** The load average changes only in once-a-second ticks, and there as computed from the
      number of threads ready or running. */
  lemma StepLoadAvg(s: State, a: Action)
    requires Inv(s) && s.mlfqs && Enabled(s, a)
    ensures Safe(s, a)
    ensures Next(s, a).loadAvg ==
              if a.Tick? && (s.ticks + 1) % TIMER_FREQ == 0 then Mlfqs.NextLoadAvg(s.loadAvg, |Runnable(s)|)
              else s.loadAvg
  {
    hide Queues;
    hide Live;
    hide Sync;
    StepKeepsInv(s, a);
    ReadyCountIs(s);
    if a.Tick? {
      TickLoadAvg(s);
    } else if !a.Create? && !a.IdleStart? && !a.SetNice? {
      hide Next;
      OtherAccounts(s, a);
    }
  }

  lemma TickLoadAvg(s: State)
    requires Enabled(s, Tick) && Safe(s, Tick) && s.mlfqs
    ensures Next(s, Tick).loadAvg ==
              if (s.ticks + 1) % TIMER_FREQ == 0 then Mlfqs.NextLoadAvg(s.loadAvg, ReadyCount(s)) else s.loadAvg
  {
    hide Next;
    hide Safe;
    TickUnfold(s);
    TickAccounts(s);
    AccountLoadAvg(s.(ticks := s.ticks + 1));
  }

  lemma AccountLoadAvg(s: State)
    requires s.current in s.threads && s.loadAvg >= 0
    ensures Account(s).loadAvg == if s.ticks % TIMER_FREQ == 0 then Mlfqs.NextLoadAvg(s.loadAvg, ReadyCount(s)) else s.loadAvg
  {
    hide Mlfqs.NextLoadAvg;
    hide UpdateRecentCpu;
  }
}
