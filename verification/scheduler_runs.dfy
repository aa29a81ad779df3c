/** Whole runs of the scheduler: what holds in every reachable state. */
module SchedulerRuns {
  import opened Collections
  import opened Ordering
  import opened Scheduler
  import opened SchedulerQueues
  import opened SchedulerSync
  import opened SchedulerDonation
  import opened SchedulerWakeups
  import opened SchedulerAlarm
  import opened SchedulerMlfqs
  import Mlfqs

  const PRI_DEFAULT := 31

  /** The state thread_start leaves: main runs, idle is ready but has not registered itself,
      nobody waits and every lock is free. */
  ghost predicate Init(s: State, main: Tid) {
    && main != s.idle
    && s.threads == map[main := NewThread(PRI_DEFAULT).(status := Running),
                        s.idle := NewThread(Mlfqs.PRI_MIN).(status := Ready)]
    && s.current == main && s.ready == [s.idle] && s.sleep == [] && !s.idleUp
    && s.ticks == 0 && s.slice == 0 && s.loadAvg == 0
    && (forall id | id in s.semas :: s.semas[id] == Sema(s.semas[id].value, [], s.semas[id].value, 0, 0))
    && (forall l | l in s.holder :: s.holder[l] == None && OfLock(l) in s.semas && s.semas[OfLock(l)].value == 1)
    && (forall l :: OfLock(l) in s.semas ==> l in s.holder)
    && s.owner == s.holder
  }

  /** States `ss` linked by the steps `acts`, the first one initial. */
  ghost predicate IsRun(ss: seq<State>, acts: seq<Action>) {
    && |ss| == |acts| + 1
    && (exists main :: Init(ss[0], main))
    && forall i | 0 <= i < |acts| :: Step(ss[i], acts[i], ss[i + 1])
  }

  ghost predicate Step(s: State, a: Action, s': State) {
    Enabled(s, a) && Safe(s, a) && s' == Next(s, a)
  }

  lemma InitHolds(s: State, main: Tid)
    requires Init(s, main)
    ensures Inv(s) && Covered(s) && NoLostWakeup(s) && Balanced(s) && Bounded(s, 0)
  {
    InitQueues(s, main);
    InitSync(s, main);
    hide Queues;
    hide Sync;
    assert forall id | id in s.semas :: s.semas[id].waiters == [];
  }

  lemma InitQueues(s: State, main: Tid)
    requires Init(s, main)
    ensures Queues(s) && Live(s)
  {
    assert s.idle in [s.idle];
  }

  lemma InitSync(s: State, main: Tid)
    requires Init(s, main)
    ensures Sync(s)
  {
  }

  /** Every reachable state has exact sorted lists, exclusive locks, true donation lists,
      balanced counts and no lost wake-up; and no enabled step ever meets a failing assertion. */
  lemma {:induction false} RunInvariant(ss: seq<State>, acts: seq<Action>, i: nat)
    requires IsRun(ss, acts) && i < |ss|
    ensures Inv(ss[i]) && NoLostWakeup(ss[i]) && Balanced(ss[i])
    ensures forall a | Enabled(ss[i], a) :: Safe(ss[i], a)
  {
    hide Enabled;
    hide Safe;
    hide Next;
    hide Inv;
    hide NoLostWakeup;
    hide Balanced;
    if i == 0 {
      var main :| Init(ss[0], main);
      InitHolds(ss[0], main);
    } else {
      RunInvariant(ss, acts, i - 1);
      assert Step(ss[i - 1], acts[i - 1], ss[i - 1 + 1]);
      StepKeepsInv(ss[i - 1], acts[i - 1]);
      StepKeepsWakeups(ss[i - 1], acts[i - 1]);
    }
    forall a | Enabled(ss[i], a) ensures Safe(ss[i], a) {
      StepKeepsInv(ss[i], a);
    }
  }

  // ---------------------------------------------------------------- what that means

  /** The highest-priority ready thread is never above the running one. */
  ghost predicate RunsHighest(s: State) {
    forall t | t in s.ready :: Pri(s.threads, t) <= Pri(s.threads, s.current)
  }

  lemma DispatchHighest(s: State)
    requires Queues(s) && CanDispatch(s)
    ensures RunsHighest(Dispatch(s))
  {
    forall t | t in Dispatch(s).ready ensures Pri(Dispatch(s).threads, t) <= Pri(Dispatch(s).threads, Dispatch(s).current) {
      var i :| 1 <= i < |s.ready| && s.ready[i] == t;
      assert Pri(s.threads, s.ready[0]) >= Pri(s.threads, s.ready[i]);
    }
  }

  lemma YieldHighest(s: State)
    requires Queues(s) && Live(s) && CanYield(s)
    ensures RunsHighest(Yield(s))
  {
    RequeueKeeps(s);
    DispatchHighest(Requeue(s));
  }

  lemma NotOutranked(s: State)
    requires Queues(s) && Live(s) && !FrontOutranks(s)
    ensures RunsHighest(s)
  {
    forall t | t in s.ready ensures Pri(s.threads, t) <= Pri(s.threads, s.current) {
      var i :| 0 <= i < |s.ready| && s.ready[i] == t;
      assert i > 0 ==> Pri(s.threads, s.ready[0]) >= Pri(s.threads, s.ready[i]);
    }
  }

  lemma BlockHighest(s: State)
    requires CanBlock(s) && ReadySorted(s) && s.current !in s.ready
    requires forall t | t in s.ready :: t in s.threads
    ensures RunsHighest(Block(s))
  {
    var r := Block(s);
    forall t | t in r.ready ensures Pri(r.threads, t) <= Pri(r.threads, r.current) {
      var i :| 1 <= i < |s.ready| && s.ready[i] == t;
      assert Pri(s.threads, s.ready[0]) >= Pri(s.threads, s.ready[i]);
    }
  }

  /** A tick that ends the time slice hands the processor to a highest-priority thread. */
  lemma ExpiryRunsHighest(s: State)
    requires Inv(s) && Enabled(s, Tick)
    ensures Safe(s, Tick) && (TickExpires(s) ==> RunsHighest(Next(s, Tick)))
  {
    SyncBase(s);
    StepKeepsInv(s, Tick);
    hide Queues;
    hide Sync;
    hide TimerInterrupt;
    hide CanYield;
    hide Yield;
    if TickExpires(s) {
      TickKeeps(s);
      YieldHighest(TimerInterrupt(s));
    }
  }

  /** After a yield, a preemption test, a block or an exit, the running thread's priority is at
      least that of every ready thread. */
  lemma SwitchesRunHighest(s: State, a: Action)
    requires Inv(s) && Enabled(s, a)
    requires a.YieldCpu? || a.PreemptTest? || a.Exit? || a.Sleep? || a.IdleBlock?
          || (a.TestDown? && s.semas[s.threads[s.current].pc.sema].value == 0)
    ensures Safe(s, a) && RunsHighest(Next(s, a))
  {
    StepKeepsInv(s, a);
    if a.YieldCpu? || a.PreemptTest? {
      PreemptionHighest(s, a);
    } else if a.Exit? {
      ExitHighest(s);
    } else {
      BlockingHighest(s, a);
    }
  }

  lemma PreemptionHighest(s: State, a: Action)
    requires Queues(s) && Live(s) && Enabled(s, a) && Safe(s, a) && (a.YieldCpu? || a.PreemptTest?)
    ensures RunsHighest(Next(s, a))
  {
    hide Queues;
    hide Live;
    hide Yield;
    hide CanYield;
    TestedKeeps(s);
    if a.YieldCpu? {
      YieldHighest(s);
    } else if FrontOutranks(s) {
      YieldHighest(SetPc(s, s.current, Free));
    } else {
      NotOutranked(s);
      assert RunsHighest(SetPc(s, s.current, Free));
    }
  }

  lemma ExitHighest(s: State)
    requires Queues(s) && Live(s) && Enabled(s, Exit) && Safe(s, Exit)
    ensures RunsHighest(Next(s, Exit))
  {
    hide Next;
    hide Safe;
    hide Enabled;
    LeaveIs(s, Exit);
    var r := Next(s, Exit);
    forall t | t in r.ready ensures Pri(r.threads, t) <= Pri(r.threads, r.current) {
      var i :| 1 <= i < |s.ready| && s.ready[i] == t;
      assert s.ready[0] in s.ready && s.ready[i] in s.ready;
      assert Pri(s.threads, s.ready[0]) >= Pri(s.threads, s.ready[i]);
    }
  }

  lemma BlockingHighest(s: State, a: Action)
    requires Queues(s) && Live(s) && Enabled(s, a) && Safe(s, a)
    requires a.Sleep? || a.IdleBlock? || (a.TestDown? && s.semas[s.threads[s.current].pc.sema].value == 0)
    ensures RunsHighest(Next(s, a))
  {
    hide InsertOrdered;
    hide Next;
    hide Safe;
    hide Enabled;
    if a.TestDown? {
      TestDownIs(s);
      ParkHighest(s, StartWait(s, s.threads[s.current].pc.sema));
    } else {
      LeaveIs(s, a);
      ParkHighest(s, if a.Sleep? then StartSleep(s, a.wake) else s);
    }
  }

  lemma ParkHighest(s: State, s1: State)
    requires Queues(s) && Live(s) && CanBlock(s1) && s1.ready == s.ready && s1.current == s.current
    requires s1.threads.Keys == s.threads.Keys && forall t :: Pri(s1.threads, t) == Pri(s.threads, t)
    ensures RunsHighest(Block(s1))
  {
    assert ReadySorted(s1) && s1.current !in s1.ready && forall t | t in s1.ready :: t in s1.threads;
    hide *;
    BlockHighest(s1);
  }

  /** The lists of every reachable state: ready in descending priority, every member of a list in
      the state that list stands for, no thread on two lists, and idle, once registered, on none. */
  lemma RunLists(ss: seq<State>, acts: seq<Action>, n: nat, t: Tid, id: SemaId)
    requires IsRun(ss, acts) && n < |ss| && id in ss[n].semas
    ensures var s := ss[n];
            && (forall i, j | 0 <= i < j < |s.ready| :: Pri(s.threads, s.ready[i]) >= Pri(s.threads, s.ready[j]))
            && (t in s.ready <==> t in s.threads && s.threads[t].status == Ready && !IsIdle(s, t))
            && (t in s.sleep ==> t in s.threads && s.threads[t].status == Blocked)
            && (t in s.semas[id].waiters ==> t in s.threads && s.threads[t].status == Blocked)
            && (t in s.ready ==> t !in s.sleep && t !in s.semas[id].waiters)
            && (t in s.sleep ==> t !in s.semas[id].waiters)
            && (IsIdle(s, t) ==> t !in s.ready && t !in s.sleep && t !in s.semas[id].waiters)
  {
    hide IsRun;
    RunInvariant(ss, acts, n);
    OneList(ss[n], t, id);
    ListStates(ss[n], t, id);
    hide Inv;
  }

  /** Whoever thread_unblock is handed from a wait or sleep list is blocked, as it asserts. */
  lemma ListStates(s: State, t: Tid, id: SemaId)
    requires Queues(s) && id in s.semas
    ensures forall i, j | 0 <= i < j < |s.ready| :: Pri(s.threads, s.ready[i]) >= Pri(s.threads, s.ready[j])
    ensures t in s.ready <==> t in s.threads && s.threads[t].status == Ready && !IsIdle(s, t)
    ensures t in s.sleep ==> t in s.threads && s.threads[t].status == Blocked
    ensures t in s.semas[id].waiters ==> t in s.threads && s.threads[t].status == Blocked
  {
    assert t in s.semas[id].waiters <==> WaitsAt(s, t, id);
  }

  /** At most one thread is between acquiring and releasing a lock. */
  lemma RunExclusion(ss: seq<State>, acts: seq<Action>, i: nat, l: LockId, t: Tid, u: Tid)
    requires IsRun(ss, acts) && i < |ss| && Owns(ss[i], t, l) && Owns(ss[i], u, l)
    ensures t == u
  {
    RunInvariant(ss, acts, i);
    Exclusion(ss[i], l, t, u);
  }

  lemma Exclusion(s: State, l: LockId, t: Tid, u: Tid)
    requires Sync(s) && Owns(s, t, l) && Owns(s, u, l)
    ensures t == u
  {
    assert LockOK(s, l);
  }

  // ---------------------------------------------------------------- donation over runs

  /** In the first `n` steps of a run, no acquisition meets a chain that is too deep. */
  ghost predicate ChainsFit(ss: seq<State>, acts: seq<Action>, n: nat)
    requires IsRun(ss, acts) && n <= |acts|
  {
    forall i | 0 <= i < n :: FitsAt(ss[i], acts[i])
  }

  predicate FitsAt(s: State, a: Action) {
    a.Acquire? && Enabled(s, a) ==> DonationFits(s, a.lock)
  }

  /** Priorities cover their donors throughout a run exactly when every donation reached far
      enough. */
  lemma {:induction false} RunCoveredIff(ss: seq<State>, acts: seq<Action>, n: nat)
    requires IsRun(ss, acts) && n < |ss|
    ensures (forall i | 0 <= i <= n :: Covered(ss[i])) <==> ChainsFit(ss, acts, n)
  {
    hide Enabled;
    hide Safe;
    hide Next;
    hide Inv;
    hide Covered;
    hide NoLostWakeup;
    hide Balanced;
    hide DonationFits;
    if n == 0 {
      var main :| Init(ss[0], main);
      InitHolds(ss[0], main);
    } else {
      RunCoveredIff(ss, acts, n - 1);
      RunInvariant(ss, acts, n - 1);
      var s, a := ss[n - 1], acts[n - 1];
      assert Step(s, a, ss[n - 1 + 1]);
      if Covered(s) {
        CoveredStep(s, a);
      }
    }
  }

  lemma CoveredStep(s: State, a: Action)
    requires Inv(s) && Covered(s) && Enabled(s, a) && Safe(s, a)
    ensures Covered(Next(s, a)) <==> FitsAt(s, a)
  {
    hide Inv;
    hide Covered;
    hide DonationFits;
    hide Next;
    if a.Acquire? {
      AcquireCoversIff(s, a.lock);
    } else {
      OtherStepsCover(s, a);
    }
  }

  /** Following waits from `t` meets at most `n` holders before it ends. */
  predicate ChainEnds(s: State, t: Tid, n: nat)
    decreases n
  {
    match Blocker(s, t)
    case None => true
    case Some(h) => n > 0 && ChainEnds(s, h, n - 1)
  }

  lemma {:induction false} EndingChainFits(s: State, t: Tid, p: int, raised: set<Tid>, n: nat)
    requires ChainEnds(s, t, n)
    ensures ChainFits(s, t, p, raised, n)
    decreases n
  {
    if Blocker(s, t).Some? {
      EndingChainFits(s, Blocker(s, t).value, p, raised + {Blocker(s, t).value}, n - 1);
    }
  }

  /** A chain of waits without a cycle and with at most eight holders is never too deep. */
  lemma EightHoldersFit(s: State, l: LockId)
    requires s.current in s.threads && l in s.holder
    requires s.holder[l].Some? ==> ChainEnds(s, s.holder[l].value, DONATION_DEPTH - 1)
    ensures DonationFits(s, l)
  {
    if s.holder[l].Some? {
      var h := s.holder[l].value;
      EndingChainFits(s, h, Pri(s.threads, s.current), {h}, DONATION_DEPTH - 1);
    }
  }

  // ---------------------------------------------------------------- the alarm clock over runs

  function Max(a: int, b: int): (m: int) {
    if a > b then a else b
  }

  /** Time never runs backwards or jumps. */
  lemma StepTicks(s: State, a: Action)
    requires Inv(s) && Enabled(s, a)
    ensures Safe(s, a) && Next(s, a).ticks == if a.Tick? then s.ticks + 1 else s.ticks
  {
    hide Queues;
    hide Live;
    hide Sync;
    StepKeepsInv(s, a);
    if a.Tick? {
      TickTicks(s);
    } else if a.Create? || a.IdleStart? || a.SetNice? {
      hide TimerInterrupt;
      hide InsertOrdered;
    } else {
      hide Next;
      OtherAccounts(s, a);
    }
  }

  lemma TickTicks(s: State)
    requires Enabled(s, Tick) && Safe(s, Tick)
    ensures Next(s, Tick).ticks == s.ticks + 1
  {
    hide Wake;
    hide Yield;
    hide CanYield;
    hide StableSort;
    var s1 := s.(ticks := s.ticks + 1);
    var s2 := if s.mlfqs then MlfqsTick(s1) else s1;
    assert forall t | t in s2.sleep :: t in s2.threads by {
      if s.mlfqs { TickSleepers(s1); }
    }
    assert s2.ticks == s1.ticks;
    hide MlfqsTick;
    WakeAccounts(s2.(slice := s2.slice + 1));
    if TickExpires(s) {
      YieldAccounts(TimerInterrupt(s));
    }
  }

  /** Until the clock reaches max(w, c + 1), a thread that went to sleep at tick c with wake-up
      time w stays on the sleep list. */
  lemma {:induction false} SleepsUntil(ss: seq<State>, acts: seq<Action>, i: nat, j: nat)
    requires IsRun(ss, acts) && i < |acts| && acts[i].Sleep? && i < j < |ss|
    requires ss[j].ticks < Max(acts[i].wake, ss[i].ticks + 1)
    ensures var t := ss[i].current;
            t in ss[j].sleep && t in ss[j].threads && ss[j].threads[t].wakeTick == acts[i].wake
    ensures ss[i].ticks <= ss[j].ticks
    decreases j
  {
    hide Enabled;
    hide Safe;
    hide Next;
    hide Inv;
    hide NoLostWakeup;
    hide Balanced;
    var s, a := ss[j - 1], acts[j - 1];
    RunInvariant(ss, acts, j - 1);
    assert Step(s, a, ss[j - 1 + 1]);
    if j == i + 1 {
      SleepEnters(s, a.wake);
    } else {
      StepTicks(s, a);
      SleepsUntil(ss, acts, i, j - 1);
      if a.Tick? {
        TickOnSleeper(s, ss[i].current);
      } else {
        OthersLeaveAsleep(s, ss[i].current, a);
      }
    }
  }

  /** The tick that makes the clock max(w, c + 1) puts the sleeper on the ready list. */
  lemma WakesOnTime(ss: seq<State>, acts: seq<Action>, i: nat, k: nat)
    requires IsRun(ss, acts) && i < |acts| && acts[i].Sleep? && i < k < |acts|
    requires acts[k].Tick? && ss[k].ticks + 1 == Max(acts[i].wake, ss[i].ticks + 1)
    ensures Enabled(ss[k], Tick) && Safe(ss[k], Tick)
    ensures ss[i].current in ss[k].sleep
    ensures ss[i].current in TimerInterrupt(ss[k]).ready && ss[i].current !in ss[k + 1].sleep
  {
    hide Enabled;
    hide Next;
    hide Inv;
    hide NoLostWakeup;
    hide Balanced;
    hide TimerInterrupt;
    RunInvariant(ss, acts, k);
    assert Step(ss[k], acts[k], ss[k + 1]);
    SleepsUntil(ss, acts, i, k);
    TickOnSleeper(ss[k], ss[i].current);
  }

  // ---------------------------------------------------------------- MLFQS over runs

  /** Every once-a-second update sees at most `bound` ready threads, and nice stays in range. */
  ghost predicate LoadAtMost(ss: seq<State>, acts: seq<Action>, n: nat, bound: nat)
    requires |ss| == |acts| + 1 && n <= |acts|
  {
    forall i | 0 <= i < n :: StepAtMost(ss[i], acts[i], bound)
  }

  predicate StepAtMost(s: State, a: Action, bound: nat) {
    && (Updates(s, a) ==> |Runnable(s)| <= bound)
    && (a.SetNice? ==> NiceOK(a.nice))
  }

  predicate Updates(s: State, a: Action) {
    a.Tick? && (s.ticks + 1) % TIMER_FREQ == 0
  }

  /** How many threads were ready or running, idle apart, at the updates among the first `n` steps. */
  function Counts(ss: seq<State>, acts: seq<Action>, n: nat): (counts: seq<nat>)
    requires |ss| == |acts| + 1 && n <= |acts|
  {
    if n == 0 then []
    else Counts(ss, acts, n - 1) + if Updates(ss[n - 1], acts[n - 1]) then [|Runnable(ss[n - 1])|] else []
  }

  lemma BoundedMore(s: State, b: nat, bound: nat)
    requires Bounded(s, b) && b <= bound
    ensures Bounded(s, bound)
  {
    forall t | t in s.threads ensures ThreadBounded(s, t, bound) {
      assert ThreadBounded(s, t, b);
    }
  }

  lemma CountMore(counts: seq<nat>, x: nat, bound: nat)
    requires Mlfqs.AtMost(counts, bound) && x <= bound
    ensures Mlfqs.AtMost(counts + [x], bound)
    ensures Mlfqs.LoadAvg(counts + [x]) == Mlfqs.NextLoadAvg(Mlfqs.LoadAvg(counts), x)
  {
    hide Mlfqs.NextLoadAvg;
    assert (counts + [x])[..|counts|] == counts;
  }

  /** Over runs of any length the load average is the one the counts determine, and it and
      every recent_cpu stay within their limits. */
  lemma {:induction false} RunBounded(ss: seq<State>, acts: seq<Action>, n: nat, bound: nat)
    requires IsRun(ss, acts) && n < |ss| && ss[0].mlfqs && LoadAtMost(ss, acts, n, bound)
    ensures ss[n].mlfqs && Bounded(ss[n], bound)
    ensures ss[n].loadAvg == Mlfqs.LoadAvg(Counts(ss, acts, n))
    ensures Mlfqs.AtMost(Counts(ss, acts, n), bound)
  {
    hide Enabled;
    hide Safe;
    hide Next;
    hide Inv;
    hide Bounded;
    hide NoLostWakeup;
    hide Balanced;
    hide Runnable;
    hide Mlfqs.NextLoadAvg;
    if n == 0 {
      var main :| Init(ss[0], main);
      InitHolds(ss[0], main);
      BoundedMore(ss[0], 0, bound);
    } else {
      hide Init;
      hide Mlfqs.LoadAvg;
      hide Mlfqs.AtMost;
      RunBounded(ss, acts, n - 1, bound);
      RunInvariant(ss, acts, n - 1);
      var s, a := ss[n - 1], acts[n - 1];
      assert StepAtMost(s, a, bound);
      assert Step(s, a, ss[n - 1 + 1]);
      ModeConstant(s, a);
      StepKeepsBounded(s, a, bound);
      StepLoadAvg(s, a);
      if Updates(s, a) {
        CountMore(Counts(ss, acts, n - 1), |Runnable(s)|, bound);
      } else {
        assert Counts(ss, acts, n) == Counts(ss, acts, n - 1);
      }
    }
  }

  /** The limits spelled out: the load average in [0, R], never above the exact average and
      less than 60 * (R + 1) units below it, and recent_cpu within 120 * (2R + 1). */
  lemma RunLimits(ss: seq<State>, acts: seq<Action>, n: nat, bound: nat, t: Tid)
    requires IsRun(ss, acts) && n < |ss| && ss[0].mlfqs && LoadAtMost(ss, acts, n, bound) && t in ss[n].threads
    ensures 0 <= ss[n].loadAvg <= bound * Mlfqs.ONE
    ensures ss[n].loadAvg as real <= Mlfqs.ExactLoadAvg(Counts(ss, acts, n))
    ensures Mlfqs.ExactLoadAvg(Counts(ss, acts, n)) < ss[n].loadAvg as real + 60.0 * (bound + 1) as real
    ensures -(120 * (2 * bound + 1)) * Mlfqs.ONE <= ss[n].threads[t].recentCpu <= 120 * (2 * bound + 1) * Mlfqs.ONE
  {
    hide Enabled;
    hide Safe;
    hide Next;
    RunBounded(ss, acts, n, bound);
    Mlfqs.LoadAvgLag(Counts(ss, acts, n), bound);
    assert ThreadBounded(ss[n], t, bound);
  }

  /** What the two system calls report in every state of every run: 100 times the load average
      rounded, as long as an update sees at most 1310 ready threads; and 100 times the recent_cpu
      of a thread rounded, exactly while it is within REPORT_MAX, which four ready threads
      guarantee. */
  lemma RunReports(ss: seq<State>, acts: seq<Action>, n: nat, bound: nat, t: Tid)
    requires IsRun(ss, acts) && n < |ss| && ss[0].mlfqs && LoadAtMost(ss, acts, n, bound) && t in ss[n].threads
    ensures bound <= 1310 ==> Mlfqs.Reported(ss[n].loadAvg) == Mlfqs.ToNearest(ss[n].loadAvg * 100)
    ensures var r := ss[n].threads[t].recentCpu;
            && (bound <= 4 ==> -Mlfqs.REPORT_MAX <= r <= Mlfqs.REPORT_MAX)
            && (Mlfqs.Reported(r) == Mlfqs.ToNearest(r * 100) <==> -Mlfqs.REPORT_MAX <= r <= Mlfqs.REPORT_MAX)
  {
    hide Enabled;
    hide Safe;
    hide Next;
    hide Mlfqs.Reported;
    RunBounded(ss, acts, n, bound);
    Mlfqs.LoadAvgLag(Counts(ss, acts, n), bound);
    assert ThreadBounded(ss[n], t, bound);
    Mlfqs.ReportedIff(ss[n].loadAvg);
    Mlfqs.ReportedIff(ss[n].threads[t].recentCpu);
  }
}
