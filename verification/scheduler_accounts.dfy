/** What a tick makes of every thread's recent_cpu and priority under MLFQS, exactly. */
module SchedulerAccounts {
  import opened Ordering
  import opened Scheduler
  import opened SchedulerQueues
  import opened SchedulerSync
  import opened SchedulerDonation
  import opened SchedulerMlfqs
  import SchedulerRuns
  import Mlfqs

  /** Threads differ at most in whether they run, and those of `q` in where they are. */
  ghost predicate OnlyRuns(ts: map<Tid, Thread>, ts': map<Tid, Thread>, q: seq<Tid>) {
    && ts'.Keys == ts.Keys
    && forall u | u in ts ::
         && ts'[u] == ts[u].(status := ts'[u].status, pc := ts'[u].pc)
         && (ts'[u].pc == ts[u].pc || u in q)
  }

  lemma {:induction false} WakeRuns(s: State)
    requires forall t | t in s.sleep :: t in s.threads
    ensures OnlyRuns(s.threads, Wake(s).threads, s.sleep)
    decreases |s.sleep|
  {
    if s.sleep != [] && WakeTick(s.threads, s.sleep[0]) <= s.ticks {
      hide InsertOrdered;
      var r := WakeFront(s);
      assert OnlyRuns(s.threads, r.threads, s.sleep) && r.sleep == s.sleep[1..];
      assert forall t | t in r.sleep :: t in r.threads;
      WakeRuns(r);
    }
  }

  /** After the accounting and the new priorities, the rest of a tick only wakes and switches. */
  lemma TickRuns(s: State)
    requires Enabled(s, Tick) && Safe(s, Tick) && s.mlfqs
    ensures OnlyRuns(MlfqsTick(s.(ticks := s.ticks + 1)).threads, Next(s, Tick).threads, s.sleep)
  {
    hide Next;
    hide Safe;
    hide Enabled;
    hide MlfqsTick;
    hide Wake;
    hide Yield;
    hide CanYield;
    TickUnfold(s);
    SleepStays(s.(ticks := s.ticks + 1));
    var m := MlfqsTick(s.(ticks := s.ticks + 1));
    var s1 := m.(slice := m.slice + 1);
    WakeRuns(s1);
    if Next(s, Tick) != Wake(s1) {
      YieldFrame(Wake(s1));
    }
  }

  lemma SleepStays(s: State)
    requires s.current in s.threads && s.loadAvg >= 0
    ensures MlfqsTick(s).sleep == s.sleep
  {
    hide Account;
    hide StableSort;
    AccountFrame(s);
  }

  /** A thread's recent_cpu with this tick's charge. */
  function ChargedCpu(s: State, t: Tid): (r: int)
    requires t in s.threads
  {
    s.threads[t].recentCpu + if t == s.current && !IsIdle(s, t) then Mlfqs.ONE else 0
  }

  predicate Decays(s: State) {
    (s.ticks + 1) % TIMER_FREQ == 0
  }

  predicate Reprioritizes(s: State) {
    (s.ticks + 1) % TIME_SLICE == 0
  }

  lemma AccountThread(s: State, t: Tid)
    requires s.current in s.threads && s.loadAvg >= 0 && t in s.threads
    ensures var r := Account(s.(ticks := s.ticks + 1));
            && t in r.threads && r.loadAvg >= 0
            && r.threads[t] == s.threads[t].(recentCpu :=
                 if Decays(s) && !IsIdle(s, t) then Mlfqs.NextRecentCpu(r.loadAvg, ChargedCpu(s, t), s.threads[t].nice)
                 else ChargedCpu(s, t))
  {
    hide Mlfqs.NextLoadAvg;
    hide Mlfqs.NextRecentCpu;
    hide ReadyCount;
    ChargedLater(s, s.ticks + 1);
    if Decays(s) {
      AccountSecond(s);
    }
  }

  lemma PriorityThread(s: State, t: Tid)
    requires s.current in s.threads && s.loadAvg >= 0 && t in s.threads
    requires t in Account(s).threads && IsIdle(Account(s), t) == IsIdle(s, t)
    ensures var a, r := Account(s).threads[t], MlfqsTick(s);
            && t in r.threads
            && r.threads[t] == a.(priority :=
                 if s.ticks % TIME_SLICE == 0 && !IsIdle(s, t) then Mlfqs.Priority(a.recentCpu, a.nice) else a.priority)
  {
    hide Account;
    hide StableSort;
    hide Mlfqs.Priority;
    assert s.ticks % TIMER_FREQ == 0 ==> s.ticks % TIME_SLICE == 0;
  }

  /** A tick charges the running thread, decays everyone's recent_cpu once a second and recomputes
      everyone's priority from it on every fourth tick; idle is left out of all three. Nothing else
      of a thread changes but whether it runs, and where it is if it slept. */
  lemma TickThread(s: State, t: Tid)
    requires Inv(s) && s.mlfqs && t in s.threads
    ensures Enabled(s, Tick) && Safe(s, Tick)
    ensures var th, r := s.threads[t], Next(s, Tick);
            && t in r.threads && r.loadAvg >= 0 && r.threads[t].nice == th.nice
            && r.threads[t].recentCpu ==
                 (if Decays(s) && !IsIdle(s, t) then Mlfqs.NextRecentCpu(r.loadAvg, ChargedCpu(s, t), th.nice)
                  else ChargedCpu(s, t))
            && r.threads[t].priority ==
                 (if Reprioritizes(s) && !IsIdle(s, t) then Mlfqs.Priority(r.threads[t].recentCpu, th.nice)
                  else th.priority)
            && r.threads[t] == th.(recentCpu := r.threads[t].recentCpu, priority := r.threads[t].priority,
                                   status := r.threads[t].status, pc := r.threads[t].pc)
            && (r.threads[t].pc == th.pc || t in s.sleep)
  {
    hide Queues;
    hide Sync;
    hide Next;
    hide Safe;
    hide Account;
    hide MlfqsTick;
    hide Mlfqs.Priority;
    hide Mlfqs.NextRecentCpu;
    SyncBase(s);
    StepKeepsInv(s, Tick);
    TickUnfold(s);
    var s0 := s.(ticks := s.ticks + 1);
    AccountThread(s, t);
    AccountFrame(s0);
    PriorityThread(s0, t);
    TickRuns(s);
    TickAccounts(s);
  }

  /** In every MLFQS run, right after a tick whose count is a multiple of four, every thread but
      idle has the priority its recent_cpu and nice call for. */
  lemma RunPriorities(ss: seq<State>, acts: seq<Action>, n: nat, t: Tid)
    requires SchedulerRuns.IsRun(ss, acts) && n < |acts| && acts[n].Tick? && ss[n].mlfqs && ss[n + 1].ticks % TIME_SLICE == 0
    requires t in ss[n].threads && !IsIdle(ss[n], t)
    ensures var r := ss[n + 1];
            t in r.threads && r.threads[t].priority == Mlfqs.Priority(r.threads[t].recentCpu, r.threads[t].nice)
  {
    hide Inv;
    hide Enabled;
    hide Safe;
    hide Next;
    SchedulerRuns.RunInvariant(ss, acts, n);
    assert SchedulerRuns.Step(ss[n], acts[n], ss[n + 1]);
    SchedulerRuns.StepTicks(ss[n], acts[n]);
    TickThread(ss[n], t);
  }
}
