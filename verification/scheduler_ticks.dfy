/** What a timer tick does, told without its order of events. */
module SchedulerTicks {
  import opened Collections
  import opened Ordering
  import opened Scheduler
  import opened SchedulerQueues
  import opened SchedulerSync
  import opened SchedulerDonation
  import opened SchedulerMlfqs
  import opened SchedulerAccounts
  import opened SchedulerEffects
  import Mlfqs

  // ---------------------------------------------------------------- waking

  function Awake(th: Thread): (r: Thread) {
    th.(status := Ready, pc := Free)
  }

  function Woken(ts: map<Tid, Thread>, due: seq<Tid>): (r: map<Tid, Thread>) {
    map t | t in ts :: if t in due then Awake(ts[t]) else ts[t]
  }

  /** The list is in order of priority and holds the ready threads and then those due, equals in
      that order. */
  ghost predicate Queued(ts: map<Tid, Thread>, q: seq<Tid>, r: seq<Tid>) {
    Descending(ts, r) && StablePermutation(Higher(ts), q, r, ts.Keys)
  }

  /** Exactly the first `n` sleepers are due. */
  ghost predicate Due(ts: map<Tid, Thread>, q: seq<Tid>, now: int, n: nat) {
    && n <= |q| && (forall i | 0 <= i < n :: WakeTick(ts, q[i]) <= now)
    && forall i | n <= i < |q| :: WakeTick(ts, q[i]) > now
  }

  ghost predicate WakesDue(s: State, r: State, n: nat) {
    && Due(s.threads, s.sleep, s.ticks, n)
    && r == s.(sleep := s.sleep[n..], threads := Woken(s.threads, s.sleep[..n]), ready := r.ready)
    && Queued(r.threads, s.ready + s.sleep[..n], r.ready)
  }

  lemma {:induction false} WakeEffect(s: State) returns (n: nat)
    requires Queues(s) && Live(s)
    ensures (forall t | t in s.sleep :: t in s.threads) && WakesDue(s, Wake(s), n)
    decreases |s.sleep|
  {
    hide Queues;
    hide Live;
    hide Wake;
    hide WakeFront;
    hide WakesDue;
    SleepersExist(s);
    if s.sleep == [] || WakeTick(s.threads, s.sleep[0]) > s.ticks {
      n := 0;
      WakesNobody(s);
    } else {
      WakeFrontKeeps(s);
      SleepersExist(WakeFront(s));
      assert |WakeFront(s).sleep| < |s.sleep| by { FrontLeaves(s); }
      var r := WakeEffect(WakeFront(s));
      n := r + 1;
      WakesOneMore(s, r);
    }
  }

  lemma FrontLeaves(s: State)
    requires s.sleep != [] && s.sleep[0] in s.threads
    ensures WakeFront(s).sleep == s.sleep[1..]
  {
  }

  lemma WakesNobody(s: State)
    requires Queues(s) && Live(s) && (s.sleep == [] || WakeTick(s.threads, s.sleep[0]) > s.ticks)
    requires forall t | t in s.sleep :: t in s.threads
    ensures WakesDue(s, Wake(s), 0)
  {
    assert Woken(s.threads, []) == s.threads && s.sleep[..0] == [] && s.sleep[0..] == s.sleep && s.ready + [] == s.ready;
    assert forall t | t in s.ready :: t in s.threads;
  }

  lemma WakesOneMore(s: State, n: nat)
    requires Queues(s) && Live(s) && s.sleep != [] && WakeTick(s.threads, s.sleep[0]) <= s.ticks
    requires (forall t | t in s.sleep :: t in s.threads) && forall t | t in WakeFront(s).sleep :: t in WakeFront(s).threads
    requires WakesDue(WakeFront(s), Wake(WakeFront(s)), n)
    ensures WakesDue(s, Wake(s), n + 1)
  {
    var t, s1, r := s.sleep[0], WakeFront(s), Wake(s);
    assert r == Wake(s1) && n <= |s1.sleep|;
    hide Wake;
    hide Queued;
    hide Due;
    hide Woken;
    hide Queues;
    hide Live;
    hide InsertOrdered;
    DropFirst(s.sleep, n);
    WokenTwice(s, n);
    DueLater(s, n);
    QueuedOneMore(s, r, n);
  }

  lemma DropFirst(q: seq<Tid>, n: nat)
    requires n < |q|
    ensures q[1..][..n] == q[1..n + 1] && q[1..][n..] == q[n + 1..]
  {
  }

  lemma WokenTwice(s: State, n: nat)
    requires s.sleep != [] && s.sleep[0] in s.threads && n < |s.sleep|
    ensures Woken(WakeFront(s).threads, s.sleep[1..n + 1]) == Woken(s.threads, s.sleep[..n + 1])
  {
    hide InsertOrdered;
    var t, rest := s.sleep[0], s.sleep[1..n + 1];
    assert s.sleep[..n + 1] == [t] + rest;
    assert forall x :: x in s.sleep[..n + 1] <==> x == t || x in rest;
    assert WakeFront(s).threads == s.threads[t := Awake(s.threads[t])];
  }

  lemma DueLater(s: State, n: nat)
    requires s.sleep != [] && s.sleep[0] in s.threads && WakeTick(s.threads, s.sleep[0]) <= s.ticks
    requires Due(WakeFront(s).threads, s.sleep[1..], s.ticks, n)
    ensures Due(s.threads, s.sleep, s.ticks, n + 1)
  {
    hide InsertOrdered;
    var s1 := WakeFront(s);
    assert forall x :: WakeTick(s1.threads, x) == WakeTick(s.threads, x);
    forall i | 0 < i < |s.sleep| ensures s.sleep[i] == s.sleep[1..][i - 1] {
    }
    forall i | n + 1 <= i < |s.sleep| ensures WakeTick(s.threads, s.sleep[i]) > s.ticks {
      assert s.sleep[i] == s.sleep[1..][i - 1];
    }
    forall i | 0 <= i < n + 1 ensures WakeTick(s.threads, s.sleep[i]) <= s.ticks {
      assert i > 0 ==> s.sleep[i] == s.sleep[1..][i - 1];
    }
  }

  lemma SamePlaces(ts: map<Tid, Thread>, ts': map<Tid, Thread>, q: seq<Tid>, r: seq<Tid>, dom: set<Tid>)
    requires StablePermutation(Higher(ts), q, r, dom) && forall t :: Pri(ts', t) == Pri(ts, t)
    ensures StablePermutation(Higher(ts'), q, r, dom)
  {
    StableAgrees(Higher(ts), Higher(ts'), q, r, dom);
  }

  lemma QueuedOneMore(s: State, r: State, n: nat)
    requires Queues(s) && s.sleep != [] && s.sleep[0] in s.threads && n < |s.sleep|
    requires r.threads == Woken(s.threads, s.sleep[..n + 1])
    requires Queued(r.threads, WakeFront(s).ready + s.sleep[1..n + 1], r.ready)
    ensures Queued(r.threads, s.ready + s.sleep[..n + 1], r.ready)
  {
    var t, rest, dom := s.sleep[0], s.sleep[1..n + 1], s.threads.Keys;
    var s1 := WakeFront(s);
    assert forall x :: Pri(r.threads, x) == Pri(s.threads, x);
    assert r.threads.Keys == dom;
    ReadyThreads(s);
    FrontQueued(s);
    hide Woken;
    hide Queues;
    hide WakeFront;
    hide StablePermutation;
    SamePlaces(s.threads, r.threads, s.ready + [t], s1.ready, dom);
    assert s.sleep[..n + 1] == [t] + rest;
    Rejoined(Higher(r.threads), s.ready, t, s1.ready, rest, r.ready, dom);
  }

  lemma ReadyThreads(s: State)
    requires Queues(s)
    ensures ReadySorted(s) && forall x | x in s.ready :: x in s.threads
  {
  }

  lemma Rejoined(less: (Tid, Tid) -> bool, q: seq<Tid>, t: Tid, q1: seq<Tid>, rest: seq<Tid>, r: seq<Tid>, dom: set<Tid>)
    requires StablePermutation(less, q + [t], q1, dom) && StablePermutation(less, q1 + rest, r, dom)
    ensures StablePermutation(less, q + ([t] + rest), r, dom)
  {
    assert Within(rest, dom) by {
      assert forall x | x in rest :: x in q1 + rest;
    }
    hide StablePermutation;
    StableInContext(less, [], q + [t], q1, rest, dom);
    assert [] + (q + [t]) + rest == q + ([t] + rest) && [] + q1 + rest == q1 + rest;
    StableTransitive(less, q + ([t] + rest), q1 + rest, r, dom);
  }

  lemma FrontQueued(s: State)
    requires ReadySorted(s) && s.sleep != [] && s.sleep[0] in s.threads && forall x | x in s.ready :: x in s.threads
    ensures StablePermutation(Higher(s.threads), s.ready + [s.sleep[0]], WakeFront(s).ready, s.threads.Keys)
  {
    var t, dom := s.sleep[0], s.threads.Keys;
    var ts := s.threads[t := s.threads[t].(pc := Free)];
    HigherStrictWeak(ts, dom);
    assert forall x :: Pri(ts, x) == Pri(s.threads, x);
    assert Sorted(Higher(ts), s.ready);
    forall x | x in s.ready ensures x in dom {
      assert x in s.threads;
    }
    assert Within(s.ready, dom);
    InsertOrderedSorted(Higher(ts), s.ready, t, dom);
    hide InsertOrdered;
    assert WakeFront(s).ready == InsertOrdered(Higher(ts), s.ready, t);
    hide StablePermutation;
    SamePlaces(ts, s.threads, s.ready + [t], InsertOrdered(Higher(ts), s.ready, t), dom);
  }

  // ---------------------------------------------------------------- the interrupt

  function NewLoad(s: State): (load: int)
    requires s.loadAvg >= 0
  {
    if s.mlfqs && Decays(s) then Mlfqs.NextLoadAvg(s.loadAvg, |Runnable(s)|) else s.loadAvg
  }

  /** A thread's account after a tick, `load` being the new load average. */
  function Ticked(s: State, t: Tid, load: int): (th: Thread)
    requires t in s.threads && load >= 0
  {
    var th := s.threads[t];
    if !s.mlfqs then th
    else
      var cpu := if Decays(s) && !IsIdle(s, t) then Mlfqs.NextRecentCpu(load, ChargedCpu(s, t), th.nice) else ChargedCpu(s, t);
      th.(recentCpu := cpu, priority := if Reprioritizes(s) && !IsIdle(s, t) then Mlfqs.Priority(cpu, th.nice) else th.priority)
  }

  /** The state before the preemption at the end of a tick: the clock and the slice one further, the
      accounts done, and the first `n` sleepers, exactly those due, awake behind the ready threads
      of their priority. */
  ghost predicate Interrupted(s: State, m: State, n: nat) {
    && s.loadAvg >= 0 && Due(s.threads, s.sleep, s.ticks + 1, n) && m.loadAvg == NewLoad(s) >= 0
    && m == s.(ticks := s.ticks + 1, slice := s.slice + 1, loadAvg := m.loadAvg, sleep := s.sleep[n..],
               threads := m.threads, ready := m.ready)
    && m.threads.Keys == s.threads.Keys
    && (forall t | t in s.threads ::
          m.threads[t] == if t in s.sleep[..n] then Awake(Ticked(s, t, m.loadAvg)) else Ticked(s, t, m.loadAvg))
    && Queued(m.threads, s.ready + s.sleep[..n], m.ready)
  }

  /** A tick: the interrupt, and a yield when the time slice is used up. */
  ghost predicate Ticks(s: State, r: State) {
    exists m, n :: Interrupted(s, m, n) && if m.slice >= TIME_SLICE then Yields(m, r) else r == m
  }

  /** The accounting part, before anyone is woken. */
  function Accounted(s: State): (m: State)
    requires s.current in s.threads && s.loadAvg >= 0
  {
    var s1 := s.(ticks := s.ticks + 1);
    var m := if s.mlfqs then MlfqsTick(s1) else s1;
    m.(slice := m.slice + 1)
  }

  lemma AccountedKeeps(s: State)
    requires Inv(s)
    ensures s.current in s.threads && s.loadAvg >= 0
    ensures Queues(Accounted(s)) && Live(Accounted(s))
  {
    hide Queues;
    hide Sync;
    hide Live;
    hide MlfqsTick;
    SyncBase(s);
    CurrentLives(s);
    var s1 := s.(ticks := s.ticks + 1);
    SamePrioritiesKeep(s, s1);
    if s.mlfqs {
      MlfqsTickKeeps(s1);
    }
    var s2 := if s.mlfqs then MlfqsTick(s1) else s1;
    SamePrioritiesKeep(s2, s2.(slice := s2.slice + 1));
  }

  lemma CurrentLives(s: State)
    requires Live(s)
    ensures s.current in s.threads
  {
  }

  lemma AccountedFrame(s: State)
    requires Inv(s) && s.current in s.threads && s.loadAvg >= 0
    ensures var m := Accounted(s);
            && m.loadAvg == NewLoad(s) >= 0 && m.threads.Keys == s.threads.Keys
            && m == s.(ticks := s.ticks + 1, slice := s.slice + 1, loadAvg := m.loadAvg, threads := m.threads, ready := m.ready)
  {
    hide Mlfqs.NextLoadAvg;
    hide ReadyCount;
    hide Runnable;
    hide Account;
    hide MlfqsTick;
    ReadyCountIs(s);
    LaterCount(s);
    hide Inv;
    var s1 := s.(ticks := s.ticks + 1);
    AccountFrame(s1);
    AccountLoadAvg(s1);
    TickFrame(s1);
  }

  lemma AccountedThread(s: State, t: Tid)
    requires t in s.threads && s.current in s.threads && s.loadAvg >= 0 && Accounted(s).loadAvg >= 0
    ensures var m := Accounted(s); t in m.threads && m.threads[t] == Ticked(s, t, m.loadAvg)
  {
    hide Mlfqs.Priority;
    hide Mlfqs.NextRecentCpu;
    hide Account;
    hide MlfqsTick;
    if s.mlfqs {
      var s1 := s.(ticks := s.ticks + 1);
      AccountThread(s, t);
      AccountFrame(s1);
      PriorityThread(s1, t);
      TickFrame(s1);
    }
  }

  lemma LaterCount(s: State)
    ensures ReadyCount(s.(ticks := s.ticks + 1)) == ReadyCount(s)
  {
  }

  lemma TickFrame(s: State)
    requires s.current in s.threads && s.loadAvg >= 0
    ensures var m := MlfqsTick(s);
            && m == s.(loadAvg := Account(s).loadAvg, threads := m.threads, ready := m.ready)
            && m.threads.Keys == s.threads.Keys
  {
    hide StableSort;
    hide Account;
    AccountFrame(s);
  }

  lemma AccountedQueued(s: State)
    requires Inv(s) && s.current in s.threads && s.loadAvg >= 0
    ensures Queued(Accounted(s).threads, s.ready, Accounted(s).ready)
  {
    AccountedKeeps(s);
    ReadyThreads(s);
    ReadyThreads(Accounted(s));
    hide Inv;
    hide Queues;
    hide Live;
    if s.mlfqs {
      TickQueued(s.(ticks := s.ticks + 1));
    } else {
      SameQueued(s.threads, s.ready);
    }
  }

  lemma SameQueued(ts: map<Tid, Thread>, q: seq<Tid>)
    requires forall t | t in q :: t in ts
    ensures StablePermutation(Higher(ts), q, q, ts.Keys)
  {
  }

  lemma TickReady(s: State)
    requires s.current in s.threads && s.loadAvg >= 0
    ensures var m := MlfqsTick(s);
            m.ready == if s.ticks % TIMER_FREQ == 0 || s.ticks % TIME_SLICE == 0 then StableSort(Higher(m.threads), s.ready) else s.ready
  {
    hide StableSort;
    hide Account;
    hide UpdatePriorities;
    AccountFrame(s);
  }

  lemma AllThreads(q: seq<Tid>, ts: map<Tid, Thread>)
    requires forall t | t in q :: t in ts
    ensures Within(q, ts.Keys)
  {
    forall t | t in q ensures t in ts.Keys {
      assert t in ts;
    }
  }

  lemma TickQueued(s: State)
    requires s.current in s.threads && s.loadAvg >= 0 && forall t | t in s.ready :: t in s.threads
    ensures var m := MlfqsTick(s); StablePermutation(Higher(m.threads), s.ready, m.ready, m.threads.Keys)
  {
    hide StableSort;
    hide StablePermutation;
    hide MlfqsTick;
    TickFrame(s);
    TickReady(s);
    var m := MlfqsTick(s);
    HigherStrictWeak(m.threads, m.threads.Keys);
    AllThreads(s.ready, m.threads);
    StableSortCorrect(Higher(m.threads), s.ready, m.threads.Keys);
    SameQueued(m.threads, s.ready);
  }

  /** timer_interrupt before its preemption. */
  lemma InterruptEffect(s: State) returns (n: nat)
    requires Inv(s)
    ensures s.current in s.threads && s.loadAvg >= 0 && (forall t | t in s.sleep :: t in s.threads)
    ensures Interrupted(s, TimerInterrupt(s), n)
  {
    hide Queues;
    hide Sync;
    hide Live;
    hide Ticked;
    hide Queued;
    hide NewLoad;
    hide Accounted;
    AccountedKeeps(s);
    AccountedQueued(s);
    AccountedFrame(s);
    SleepersExist(s);
    var m := Accounted(s);
    forall t | t in s.threads ensures t in m.threads && m.threads[t] == Ticked(s, t, m.loadAvg) {
      AccountedThread(s, t);
    }
    hide WakesDue;
    hide Interrupted;
    n := WakeEffect(m);
    assert TimerInterrupt(s) == Wake(m) by { InterruptIs(s); }
    hide TimerInterrupt;
    hide Wake;
    InterruptedBy(s, m, Wake(m), n);
  }

  lemma InterruptIs(s: State)
    requires s.current in s.threads && s.loadAvg >= 0 && forall t | t in s.sleep :: t in s.threads
    requires forall t | t in Accounted(s).sleep :: t in Accounted(s).threads
    ensures TimerInterrupt(s) == Wake(Accounted(s))
  {
    hide MlfqsTick;
    hide Wake;
  }

  /** Waking the sleepers that are due, after the accounting. */
  lemma InterruptedBy(s: State, m: State, r: State, n: nat)
    requires s.loadAvg >= 0 && m.loadAvg == NewLoad(s) >= 0 && m.threads.Keys == s.threads.Keys
    requires m == s.(ticks := s.ticks + 1, slice := s.slice + 1, loadAvg := m.loadAvg, threads := m.threads, ready := m.ready)
    requires forall t | t in s.threads :: m.threads[t] == Ticked(s, t, m.loadAvg)
    requires Queued(m.threads, s.ready, m.ready) && WakesDue(m, r, n)
    ensures Interrupted(s, r, n)
  {
    hide Queued;
    hide NewLoad;
    TickedTicks(s, m);
    hide Ticked;
    assert Due(s.threads, s.sleep, s.ticks + 1, n);
    hide Due;
    assert r.threads.Keys == s.threads.Keys;
    QueuedBehind(m.threads, r.threads, s.ready, m.ready, s.sleep[..n], r.ready);
  }

  lemma TickedTicks(s: State, m: State)
    requires m.loadAvg >= 0 && m.threads.Keys == s.threads.Keys
    requires forall t | t in s.threads :: m.threads[t] == Ticked(s, t, m.loadAvg)
    ensures forall t :: WakeTick(m.threads, t) == WakeTick(s.threads, t)
  {
    hide Mlfqs.Priority;
    hide Mlfqs.NextRecentCpu;
  }

  lemma QueuedBehind(ts: map<Tid, Thread>, ts': map<Tid, Thread>, q: seq<Tid>, q1: seq<Tid>, due: seq<Tid>, r: seq<Tid>)
    requires Queued(ts, q, q1) && Queued(ts', q1 + due, r) && ts' == Woken(ts, due)
    ensures Queued(ts', q + due, r)
  {
    assert forall t :: Pri(ts', t) == Pri(ts, t);
    assert ts'.Keys == ts.Keys;
    hide Woken;
    SamePlaces(ts, ts', q, q1, ts.Keys);
    assert Within(due, ts.Keys) by {
      assert forall x | x in due :: x in q1 + due;
    }
    hide StablePermutation;
    StableInContext(Higher(ts'), [], q, q1, due, ts.Keys);
    assert [] + q + due == q + due && [] + q1 + due == q1 + due;
    StableTransitive(Higher(ts'), q + due, q1 + due, r, ts.Keys);
  }

  lemma TickEffect(s: State)
    requires Inv(s)
    ensures Enabled(s, Tick) && Safe(s, Tick) && Ticks(s, Next(s, Tick))
  {
    assert Enabled(s, Tick) by { CurrentLives(s); }
    StepKeepsInv(s, Tick);
    var n := InterruptEffect(s);
    hide Inv;
    hide Interrupted;
    hide Yields;
    var m := TimerInterrupt(s);
    if m.slice >= TIME_SLICE {
      assert CanYield(m);
      hide CanYield;
      hide TimerInterrupt;
      YieldEffect(m);
    }
  }

  predicate FrontNotBelow(s: State) {
    s.ready != [] && Pri(s.threads, s.ready[0]) >= Pri(s.threads, s.current)
  }

  /** Whoever is at the front of the ready list, with at least the running thread's priority, runs
      after thread_yield and after the tick that ends the time slice. */
  lemma FrontRunsNext(s: State, a: Action)
    requires Inv(s) && Enabled(s, a) && (a.YieldCpu? || a.Tick?)
    ensures Safe(s, a)
    ensures var m := if a.Tick? then TimerInterrupt(s) else s;
            (a.Tick? ==> m.slice >= TIME_SLICE) && !IsIdle(m, m.current) && FrontNotBelow(m) ==> Next(s, a).current == m.ready[0]
  {
    StepKeepsInv(s, a);
    hide Inv;
    hide Yield;
    hide CanYield;
    var m := if a.Tick? then TimerInterrupt(s) else s;
    if (a.Tick? ==> m.slice >= TIME_SLICE) && !IsIdle(m, m.current) && m.ready != [] {
      assert CanYield(m) && Next(s, a) == Yield(m);
      hide TimerInterrupt;
      YieldMakesWay(m);
    }
  }
}
