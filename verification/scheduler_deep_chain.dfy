/** A run that builds a chain of nine holders: donation stops after the eighth, and the ninth keeps
    a priority below that of a thread in its donation list. */
module SchedulerDeepChain {
  import opened Collections
  import opened Ordering
  import opened Scheduler
  import opened SchedulerSync
  import opened SchedulerDonation
  import opened SchedulerRuns

  const MAIN := 20
  const IDLE := 10

  function MainThread(): (th: Thread) {
    NewThread(PRI_DEFAULT).(status := Running)
  }

  /** Thread 9 sleeps; each of the others waits for the lock of the next one. Thread `k` is the
      last that has come. */
  function ChainThread(t: Tid, k: Tid): (th: Thread) {
    var donors := if t == k then [] else [t - 1];
    if t == 9 then Thread(Blocked, 40, 40, None, donors, 1, 0, 0, Asleep)
    else Thread(Blocked, 40, 40, Some(t + 1), donors, 0, 0, 0, Down(OfLock(t + 1), true))
  }

  function ChainThreads(k: Tid): (m: map<Tid, Thread>) {
    (map t: Tid | k <= t <= 9 :: ChainThread(t, k))[MAIN := MainThread()][IDLE := NewThread(0).(status := Ready)]
  }

  function ChainSema(l: LockId, k: Tid): (m: Sema) {
    if l < k then Sema(1, [], 1, 0, 0) else Sema(0, if l == k then [] else [l - 1], 1, 0, 1)
  }

  function ChainSemas(k: Tid): (m: map<SemaId, Sema>) {
    map l: LockId {:trigger OfLock(l)} | 1 <= l <= 9 :: OfLock(l) := ChainSema(l, k)
  }

  function ChainHolders(k: Tid): (m: map<LockId, Option<Tid>>) {
    map l: LockId | 1 <= l <= 9 :: if l < k then None else Some(l)
  }

  /** Main runs, threads `k` to 9 form the chain, and idle has not run yet. */
  function ChainState(k: Tid): (s: State) {
    State(false, ChainThreads(k), [IDLE], if k > 9 then [] else [9], ChainSemas(k), ChainHolders(k), ChainHolders(k),
          MAIN, IDLE, false, 0, 0, 0)
  }

  // ---------------------------------------------------------------- a thread comes and runs

  /** Main runs, and only idle is ready. */
  ghost predicate MainRuns(s: State) {
    && s.current == MAIN && MAIN in s.threads && s.threads[MAIN] == MainThread()
    && s.ready == [IDLE] && IDLE in s.threads && s.threads[IDLE].priority == 0 && !s.idleUp && s.idle == IDLE
  }

  /** Thread `t` with priority `p` runs in place of main. */
  function Launched(s: State, t: Tid, p: int): (r: State) {
    s.(threads := s.threads[MAIN := MainThread().(status := Ready)][t := NewThread(p).(status := Running)],
       ready := [MAIN, IDLE], current := t, slice := 0)
  }

  lemma InsertSecond(ts: map<Tid, Thread>, a: Tid, b: Tid, x: Tid)
    requires Pri(ts, a) >= Pri(ts, x) > Pri(ts, b)
    ensures InsertOrdered(Higher(ts), [a, b], x) == [a, x, b]
  {
    var less := Higher(ts);
    assert [a, b][1..] == [b];
    assert InsertAt(less, [b], x) == 0;
    assert InsertAt(less, [a, b], x) == 1;
  }

  lemma InsertFirst(ts: map<Tid, Thread>, b: Tid, x: Tid)
    requires Pri(ts, x) > Pri(ts, b)
    ensures InsertOrdered(Higher(ts), [b], x) == [x, b]
  {
    assert InsertAt(Higher(ts), [b], x) == 0;
  }

  /** thread_create of a thread that outranks main. */
  function Added(s: State, t: Tid, p: int): (r: State) {
    s.(threads := s.threads[MAIN := MainThread().(pc := Created(p))][t := NewThread(p).(status := Ready)],
       ready := [t, IDLE])
  }

  lemma Arrives(s: State, t: Tid, p: int)
    requires MainRuns(s) && t !in s.threads && PRI_DEFAULT < p <= 63
    ensures Step(s, Create(t, p), Added(s, t, p))
  {
    var ts := s.threads[t := NewThread(p)][MAIN := MainThread().(pc := Created(p))];
    InsertFirst(ts, IDLE, t);
    hide InsertOrdered;
    assert Next(s, Create(t, p)).threads == Added(s, t, p).threads;
  }

  lemma TakesOver(s: State, t: Tid, p: int)
    requires MainRuns(s) && t !in s.threads && PRI_DEFAULT < p <= 63
    ensures Step(Added(s, t, p), CreateTest, Launched(s, t, p))
  {
    var r := Added(s, t, p);
    var ts := SetPc(r, MAIN, Free).threads;
    InsertSecond(ts, t, IDLE, MAIN);
    hide InsertOrdered;
    assert Requeue(SetPc(r, MAIN, Free)).ready == [t, MAIN, IDLE];
    assert [t, MAIN, IDLE][1..] == [MAIN, IDLE];
    assert Next(r, CreateTest).threads == Launched(s, t, p).threads;
  }

  // ---------------------------------------------------------------- it takes a free lock

  ghost predicate Runs(s: State, t: Tid) {
    s.current == t && t in s.threads && s.threads[t].pc == Free && t != s.idle && !s.mlfqs
  }

  /** Thread `t` has decremented the semaphore of lock `l`. */
  function Got(s: State, t: Tid, l: LockId): (r: State)
    requires t in s.threads
  {
    s.(semas := s.semas[OfLock(l) := Sema(0, [], 1, 0, 1)], owner := s.owner[l := Some(t)],
       threads := s.threads[t := s.threads[t].(pc := Taking(l))])
  }

  function Held(s: State, t: Tid, l: LockId): (r: State) {
    s.(semas := s.semas[OfLock(l) := Sema(0, [], 1, 0, 1)], owner := s.owner[l := Some(t)],
       holder := s.holder[l := Some(t)])
  }

  lemma Takes(s: State, t: Tid, l: LockId)
    requires Runs(s, t) && l in s.holder && s.holder[l] == None
    requires OfLock(l) in s.semas && s.semas[OfLock(l)] == Sema(1, [], 1, 0, 0)
    ensures Step(s, TryAcquire(l), Got(s, t, l)) && Step(Got(s, t, l), SetHolder, Held(s, t, l))
  {
    assert Got(s, t, l).threads[t := s.threads[t]] == s.threads;
  }

  // ---------------------------------------------------------------- and leaves the processor

  /** Main runs again, in place of `t`, which has come to `th`. */
  function Left(s: State, t: Tid, th: Thread): (r: State)
    requires MAIN in s.threads
  {
    s.(threads := s.threads[t := th.(status := Blocked)][MAIN := s.threads[MAIN].(status := Running)],
       ready := [IDLE], current := MAIN, slice := 0)
  }

  lemma Leaves(s: State)
    requires s.current in s.threads && s.current != MAIN && s.ready == [MAIN, IDLE] && MAIN in s.threads
    ensures CanBlock(s) && Block(s) == Left(s, s.current, s.threads[s.current])
  {
    assert [MAIN, IDLE][1..] == [IDLE];
  }

  lemma FallsAsleep(s: State, t: Tid)
    requires Runs(s, t) && t != MAIN && s.ready == [MAIN, IDLE] && MAIN in s.threads && s.sleep == []
    ensures Step(s, Sleep(1), Left(s, t, s.threads[t].(wakeTick := 1, pc := Asleep)).(sleep := [t]))
  {
    var r := StartSleep(s, 1);
    assert r.sleep == [t];
    hide InsertOrdered;
    Leaves(r);
    hide Block;
    hide CanBlock;
    assert r.threads[t := r.threads[t].(status := Blocked)] == s.threads[t := r.threads[t].(status := Blocked)];
  }

  /** Thread `t` is about to wait for lock `l`, which `h` holds. */
  function Asking(s: State, t: Tid, l: LockId, h: Tid): (r: State)
    requires t in s.threads && h in s.threads
  {
    s.(threads := s.threads[t := s.threads[t].(waiting := Some(l), pc := Down(OfLock(l), false))]
                           [h := s.threads[h].(donations := s.threads[h].donations + [t])])
  }

  lemma Asks(s: State, t: Tid, l: LockId, h: Tid)
    requires Runs(s, t) && l in s.holder && s.holder[l] == Some(h) && h in s.threads && h != t
    requires Pri(s.threads, h) >= Pri(s.threads, t)
    ensures Step(s, Acquire(l), Asking(s, t, l, h))
  {
    var s1 := SetPc(s, t, Down(OfLock(l), false));
    var ts := s1.threads[t := s1.threads[t].(waiting := Some(l))];
    var ts' := ts[h := ts[h].(donations := ts[h].donations + [t])];
    assert ts' == Asking(s, t, l, h).threads;
    var r := s1.(threads := ts');
    assert Blocker(r, t) == Some(h);
    assert Donate(r, t, DONATION_DEPTH) == r;
  }

  lemma Waits(s: State, t: Tid, id: SemaId, m: Sema)
    requires s.current == t && t in s.threads && s.threads[t].pc == Down(id, false) && t != MAIN
    requires id in s.semas && s.semas[id] == m && m.value == 0 && m.waiters == []
    requires s.ready == [MAIN, IDLE] && MAIN in s.threads
    ensures Step(s, TestDown, Left(s, t, s.threads[t].(pc := Down(id, true))).(semas := s.semas[id := m.(waiters := [t])]))
  {
    var r := StartWait(s, id);
    assert InsertOrdered(Higher(s.threads), m.waiters, t) == [t];
    assert r.semas == s.semas[id := m.(waiters := [t])];
    hide InsertOrdered;
    Leaves(r);
    hide Block;
    hide CanBlock;
    assert r.threads[t := r.threads[t].(status := Blocked)] == s.threads[t := r.threads[t].(status := Blocked)];
  }

  // ---------------------------------------------------------------- the chain grows

  /** Thread `k` runs and holds lock `k`. */
  function Holding(k: Tid): (s: State) {
    Held(Launched(ChainState(k + 1), k, 40), k, k)
  }

  lemma LaunchedThread(k: Tid)
    requires 1 <= k <= 9
    ensures var s := Launched(ChainState(k + 1), k, 40);
            && Runs(s, k) && s.threads[k] == NewThread(40).(status := Running) && k != MAIN && MAIN in s.threads
            && s.ready == [MAIN, IDLE] && s.threads[MAIN] == MainThread().(status := Ready)
            && (k < 9 ==> k + 1 in s.threads && s.threads[k + 1] == ChainThread(k + 1, k + 1))
  {
    hide ChainSemas;
    hide ChainThread;
  }

  lemma LaunchedLock(k: Tid)
    requires 1 <= k <= 9
    ensures var s := Launched(ChainState(k + 1), k, 40);
            && k in s.holder && s.holder[k] == None && OfLock(k) in s.semas && s.semas[OfLock(k)] == Sema(1, [], 1, 0, 0)
            && (k < 9 ==> && k + 1 in s.holder && s.holder[k + 1] == Some(k + 1)
                          && OfLock(k + 1) in s.semas && s.semas[OfLock(k + 1)] == Sema(0, [], 1, 0, 1))
  {
    hide ChainThreads;
  }

  lemma GrownLocks(k: Tid)
    requires 1 <= k <= 9
    ensures ChainHolders(k) == ChainHolders(k + 1)[k := Some(k)]
    ensures var m := ChainSemas(k + 1)[OfLock(k) := Sema(0, [], 1, 0, 1)];
            ChainSemas(k) == if k == 9 then m else m[OfLock(k + 1) := Sema(0, [k], 1, 0, 1)]
  {
  }

  lemma GrownThreads(k: Tid, th: Thread)
    requires 1 <= k <= 9 && th == ChainThread(k, k)
    ensures var m := ChainThreads(k + 1)[k := th];
            ChainThreads(k) == if k == 9 then m else m[k + 1 := ChainThread(k + 1, k + 1).(donations := [k])]
  {
  }

  lemma NinthSleeps()
    ensures Step(Holding(9), Sleep(1), ChainState(9))
  {
    hide Step;
    hide ChainSemas;
    hide ChainHolders;
    hide ChainThreads;
    LaunchedThread(9);
    ChainRuns(10);
    GrownLocks(9);
    GrownThreads(9, ChainThread(9, 9));
    var s := Holding(9);
    FallsAsleep(s, 9);
    assert Left(s, 9, s.threads[9].(wakeTick := 1, pc := Asleep)).threads == ChainThreads(9);
  }

  lemma KthHolds(k: Tid)
    requires 1 <= k <= 9
    ensures var s := Launched(ChainState(k + 1), k, 40);
            k in s.threads && Step(s, TryAcquire(k), Got(s, k, k)) && Step(Got(s, k, k), SetHolder, Holding(k))
  {
    LaunchedThread(k);
    LaunchedLock(k);
    hide ChainState;
    hide Launched;
    hide Step;
    Takes(Launched(ChainState(k + 1), k, 40), k, k);
  }

  lemma KthWaits(k: Tid)
    requires 1 <= k <= 8
    ensures k in Holding(k).threads && k + 1 in Holding(k).threads
    ensures var s := Asking(Holding(k), k, k + 1, k + 1);
            Step(Holding(k), Acquire(k + 1), s) && Step(s, TestDown, ChainState(k))
  {
    hide ChainState;
    hide Launched;
    hide Step;
    LaunchedThread(k);
    LaunchedLock(k);
    var s := Holding(k);
    Asks(s, k, k + 1, k + 1);
    Waits(Asking(s, k, k + 1, k + 1), k, OfLock(k + 1), Sema(0, [], 1, 0, 1));
    WaitingState(k);
  }

  lemma WaitingState(k: Tid)
    requires 1 <= k <= 8 && k in Holding(k).threads && k + 1 in Holding(k).threads
    requires k in Asking(Holding(k), k, k + 1, k + 1).threads && MAIN in Asking(Holding(k), k, k + 1, k + 1).threads
    ensures var s := Asking(Holding(k), k, k + 1, k + 1);
            Left(s, k, s.threads[k].(pc := Down(OfLock(k + 1), true)))
              .(semas := s.semas[OfLock(k + 1) := Sema(0, [k], 1, 0, 1)]) == ChainState(k)
  {
    hide ChainSemas;
    hide ChainHolders;
    hide ChainThreads;
    LaunchedThread(k);
    ChainRuns(k + 1);
    GrownLocks(k);
    GrownThreads(k, ChainThread(k, k));
    var s := Asking(Holding(k), k, k + 1, k + 1);
    var th := s.threads[k].(pc := Down(OfLock(k + 1), true));
    assert ChainThread(k + 1, k + 1).donations + [k] == [k];
    assert Left(s, k, th).threads == ChainThreads(k);
  }

  // ---------------------------------------------------------------- the run

  lemma Then(ss: seq<State>, acts: seq<Action>, a: Action, s': State) returns (ss': seq<State>, acts': seq<Action>)
    requires IsRun(ss, acts) && Step(ss[|acts|], a, s')
    ensures ss' == ss + [s'] && acts' == acts + [a]
    ensures IsRun(ss', acts') && |ss'| == |acts'| + 1 && ss'[|acts'|] == s'
  {
    hide Init;
    hide Step;
    ss', acts' := ss + [s'], acts + [a];
    assert ss'[0] == ss[0];
    forall i | 0 <= i < |acts'| ensures Step(ss'[i], acts'[i], ss'[i + 1]) {
      if i < |acts| {
        assert ss'[i] == ss[i] && acts'[i] == acts[i] && ss'[i + 1] == ss[i + 1];
      }
    }
  }

  lemma NoThreads()
    ensures ChainThreads(10) == map[MAIN := MainThread(), IDLE := NewThread(0).(status := Ready)]
  {
    hide ChainThread;
  }

  lemma FreeLocks()
    ensures forall id | id in ChainSemas(10) :: ChainSemas(10)[id] == Sema(1, [], 1, 0, 0)
    ensures forall l | l in ChainHolders(10) :: ChainHolders(10)[l] == None && OfLock(l) in ChainSemas(10)
    ensures forall l :: OfLock(l) in ChainSemas(10) ==> l in ChainHolders(10)
  {
  }

  lemma Starts()
    ensures IsRun([ChainState(10)], [])
  {
    hide ChainThreads;
    hide ChainSemas;
    hide ChainHolders;
    NoThreads();
    FreeLocks();
    var ss, acts: seq<Action> := [ChainState(10)], [];
    assert Init(ss[0], MAIN);
    assert |ss| == |acts| + 1;
  }

  /** The run that launches `t` from main. */
  lemma Launch(ss: seq<State>, acts: seq<Action>, t: Tid, p: int) returns (ss': seq<State>, acts': seq<Action>)
    requires IsRun(ss, acts) && MainRuns(ss[|acts|]) && t !in ss[|acts|].threads && 31 < p <= 63
    ensures IsRun(ss', acts') && |ss'| == |acts'| + 1 && ss'[|acts'|] == Launched(ss[|acts|], t, p)
  {
    hide IsRun;
    hide Step;
    hide Added;
    hide Launched;
    LastState(ss, acts);
    var s := ss[|acts|];
    Arrives(s, t, p);
    TakesOver(s, t, p);
    ss', acts' := Then(ss, acts, Create(t, p), Added(s, t, p));
    ss', acts' := Then(ss', acts', CreateTest, Launched(s, t, p));
  }

  lemma LastState(ss: seq<State>, acts: seq<Action>)
    requires IsRun(ss, acts)
    ensures |ss| == |acts| + 1
  {
  }

  lemma ChainRuns(k: Tid)
    requires 1 <= k <= 10
    ensures MainRuns(ChainState(k)) && k - 1 !in ChainState(k).threads
  {
    hide ChainThread;
    hide ChainSemas;
  }

  /** Every chain is reached. */
  lemma {:induction false} ReachesChain(k: Tid) returns (ss: seq<State>, acts: seq<Action>)
    requires 1 <= k <= 10
    ensures IsRun(ss, acts) && ss[|acts|] == ChainState(k)
    decreases 10 - k
  {
    hide *;
    if k == 10 {
      Starts();
      ss, acts := [ChainState(10)], [];
    } else {
      ss, acts := ReachesChain(k + 1);
      LastState(ss, acts);
      ChainRuns(k + 1);
      ss, acts := Launch(ss, acts, k, 40);
      LastState(ss, acts);
      KthHolds(k);
      var got := Got(Launched(ChainState(k + 1), k, 40), k, k);
      ss, acts := Then(ss, acts, TryAcquire(k), got);
      ss, acts := Then(ss, acts, SetHolder, Holding(k));
      if k == 9 {
        NinthSleeps();
        ss, acts := Then(ss, acts, Sleep(1), ChainState(9));
      } else {
        KthWaits(k);
        ss, acts := Then(ss, acts, Acquire(k + 1), Asking(Holding(k), k, k + 1, k + 1));
        ss, acts := Then(ss, acts, TestDown, ChainState(k));
      }
    }
  }

  /** Eight holders in, the ninth is still below priority 50 and has the eighth as its donor. */
  lemma {:induction false} ChainTooDeep(t: Tid, raised: set<Tid>)
    requires 1 <= t <= 8 && forall r | r in raised :: r <= t
    ensures !ChainFits(Launched(ChainState(1), 0, 50), t, 50, raised, 8 - t)
    decreases 8 - t
  {
    hide ChainSemas;
    assert Blocker(Launched(ChainState(1), 0, 50), t) == Some(t + 1);
    if t < 8 {
      ChainTooDeep(t + 1, raised + {t + 1});
    }
  }

  lemma ChainBegins()
    ensures var s := Launched(ChainState(1), 0, 50);
            && Enabled(s, Acquire(1)) && s.current in s.threads && 1 in s.holder && !DonationFits(s, 1) && Covered(s)
  {
    ChainTooDeep(1, {1});
    hide ChainSemas;
    hide ChainFits;
  }

  /** So the claim that lock_acquire leaves every priority at or above its donors' fails: in this run
      it holds before the last step, an acquisition, and not after it. */
  lemma DonationStopsShort() returns (ss: seq<State>, acts: seq<Action>)
    ensures IsRun(ss, acts) && acts != [] && acts[|acts| - 1] == Acquire(1)
    ensures Covered(ss[|acts| - 1]) && !Covered(ss[|acts|])
  {
    hide *;
    ss, acts := ReachesChain(1);
    LastState(ss, acts);
    ChainRuns(1);
    ss, acts := Launch(ss, acts, 0, 50);
    LastState(ss, acts);
    ChainBegins();
    var s := Launched(ChainState(1), 0, 50);
    RunInvariant(ss, acts, |acts|);
    IsStep(s, Acquire(1));
    AcquireCoversIff(s, 1);
    ss, acts := Then(ss, acts, Acquire(1), Next(s, Acquire(1)));
  }

  lemma IsStep(s: State, a: Action)
    requires Enabled(s, a) && Safe(s, a)
    ensures Step(s, a, Next(s, a))
  {
  }
}
