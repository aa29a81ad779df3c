/** What each step does, told by the positions of threads in lists and by what stays the same. */
module SchedulerEffects {
  import opened Collections
  import opened Ordering
  import opened Scheduler
  import opened SchedulerQueues
  import opened SchedulerSync
  import opened SchedulerDonation
  import Mlfqs

  // ---------------------------------------------------------------- places in lists

  /** `r` is `q` with `t` behind everyone of at least its priority, in front of someone lower. */
  ghost predicate PlacedAt(ts: map<Tid, Thread>, q: seq<Tid>, r: seq<Tid>, t: Tid, k: nat) {
    && k <= |q| && r == q[..k] + [t] + q[k..]
    && (forall j | 0 <= j < k :: Pri(ts, q[j]) >= Pri(ts, t)) && (k < |q| ==> Pri(ts, q[k]) < Pri(ts, t))
  }

  /** The same by wake-up time: behind everyone who is to wake no later. */
  ghost predicate SleepsAt(ts: map<Tid, Thread>, q: seq<Tid>, r: seq<Tid>, t: Tid, k: nat) {
    && k <= |q| && r == q[..k] + [t] + q[k..]
    && (forall j | 0 <= j < k :: WakeTick(ts, q[j]) <= WakeTick(ts, t)) && (k < |q| ==> WakeTick(ts, q[k]) > WakeTick(ts, t))
  }

  ghost predicate Placed(ts: map<Tid, Thread>, q: seq<Tid>, r: seq<Tid>, t: Tid) {
    exists k :: PlacedAt(ts, q, r, t, k)
  }

  ghost predicate Sleeps(ts: map<Tid, Thread>, q: seq<Tid>, r: seq<Tid>, t: Tid) {
    exists k :: SleepsAt(ts, q, r, t, k)
  }

  lemma InsertPlaces(ts: map<Tid, Thread>, q: seq<Tid>, t: Tid)
    ensures Placed(ts, q, InsertOrdered(Higher(ts), q, t), t)
  {
    assert PlacedAt(ts, q, InsertOrdered(Higher(ts), q, t), t, InsertAt(Higher(ts), q, t));
  }

  lemma InsertSleeps(ts: map<Tid, Thread>, q: seq<Tid>, t: Tid)
    ensures Sleeps(ts, q, InsertOrdered(Earlier(ts), q, t), t)
  {
    assert SleepsAt(ts, q, InsertOrdered(Earlier(ts), q, t), t, InsertAt(Earlier(ts), q, t));
  }

  /** There is one such place. */
  lemma PlacedOnce(ts: map<Tid, Thread>, q: seq<Tid>, r: seq<Tid>, r': seq<Tid>, t: Tid)
    requires Placed(ts, q, r, t) && Placed(ts, q, r', t)
    ensures r == r'
  {
    var k: nat :| PlacedAt(ts, q, r, t, k);
    var k': nat :| PlacedAt(ts, q, r', t, k');
    assert k == k';
  }

  lemma SleepsOnce(ts: map<Tid, Thread>, q: seq<Tid>, r: seq<Tid>, r': seq<Tid>, t: Tid)
    requires Sleeps(ts, q, r, t) && Sleeps(ts, q, r', t)
    ensures r == r'
  {
    var k: nat :| SleepsAt(ts, q, r, t, k);
    var k': nat :| SleepsAt(ts, q, r', t, k');
    assert k == k';
  }

  // ---------------------------------------------------------------- handing over the processor

  /** The front of `q` runs and the others are ready; idle runs if there is none. */
  ghost predicate HandsOver(q: seq<Tid>, idle: Tid, r: State) {
    if q == [] then r.current == idle && r.ready == [] else [r.current] + r.ready == q
  }

  /** Threads keep everything but their status: the new current thread runs, and the old one is
      left in `st`. */
  ghost predicate Switched(ts: map<Tid, Thread>, c: Tid, st: Status, r: State) {
    && r.threads.Keys == ts.Keys && r.current in ts
    && forall t | t in ts ::
         r.threads[t] == ts[t].(status := if t == r.current then Running else if t == c then st else ts[t].status)
  }

  /** A yield: the current thread goes behind all ready threads of at least its priority, and the
      front of the list runs; idle, once registered, is on no list. */
  ghost predicate Yields(s: State, r: State) {
    && (if IsIdle(s, s.current) then HandsOver(s.ready, s.idle, r)
        else Placed(s.threads, s.ready, [r.current] + r.ready, s.current))
    && Switched(s.threads, s.current, Ready, r)
    && r == s.(threads := r.threads, ready := r.ready, current := r.current, slice := 0)
  }

  lemma DispatchEffect(s: State)
    requires CanDispatch(s)
    ensures var r := Dispatch(s);
            && HandsOver(s.ready, s.idle, r) && r == s.(threads := r.threads, ready := r.ready, current := r.current, slice := 0)
            && r.current in s.threads && r.threads == s.threads[r.current := s.threads[r.current].(status := Running)]
  {
  }

  lemma RequeueIs(s: State)
    requires s.current in s.threads
    ensures var r := Requeue(s);
            && r == s.(threads := s.threads[s.current := s.threads[s.current].(status := Ready)], ready := r.ready)
            && if IsIdle(s, s.current) then r.ready == s.ready
               else r.ready != [] && Placed(s.threads, s.ready, r.ready, s.current)
  {
    hide InsertOrdered;
    hide Placed;
    InsertPlaces(s.threads, s.ready, s.current);
  }

  lemma YieldEffect(s: State)
    requires CanYield(s)
    ensures Yields(s, Yield(s))
  {
    hide Placed;
    hide Dispatch;
    hide CanDispatch;
    hide Requeue;
    RequeueIs(s);
    DispatchEffect(Requeue(s));
  }

  /** Round robin: a thread that yields makes way for a ready thread of its own priority. */
  lemma YieldMakesWay(s: State)
    requires CanYield(s) && !IsIdle(s, s.current) && s.ready != []
    ensures Yield(s).current == (if Pri(s.threads, s.ready[0]) >= Pri(s.threads, s.current) then s.ready[0] else s.current)
  {
    YieldEffect(s);
    var r := Yield(s);
    hide Yield;
    var k: nat :| PlacedAt(s.threads, s.ready, [r.current] + r.ready, s.current, k);
    assert ([r.current] + r.ready)[0] == r.current;
  }

  /** Among equals the order of running is the order of the list: everyone has its turn before
      anyone has a second one. */
  lemma YieldRotates(s: State)
    requires CanYield(s) && !IsIdle(s, s.current)
    requires forall t | t in s.ready :: Pri(s.threads, t) == Pri(s.threads, s.current)
    ensures [Yield(s).current] + Yield(s).ready == s.ready + [s.current]
  {
    YieldEffect(s);
    var r := Yield(s);
    hide Yield;
    assert forall i | 0 <= i < |s.ready| :: s.ready[i] in s.ready;
    assert PlacedAt(s.threads, s.ready, s.ready + [s.current], s.current, |s.ready|);
    PlacedOnce(s.threads, s.ready, [r.current] + r.ready, s.ready + [s.current], s.current);
  }

  // ---------------------------------------------------------------- the steps

  /** The current thread, its record now `th`, is blocked and hands over the processor. */
  ghost predicate Parks(s: State, th: Thread, r: State) {
    HandsOver(s.ready, s.idle, r) && Switched(s.threads[s.current := th], s.current, Blocked, r) && r.slice == 0
  }

  /** A test at the end of a call: it yields exactly when `outranked`. */
  ghost predicate Tests(s: State, outranked: bool, r: State)
    requires s.current in s.threads
  {
    var s1 := s.(threads := s.threads[s.current := s.threads[s.current].(pc := Free)]);
    if outranked then Yields(s1, r) else r == s1
  }

  /** A decrement of a semaphore that leaves the current thread at `pc`. */
  ghost predicate Takes(s: State, id: SemaId, pc: Pc, r: State)
    requires s.current in s.threads && id in s.semas
  {
    && id in r.semas && r.semas[id].value + 1 == s.semas[id].value
    && r == s.(semas := s.semas[id := s.semas[id].(value := r.semas[id].value, downs := s.semas[id].downs + 1)],
               owner := if id.OfLock? then s.owner[id.lock := Some(s.current)] else s.owner,
               threads := s.threads[s.current := s.threads[s.current].(pc := pc)])
  }

  /** An increment that wakes the first waiter of the highest priority, if anyone waits. */
  ghost predicate Wakes(s: State, id: SemaId, r: State)
    requires id in s.semas
  {
    var m := s.semas[id];
    if m.waiters == [] then r == s.(semas := s.semas[id := m.(value := m.value + 1, ups := m.ups + 1)])
    else exists k :: WakesAt(s, id, r, k)
  }

  ghost predicate WakesAt(s: State, id: SemaId, r: State, k: nat)
    requires id in s.semas
  {
    var m := s.semas[id];
    && id in r.semas && FirstHighest(s.threads, m.waiters, k) && m.waiters[k] in s.threads
    && var t, w := m.waiters[k], r.semas[id].waiters;
    && Descending(s.threads, [t] + w) && StablePermutation(Higher(s.threads), m.waiters, [t] + w, set u | u in m.waiters)
    && Placed(s.threads, s.ready, r.ready, t)
    && r == s.(semas := s.semas[id := m.(value := m.value + 1, ups := m.ups + 1, waiters := w)], ready := r.ready,
               threads := s.threads[t := s.threads[t].(status := Ready)])
  }

  /** The same by a thread, which then stands at `pc`. */
  ghost predicate WakesThen(s: State, id: SemaId, pc: Pc, r: State)
    requires id in s.semas
  {
    exists m: State :: Wakes(s, id, m) && s.current in m.threads
                       && r == m.(threads := m.threads[s.current := m.threads[s.current].(pc := pc)])
  }

  /** `p` is the highest of `base` and the priorities of `ds`. */
  ghost predicate IsHighest(ts: map<Tid, Thread>, base: int, ds: seq<Tid>, p: int) {
    && p >= base && (forall d | d in ds :: p >= Pri(ts, d))
    && (p == base || exists d :: d in ds && p == Pri(ts, d))
  }

  function NotWaitingFor(ts: map<Tid, Thread>, l: LockId): (f: Tid -> bool) {
    d => !(d in ts && ts[d].waiting == Some(l))
  }

  ghost predicate Releases(s: State, l: LockId, r: State)
    requires s.current in s.threads && l in s.holder
  {
    var c, th := s.current, s.threads[s.current];
    && c in r.threads
    && var ds, p := r.threads[c].donations, r.threads[c].priority;
    && r == s.(holder := s.holder[l := None],
               threads := s.threads[c := th.(pc := Giving(l), donations := ds, priority := p)])
    && if s.mlfqs then ds == th.donations && p == th.priority
       else ds == Filter(NotWaitingFor(s.threads, l), th.donations)
            && IsHighest(s.threads, th.base, ds, p)
  }

  ghost predicate SetsPriority(s: State, p: int, r: State)
    requires s.current in s.threads
  {
    var c, th := s.current, s.threads[s.current];
    if s.mlfqs then r == s
    else
      && c in r.threads && IsHighest(s.threads, p, th.donations, r.threads[c].priority)
      && r == s.(threads := s.threads[c := th.(base := p, priority := r.threads[c].priority, pc := Recheck)])
  }

  /** A new thread, ready, with the priority asked for as its base and nothing donated, waited for
      or used. */
  ghost predicate Creates(s: State, t: Tid, p: int, r: State)
    requires s.current in s.threads
  {
    var c := s.current;
    var new' := Thread(Ready, p, p, None, [], 0, 0, 0, Free);
    && r == s.(threads := s.threads[t := new'][c := s.threads[c].(pc := Created(p))], ready := r.ready)
    && Placed(r.threads, s.ready, r.ready, t)
  }

  ghost predicate Exits(s: State, r: State) {
    && HandsOver(s.ready, s.idle, r) && r.current in s.threads && r.current != s.current
    && r == s.(ready := r.ready, current := r.current, slice := 0,
               threads := (s.threads - {s.current})[r.current := s.threads[r.current].(status := Running)])
  }

  ghost predicate GoesToSleep(s: State, w: int, r: State)
    requires s.current in s.threads
  {
    var th := s.threads[s.current].(wakeTick := w, pc := Asleep);
    && Parks(s, th, r) && Sleeps(s.threads[s.current := th], s.sleep, r.sleep, s.current)
    && r == s.(threads := r.threads, ready := r.ready, current := r.current, slice := 0, sleep := r.sleep)
  }

  ghost predicate Waits(s: State, id: SemaId, r: State)
    requires s.current in s.threads && id in s.semas
  {
    && Parks(s, s.threads[s.current].(pc := Down(id, true)), r)
    && id in r.semas && Placed(s.threads, s.semas[id].waiters, r.semas[id].waiters, s.current)
    && r == s.(threads := r.threads, ready := r.ready, current := r.current, slice := 0,
               semas := s.semas[id := s.semas[id].(waiters := r.semas[id].waiters)])
  }

  // ---------------------------------------------------------------- every step has its effect

  lemma TestsEffect(s: State, a: Action)
    requires Inv(s) && Enabled(s, a) && Safe(s, a) && (a.CreateTest? || a.PreemptTest?)
    ensures Tests(s, if a.CreateTest? then Pri(s.threads, s.current) < s.threads[s.current].pc.priority
                     else exists t :: t in s.ready && Pri(s.threads, t) > Pri(s.threads, s.current), Next(s, a))
  {
    hide Yields;
    hide Yield;
    hide CanYield;
    FrontIsHighest(s);
    hide Inv;
    if CanYield(SetPc(s, s.current, Free)) {
      YieldEffect(SetPc(s, s.current, Free));
    }
  }

  lemma FrontIsHighest(s: State)
    requires Inv(s)
    ensures FrontOutranks(s) <==> exists t :: t in s.ready && Pri(s.threads, t) > Pri(s.threads, s.current)
  {
    assert ReadySorted(s);
    if t :| t in s.ready && Pri(s.threads, t) > Pri(s.threads, s.current) {
      var i :| 0 <= i < |s.ready| && s.ready[i] == t;
      assert i > 0 ==> Pri(s.threads, s.ready[0]) >= Pri(s.threads, s.ready[i]);
    }
    if FrontOutranks(s) {
      assert s.ready[0] in s.ready;
    }
  }

  lemma BlockEffect(s: State)
    requires CanBlock(s)
    ensures var r := Block(s);
            && HandsOver(s.ready, s.idle, r) && Switched(s.threads, s.current, Blocked, r)
            && r == s.(threads := r.threads, ready := r.ready, current := r.current, slice := 0)
  {
    hide CanDispatch;
    hide Dispatch;
    DispatchEffect(SetStatus(s, s.current, Blocked));
  }

  lemma ExitEffect(s: State)
    requires Inv(s) && Enabled(s, Exit) && Safe(s, Exit)
    ensures Exits(s, Next(s, Exit))
  {
    LeaveIs(s, Exit);
    RunningReady(s);
    hide Next;
    hide Safe;
    hide Enabled;
    hide Inv;
    DispatchEffect(Removed(s));
    hide Dispatch;
    hide CanDispatch;
    var r := Next(s, Exit);
    assert s.ready != [] ==> r.current == ([r.current] + r.ready)[0];
  }

  lemma SleepEffect(s: State, w: int)
    requires Enabled(s, Sleep(w)) && Safe(s, Sleep(w))
    ensures GoesToSleep(s, w, Next(s, Sleep(w)))
  {
    hide Next;
    hide Safe;
    hide Enabled;
    hide InsertOrdered;
    hide CanBlock;
    hide Block;
    hide Sleeps;
    LeaveIs(s, Sleep(w));
    var s1 := StartSleep(s, w);
    InsertSleeps(s1.threads, s.sleep, s.current);
    BlockEffect(s1);
  }

  lemma WaitEffect(s: State, id: SemaId)
    requires s.current in s.threads && id in s.semas && CanBlock(StartWait(s, id))
    ensures Waits(s, id, Block(StartWait(s, id)))
  {
    hide InsertOrdered;
    hide CanBlock;
    hide Block;
    hide Placed;
    InsertPlaces(s.threads, s.semas[id].waiters, s.current);
    BlockEffect(StartWait(s, id));
  }

  lemma UpEffect(s: State, id: SemaId)
    requires WaitersBlocked(s, id)
    ensures Wakes(s, id, Up(s, id))
  {
    var m, r := s.semas[id], Up(s, id);
    if m.waiters != [] {
      var k := UpWakesMax(s, id);
      UpPlaces(s, id);
      hide Up;
      hide FirstHighest;
      hide Descending;
      hide StablePermutation;
      hide Placed;
      assert WakesAt(s, id, r, k);
    }
  }

  lemma UpPlaces(s: State, id: SemaId)
    requires WaitersBlocked(s, id) && s.semas[id].waiters != []
    ensures var m, r := s.semas[id], Up(s, id);
            && id in r.semas
            && r == s.(semas := s.semas[id := m.(value := m.value + 1, ups := m.ups + 1, waiters := r.semas[id].waiters)],
                       ready := r.ready, threads := r.threads)
            && forall t | t in s.threads && r.threads == s.threads[t := s.threads[t].(status := Ready)]
                          && s.threads[t].status == Blocked :: Placed(s.threads, s.ready, r.ready, t)
  {
    hide InsertOrdered;
    hide StableSort;
    hide Placed;
    StableSortMembers(Higher(s.threads), s.semas[id].waiters);
    var t := StableSort(Higher(s.threads), s.semas[id].waiters)[0];
    assert t in StableSort(Higher(s.threads), s.semas[id].waiters);
    assert t in s.semas[id].waiters;
    InsertPlaces(s.threads, s.ready, t);
    var r := Up(s, id);
    assert r.threads == s.threads[t := s.threads[t].(status := Ready)] && r.threads[t].status == Ready;
  }

  lemma RunningReady(s: State)
    requires Inv(s)
    ensures s.current in s.threads && s.current !in s.ready
  {
  }
}
