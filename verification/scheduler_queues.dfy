/** What every step keeps about the lists: each thread is on exactly the list its state calls
    for, the ready list is ordered by priority and the sleep list by wake-up time. */
module SchedulerQueues {
  import opened Collections
  import opened Ordering
  import opened Scheduler
  import Mlfqs

  ghost predicate ReadyExact(s: State) {
    && Distinct(s.ready)
    && forall t :: t in s.ready <==> t in s.threads && s.threads[t].status == Ready && !IsIdle(s, t)
  }

  ghost predicate SleepExact(s: State) {
    && Distinct(s.sleep)
    && forall t :: t in s.sleep <==> t in s.threads && s.threads[t].pc == Asleep
  }

  ghost predicate WaitsAt(s: State, t: Tid, id: SemaId) {
    t in s.threads && s.threads[t].status == Blocked && s.threads[t].pc == Down(id, true)
  }

  ghost predicate WaitersExact(s: State) {
    forall id | id in s.semas ::
      && Distinct(s.semas[id].waiters)
      && forall t :: t in s.semas[id].waiters <==> WaitsAt(s, t, id)
  }

  /** A blocked thread is idle, asleep or waiting for a semaphore; a sleeper is blocked. */
  ghost predicate BlockedAccounted(s: State) {
    forall t | t in s.threads ::
      && (s.threads[t].status == Blocked ==>
            || IsIdle(s, t)
            || s.threads[t].pc == Asleep
            || (s.threads[t].pc.Down? && s.threads[t].pc.waited && s.threads[t].pc.sema in s.semas))
      && (s.threads[t].pc == Asleep ==> s.threads[t].status == Blocked)
  }

  ghost predicate Descending(ts: map<Tid, Thread>, q: seq<Tid>) {
    forall i, j | 0 <= i < j < |q| :: Pri(ts, q[i]) >= Pri(ts, q[j])
  }

  ghost predicate ByWakeTick(ts: map<Tid, Thread>, q: seq<Tid>) {
    forall i, j | 0 <= i < j < |q| :: WakeTick(ts, q[i]) <= WakeTick(ts, q[j])
  }

  ghost predicate ReadySorted(s: State) {
    Descending(s.threads, s.ready)
  }

  ghost predicate SleepSorted(s: State) {
    ByWakeTick(s.threads, s.sleep)
  }

  ghost predicate IdleShape(s: State) {
    && s.idle in s.threads
    && (s.threads[s.idle].pc == Free || s.threads[s.idle].pc == Recheck)
    && (!s.idleUp ==> s.threads[s.idle].status != Blocked && s.threads[s.idle].pc == Free)
  }

  ghost predicate Queues(s: State) {
    && ReadyExact(s) && SleepExact(s) && WaitersExact(s) && BlockedAccounted(s)
    && ReadySorted(s) && SleepSorted(s) && IdleShape(s)
  }

  /** Exactly the current thread is running. */
  ghost predicate Live(s: State) {
    s.current in s.threads && forall t | t in s.threads :: s.threads[t].status == Running <==> t == s.current
  }

  /** Between giving up the processor and dispatching, nobody runs. */
  ghost predicate Quiet(s: State) {
    forall t | t in s.threads :: s.threads[t].status != Running
  }

  /** A thread's list element is on at most one list, and idle, once registered, on none. */
  lemma OneList(s: State, t: Tid, id: SemaId)
    requires Queues(s) && id in s.semas
    ensures t in s.ready ==> t !in s.sleep && t !in s.semas[id].waiters
    ensures t in s.sleep ==> t !in s.semas[id].waiters
    ensures forall id' | id' in s.semas && id' != id :: t in s.semas[id].waiters ==> t !in s.semas[id'].waiters
    ensures IsIdle(s, t) ==> t !in s.ready && t !in s.sleep && t !in s.semas[id].waiters
  {
  }

  // ---------------------------------------------------------------- the comparators

  lemma HigherStrictWeak(ts: map<Tid, Thread>, dom: set<Tid>)
    ensures StrictWeak(Higher(ts), dom)
  {
  }

  lemma EarlierStrictWeak(ts: map<Tid, Thread>, dom: set<Tid>)
    ensures StrictWeak(Earlier(ts), dom)
  {
  }

  /** Ordered insertion by priority keeps non-increasing priorities. */
  lemma InsertByPriority(ts: map<Tid, Thread>, q: seq<Tid>, t: Tid)
    requires Descending(ts, q)
    ensures Descending(ts, InsertOrdered(Higher(ts), q, t))
  {
    var dom := (set x | x in q) + {t};
    HigherStrictWeak(ts, dom);
    assert Sorted(Higher(ts), q);
    InsertOrderedSorted(Higher(ts), q, t, dom);
    var r := InsertOrdered(Higher(ts), q, t);
    forall i, j | 0 <= i < j < |r| ensures Pri(ts, r[i]) >= Pri(ts, r[j]) {
      assert !Higher(ts)(r[j], r[i]);
    }
  }

  lemma InsertByWakeTick(ts: map<Tid, Thread>, q: seq<Tid>, t: Tid)
    requires ByWakeTick(ts, q)
    ensures ByWakeTick(ts, InsertOrdered(Earlier(ts), q, t))
  {
    var dom := (set x | x in q) + {t};
    EarlierStrictWeak(ts, dom);
    assert Sorted(Earlier(ts), q);
    InsertOrderedSorted(Earlier(ts), q, t, dom);
    var r := InsertOrdered(Earlier(ts), q, t);
    forall i, j | 0 <= i < j < |r| ensures WakeTick(ts, r[i]) <= WakeTick(ts, r[j]) {
      assert !Earlier(ts)(r[j], r[i]);
    }
  }

  lemma SortByPriority(ts: map<Tid, Thread>, q: seq<Tid>)
    ensures Descending(ts, StableSort(Higher(ts), q))
  {
    var dom := set x | x in q;
    HigherStrictWeak(ts, dom);
    StableSortCorrect(Higher(ts), q, dom);
    var r := StableSort(Higher(ts), q);
    forall i, j | 0 <= i < j < |r| ensures Pri(ts, r[i]) >= Pri(ts, r[j]) {
      assert !Higher(ts)(r[j], r[i]);
    }
  }

  // ---------------------------------------------------------------- changes to the ready list

  /** `s'` differs from `s` on the ready list's side only in that `t` has become ready. */
  lemma ReadyInsert(s: State, s': State, t: Tid, ts: map<Tid, Thread>)
    requires ReadyExact(s) && ReadySorted(s)
    requires t in s.threads ==> s.threads[t].status != Ready
    requires t in s'.threads && s'.threads[t].status == Ready && !IsIdle(s', t)
    requires s'.idle == s.idle && s'.idleUp == s.idleUp
    requires s'.threads.Keys == s.threads.Keys + {t}
    requires forall u | u in s.threads && u != t ::
               s'.threads[u].status == s.threads[u].status && s'.threads[u].priority == s.threads[u].priority
    requires SamePriorities(ts, s'.threads) && s'.ready == InsertOrdered(Higher(ts), s.ready, t)
    ensures ReadyExact(s') && ReadySorted(s')
  {
    hide InsertOrdered;
    hide InsertAt;
    InsertOrderedMembers(Higher(ts), s.ready, t);
    assert ReadyExact(s');
    assert forall i | 0 <= i < |s.ready| :: Pri(ts, s.ready[i]) == Pri(s.threads, s.ready[i]) by {
      assert forall i | 0 <= i < |s.ready| :: s.ready[i] in s.ready;
    }
    InsertByPriority(ts, s.ready, t);
    assert forall u :: Pri(ts, u) == Pri(s'.threads, u);
  }

  ghost predicate SamePriorities(ts: map<Tid, Thread>, ts': map<Tid, Thread>) {
    ts.Keys == ts'.Keys && forall u | u in ts :: ts[u].priority == ts'[u].priority
  }

  lemma DispatchKeeps(s: State)
    requires Queues(s) && Quiet(s)
    ensures CanDispatch(s) && Queues(Dispatch(s)) && Live(Dispatch(s))
    ensures Dispatch(s).threads.Keys == s.threads.Keys
  {
    hide ReadyExact;
    hide ReadySorted;
    QuietDispatches(s);
    DispatchReady(s);
    assert forall t, id :: WaitsAt(Dispatch(s), t, id) <==> WaitsAt(s, t, id);
  }

  lemma QuietDispatches(s: State)
    requires Queues(s) && Quiet(s)
    ensures CanDispatch(s) && (s.ready == [] ==> IsIdle(s, s.idle))
    ensures s.ready != [] ==> s.threads[s.ready[0]].status == Ready && !IsIdle(s, s.ready[0])
  {
    if s.ready == [] {
      assert s.idle !in s.ready;
    } else {
      assert s.ready[0] in s.ready;
    }
  }

  lemma DispatchReady(s: State)
    requires ReadyExact(s) && ReadySorted(s) && CanDispatch(s) && (s.ready == [] ==> IsIdle(s, s.idle))
    ensures ReadyExact(Dispatch(s)) && ReadySorted(Dispatch(s))
  {
    var r := Dispatch(s);
    forall t ensures t in r.ready <==> t in r.threads && r.threads[t].status == Ready && !IsIdle(r, t) {
      if s.ready != [] {
        assert t in s.ready <==> t == s.ready[0] || t in s.ready[1..];
      }
    }
    assert forall t :: Pri(r.threads, t) == Pri(s.threads, t);
  }

  /** The dispatched thread has the highest priority of all that were ready. */
  lemma DispatchPicksMax(s: State, t: Tid)
    requires Queues(s) && CanDispatch(s) && t in s.ready
    ensures Dispatch(s).current in s.ready
    ensures Pri(s.threads, Dispatch(s).current) >= Pri(s.threads, t)
  {
    var i :| 0 <= i < |s.ready| && s.ready[i] == t;
    assert i > 0 ==> Pri(s.threads, s.ready[0]) >= Pri(s.threads, s.ready[i]);
  }

  lemma RequeueKeeps(s: State)
    requires Queues(s) && Live(s)
    ensures Queues(Requeue(s)) && Quiet(Requeue(s))
  {
    hide InsertOrdered;
    hide ReadySorted;
    hide ReadyExact;
    hide SleepSorted;
    hide SleepExact;
    hide WaitersExact;
    hide BlockedAccounted;
    var c, r := s.current, Requeue(s);
    RequeueParked(s, r);
    if IsIdle(s, c) {
      IdleReady(s);
    } else {
      ReadyInsert(s, r, c, s.threads);
    }
  }

  lemma RequeueParked(s: State, r: State)
    requires SleepExact(s) && SleepSorted(s) && WaitersExact(s) && BlockedAccounted(s) && Live(s)
    requires r == s.(threads := r.threads, ready := r.ready)
    requires r.threads == s.threads[s.current := s.threads[s.current].(status := Ready)]
    ensures SleepExact(r) && SleepSorted(r) && WaitersExact(r) && BlockedAccounted(r)
  {
    assert forall t, id :: WaitsAt(r, t, id) <==> WaitsAt(s, t, id);
  }

  lemma IdleReady(s: State)
    requires ReadyExact(s) && ReadySorted(s) && s.current in s.threads && IsIdle(s, s.current)
    ensures ReadyExact(SetStatus(s, s.current, Ready)) && ReadySorted(SetStatus(s, s.current, Ready))
  {
  }

  /** thread_yield changes statuses, the ready list, the running thread and its slice only. */
  lemma YieldFrame(s: State)
    requires CanYield(s)
    ensures var r := Yield(s);
            && r == s.(threads := r.threads, ready := r.ready, current := r.current, slice := 0)
            && r.threads.Keys == s.threads.Keys
            && forall t | t in s.threads :: r.threads[t] == s.threads[t].(status := r.threads[t].status)
  {
    hide Requeue;
    RequeueFrame(s);
  }

  lemma RequeueFrame(s: State)
    requires s.current in s.threads
    ensures var r := Requeue(s);
            && r == s.(threads := r.threads, ready := r.ready) && r.threads.Keys == s.threads.Keys
            && forall t | t in s.threads :: r.threads[t] == s.threads[t].(status := r.threads[t].status)
  {
    hide InsertOrdered;
  }

  lemma YieldKeeps(s: State)
    requires Queues(s) && Live(s)
    ensures CanYield(s) && Queues(Yield(s)) && Live(Yield(s))
  {
    hide Queues;
    hide Quiet;
    hide Requeue;
    RequeueKeeps(s);
    DispatchKeeps(Requeue(s));
  }

  ghost predicate SameScheduling(a: Thread, b: Thread) {
    a.status == b.status && a.pc == b.pc && a.priority == b.priority && a.wakeTick == b.wakeTick
  }

  /** Of what the lists depend on, only the running thread's record changes. */
  lemma LocalKeeps(s: State, s': State)
    requires Queues(s) && Live(s)
    requires s'.current == s.current && s'.idle == s.idle && (s.idleUp ==> s'.idleUp)
    requires s'.ready == s.ready && s'.sleep == s.sleep
    requires s'.threads.Keys == s.threads.Keys
    requires forall t | t in s.threads && t != s.current :: SameScheduling(s'.threads[t], s.threads[t])
    requires s'.threads[s.current].status == Running && s'.threads[s.current].pc != Asleep
    requires s.current == s.idle ==> s'.threads[s.idle].pc == Free || (s'.idleUp && s'.threads[s.idle].pc == Recheck)
    requires s'.idleUp && !s.idleUp ==> s.current == s.idle
    requires s'.semas.Keys == s.semas.Keys
    requires forall id | id in s.semas :: s'.semas[id].waiters == s.semas[id].waiters
    ensures Queues(s') && Live(s')
  {
    assert forall t, id :: WaitsAt(s', t, id) <==> WaitsAt(s, t, id);
    assert s.current !in s.ready && s.current !in s.sleep;
    assert forall i | 0 <= i < |s.ready| :: Pri(s'.threads, s.ready[i]) == Pri(s.threads, s.ready[i]) by {
      assert forall i | 0 <= i < |s.ready| :: s.ready[i] in s.ready;
    }
    assert forall i | 0 <= i < |s.sleep| :: WakeTick(s'.threads, s.sleep[i]) == WakeTick(s.threads, s.sleep[i]) by {
      assert forall i | 0 <= i < |s.sleep| :: s.sleep[i] in s.sleep;
    }
  }

  lemma SleepKeeps(s: State, wake: int)
    requires Queues(s) && Live(s) && s.current != s.idle
    ensures CanBlock(StartSleep(s, wake))
    ensures Queues(Block(StartSleep(s, wake))) && Live(Block(StartSleep(s, wake)))
  {
    hide Dispatch;
    hide StartSleep;
    hide Queues;
    SleptKeeps(s, wake);
    DispatchKeeps(SetStatus(StartSleep(s, wake), s.current, Blocked));
  }

  lemma SleptKeeps(s: State, wake: int)
    requires Queues(s) && Live(s) && s.current != s.idle
    ensures StartSleep(s, wake).current == s.current && s.current in StartSleep(s, wake).threads
    ensures var r := SetStatus(StartSleep(s, wake), s.current, Blocked);
            Queues(r) && Quiet(r)
  {
    hide InsertOrdered;
    var c, s1 := s.current, StartSleep(s, wake);
    var r := SetStatus(s1, c, Blocked);
    assert forall t, id :: WaitsAt(r, t, id) <==> WaitsAt(s, t, id);
    assert c !in s.ready && c !in s.sleep;
    assert ReadyExact(r) && ReadySorted(r) by {
      assert forall i | 0 <= i < |s.ready| :: s.ready[i] in s.ready;
    }
    InsertOrderedMembers(Earlier(s1.threads), s.sleep, c);
    assert SleepExact(r);
    assert SleepSorted(r) by {
      assert forall i | 0 <= i < |s.sleep| :: s.sleep[i] in s.sleep;
      InsertByWakeTick(s1.threads, s.sleep, c);
    }
  }

  lemma WaitKeeps(s: State, id: SemaId)
    requires Queues(s) && Live(s) && s.current != s.idle && id in s.semas
    ensures CanBlock(StartWait(s, id))
    ensures Queues(Block(StartWait(s, id))) && Live(Block(StartWait(s, id)))
  {
    hide Dispatch;
    hide StartWait;
    hide Queues;
    WaitedKeeps(s, id);
    DispatchKeeps(SetStatus(StartWait(s, id), s.current, Blocked));
  }

  lemma WaitedKeeps(s: State, id: SemaId)
    requires Queues(s) && Live(s) && s.current != s.idle && id in s.semas
    ensures StartWait(s, id).current == s.current && s.current in StartWait(s, id).threads
    ensures var r := SetStatus(StartWait(s, id), s.current, Blocked);
            Queues(r) && Quiet(r)
  {
    hide InsertOrdered;
    var c, s1 := s.current, StartWait(s, id);
    var r := SetStatus(s1, c, Blocked);
    assert c !in s.ready && c !in s.sleep;
    assert ReadyExact(r) && ReadySorted(r) && SleepExact(r) && SleepSorted(r) by {
      assert forall i | 0 <= i < |s.ready| :: s.ready[i] in s.ready;
      assert forall i | 0 <= i < |s.sleep| :: s.sleep[i] in s.sleep;
    }
    InsertOrderedMembers(Higher(s.threads), s.semas[id].waiters, c);
    assert forall t, id' :: WaitsAt(r, t, id') <==> WaitsAt(s, t, id') || (t == c && id' == id);
  }

  lemma IdleBlockKeeps(s: State)
    requires Queues(s) && Live(s) && IsIdle(s, s.current)
    ensures CanBlock(s) && Queues(Block(s)) && Live(Block(s))
  {
    hide Dispatch;
    IdleQuiet(s);
    hide Queues;
    DispatchKeeps(SetStatus(s, s.current, Blocked));
  }

  lemma IdleQuiet(s: State)
    requires Queues(s) && Live(s) && IsIdle(s, s.current)
    ensures Queues(SetStatus(s, s.current, Blocked)) && Quiet(SetStatus(s, s.current, Blocked))
  {
    var r := SetStatus(s, s.current, Blocked);
    assert forall t, id :: WaitsAt(r, t, id) <==> WaitsAt(s, t, id);
    assert ReadySorted(r) && SleepSorted(r);
  }

  lemma ExitKeeps(s: State)
    requires Queues(s) && Live(s) && s.current != s.idle
    ensures CanDispatch(Removed(s)) && Queues(Dispatch(Removed(s))) && Live(Dispatch(Removed(s)))
  {
    hide Queues;
    hide Dispatch;
    RemovedKeeps(s);
    DispatchKeeps(Removed(s));
  }

  lemma RemovedKeeps(s: State)
    requires Queues(s) && Live(s) && s.current != s.idle
    ensures Queues(Removed(s)) && Quiet(Removed(s))
  {
    var r := Removed(s);
    assert forall t, id :: WaitsAt(r, t, id) <==> WaitsAt(s, t, id);
    assert ReadySorted(r) && SleepSorted(r) by {
      assert forall i | 0 <= i < |s.ready| :: s.ready[i] in s.ready;
      assert forall i | 0 <= i < |s.sleep| :: s.sleep[i] in s.sleep;
    }
  }

  lemma CreateKeeps(s: State, t: Tid, p: int)
    requires Queues(s) && Live(s) && s.current != s.idle && t !in s.threads
    ensures var r := Enqueue(SetPc(s.(threads := s.threads[t := NewThread(p)]), s.current, Created(p)), t);
            Queues(r) && Live(r)
  {
    hide InsertOrdered;
    hide ReadySorted;
    hide ReadyExact;
    hide SleepSorted;
    hide SleepExact;
    hide WaitersExact;
    hide BlockedAccounted;
    var s1 := SetPc(s.(threads := s.threads[t := NewThread(p)]), s.current, Created(p));
    var r := Enqueue(s1, t);
    CreateParked(s, r, t);
    ReadyInsert(s, r, t, s1.threads);
    SameSleepSorted(s, r);
  }

  /** A new ready thread and a move of the running one leave the sleepers and waiters as they are. */
  lemma CreateParked(s: State, r: State, t: Tid)
    requires SleepExact(s) && WaitersExact(s) && BlockedAccounted(s) && Live(s) && t !in s.threads
    requires r == s.(threads := r.threads, ready := r.ready) && r.threads.Keys == s.threads.Keys + {t}
    requires r.threads[t].status == Ready && r.threads[t].pc == Free
    requires r.threads[s.current].status == Running && r.threads[s.current].pc.Created?
    requires forall u | u in s.threads && u != s.current :: r.threads[u] == s.threads[u]
    ensures SleepExact(r) && WaitersExact(r) && BlockedAccounted(r)
  {
    assert forall u, id :: WaitsAt(r, u, id) <==> WaitsAt(s, u, id);
  }

  lemma SameSleepSorted(s: State, s': State)
    requires SleepSorted(s) && s'.sleep == s.sleep
    requires forall t | t in s.sleep :: WakeTick(s'.threads, t) == WakeTick(s.threads, t)
    ensures SleepSorted(s')
  {
    assert forall i | 0 <= i < |s.sleep| :: s.sleep[i] in s.sleep;
  }

  // ---------------------------------------------------------------- waking

  /** One iteration of thread_wake. */
  function WakeFront(s: State): (r: State)
    requires s.sleep != [] && s.sleep[0] in s.threads
  {
    Enqueue(SetPc(s.(sleep := s.sleep[1..]), s.sleep[0], Free), s.sleep[0])
  }

  lemma WakeFrontKeeps(s: State)
    requires Queues(s) && Live(s) && s.sleep != []
    ensures s.sleep[0] in s.threads && Queues(WakeFront(s)) && Live(WakeFront(s))
  {
    hide InsertOrdered;
    hide ReadySorted;
    hide ReadyExact;
    var t := s.sleep[0];
    assert t in s.sleep;
    var s1 := SetPc(s.(sleep := s.sleep[1..]), t, Free);
    var r := WakeFront(s);
    assert forall u, id :: WaitsAt(r, u, id) <==> WaitsAt(s, u, id);
    ReadyInsert(s, r, t, s1.threads);
    assert SleepExact(r) by {
      assert forall u :: u in s.sleep <==> u == t || u in s.sleep[1..];
    }
    assert SleepSorted(r);
  }

  lemma {:induction false} WakeKeeps(s: State)
    requires Queues(s) && Live(s)
    ensures forall t | t in s.sleep :: t in s.threads
    ensures Queues(Wake(s)) && Live(Wake(s))
    decreases |s.sleep|
  {
    assert forall t | t in s.sleep :: t in s.threads;
    if s.sleep != [] && WakeTick(s.threads, s.sleep[0]) <= s.ticks {
      hide Queues;
      hide Live;
      WakeFrontKeeps(s);
      WakeKeeps(WakeFront(s));
    }
  }

  /** sema_up unblocks the first of the waiters in stable priority order. */
  lemma UpKeeps(s: State, id: SemaId)
    requires Queues(s) && Live(s) && id in s.semas
    ensures WaitersBlocked(s, id) && Queues(Up(s, id)) && Live(Up(s, id))
  {
    assert WaitersBlocked(s, id) by {
      assert forall t | t in s.semas[id].waiters :: WaitsAt(s, t, id);
    }
    if s.semas[id].waiters == [] {
      LocalKeeps(s, Up(s, id));
    } else {
      UpWakes(s, id);
    }
  }

  lemma UpWakes(s: State, id: SemaId)
    requires Queues(s) && Live(s) && WaitersBlocked(s, id) && s.semas[id].waiters != []
    ensures Queues(Up(s, id)) && Live(Up(s, id))
  {
    hide InsertOrdered;
    hide StableSort;
    hide ReadySorted;
    hide ReadyExact;
    var m, r := s.semas[id], Up(s, id);
    var w := StableSort(Higher(s.threads), m.waiters);
    StableSortMembers(Higher(s.threads), m.waiters);
    var t := w[0];
    assert t in w && WaitsAt(s, t, id);
    assert forall u, id' :: WaitsAt(r, u, id') <==> WaitsAt(s, u, id') && u != t;
    ReadyInsert(s, r, t, s.threads);
    assert WaitersExact(r) by {
      assert forall u :: u in w <==> u == t || u in w[1..];
      assert t !in w[1..];
    }
    assert SleepSorted(r);
  }

  /** Position `k` of the list has the highest priority in it, and is the first that has. */
  ghost predicate FirstHighest(ts: map<Tid, Thread>, q: seq<Tid>, k: nat) {
    && k < |q|
    && (forall j | 0 <= j < k :: Pri(ts, q[j]) < Pri(ts, q[k]))
    && (forall j | k <= j < |q| :: Pri(ts, q[j]) <= Pri(ts, q[k]))
  }

  /** sema_up wakes a waiter of the highest current priority, of equals the first in the list, and
      leaves the others in descending priority, equals in the order they were in. */
  lemma UpWakesMax(s: State, id: SemaId) returns (k: nat)
    requires WaitersBlocked(s, id) && s.semas[id].waiters != []
    ensures var q, r := s.semas[id].waiters, Up(s, id);
            && FirstHighest(s.threads, q, k) && q[k] in s.threads
            && r.threads == s.threads[q[k] := s.threads[q[k]].(status := Ready)]
            && Descending(s.threads, [q[k]] + r.semas[id].waiters)
            && StablePermutation(Higher(s.threads), q, [q[k]] + r.semas[id].waiters, set t | t in q)
  {
    var q, less := s.semas[id].waiters, Higher(s.threads);
    hide *;
    var w, dom := StableSort(less, q), set t | t in q;
    UpTakes(s, id);
    HigherStrictWeak(s.threads, dom);
    AllWithin(q);
    StableSortCorrect(less, q, dom);
    SortByPriority(s.threads, q);
    StableSortMembers(less, q);
    k := FirstOfHighest(s.threads, q, w, dom);
  }

  lemma AllWithin(q: seq<Tid>)
    ensures Within(q, set t | t in q)
  {
  }

  lemma UpTakes(s: State, id: SemaId)
    requires WaitersBlocked(s, id) && s.semas[id].waiters != []
    ensures var w, r := StableSort(Higher(s.threads), s.semas[id].waiters), Up(s, id);
            && w != [] && w[0] in s.threads && w == [w[0]] + w[1..] && id in r.semas && r.semas[id].waiters == w[1..]
            && r.threads == s.threads[w[0] := s.threads[w[0]].(status := Ready)]
  {
    hide InsertOrdered;
    hide StableSort;
    StableSortMembers(Higher(s.threads), s.semas[id].waiters);
    var w := StableSort(Higher(s.threads), s.semas[id].waiters);
    var t := w[0];
    assert t in w && w == [t] + w[1..];
    assert t in s.semas[id].waiters;
    assert t in s.threads;
  }

  lemma FirstOfHighest(ts: map<Tid, Thread>, q: seq<Tid>, w: seq<Tid>, dom: set<Tid>) returns (k: nat)
    requires w != [] && Descending(ts, w) && StablePermutation(Higher(ts), q, w, dom) && forall t | t in q :: t in w
    ensures FirstHighest(ts, q, k) && q[k] == w[0]
  {
    var less := Higher(ts);
    assert w[0] in w && Equivalent(less, w[0], w[0]);
    assert Class(less, w[0], w)[0] == w[0];
    k := ClassHead(less, w[0], q);
    forall j | 0 <= j < |q| ensures Pri(ts, q[j]) <= Pri(ts, w[0]) {
      assert q[j] in q && q[j] in w;
      var m :| 0 <= m < |w| && w[m] == q[j];
      assert m > 0 ==> Pri(ts, w[0]) >= Pri(ts, w[m]);
    }
    assert forall j | 0 <= j < k :: !Equivalent(less, w[0], q[j]);
  }

  // ---------------------------------------------------------------- donation

  /** Every holder is a thread other than idle. */
  ghost predicate HoldersExist(s: State) {
    forall l | l in s.holder && s.holder[l].Some? :: s.holder[l].value in s.threads && s.holder[l].value != s.idle
  }

  lemma {:induction false} WithoutMembers<T>(q: seq<T>, x: T)
    ensures forall y :: y in Without(q, x) <==> y in q && y != x
    ensures Distinct(q) ==> Distinct(Without(q, x))
  {
    if q != [] {
      WithoutMembers(q[1..], x);
      assert forall y :: y in q <==> y == q[0] || y in q[1..];
      var r := Without(q[1..], x);
      assert Without(q, x) == if q[0] == x then r else [q[0]] + r;
      if Distinct(q) {
        assert q[0] !in q[1..];
        assert q[0] !in r;
      }
    }
  }

  lemma {:induction false} WithoutSorted(ts: map<Tid, Thread>, q: seq<Tid>, x: Tid)
    requires Descending(ts, q)
    ensures Descending(ts, Without(q, x))
  {
    if q != [] {
      var rest := q[1..];
      var r := Without(rest, x);
      WithoutSorted(ts, rest, x);
      if q[0] == x {
        assert Without(q, x) == r;
      } else {
        assert Without(q, x) == [q[0]] + r;
        WithoutMembers(rest, x);
        hide Without;
        DescendingFront(ts, q, r);
      }
    }
  }

  lemma DescendingFront(ts: map<Tid, Thread>, q: seq<Tid>, r: seq<Tid>)
    requires q != [] && Descending(ts, q) && Descending(ts, r) && forall y | y in r :: y in q[1..]
    ensures Descending(ts, [q[0]] + r)
  {
    forall j | 0 <= j < |r| ensures Pri(ts, q[0]) >= Pri(ts, r[j]) {
      assert r[j] in r && r[j] in q[1..];
      var k :| 0 < k < |q| && q[k] == r[j];
    }
  }

  lemma Unqueued(s: State, h: Tid)
    requires ReadyExact(s) && ReadySorted(s) && h in s.threads && s.threads[h].status == Ready
    ensures var s0 := SetStatus(s.(ready := Without(s.ready, h)), h, Running);
            ReadyExact(s0) && ReadySorted(s0)
  {
    WithoutMembers(s.ready, h);
    WithoutSorted(s.threads, s.ready, h);
  }

  lemma RaiseKeeps(s: State, h: Tid, p: int)
    requires Queues(s) && Live(s) && h in s.threads && h != s.idle
    ensures Queues(Raise(s, h, p)) && Live(Raise(s, h, p))
  {
    hide Raise;
    hide ReadyExact;
    hide ReadySorted;
    hide SleepExact;
    hide SleepSorted;
    hide WaitersExact;
    hide BlockedAccounted;
    RaisedReady(s, h, p);
    RaiseFrame(s, h, p);
    ParkedFrame(s, Raise(s, h, p));
  }

  lemma RaisedReady(s: State, h: Tid, p: int)
    requires ReadyExact(s) && ReadySorted(s) && h in s.threads && h != s.idle
    ensures ReadyExact(Raise(s, h, p)) && ReadySorted(Raise(s, h, p))
  {
    hide ReadyExact;
    hide ReadySorted;
    hide Without;
    hide InsertOrdered;
    if s.threads[h].status == Ready {
      Unqueued(s, h);
      var r := Raise(s, h, p);
      ReadyInsert(SetStatus(s.(ready := Without(s.ready, h)), h, Running), r, h, r.threads);
    } else {
      RaisedElsewhere(s, h, p);
    }
  }

  /** Queues depend on status, position and wake-up time apart from the ready list. */
  lemma ParkedFrame(s: State, s': State)
    requires Queues(s) && ReadyExact(s') && ReadySorted(s')
    requires s'.threads.Keys == s.threads.Keys
    requires s' == s.(threads := s'.threads, ready := s'.ready)
    requires forall t | t in s.threads :: s'.threads[t].status == s.threads[t].status
               && s'.threads[t].pc == s.threads[t].pc && s'.threads[t].wakeTick == s.threads[t].wakeTick
    ensures Queues(s')
  {
    hide ReadyExact;
    hide ReadySorted;
    assert forall t, id :: WaitsAt(s', t, id) <==> WaitsAt(s, t, id);
    assert forall t :: WakeTick(s'.threads, t) == WakeTick(s.threads, t);
  }

  lemma RaisedElsewhere(s: State, h: Tid, p: int)
    requires ReadyExact(s) && ReadySorted(s) && h in s.threads && s.threads[h].status != Ready
    ensures ReadyExact(Raise(s, h, p)) && ReadySorted(Raise(s, h, p))
  {
    assert h !in s.ready;
    assert forall i | 0 <= i < |s.ready| :: s.ready[i] in s.ready;
  }

  lemma BlockerExists(s: State, t: Tid)
    requires HoldersExist(s) && Blocker(s, t).Some?
    ensures Blocker(s, t).value in s.threads && Blocker(s, t).value != s.idle
  {
    var l := s.threads[t].waiting.value;
    assert l in s.holder && s.holder[l] == Blocker(s, t);
  }

  lemma {:induction false} DonateKeeps(s: State, t: Tid, depth: nat)
    requires Queues(s) && Live(s) && HoldersExist(s)
    ensures Queues(Donate(s, t, depth)) && Live(Donate(s, t, depth))
    decreases depth
  {
    hide Queues;
    hide Live;
    hide Raise;
    if depth > 0 && Blocker(s, t).Some? && Pri(s.threads, Blocker(s, t).value) < Pri(s.threads, t) {
      var h, p := Blocker(s, t).value, Pri(s.threads, t);
      BlockerExists(s, t);
      RaiseKeeps(s, h, p);
      RaiseFrame(s, h, p);
      DonateKeeps(Raise(s, h, p), h, depth - 1);
    }
  }

  /** What differs between two states that differ in priorities and the ready list only. */
  ghost predicate OnlyPriorities(s: State, s': State) {
    && s' == s.(threads := s'.threads, ready := s'.ready)
    && s'.threads.Keys == s.threads.Keys
    && forall t | t in s.threads :: s'.threads[t] == s.threads[t].(priority := s'.threads[t].priority)
  }

  lemma RaiseFrame(s: State, h: Tid, p: int)
    requires h in s.threads
    ensures OnlyPriorities(s, Raise(s, h, p))
    ensures HoldersExist(s) ==> HoldersExist(Raise(s, h, p))
    ensures forall t :: Pri(Raise(s, h, p).threads, t) == if t == h then p else Pri(s.threads, t)
  {
  }

  lemma {:induction false} DonateFrame(s: State, t: Tid, depth: nat)
    ensures OnlyPriorities(s, Donate(s, t, depth))
    decreases depth
  {
    hide Raise;
    if depth > 0 && Blocker(s, t).Some? && Blocker(s, t).value in s.threads
       && Pri(s.threads, Blocker(s, t).value) < Pri(s.threads, t) {
      var h, p := Blocker(s, t).value, Pri(s.threads, t);
      RaiseFrame(s, h, p);
      DonateFrame(Raise(s, h, p), h, depth - 1);
    }
  }

  // ---------------------------------------------------------------- the timer

  /** Running, sleeping and waiting states and wake-up times are those of `s`; the ready list
      has been sorted for the new priorities. */
  lemma ResortKeeps(s: State, ts: map<Tid, Thread>)
    requires Queues(s) && Live(s) && ts.Keys == s.threads.Keys
    requires forall t | t in ts :: ts[t].status == s.threads[t].status && ts[t].pc == s.threads[t].pc
                                   && ts[t].wakeTick == s.threads[t].wakeTick
    ensures var r := s.(threads := ts, ready := StableSort(Higher(ts), s.ready));
            Queues(r) && Live(r)
  {
    hide StableSort;
    var r := s.(threads := ts, ready := StableSort(Higher(ts), s.ready));
    assert forall t, id :: WaitsAt(r, t, id) <==> WaitsAt(s, t, id);
    assert SleepSorted(r) by {
      assert forall i | 0 <= i < |s.sleep| :: s.sleep[i] in s.sleep;
    }
    StableSortMembers(Higher(ts), s.ready);
    SortByPriority(ts, s.ready);
  }

  lemma SamePrioritiesKeep(s: State, s': State)
    requires Queues(s) && Live(s) && s'.threads.Keys == s.threads.Keys
    requires s' == s.(threads := s'.threads, ticks := s'.ticks, slice := s'.slice, loadAvg := s'.loadAvg)
    requires forall t | t in s.threads :: s'.threads[t] == s.threads[t].(recentCpu := s'.threads[t].recentCpu)
    ensures Queues(s') && Live(s')
  {
    assert forall t, id :: WaitsAt(s', t, id) <==> WaitsAt(s, t, id);
    assert forall i | 0 <= i < |s.ready| :: s.ready[i] in s.ready;
    assert forall i | 0 <= i < |s.sleep| :: s.sleep[i] in s.sleep;
  }

  /** The accounting changes recent_cpu and the load average only. */
  lemma AccountFrame(s: State)
    requires s.current in s.threads && s.loadAvg >= 0
    ensures var r := Account(s);
            && r == s.(threads := r.threads, loadAvg := r.loadAvg) && r.loadAvg >= 0
            && r.threads.Keys == s.threads.Keys
            && forall t | t in s.threads :: r.threads[t] == s.threads[t].(recentCpu := r.threads[t].recentCpu)
  {
    hide Mlfqs.NextLoadAvg;
    hide ReadyCount;
    hide UpdateRecentCpu;
    hide Charged;
    ChargedFrame(s);
    if s.ticks % TIMER_FREQ == 0 {
      RecentFrame(Charged(s).(loadAvg := Account(s).loadAvg));
    }
  }

  lemma ChargedFrame(s: State)
    requires s.current in s.threads
    ensures var r := Charged(s);
            && r == s.(threads := r.threads) && r.threads.Keys == s.threads.Keys
            && forall t | t in s.threads :: r.threads[t] == s.threads[t].(recentCpu := r.threads[t].recentCpu)
  {
  }

  lemma RecentFrame(s: State)
    requires s.loadAvg >= 0
    ensures var ts := UpdateRecentCpu(s);
            && ts.Keys == s.threads.Keys
            && forall t | t in s.threads :: ts[t] == s.threads[t].(recentCpu := ts[t].recentCpu)
  {
    hide Mlfqs.NextRecentCpu;
  }

  lemma AccountKeeps(s: State)
    requires Queues(s) && Live(s) && s.loadAvg >= 0
    ensures Queues(Account(s)) && Live(Account(s)) && Account(s).loadAvg >= 0
  {
    hide Queues;
    hide Account;
    AccountFrame(s);
    SamePrioritiesKeep(s, Account(s));
  }

  lemma MlfqsTickKeeps(s: State)
    requires Queues(s) && Live(s) && s.loadAvg >= 0
    ensures Queues(MlfqsTick(s)) && Live(MlfqsTick(s)) && MlfqsTick(s).loadAvg >= 0
  {
    hide Queues;
    hide StableSort;
    hide Account;
    AccountKeeps(s);
    ResortKeeps(Account(s), UpdatePriorities(Account(s)));
  }

  lemma TickKeeps(s: State)
    requires Queues(s) && Live(s) && s.loadAvg >= 0
    ensures SleepersBlocked(s)
    ensures Queues(TimerInterrupt(s)) && Live(TimerInterrupt(s)) && CanYield(TimerInterrupt(s))
    ensures Queues(Yield(TimerInterrupt(s))) && Live(Yield(TimerInterrupt(s)))
  {
    hide Queues;
    hide MlfqsTick;
    hide Wake;
    hide Yield;
    hide CanYield;
    SleepersExist(s);
    var s1 := s.(ticks := s.ticks + 1);
    SamePrioritiesKeep(s, s1);
    if s.mlfqs {
      MlfqsTickKeeps(s1);
    }
    var s2 := if s.mlfqs then MlfqsTick(s1) else s1;
    SamePrioritiesKeep(s2, s2.(slice := s2.slice + 1));
    WakeKeeps(s2.(slice := s2.slice + 1));
    YieldKeeps(TimerInterrupt(s));
  }

  lemma SleepersExist(s: State)
    requires Queues(s)
    ensures SleepersBlocked(s)
  {
  }

  // ---------------------------------------------------------------- every step

  /** Positions, waits and holders refer to semaphores, locks and threads that exist. */
  ghost predicate Shape(s: State) {
    && s.loadAvg >= 0
    && HoldersExist(s)
    && s.holder.Keys == s.owner.Keys
    && (forall l :: l in s.holder <==> OfLock(l) in s.semas)
    && forall t | t in s.threads :: ThreadShape(s, s.threads[t])
  }

  ghost predicate ThreadShape(s: State, th: Thread) {
    && (th.pc.Down? ==> th.pc.sema in s.semas)
    && (th.pc.Got? || th.pc.Taking? || th.pc.Giving? ==> th.pc.lock in s.holder)
    && (th.waiting.Some? ==> th.waiting.value in s.holder)
  }

  lemma AcquireKeeps(s: State, l: LockId)
    requires Queues(s) && Live(s) && Shape(s) && s.current != s.idle && l in s.holder
    ensures s.holder[l].Some? ==> s.holder[l].value in s.threads
    ensures Queues(StartAcquire(s, l)) && Live(StartAcquire(s, l))
  {
    hide Queues;
    hide Donate;
    var s1 := Registered(s, l);
    LocalKeeps(s, s1);
    if !s.mlfqs && s.holder[l].Some? {
      DonateKeeps(s1, s.current, DONATION_DEPTH);
    }
  }

  /** StartAcquire before the donation. */
  function Registered(s: State, l: LockId): (r: State)
    requires s.current in s.threads && l in s.holder
    requires s.holder[l].Some? ==> s.holder[l].value in s.threads
  {
    var c := s.current;
    var s1 := SetPc(s, c, Down(OfLock(l), false));
    if s.mlfqs || s.holder[l].None? then s1
    else
      var h := s.holder[l].value;
      var ts := s1.threads[c := s1.threads[c].(waiting := Some(l))];
      s1.(threads := ts[h := ts[h].(donations := ts[h].donations + [c])])
  }

  lemma IdlePosition(s: State)
    requires Queues(s)
    ensures s.idle in s.threads && (s.threads[s.idle].pc == Free || s.threads[s.idle].pc == Recheck)
    ensures !s.idleUp ==> s.threads[s.idle].pc == Free
  {
  }

  lemma RecordStepKeeps(s: State, a: Action)
    requires Queues(s) && Live(s) && Enabled(s, a)
    requires a.SetPriority? || a.SetNice? || a.BeginDown? || a.ClearWaiting? || a.SetHolder? || a.IdleStart?
    ensures Safe(s, a) && Queues(Next(s, a)) && Live(Next(s, a))
  {
    hide Queues;
    hide Effective;
    IdlePosition(s);
    LocalKeeps(s, Next(s, a));
  }

  lemma LockStepKeeps(s: State, a: Action)
    requires Queues(s) && Live(s) && Enabled(s, a)
    requires a.TryDown? || a.TryAcquire? || a.Release?
    ensures Safe(s, a) && Queues(Next(s, a)) && Live(Next(s, a))
  {
    hide Queues;
    hide Effective;
    hide DropDonors;
    if a.Release? {
      ReleaseStepKeeps(s, a.lock);
    } else {
      TryStepKeeps(s, a);
    }
  }

  lemma ReleaseStepKeeps(s: State, l: LockId)
    requires Queues(s) && Live(s) && Enabled(s, Release(l))
    ensures Safe(s, Release(l)) && Queues(Next(s, Release(l))) && Live(Next(s, Release(l)))
  {
    hide Queues;
    hide Effective;
    hide DropDonors;
    IdlePosition(s);
    LocalKeeps(s, StartRelease(s, l));
  }

  lemma TryStepKeeps(s: State, a: Action)
    requires Queues(s) && Live(s) && Enabled(s, a) && (a.TryDown? || a.TryAcquire?)
    ensures Safe(s, a) && Queues(Next(s, a)) && Live(Next(s, a))
  {
    hide Queues;
    hide Next;
    hide Safe;
    hide Enabled;
    TryIs(s, a);
    LocalKeeps(s, Next(s, a));
  }

  lemma TestedKeeps(s: State)
    requires Queues(s) && Live(s)
    ensures var s1 := SetPc(s, s.current, Free);
            && Queues(s1) && Live(s1) && CanYield(s1)
            && Queues(Yield(s1)) && Live(Yield(s1))
  {
    hide Queues;
    hide Yield;
    hide CanYield;
    var s1 := SetPc(s, s.current, Free);
    LocalKeeps(s, s1);
    YieldKeeps(s1);
  }

  lemma UpStepKeeps(s: State, id: SemaId, s': State)
    requires Queues(s) && Live(s) && id in s.semas && (s.current == s.idle ==> s.idleUp)
    requires WaitersBlocked(s, id) && s.current in Up(s, id).threads
    requires s' == SetPc(Up(s, id), s.current, Recheck).(owner := s'.owner)
    ensures Queues(s') && Live(s')
  {
    hide Queues;
    hide Up;
    UpKeeps(s, id);
    UpFrame(s, id);
    LocalKeeps(Up(s, id), s');
  }

  /** sema_up leaves everything but the woken thread's status, the ready list and the
      semaphore alone. */
  lemma UpFrame(s: State, id: SemaId)
    requires WaitersBlocked(s, id)
    ensures var r := Up(s, id);
            && r == s.(threads := r.threads, ready := r.ready, semas := r.semas)
            && r.threads.Keys == s.threads.Keys && r.semas.Keys == s.semas.Keys
            && (forall t | t in s.threads :: r.threads[t] == s.threads[t].(status := r.threads[t].status))
            && (forall id' | id' in s.semas && id' != id :: r.semas[id'] == s.semas[id'])
            && r.semas[id] == s.semas[id].(value := s.semas[id].value + 1, ups := s.semas[id].ups + 1,
                                           waiters := r.semas[id].waiters)
  {
    hide InsertOrdered;
    hide StableSort;
    if s.semas[id].waiters != [] {
      StableSortMembers(Higher(s.threads), s.semas[id].waiters);
      assert StableSort(Higher(s.threads), s.semas[id].waiters)[0] in StableSort(Higher(s.threads), s.semas[id].waiters);
    }
  }

  /** Whatever runs next: no kernel assertion fails, and the lists stay exact and ordered. */
  lemma StepKeepsQueues(s: State, a: Action)
    requires Queues(s) && Live(s) && Shape(s) && Enabled(s, a)
    ensures Safe(s, a) && Queues(Next(s, a)) && Live(Next(s, a))
  {
    hide Queues;
    hide Up;
    hide Yield;
    hide CanYield;
    hide Block;
    hide CanBlock;
    hide StartSleep;
    hide StartWait;
    hide Dispatch;
    hide CanDispatch;
    hide Removed;
    hide TimerInterrupt;
    hide Enqueue;
    hide StartAcquire;
    IdlePosition(s);
    match a
    case Tick => TickKeeps(s);
    case IntrUp(id) => UpKeeps(s, id);
    case Create(t, p) => CreateKeeps(s, t, p);
    case CreateTest => TestedKeeps(s);
    case PreemptTest => TestedKeeps(s);
    case YieldCpu => YieldKeeps(s);
    case Exit => ExitKeeps(s);
    case Sleep(w) => SleepKeeps(s, w);
    case TestDown => TestDownKeeps(s);
    case SemaUp(id) =>
      UpKeeps(s, id);
      UpFrame(s, id);
      UpStepKeeps(s, id, Next(s, a));
    case GiveUp =>
      var id := OfLock(s.threads[s.current].pc.lock);
      UpKeeps(s, id);
      UpFrame(s, id);
      UpStepKeeps(s, id, Next(s, a));
    case Acquire(l) => AcquireKeeps(s, l);
    case IdleBlock => IdleBlockKeeps(s);
    case SetPriority(_) => RecordStepKeeps(s, a);
    case SetNice(_) => RecordStepKeeps(s, a);
    case BeginDown(_) => RecordStepKeeps(s, a);
    case ClearWaiting => RecordStepKeeps(s, a);
    case SetHolder => RecordStepKeeps(s, a);
    case IdleStart => RecordStepKeeps(s, a);
    case _ => LockStepKeeps(s, a);
  }

  lemma TestDownKeeps(s: State)
    requires Queues(s) && Live(s) && Enabled(s, TestDown)
    ensures Safe(s, TestDown) && Queues(Next(s, TestDown)) && Live(Next(s, TestDown))
  {
    hide Queues;
    hide Live;
    hide Block;
    hide CanBlock;
    hide StartWait;
    hide Take;
    hide SetPc;
    hide Next;
    hide Safe;
    hide Enabled;
    TestDownIs(s);
    IdlePosition(s);
    var id := s.threads[s.current].pc.sema;
    if s.semas[id].value == 0 {
      WaitKeeps(s, id);
    } else {
      TakeKeeps(s, id, AfterDown(id));
    }
  }

  lemma TakeKeeps(s: State, id: SemaId, pc: Pc)
    requires Queues(s) && Live(s) && s.current != s.idle && id in s.semas && s.semas[id].value > 0 && pc != Asleep
    ensures var r := SetPc(Take(s, id), s.current, pc); Queues(r) && Live(r)
  {
    hide Queues;
    LocalKeeps(s, SetPc(Take(s, id), s.current, pc));
  }
}
