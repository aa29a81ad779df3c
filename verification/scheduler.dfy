/** Threads, the ready and sleep lists, semaphores and locks as one transition system.

    A step is one piece of kernel code that runs without a scheduling point inside it.
    Where the code runs with interrupts enabled, a step boundary separates the pieces, and
    the thread's `pc` records which piece comes next; a timer tick may come between any two
    steps. The donation part of lock_acquire, the bookkeeping of lock_release and the
    preemption tests read shared lists with interrupts on; each is one step here. */
module Scheduler {
  import opened Collections
  import opened Ordering
  import Mlfqs

  type Tid = int
  type LockId = int

  /** A semaphore of its own, or the one inside a lock. */
  datatype SemaId = Plain(n: nat) | OfLock(lock: LockId)

  datatype Status = Running | Ready | Blocked

  /** Where a thread stands in the modelled code. */
  datatype Pc =
    | Free                               // outside the modelled calls
    | Asleep                             // in thread_sleep, on the sleep list
    | Down(sema: SemaId, waited: bool)   // at the test of sema_down's loop; `waited` once it has blocked there
    | Got(lock: LockId)                  // lock_acquire: sema_down is done, waiting_lock still set
    | Taking(lock: LockId)               // about to record itself as the lock's holder
    | Giving(lock: LockId)               // lock_release: no longer holder, sema_up is next
    | Recheck                            // about to compare itself with the front of the ready list
    | Created(priority: int)             // thread_create: about to compare itself with the new thread

  datatype Thread = Thread(status: Status, priority: int, base: int, waiting: Option<LockId>,
                           donations: seq<Tid>, wakeTick: int, nice: int, recentCpu: int, pc: Pc)

  /** `initial`, `ups` and `downs` are history: the first value and the completed operations. */
  datatype Sema = Sema(value: nat, waiters: seq<Tid>, initial: nat, ups: nat, downs: nat)

  /** `owner` is history: the thread that completed the last sema_down on the lock's semaphore
      and has not completed the matching sema_up. */
  datatype State = State(mlfqs: bool, threads: map<Tid, Thread>, ready: seq<Tid>, sleep: seq<Tid>,
                         semas: map<SemaId, Sema>, holder: map<LockId, Option<Tid>>,
                         owner: map<LockId, Option<Tid>>, current: Tid, idle: Tid, idleUp: bool,
                         ticks: nat, slice: nat, loadAvg: int)

  const TIME_SLICE := 4
  const TIMER_FREQ := 100
  const DONATION_DEPTH := 8

  function Pri(ts: map<Tid, Thread>, t: Tid): (p: int) {
    if t in ts then ts[t].priority else 0
  }

  function WakeTick(ts: map<Tid, Thread>, t: Tid): (w: int) {
    if t in ts then ts[t].wakeTick else 0
  }

  /** The comparator thread_priority_greater. */
  function Higher(ts: map<Tid, Thread>): (less: (Tid, Tid) -> bool) {
    (a, b) => Pri(ts, a) > Pri(ts, b)
  }

  /** The comparator thread_wake_tick_less. */
  function Earlier(ts: map<Tid, Thread>): (less: (Tid, Tid) -> bool) {
    (a, b) => WakeTick(ts, a) < WakeTick(ts, b)
  }

  predicate IsIdle(s: State, t: Tid) {
    s.idleUp && t == s.idle
  }

  // ---------------------------------------------------------------- threads and the ready list

  function SetStatus(s: State, t: Tid, st: Status): (r: State)
    requires t in s.threads
  {
    s.(threads := s.threads[t := s.threads[t].(status := st)])
  }

  function SetPc(s: State, t: Tid, pc: Pc): (r: State)
    requires t in s.threads
  {
    s.(threads := s.threads[t := s.threads[t].(pc := pc)])
  }

  /** thread_unblock: into the ready list behind threads of equal priority. */
  function Enqueue(s: State, t: Tid): (r: State)
    requires t in s.threads
  {
    SetStatus(s.(ready := InsertOrdered(Higher(s.threads), s.ready, t)), t, Ready)
  }

  predicate CanDispatch(s: State) {
    && (s.ready == [] ==> s.idleUp && s.idle in s.threads)
    && (s.ready != [] ==> s.ready[0] in s.threads)
  }

  /** schedule: the front of the ready list runs next, or the idle thread if there is none. */
  function Dispatch(s: State): (r: State)
    requires CanDispatch(s)
  {
    var next := if s.ready == [] then s.idle else s.ready[0];
    var rest := if s.ready == [] then [] else s.ready[1..];
    SetStatus(s.(ready := rest, current := next, slice := 0), next, Running)
  }

  /** thread_yield up to its call of schedule. */
  function Requeue(s: State): (r: State)
    requires s.current in s.threads
  {
    if IsIdle(s, s.current) then SetStatus(s, s.current, Ready) else Enqueue(s, s.current)
  }

  predicate CanYield(s: State) {
    s.current in s.threads && CanDispatch(Requeue(s))
  }

  function Yield(s: State): (r: State)
    requires CanYield(s)
    ensures r.mlfqs == s.mlfqs
  {
    Dispatch(Requeue(s))
  }

  predicate CanBlock(s: State) {
    s.current in s.threads && CanDispatch(SetStatus(s, s.current, Blocked))
  }

  function Block(s: State): (r: State)
    requires CanBlock(s)
    ensures r.mlfqs == s.mlfqs
  {
    Dispatch(SetStatus(s, s.current, Blocked))
  }

  // ---------------------------------------------------------------- sleeping and the timer

  /** thread_sleep up to its call of schedule. */
  function StartSleep(s: State, wake: int): (r: State)
    requires s.current in s.threads
  {
    var c := s.current;
    var ts := s.threads[c := s.threads[c].(wakeTick := wake, pc := Asleep)];
    s.(threads := ts, sleep := InsertOrdered(Earlier(ts), s.sleep, c))
  }

  /** thread_wake: unblocks the sleepers whose time has come, from the front of the list. */
  function Wake(s: State): (r: State)
    requires forall t | t in s.sleep :: t in s.threads
    ensures r.mlfqs == s.mlfqs
    decreases |s.sleep|
  {
    if s.sleep == [] || WakeTick(s.threads, s.sleep[0]) > s.ticks then s
    else
      var t := s.sleep[0];
      Wake(Enqueue(SetPc(s.(sleep := s.sleep[1..]), t, Free), t))
  }

  function UpdateRecentCpu(s: State): (ts: map<Tid, Thread>)
    requires s.loadAvg >= 0
  {
    map t | t in s.threads ::
      if IsIdle(s, t) then s.threads[t]
      else s.threads[t].(recentCpu := Mlfqs.NextRecentCpu(s.loadAvg, s.threads[t].recentCpu, s.threads[t].nice))
  }

  function UpdatePriorities(s: State): (ts: map<Tid, Thread>) {
    map t | t in s.threads ::
      if IsIdle(s, t) then s.threads[t]
      else s.threads[t].(priority := Mlfqs.Priority(s.threads[t].recentCpu, s.threads[t].nice))
  }

  function ReadyCount(s: State): (n: nat) {
    |s.ready| + if IsIdle(s, s.current) then 0 else 1
  }

  /** The running thread's tick. */
  function Charged(s: State): (r: State)
    requires s.current in s.threads
  {
    var c := s.current;
    if IsIdle(s, c) then s
    else s.(threads := s.threads[c := s.threads[c].(recentCpu := s.threads[c].recentCpu + Mlfqs.ONE)])
  }

  /** The accounting of a tick: the running thread's recent_cpu, and once a second the load
      average and everyone's recent_cpu. */
  function Account(s: State): (r: State)
    requires s.current in s.threads && s.loadAvg >= 0
  {
    var s1 := Charged(s);
    if s.ticks % TIMER_FREQ != 0 then s1
    else
      var s' := s1.(loadAvg := Mlfqs.NextLoadAvg(s1.loadAvg, ReadyCount(s1)));
      s'.(threads := UpdateRecentCpu(s'))
  }

  /** The MLFQS part of thread_tick, once the tick has been counted. */
  function MlfqsTick(s: State): (r: State)
    requires s.current in s.threads && s.loadAvg >= 0
  {
    var s1 := Account(s);
    if s.ticks % TIMER_FREQ != 0 && s.ticks % TIME_SLICE != 0 then s1
    else
      var ts := UpdatePriorities(s1);
      s1.(threads := ts, ready := StableSort(Higher(ts), s1.ready))
  }

  /** timer_interrupt up to the preemption at the end of the interrupt. */
  function TimerInterrupt(s: State): (r: State)
    requires s.current in s.threads && s.loadAvg >= 0
    requires forall t | t in s.sleep :: t in s.threads
    ensures r.mlfqs == s.mlfqs
  {
    var s1 := s.(ticks := s.ticks + 1);
    var s2 := if s.mlfqs then MlfqsTick(s1) else s1;
    Wake(s2.(slice := s2.slice + 1))
  }

  // ---------------------------------------------------------------- semaphores

  /** sema_down's loop body when the value is 0, up to its call of schedule. */
  function StartWait(s: State, id: SemaId): (r: State)
    requires s.current in s.threads && id in s.semas
  {
    var m := s.semas[id];
    var w := InsertOrdered(Higher(s.threads), m.waiters, s.current);
    SetPc(s.(semas := s.semas[id := m.(waiters := w)]), s.current, Down(id, true))
  }

  /** A completed decrement; for a lock's semaphore the current thread becomes its owner. */
  function Take(s: State, id: SemaId): (r: State)
    requires id in s.semas && s.semas[id].value > 0
  {
    var m := s.semas[id];
    var s1 := s.(semas := s.semas[id := m.(value := m.value - 1, downs := m.downs + 1)]);
    if id.OfLock? then s1.(owner := s1.owner[id.lock := Some(s.current)]) else s1
  }

  /** The part of sema_up that runs with interrupts off: wakes the front of the waiters sorted
      by priority, then increments. */
  function Up(s: State, id: SemaId): (r: State)
    requires id in s.semas
    requires forall t | t in s.semas[id].waiters :: t in s.threads
    ensures r.mlfqs == s.mlfqs
  {
    var m := s.semas[id];
    if m.waiters == [] then s.(semas := s.semas[id := m.(value := m.value + 1, ups := m.ups + 1)])
    else
      StableSortElements(Higher(s.threads), m.waiters);
      var w := StableSort(Higher(s.threads), m.waiters);
      assert w[0] in multiset(m.waiters);
      Enqueue(s.(semas := s.semas[id := m.(value := m.value + 1, waiters := w[1..], ups := m.ups + 1)]), w[0])
  }

  // ---------------------------------------------------------------- donation

  /** One donation: the holder's priority, and its place in the ready list if it is there. */
  function Raise(s: State, h: Tid, p: int): (r: State)
    requires h in s.threads
  {
    var ts := s.threads[h := s.threads[h].(priority := p)];
    if ts[h].status == Ready then
      s.(threads := ts, ready := InsertOrdered(Higher(ts), Without(s.ready, h), h))
    else s.(threads := ts)
  }

  /** The holder of the lock that `t` waits for, if there is one. */
  function Blocker(s: State, t: Tid): (h: Option<Tid>) {
    if t in s.threads && s.threads[t].waiting.Some? && s.threads[t].waiting.value in s.holder
    then s.holder[s.threads[t].waiting.value] else None
  }

  /** donate_priority: raises the holders along the chain of waits until one is high enough,
      the chain ends, or `depth` of them have been raised. */
  function Donate(s: State, t: Tid, depth: nat): (r: State)
    ensures r.mlfqs == s.mlfqs
    decreases depth
  {
    if depth == 0 then s
    else
      match Blocker(s, t)
      case None => s
      case Some(h) =>
        if h !in s.threads || Pri(s.threads, h) >= Pri(s.threads, t) then s
        else Donate(Raise(s, h, Pri(s.threads, t)), h, depth - 1)
  }

  /** The donors that are not waiting for lock `l`. */
  function DropDonors(ts: map<Tid, Thread>, ds: seq<Tid>, l: LockId): (r: seq<Tid>) {
    if ds == [] then []
    else (if ds[0] in ts && ts[ds[0]].waiting == Some(l) then [] else [ds[0]]) + DropDonors(ts, ds[1..], l)
  }

  /** The largest of `base` and the donors' priorities. */
  function Effective(ts: map<Tid, Thread>, base: int, ds: seq<Tid>): (p: int) {
    if ds == [] then base
    else
      var p := Effective(ts, base, ds[..|ds| - 1]);
      if Pri(ts, ds[|ds| - 1]) > p then Pri(ts, ds[|ds| - 1]) else p
  }

  /** lock_acquire up to its call of sema_down. */
  function StartAcquire(s: State, l: LockId): (r: State)
    requires s.current in s.threads && l in s.holder
    requires s.holder[l].Some? ==> s.holder[l].value in s.threads
  {
    var c := s.current;
    var s1 := SetPc(s, c, Down(OfLock(l), false));
    if s.mlfqs || s.holder[l].None? then s1
    else
      var h := s.holder[l].value;
      var ts := s1.threads[c := s1.threads[c].(waiting := Some(l))];
      var ts' := ts[h := ts[h].(donations := ts[h].donations + [c])];
      Donate(s1.(threads := ts'), c, DONATION_DEPTH)
  }

  /** lock_release up to its call of sema_up. */
  function StartRelease(s: State, l: LockId): (r: State)
    requires s.current in s.threads && l in s.holder
  {
    var c := s.current;
    var s1 := SetPc(s.(holder := s.holder[l := None]), c, Giving(l));
    if s.mlfqs then s1
    else
      var th := s1.threads[c];
      var ds := DropDonors(s1.threads, th.donations, l);
      s1.(threads := s1.threads[c := th.(donations := ds, priority := Effective(s1.threads, th.base, ds))])
  }

  // ---------------------------------------------------------------- steps

  datatype Action =
    | Tick                              // timer interrupt, with the preemption at its end
    | IntrUp(id: SemaId)                // sema_up from an interrupt handler
    | Create(t: Tid, priority: int)     // thread_create up to its preemption test
    | CreateTest                        // that test
    | YieldCpu                          // thread_yield
    | Exit                              // thread_exit
    | Sleep(wake: int)                  // thread_sleep
    | SetPriority(priority: int)        // thread_set_priority up to its preemption test
    | SetNice(nice: int)                // thread_set_nice up to its preemption test
    | PreemptTest                       // a test of the ready list's front
    | BeginDown(id: SemaId)             // entering sema_down
    | TestDown                          // one test of sema_down's loop, blocking or taking
    | TryDown(id: SemaId)               // sema_try_down
    | SemaUp(id: SemaId)                // sema_up up to its preemption test
    | Acquire(lock: LockId)             // lock_acquire up to sema_down
    | ClearWaiting                      // lock_acquire: waiting_lock = NULL
    | SetHolder                         // lock_acquire: holder = cur
    | TryAcquire(lock: LockId)          // lock_try_acquire up to holder = cur
    | Release(lock: LockId)             // lock_release up to sema_up
    | GiveUp                            // lock_release's sema_up
    | IdleStart                         // idle registers itself
    | IdleBlock                         // idle blocks

  /** What a thread may do next: idle only registers, ups semaphores and blocks; the others
      follow their code, calling anything when they are outside it. Locks are not acquired
      twice, only the holder releases, and a thread that exits holds no lock. */
  predicate Enabled(s: State, a: Action) {
    s.current in s.threads &&
    var c := s.current;
    var pc := s.threads[c].pc;
    var working := pc == Free && c != s.idle;
    match a
    case Tick => true
    case IntrUp(id) => id.Plain? && id in s.semas
    case Create(t, p) => working && t !in s.threads && Mlfqs.PRI_MIN <= p <= Mlfqs.PRI_MAX
    case CreateTest => pc.Created?
    case YieldCpu => working
    case Exit => working && forall l | l in s.holder :: s.holder[l] != Some(c)
    case Sleep(w) => working
    case SetPriority(p) => working
    case SetNice(n) => working && s.mlfqs
    case PreemptTest => pc.Recheck?
    case BeginDown(id) => working && id.Plain? && id in s.semas
    case TestDown => pc.Down? && pc.sema in s.semas
    case TryDown(id) => working && id.Plain? && id in s.semas
    case SemaUp(id) => pc == Free && (c == s.idle ==> s.idleUp) && id.Plain? && id in s.semas
    case Acquire(l) => working && l in s.holder && s.holder[l] != Some(c)
    case ClearWaiting => pc.Got?
    case SetHolder => pc.Taking?
    case TryAcquire(l) => working && l in s.holder && OfLock(l) in s.semas && s.holder[l] != Some(c)
    case Release(l) => working && l in s.holder && s.holder[l] == Some(c)
    case GiveUp => pc.Giving? && OfLock(pc.lock) in s.semas
    case IdleStart => c == s.idle && !s.idleUp && pc == Free
    case IdleBlock => IsIdle(s, c) && pc == Free
  }

  function NewThread(p: int): (t: Thread) {
    Thread(Blocked, p, p, None, [], 0, 0, 0, Free)
  }

  /** Where sema_down returns to. */
  function AfterDown(id: SemaId): (pc: Pc) {
    match id
    case Plain(_) => Free
    case OfLock(l) => Got(l)
  }

  /** The state a tick leaves before its preemption, and whether it asks for one. */
  predicate TickExpires(s: State)
    requires s.current in s.threads && s.loadAvg >= 0 && forall t | t in s.sleep :: t in s.threads
  {
    TimerInterrupt(s).slice >= TIME_SLICE
  }

  predicate FrontOutranks(s: State) {
    s.ready != [] && Pri(s.threads, s.ready[0]) > Pri(s.threads, s.current)
  }

  /** thread_unblock's assertion for whoever sema_up may wake. */
  predicate WaitersBlocked(s: State, id: SemaId) {
    id in s.semas && forall t | t in s.semas[id].waiters :: t in s.threads && s.threads[t].status == Blocked
  }

  /** The same for thread_wake, which unblocks sleepers one after the other. */
  ghost predicate SleepersBlocked(s: State) {
    Distinct(s.sleep) && forall t | t in s.sleep :: t in s.threads && s.threads[t].status == Blocked
  }

  function Removed(s: State): (r: State) {
    s.(threads := s.threads - {s.current})
  }

  /** What the kernel's assertions demand when `a` runs: whoever is unblocked is a blocked thread,
      and whoever is donated to or dispatched is a thread. */
  ghost predicate Safe(s: State, a: Action)
    requires Enabled(s, a)
  {
    var c := s.current;
    var pc := s.threads[c].pc;
    match a
    case Tick =>
      && s.loadAvg >= 0 && SleepersBlocked(s)
      && (TickExpires(s) ==> CanYield(TimerInterrupt(s)))
    case IntrUp(id) => WaitersBlocked(s, id)
    case SemaUp(id) => WaitersBlocked(s, id)
    case GiveUp => WaitersBlocked(s, OfLock(pc.lock))
    case CreateTest => Pri(s.threads, c) < pc.priority ==> CanYield(SetPc(s, c, Free))
    case PreemptTest => FrontOutranks(s) ==> CanYield(SetPc(s, c, Free))
    case YieldCpu => CanYield(s)
    case Exit => CanDispatch(Removed(s))
    case Sleep(w) => CanBlock(StartSleep(s, w))
    case TestDown => s.semas[pc.sema].value == 0 ==> CanBlock(StartWait(s, pc.sema))
    case Acquire(l) => s.holder[l].Some? ==> s.holder[l].value in s.threads
    case IdleBlock => CanBlock(s)
    case _ => true
  }

  function Next(s: State, a: Action): (r: State)
    requires Enabled(s, a) && Safe(s, a)
  {
    var c := s.current;
    var th := s.threads[c];
    match a
    case Tick => if TickExpires(s) then Yield(TimerInterrupt(s)) else TimerInterrupt(s)
    case IntrUp(id) => Up(s, id)
    case Create(t, p) => Enqueue(SetPc(s.(threads := s.threads[t := NewThread(p)]), c, Created(p)), t)
    case CreateTest =>
      if Pri(s.threads, c) < th.pc.priority then Yield(SetPc(s, c, Free)) else SetPc(s, c, Free)
    case YieldCpu => Yield(s)
    case Exit => Dispatch(Removed(s))
    case Sleep(w) => Block(StartSleep(s, w))
    case SetPriority(p) =>
      if s.mlfqs then s
      else s.(threads := s.threads[c := th.(base := p, priority := Effective(s.threads, p, th.donations), pc := Recheck)])
    case SetNice(n) =>
      s.(threads := s.threads[c := th.(nice := n, priority := Mlfqs.Priority(th.recentCpu, n), pc := Recheck)])
    case PreemptTest =>
      if FrontOutranks(s) then Yield(SetPc(s, c, Free)) else SetPc(s, c, Free)
    case BeginDown(id) => SetPc(s, c, Down(id, false))
    case TestDown =>
      var id := th.pc.sema;
      if s.semas[id].value == 0 then Block(StartWait(s, id)) else SetPc(Take(s, id), c, AfterDown(id))
    case TryDown(id) => if s.semas[id].value > 0 then Take(s, id) else s
    case SemaUp(id) => SetPc(Up(s, id), c, Recheck)
    case Acquire(l) => StartAcquire(s, l)
    case ClearWaiting => s.(threads := s.threads[c := th.(waiting := None, pc := Taking(th.pc.lock))])
    case SetHolder => SetPc(s.(holder := s.holder[th.pc.lock := Some(c)]), c, Free)
    case TryAcquire(l) =>
      if s.semas[OfLock(l)].value > 0 then SetPc(Take(s, OfLock(l)), c, Taking(l)) else s
    case Release(l) => StartRelease(s, l)
    case GiveUp => SetPc(Up(s, OfLock(th.pc.lock)).(owner := s.owner[th.pc.lock := None]), c, Recheck)
    case IdleStart => s.(idleUp := true)
    case IdleBlock => Block(s)
  }

  // ---------------------------------------------------------------- single steps, spelled out

  /** The current thread works outside the modelled calls. */
  predicate Works(s: State) {
    s.current in s.threads && s.threads[s.current].pc == Free && s.current != s.idle
  }

  lemma TestDownIs(s: State)
    requires Enabled(s, TestDown)
    ensures s.current in s.threads && s.threads[s.current].pc.Down? && s.threads[s.current].pc.sema in s.semas
    ensures var id := s.threads[s.current].pc.sema;
            if s.semas[id].value == 0
            then && (Safe(s, TestDown) <==> CanBlock(StartWait(s, id)))
                 && (Safe(s, TestDown) ==> Next(s, TestDown) == Block(StartWait(s, id)))
            else Safe(s, TestDown) && Next(s, TestDown) == SetPc(Take(s, id), s.current, AfterDown(id))
  {
    hide CanBlock;
    hide Block;
    hide StartWait;
    hide Take;
  }

  lemma TryIs(s: State, a: Action)
    requires Enabled(s, a) && (a.TryDown? || a.TryAcquire?)
    ensures Works(s) && Safe(s, a)
    ensures a.TryDown? ==> a.id.Plain? && a.id in s.semas && Next(s, a) == if s.semas[a.id].value > 0 then Take(s, a.id) else s
    ensures a.TryAcquire? ==>
              && a.lock in s.holder && OfLock(a.lock) in s.semas && s.holder[a.lock] != Some(s.current)
              && Next(s, a) == if s.semas[OfLock(a.lock)].value > 0
                               then SetPc(Take(s, OfLock(a.lock)), s.current, Taking(a.lock)) else s
  {
    hide Take;
  }

  lemma GiveUpIs(s: State)
    requires Enabled(s, GiveUp)
    ensures s.current in s.threads && s.threads[s.current].pc.Giving? && OfLock(s.threads[s.current].pc.lock) in s.semas
    ensures var l := s.threads[s.current].pc.lock;
            && (Safe(s, GiveUp) <==> WaitersBlocked(s, OfLock(l)))
            && (Safe(s, GiveUp) ==>
                  && s.current in Up(s, OfLock(l)).threads
                  && Next(s, GiveUp) == SetPc(Up(s, OfLock(l)).(owner := s.owner[l := None]), s.current, Recheck))
  {
    hide StableSort;
    hide InsertOrdered;
  }

  lemma SetPriorityIs(s: State, p: int)
    requires Enabled(s, SetPriority(p))
    ensures Works(s) && Safe(s, SetPriority(p))
    ensures var th := s.threads[s.current];
            Next(s, SetPriority(p)) ==
              if s.mlfqs then s
              else
                var th' := th.(base := p, priority := Effective(s.threads, p, th.donations), pc := Recheck);
                s.(threads := s.threads[s.current := th'])
  {
    hide Effective;
  }

  lemma SetNiceIs(s: State, n: int)
    requires Enabled(s, SetNice(n))
    ensures Works(s) && s.mlfqs && Safe(s, SetNice(n))
    ensures var th := s.threads[s.current];
            Next(s, SetNice(n)) ==
              s.(threads := s.threads[s.current := th.(nice := n, priority := Mlfqs.Priority(th.recentCpu, n), pc := Recheck)])
  {
    hide Mlfqs.Priority;
  }

  lemma BeginDownIs(s: State, id: SemaId)
    requires Enabled(s, BeginDown(id))
    ensures Works(s) && id.Plain? && id in s.semas && Safe(s, BeginDown(id))
    ensures Next(s, BeginDown(id)) == SetPc(s, s.current, Down(id, false))
  {
  }

  lemma TakenIs(s: State, a: Action)
    requires Enabled(s, a) && (a.ClearWaiting? || a.SetHolder?)
    ensures s.current in s.threads && Safe(s, a)
    ensures var th := s.threads[s.current];
            if a.ClearWaiting?
            then th.pc.Got? && Next(s, a) == s.(threads := s.threads[s.current := th.(waiting := None, pc := Taking(th.pc.lock))])
            else th.pc.Taking? && Next(s, a) == SetPc(s.(holder := s.holder[th.pc.lock := Some(s.current)]), s.current, Free)
  {
  }

  lemma ReleaseIs(s: State, l: LockId)
    requires Enabled(s, Release(l))
    ensures Works(s) && l in s.holder && s.holder[l] == Some(s.current) && Safe(s, Release(l))
    ensures Next(s, Release(l)) == StartRelease(s, l)
  {
    hide StartRelease;
  }

  lemma IdleStartIs(s: State)
    requires Enabled(s, IdleStart)
    ensures s.current in s.threads && s.current == s.idle && !s.idleUp && Safe(s, IdleStart)
    ensures Next(s, IdleStart) == s.(idleUp := true)
  {
  }

  /** The tests at the end of a call, and thread_yield: they yield, or only end the call. */
  lemma SwitchIs(s: State, a: Action)
    requires Enabled(s, a) && Safe(s, a) && (a.CreateTest? || a.PreemptTest? || a.YieldCpu?)
    ensures s.current in s.threads
    ensures var s1 := if a.YieldCpu? then s else SetPc(s, s.current, Free);
            (CanYield(s1) && Next(s, a) == Yield(s1)) || (!a.YieldCpu? && Next(s, a) == s1)
  {
    hide Yield;
    hide CanYield;
  }

  /** The calls that give up the processor for good or until woken. */
  lemma LeaveIs(s: State, a: Action)
    requires Enabled(s, a) && Safe(s, a) && (a.Exit? || a.Sleep? || a.IdleBlock?)
    ensures s.current in s.threads
    ensures a.Exit? ==> Works(s) && CanDispatch(Removed(s)) && Next(s, a) == Dispatch(Removed(s))
    ensures a.Sleep? ==> Works(s) && CanBlock(StartSleep(s, a.wake)) && Next(s, a) == Block(StartSleep(s, a.wake))
    ensures a.IdleBlock? ==> IsIdle(s, s.current) && CanBlock(s) && Next(s, a) == Block(s)
  {
    hide Dispatch;
    hide CanDispatch;
    hide Block;
    hide CanBlock;
    hide StartSleep;
  }

  lemma AcquireIs(s: State, l: LockId)
    requires Enabled(s, Acquire(l))
    ensures Works(s) && l in s.holder && s.holder[l] != Some(s.current)
    ensures Safe(s, Acquire(l)) <==> (s.holder[l].Some? ==> s.holder[l].value in s.threads)
    ensures Safe(s, Acquire(l)) ==> Next(s, Acquire(l)) == StartAcquire(s, l)
  {
    hide StartAcquire;
  }
}
