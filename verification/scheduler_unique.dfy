/** The relation of SchedulerRelation determines the state after every step. */
module SchedulerUnique {
  import opened Collections
  import opened Ordering
  import opened Scheduler
  import opened SchedulerQueues
  import opened SchedulerSync
  import opened SchedulerDonation
  import opened SchedulerEffects
  import opened SchedulerChains
  import opened SchedulerTicks
  import opened SchedulerRelation
  import SchedulerAccounts

  // ---------------------------------------------------------------- switches

  lemma ConsOnce(a: Tid, q: seq<Tid>, a': Tid, q': seq<Tid>)
    requires [a] + q == [a'] + q'
    ensures a == a' && q == q'
  {
    assert ([a] + q)[0] == a && ([a'] + q')[0] == a';
    assert ([a] + q)[1..] == q && ([a'] + q')[1..] == q';
  }

  lemma HandsOverOnce(q: seq<Tid>, idle: Tid, r: State, r': State)
    requires HandsOver(q, idle, r) && HandsOver(q, idle, r')
    ensures r.current == r'.current && r.ready == r'.ready
  {
    if q != [] {
      ConsOnce(r.current, r.ready, r'.current, r'.ready);
    }
  }

  lemma SwitchedOnce(ts: map<Tid, Thread>, c: Tid, st: Status, r: State, r': State)
    requires Switched(ts, c, st, r) && Switched(ts, c, st, r') && r.current == r'.current
    ensures r.threads == r'.threads
  {
    forall t | t in ts ensures r.threads[t] == r'.threads[t] {
    }
    assert r.threads.Keys == r'.threads.Keys;
  }

  lemma YieldsOnce(s: State, r: State, r': State)
    requires Yields(s, r) && Yields(s, r')
    ensures r == r'
  {
    hide Placed;
    hide Switched;
    if IsIdle(s, s.current) {
      HandsOverOnce(s.ready, s.idle, r, r');
    } else {
      PlacedOnce(s.threads, s.ready, [r.current] + r.ready, [r'.current] + r'.ready, s.current);
      ConsOnce(r.current, r.ready, r'.current, r'.ready);
    }
    SwitchedOnce(s.threads, s.current, Ready, r, r');
  }

  lemma ParksOnce(s: State, th: Thread, r: State, r': State)
    requires Parks(s, th, r) && Parks(s, th, r')
    ensures r.current == r'.current && r.ready == r'.ready && r.threads == r'.threads
  {
    hide Switched;
    hide HandsOver;
    HandsOverOnce(s.ready, s.idle, r, r');
    SwitchedOnce(s.threads[s.current := th], s.current, Blocked, r, r');
  }

  // ---------------------------------------------------------------- semaphores

  lemma WakesAtOnce(s: State, id: SemaId, r: State, k: nat, r': State, k': nat)
    requires id in s.semas && WakesAt(s, id, r, k) && WakesAt(s, id, r', k')
    ensures r == r'
  {
    var q := s.semas[id].waiters;
    assert k == k' by { HighestOnce(s.threads, q, k, k'); }
    hide FirstHighest;
    hide Placed;
    hide Descending;
    hide StablePermutation;
    var t, dom := q[k], set u | u in q;
    PlacedOnce(s.threads, s.ready, r.ready, r'.ready, t);
    StableOnce(s.threads, q, [t] + r.semas[id].waiters, [t] + r'.semas[id].waiters, dom);
    ConsOnce(t, r.semas[id].waiters, t, r'.semas[id].waiters);
  }

  lemma HighestOnce(ts: map<Tid, Thread>, q: seq<Tid>, k: nat, k': nat)
    requires FirstHighest(ts, q, k) && FirstHighest(ts, q, k')
    ensures k == k'
  {
    HighestAt(ts, q, k, k');
    HighestAt(ts, q, k', k);
  }

  lemma HighestAt(ts: map<Tid, Thread>, q: seq<Tid>, k: nat, j: nat)
    requires FirstHighest(ts, q, k) && j < |q|
    ensures Pri(ts, q[j]) <= Pri(ts, q[k]) && (j < k ==> Pri(ts, q[j]) < Pri(ts, q[k]))
  {
  }

  lemma StableOnce(ts: map<Tid, Thread>, q: seq<Tid>, r: seq<Tid>, r': seq<Tid>, dom: set<Tid>)
    requires Descending(ts, r) && Descending(ts, r')
    requires StablePermutation(Higher(ts), q, r, dom) && StablePermutation(Higher(ts), q, r', dom)
    ensures r == r'
  {
    HigherStrictWeak(ts, dom);
    assert Sorted(Higher(ts), r) && Sorted(Higher(ts), r');
    assert StablePermutation(Higher(ts), r, r', dom);
    hide *;
    StableSortUnique(Higher(ts), r, r', dom);
  }

  lemma WakesOnce(s: State, id: SemaId, r: State, r': State)
    requires id in s.semas && Wakes(s, id, r) && Wakes(s, id, r')
    ensures r == r'
  {
    hide WakesAt;
    if s.semas[id].waiters != [] {
      var k: nat :| WakesAt(s, id, r, k);
      var k': nat :| WakesAt(s, id, r', k');
      WakesAtOnce(s, id, r, k, r', k');
    }
  }

  lemma WakesThenOnce(s: State, id: SemaId, pc: Pc, r: State, r': State)
    requires id in s.semas && WakesThen(s, id, pc, r) && WakesThen(s, id, pc, r')
    ensures r == r'
  {
    hide Wakes;
    var m: State :| Wakes(s, id, m) && s.current in m.threads
                    && r == m.(threads := m.threads[s.current := m.threads[s.current].(pc := pc)]);
    var m': State :| Wakes(s, id, m') && s.current in m'.threads
                     && r' == m'.(threads := m'.threads[s.current := m'.threads[s.current].(pc := pc)]);
    WakesOnce(s, id, m, m');
  }

  // ---------------------------------------------------------------- locks

  lemma HighestValue(ts: map<Tid, Thread>, base: int, ds: seq<Tid>, p: int, p': int)
    requires IsHighest(ts, base, ds, p) && IsHighest(ts, base, ds, p')
    ensures p == p'
  {
  }

  lemma ReleasesOnce(s: State, l: LockId, r: State, r': State)
    requires s.current in s.threads && l in s.holder && Releases(s, l, r) && Releases(s, l, r')
    ensures r == r'
  {
    hide Filter;
    var c, th := s.current, s.threads[s.current];
    if !s.mlfqs {
      HighestValue(s.threads, th.base, r.threads[c].donations, r.threads[c].priority, r'.threads[c].priority);
    }
    hide IsHighest;
  }

  lemma SplitOnce(ts: map<Tid, Thread>, q: seq<Tid>, p: int, hi: seq<Tid>, lo: seq<Tid>, hi': seq<Tid>, lo': seq<Tid>)
    requires SplitBy(ts, q, p, hi, lo) && SplitBy(ts, q, p, hi', lo')
    ensures hi == hi' && lo == lo'
  {
    var n, n' := |hi|, |hi'|;
    if n < |q| {
      SplitAt(ts, q, p, hi, lo, n);
      SplitAt(ts, q, p, hi', lo', n);
    }
    if n' < |q| {
      SplitAt(ts, q, p, hi, lo, n');
      SplitAt(ts, q, p, hi', lo', n');
    }
    assert n == n';
    assert hi == q[..n] && hi' == q[..n] && lo == q[n..] && lo' == q[n..];
  }

  lemma SplitAt(ts: map<Tid, Thread>, q: seq<Tid>, p: int, hi: seq<Tid>, lo: seq<Tid>, i: nat)
    requires SplitBy(ts, q, p, hi, lo) && i < |q|
    ensures Pri(ts, q[i]) >= p <==> i < |hi|
  {
    if i < |hi| {
      assert q[i] == hi[i] && hi[i] in hi;
    } else {
      assert q[i] == lo[i - |hi|] && lo[i - |hi|] in lo;
    }
  }

  lemma {:induction false} ChainAt(s: State, first: Option<Tid>, p: int, hs: seq<Tid>, hs': seq<Tid>, depth: nat, i: nat)
    requires RaisedChain(s, first, p, hs, depth) && RaisedChain(s, first, p, hs', depth) && i < |hs| && i < |hs'|
    ensures hs[i] == hs'[i]
  {
    hide Blocker;
    hide Distinct;
    if i > 0 {
      ChainAt(s, first, p, hs, hs', depth, i - 1);
    }
    assert Link(s, first, hs, i) == Some(hs[i]) && Link(s, first, hs', i) == Some(hs'[i]);
  }

  /** The donation raises someone after those in `hs`. */
  ghost predicate GoesOn(s: State, first: Option<Tid>, p: int, hs: seq<Tid>, depth: nat) {
    && |hs| < depth && Link(s, first, hs, |hs|).Some?
    && var h := Link(s, first, hs, |hs|).value; h in s.threads && Pri(s.threads, h) < p && h !in hs
  }

  lemma ChainGoesOn(s: State, first: Option<Tid>, p: int, hs: seq<Tid>, depth: nat, n: nat)
    requires RaisedChain(s, first, p, hs, depth) && n < |hs|
    ensures GoesOn(s, first, p, hs[..n], depth)
  {
    hide Blocker;
    hide Pri;
    assert Link(s, first, hs, n) == Some(hs[n]) && hs[n] in hs;
    LinkPrefix(s, first, hs, n);
    NotEarlier(hs, n);
    hide Link;
    hide Distinct;
  }

  lemma LinkPrefix(s: State, first: Option<Tid>, hs: seq<Tid>, n: nat)
    requires n <= |hs|
    ensures Link(s, first, hs[..n], n) == Link(s, first, hs, n)
  {
    hide Blocker;
  }

  lemma NotEarlier<T>(q: seq<T>, n: nat)
    requires Distinct(q) && n < |q|
    ensures q[n] !in q[..n]
  {
  }

  lemma ChainEndsThere(s: State, first: Option<Tid>, p: int, hs: seq<Tid>, depth: nat)
    requires RaisedChain(s, first, p, hs, depth)
    ensures !GoesOn(s, first, p, hs, depth)
  {
  }

  lemma ChainNotShorter(s: State, first: Option<Tid>, p: int, hs: seq<Tid>, hs': seq<Tid>, depth: nat)
    requires RaisedChain(s, first, p, hs, depth) && RaisedChain(s, first, p, hs', depth)
    ensures |hs| >= |hs'|
  {
    hide GoesOn;
    var n := |hs|;
    forall i | 0 <= i < n && i < |hs'| ensures hs[i] == hs'[i] {
      ChainAt(s, first, p, hs, hs', depth, i);
    }
    hide RaisedChain;
    if n < |hs'| {
      ChainGoesOn(s, first, p, hs', depth, n);
      assert hs == hs'[..n];
    }
    ChainEndsThere(s, first, p, hs, depth);
  }

  lemma ChainOnce(s: State, first: Option<Tid>, p: int, hs: seq<Tid>, hs': seq<Tid>, depth: nat)
    requires RaisedChain(s, first, p, hs, depth) && RaisedChain(s, first, p, hs', depth)
    ensures hs == hs'
  {
    ChainNotShorter(s, first, p, hs, hs', depth);
    ChainNotShorter(s, first, p, hs', hs, depth);
    forall i | 0 <= i < |hs| ensures hs[i] == hs'[i] {
      ChainAt(s, first, p, hs, hs', depth, i);
    }
  }

  lemma AcquiresOnce(s: State, l: LockId, r: State, r': State)
    requires s.current in s.threads && l in s.holder && Acquires(s, l, r) && Acquires(s, l, r')
    ensures r == r'
  {
    hide RaisedChain;
    hide SplitBy;
    hide Lifted;
    hide Requeued;
    if !s.mlfqs && s.holder[l].Some? {
      var hs, hi, lo :| AcquiresAlong(s, l, r, hs, hi, lo);
      var hs', hi', lo' :| AcquiresAlong(s, l, r', hs', hi', lo');
      var p := s.threads[s.current].priority;
      ChainOnce(s, s.holder[l], p, hs, hs', DONATION_DEPTH);
      SplitOnce(s.threads, s.ready, p, hi, lo, hi', lo');
    }
  }

  // ---------------------------------------------------------------- ticks

  lemma DueOnce(ts: map<Tid, Thread>, q: seq<Tid>, now: int, n: nat, n': nat)
    requires Due(ts, q, now, n) && Due(ts, q, now, n')
    ensures n == n'
  {
    if n < |q| {
      DueAt(ts, q, now, n, n);
      DueAt(ts, q, now, n', n);
    }
    if n' < |q| {
      DueAt(ts, q, now, n, n');
      DueAt(ts, q, now, n', n');
    }
  }

  lemma DueAt(ts: map<Tid, Thread>, q: seq<Tid>, now: int, n: nat, i: nat)
    requires Due(ts, q, now, n) && i < |q|
    ensures WakeTick(ts, q[i]) <= now <==> i < n
  {
  }

  lemma QueuedOnce(ts: map<Tid, Thread>, q: seq<Tid>, r: seq<Tid>, r': seq<Tid>)
    requires Queued(ts, q, r) && Queued(ts, q, r')
    ensures r == r'
  {
    StableOnce(ts, q, r, r', ts.Keys);
  }

  lemma InterruptedOnce(s: State, m: State, n: nat, m': State, n': nat)
    requires Interrupted(s, m, n) && Interrupted(s, m', n')
    ensures m == m'
  {
    DueOnce(s.threads, s.sleep, s.ticks + 1, n, n');
    hide Due;
    hide Ticked;
    hide NewLoad;
    hide Queued;
    assert m.threads == m'.threads;
    QueuedOnce(m.threads, s.ready + s.sleep[..n], m.ready, m'.ready);
  }

  lemma TicksOnce(s: State, r: State, r': State)
    requires Ticks(s, r) && Ticks(s, r')
    ensures r == r'
  {
    hide Interrupted;
    hide Yields;
    var m, n: nat :| Interrupted(s, m, n) && if m.slice >= TIME_SLICE then Yields(m, r) else r == m;
    var m', n': nat :| Interrupted(s, m', n') && if m'.slice >= TIME_SLICE then Yields(m', r') else r' == m';
    InterruptedOnce(s, m, n, m', n');
    if m.slice >= TIME_SLICE {
      YieldsOnce(m, r, r');
    }
  }

  // ---------------------------------------------------------------- every step

  lemma SwitchesOnce(s: State, a: Action, r: State, r': State)
    requires Enabled(s, a) && Effect(s, a, r) && Effect(s, a, r')
    requires a.Tick? || a.CreateTest? || a.PreemptTest? || a.YieldCpu? || a.Exit? || a.Sleep? || a.IdleBlock?
    ensures r == r'
  {
    hide Ticks;
    hide Yields;
    hide Parks;
    hide HandsOver;
    hide Sleeps;
    var c, th := s.current, s.threads[s.current];
    match a
    case Tick => TicksOnce(s, r, r');
    case YieldCpu => YieldsOnce(s, r, r');
    case Exit => HandsOverOnce(s.ready, s.idle, r, r');
    case Sleep(w) =>
      var th' := th.(wakeTick := w, pc := Asleep);
      ParksOnce(s, th', r, r');
      SleepsOnce(s.threads[c := th'], s.sleep, r.sleep, r'.sleep, c);
    case IdleBlock => ParksOnce(s, th, r, r');
    case _ =>
      var s1 := s.(threads := s.threads[c := th.(pc := Free)]);
      if Yields(s1, r) && Yields(s1, r') { YieldsOnce(s1, r, r'); }
  }

  lemma OthersOnce(s: State, a: Action, r: State, r': State)
    requires Enabled(s, a) && Effect(s, a, r) && Effect(s, a, r')
    requires !(a.Tick? || a.CreateTest? || a.PreemptTest? || a.YieldCpu? || a.Exit? || a.Sleep? || a.IdleBlock?)
    ensures r == r'
  {
    hide Wakes;
    hide WakesThen;
    hide Acquires;
    hide Releases;
    hide Waits;
    hide Placed;
    hide IsHighest;
    var c, th := s.current, s.threads[s.current];
    match a
    case IntrUp(id) => WakesOnce(s, id, r, r');
    case SemaUp(id) => WakesThenOnce(s, id, Recheck, r, r');
    case Create(t, p) => CreatesOnce(s, t, p, r, r');
    case SetPriority(p) => if !s.mlfqs { HighestValue(s.threads, p, th.donations, r.threads[c].priority, r'.threads[c].priority); }
    case TestDown => if s.semas[th.pc.sema].value == 0 { WaitsOnce(s, th.pc.sema, r, r'); }
    case Acquire(l) => AcquiresOnce(s, l, r, r');
    case Release(l) => ReleasesOnce(s, l, r, r');
    case GiveUp =>
      var m :| WakesThen(s, OfLock(th.pc.lock), Recheck, m) && r == m.(owner := s.owner[th.pc.lock := None]);
      var m' :| WakesThen(s, OfLock(th.pc.lock), Recheck, m') && r' == m'.(owner := s.owner[th.pc.lock := None]);
      WakesThenOnce(s, OfLock(th.pc.lock), Recheck, m, m');
    case _ =>
  }

  lemma CreatesOnce(s: State, t: Tid, p: int, r: State, r': State)
    requires s.current in s.threads && Creates(s, t, p, r) && Creates(s, t, p, r')
    ensures r == r'
  {
    hide Placed;
    PlacedOnce(r.threads, s.ready, r.ready, r'.ready, t);
  }

  lemma WaitsOnce(s: State, id: SemaId, r: State, r': State)
    requires s.current in s.threads && id in s.semas && Waits(s, id, r) && Waits(s, id, r')
    ensures r == r'
  {
    hide Placed;
    hide Parks;
    ParksOnce(s, s.threads[s.current].(pc := Down(id, true)), r, r');
    PlacedOnce(s.threads, s.semas[id].waiters, r.semas[id].waiters, r'.semas[id].waiters, s.current);
  }

  /** The relation leaves one state after each step: the one the step leads to. */
  lemma EffectOnce(s: State, a: Action, r: State)
    requires Inv(s) && Enabled(s, a) && Effect(s, a, r)
    ensures Safe(s, a) && r == Next(s, a)
  {
    hide Inv;
    hide Enabled;
    hide Safe;
    hide Next;
    hide Effect;
    StepEffect(s, a);
    if a.Tick? || a.CreateTest? || a.PreemptTest? || a.YieldCpu? || a.Exit? || a.Sleep? || a.IdleBlock? {
      SwitchesOnce(s, a, r, Next(s, a));
    } else {
      OthersOnce(s, a, r, Next(s, a));
    }
  }
}
