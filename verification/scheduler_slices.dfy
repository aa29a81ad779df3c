/** Time slices: thread_ticks counts the ticks since the last dispatch and never reaches four
    outside the timer interrupt. */
module SchedulerSlices {
  import opened Collections
  import opened Ordering
  import opened Scheduler
  import opened SchedulerQueues
  import SchedulerRuns

  /** The same thread runs in the same slice. */
  ghost predicate SameSlice(s: State, s': State) {
    s'.slice == s.slice && s'.current == s.current
  }

  lemma {:induction false} WakeSlice(s: State)
    requires forall t | t in s.sleep :: t in s.threads
    ensures SameSlice(s, Wake(s))
    decreases |s.sleep|
  {
    if s.sleep != [] && WakeTick(s.threads, s.sleep[0]) <= s.ticks {
      hide InsertOrdered;
      var r := WakeFront(s);
      assert SameSlice(s, r) && r.sleep == s.sleep[1..];
      assert forall t | t in r.sleep :: t in r.threads;
      WakeSlice(r);
    }
  }

  lemma InterruptSlice(s: State)
    requires s.current in s.threads && s.loadAvg >= 0 && forall t | t in s.sleep :: t in s.threads
    ensures TimerInterrupt(s).slice == s.slice + 1 && TimerInterrupt(s).current == s.current
  {
    hide Wake;
    hide Account;
    hide StableSort;
    var s1 := s.(ticks := s.ticks + 1);
    AccountFrame(s1);
    var s2 := if s.mlfqs then MlfqsTick(s1) else s1;
    assert s2.slice == s.slice && s2.current == s.current && s2.sleep == s.sleep && s2.threads.Keys == s.threads.Keys;
    WakeSlice(s2.(slice := s2.slice + 1));
  }

  /** A tick makes the count one more, and at four it dispatches, which makes it zero. */
  lemma TickSlice(s: State)
    requires Enabled(s, Tick) && Safe(s, Tick)
    ensures var r := Next(s, Tick);
            if s.slice + 1 < TIME_SLICE then r.slice == s.slice + 1 && r.current == s.current else r.slice == 0
  {
    hide TimerInterrupt;
    hide Yield;
    hide CanYield;
    InterruptSlice(s);
    if TickExpires(s) {
      YieldFrame(TimerInterrupt(s));
    }
  }

  lemma SwitchSlice(s: State, a: Action)
    requires Enabled(s, a) && Safe(s, a)
    requires a.CreateTest? || a.PreemptTest? || a.YieldCpu? || a.Exit? || a.Sleep? || a.IdleBlock? || a.TestDown?
    ensures Next(s, a).slice == 0 || SameSlice(s, Next(s, a))
  {
    hide InsertOrdered;
    hide Yield;
    hide CanYield;
    hide Next;
    hide Safe;
    hide Enabled;
    if a.CreateTest? || a.PreemptTest? || a.YieldCpu? {
      SwitchIs(s, a);
      var s1 := if a.YieldCpu? then s else SetPc(s, s.current, Free);
      if CanYield(s1) {
        YieldFrame(s1);
      }
    } else if a.TestDown? {
      TestDownIs(s);
    } else {
      LeaveIs(s, a);
    }
  }

  lemma RecordSlice(s: State, a: Action)
    requires Enabled(s, a) && Safe(s, a)
    requires a.Create? || a.SetPriority? || a.SetNice? || a.BeginDown? || a.TryDown? || a.ClearWaiting? || a.SetHolder?
          || a.TryAcquire? || a.Release? || a.IdleStart?
    ensures SameSlice(s, Next(s, a))
  {
    hide InsertOrdered;
    hide Effective;
    hide DropDonors;
  }

  lemma UpSlice(s: State, a: Action)
    requires Enabled(s, a) && Safe(s, a) && (a.IntrUp? || a.SemaUp? || a.GiveUp?)
    ensures SameSlice(s, Next(s, a))
  {
    hide Up;
    UpFrame(s, if a.GiveUp? then OfLock(s.threads[s.current].pc.lock) else a.id);
  }

  lemma AcquireSlice(s: State, l: LockId)
    requires Enabled(s, Acquire(l)) && Safe(s, Acquire(l))
    ensures SameSlice(s, Next(s, Acquire(l)))
  {
    hide Donate;
    if !s.mlfqs && s.holder[l].Some? {
      var c, h := s.current, s.holder[l].value;
      var s1 := SetPc(s, c, Down(OfLock(l), false));
      var ts := s1.threads[c := s1.threads[c].(waiting := Some(l))];
      DonateFrame(s1.(threads := ts[h := ts[h].(donations := ts[h].donations + [c])]), c, DONATION_DEPTH);
    }
  }

  /** Every other step dispatches or leaves the count and the running thread alone. */
  lemma OtherSlice(s: State, a: Action)
    requires Enabled(s, a) && Safe(s, a) && !a.Tick?
    ensures Next(s, a).slice == 0 || SameSlice(s, Next(s, a))
  {
    hide Next;
    hide Enabled;
    hide Safe;
    if a.CreateTest? || a.PreemptTest? || a.YieldCpu? || a.Exit? || a.Sleep? || a.IdleBlock? || a.TestDown? {
      SwitchSlice(s, a);
    } else if a.IntrUp? || a.SemaUp? || a.GiveUp? {
      UpSlice(s, a);
    } else if a.Acquire? {
      AcquireSlice(s, a.lock);
    } else {
      RecordSlice(s, a);
    }
  }

  /** In every state of every run the running thread has had fewer than four ticks since it was
      dispatched. */
  lemma {:induction false} RunSlices(ss: seq<State>, acts: seq<Action>, n: nat)
    requires SchedulerRuns.IsRun(ss, acts) && n < |ss|
    ensures ss[n].slice < TIME_SLICE
  {
    hide Next;
    hide Enabled;
    hide Safe;
    if n > 0 {
      RunSlices(ss, acts, n - 1);
      var s, a := ss[n - 1], acts[n - 1];
      assert SchedulerRuns.Step(s, a, ss[n - 1 + 1]);
      if a.Tick? {
        TickSlice(s);
      } else {
        OtherSlice(s, a);
      }
    }
  }
}
