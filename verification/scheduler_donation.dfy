/** Priority donation: exactly when a thread's priority covers those of its donors. */
module SchedulerDonation {
  import opened Collections
  import opened Ordering
  import opened Scheduler
  import opened SchedulerQueues
  import opened SchedulerSync

  /** Every structural invariant of the scheduler. */
  ghost predicate Inv(s: State) {
    Queues(s) && Live(s) && Sync(s)
  }

  lemma StepKeepsInv(s: State, a: Action)
    requires Inv(s) && Enabled(s, a)
    ensures Safe(s, a) && Inv(Next(s, a))
  {
    hide Queues;
    hide Live;
    hide Sync;
    StepKeepsSync(s, a);
    SyncBase(s);
    StepKeepsQueues(s, a);
  }

  /** Following waits from `t`: the holders with priority below `p` that are not in `raised`
      number at most `n`, or the one after them does not count its predecessor as a donor. */
  predicate ChainFits(s: State, t: Tid, p: int, raised: set<Tid>, n: nat)
    decreases n
  {
    match Blocker(s, t)
    case None => true
    case Some(h) =>
      if h !in s.threads || Pri(s.threads, h) >= p || h in raised then true
      else if n == 0 then t !in s.threads[h].donations
      else ChainFits(s, h, p, raised + {h}, n - 1)
  }

  /** Whether lock_acquire's donation reaches far enough, judged before the call. */
  predicate DonationFits(s: State, l: LockId)
    requires s.current in s.threads && l in s.holder
  {
    || s.mlfqs || s.holder[l].None?
    || (var h, p := s.holder[l].value, Pri(s.threads, s.current);
        Pri(s.threads, h) >= p || ChainFits(s, h, p, {h}, DONATION_DEPTH - 1))
  }

  /** Covered, except possibly for what `t` donates. */
  ghost predicate CoveredBut(s: State, t: Tid) {
    && !s.mlfqs
    && forall h, d | h in s.threads && d in s.threads[h].donations && d != t :: Pri(s.threads, h) >= Pri(s.threads, d)
  }

  lemma {:induction false} ChainRaised(s: State, h: Tid, p: int, t: Tid, raised: set<Tid>, n: nat)
    requires h in s.threads
    ensures ChainFits(Raise(s, h, p), t, p, raised, n) == ChainFits(s, t, p, raised + {h}, n)
    decreases n
  {
    RaiseFrame(s, h, p);
    hide Raise;
    var r := Raise(s, h, p);
    assert Blocker(r, t) == Blocker(s, t);
    if Blocker(s, t).Some? && n > 0 {
      var h' := Blocker(s, t).value;
      ChainRaised(s, h, p, h', raised + {h'}, n - 1);
      assert raised + {h'} + {h} == raised + {h} + {h'};
    }
  }

  /** The donors of a thread are found by following their waits. */
  lemma DonorBlocker(s: State, d: Tid, h: Tid)
    requires Donors(s) && h in s.threads && d in s.threads[h].donations
    ensures Blocker(s, d) == Some(h)
  {
    assert WaitsFor(s, d, h);
  }

  /** Donation up to `n` holders restores coverage if and only if the chain fits. */
  lemma {:induction false} DonateCovers(s: State, t: Tid, n: nat)
    requires Donors(s) && HoldersExist(s) && t in s.threads && CoveredBut(s, t)
    ensures Covered(Donate(s, t, n)) <==> ChainFits(s, t, Pri(s.threads, t), {}, n)
    decreases n
  {
    forall h | h in s.threads && t in s.threads[h].donations ensures Blocker(s, t) == Some(h) {
      DonorBlocker(s, t, h);
    }
    var p := Pri(s.threads, t);
    if Blocker(s, t).Some? {
      var h := Blocker(s, t).value;
      BlockerExists(s, t);
      if Pri(s.threads, h) >= p {
        assert Covered(s);
      } else if n == 0 {
        assert Covered(s) <==> t !in s.threads[h].donations;
      } else {
        RaiseOnce(s, t, h);
        var r := Raise(s, h, p);
        DonateCovers(r, h, n - 1);
        ChainRaised(s, h, p, h, {}, n - 1);
        assert {} + {h} == {h};
      }
    } else {
      assert Covered(s);
    }
  }

  /** Raising the holder settles what `t` donates and unsettles only what the holder donates. */
  lemma RaiseOnce(s: State, t: Tid, h: Tid)
    requires Donors(s) && HoldersExist(s) && t in s.threads && CoveredBut(s, t)
    requires Blocker(s, t) == Some(h) && h in s.threads && Pri(s.threads, h) < Pri(s.threads, t)
    ensures var r := Raise(s, h, Pri(s.threads, t));
            Donors(r) && HoldersExist(r) && CoveredBut(r, h) && h in r.threads && Pri(r.threads, h) == Pri(s.threads, t)
  {
    var p := Pri(s.threads, t);
    RaiseFrame(s, h, p);
    hide Raise;
    var r := Raise(s, h, p);
    assert forall d, h' :: WaitsFor(s, d, h') ==> WaitsFor(r, d, h');
    forall h', d | h' in r.threads && d in r.threads[h'].donations && d != h
      ensures Pri(r.threads, h') >= Pri(r.threads, d)
    {
      if d == t {
        DonorBlocker(s, t, h');
      }
    }
  }

  // ---------------------------------------------------------------- the acquiring step

  lemma RegisteredCoveredBut(s: State, l: LockId)
    requires Sync(s) && Covered(s) && Enabled(s, Acquire(l)) && !s.mlfqs && s.holder[l].Some?
    ensures s.holder[l].value in s.threads && CoveredBut(Registered(s, l), s.current)
  {
    var c, h, r := s.current, s.holder[l].value, Registered(s, l);
    assert forall u :: Pri(r.threads, u) == Pri(s.threads, u);
    forall h', d | h' in r.threads && d in r.threads[h'].donations && d != c
      ensures Pri(r.threads, h') >= Pri(r.threads, d)
    {
      assert d in s.threads[h'].donations;
    }
  }

  /** The chain is the same before and after the caller is entered as a donor. */
  lemma {:induction false} ChainRegistered(s: State, l: LockId, t: Tid, raised: set<Tid>, n: nat)
    requires Sync(s) && Enabled(s, Acquire(l)) && !s.mlfqs && s.holder[l].Some? && s.holder[l].value in s.threads
    requires t in s.threads && t != s.current
    ensures ChainFits(Registered(s, l), t, Pri(s.threads, s.current), raised, n)
         == ChainFits(s, t, Pri(s.threads, s.current), raised, n)
    decreases n
  {
    var r := Registered(s, l);
    assert Blocker(r, t) == Blocker(s, t);
    assert forall u :: Pri(r.threads, u) == Pri(s.threads, u);
    if Blocker(s, t).Some? && n > 0 {
      var h := Blocker(s, t).value;
      if h in s.threads && h != s.current {
        hide Sync;
        ChainRegistered(s, l, h, raised + {h}, n - 1);
      }
    }
  }

  /** The property that donation exists for, and its exact limit: after lock_acquire has
      donated, every priority covers its donors if and only if the chain fits. */
  lemma AcquireCoversIff(s: State, l: LockId)
    requires Inv(s) && Covered(s) && Enabled(s, Acquire(l))
    ensures Safe(s, Acquire(l))
    ensures Covered(Next(s, Acquire(l))) <==> DonationFits(s, l)
  {
    hide Queues;
    hide Donate;
    hide ChainFits;
    StepKeepsInv(s, Acquire(l));
    if !s.mlfqs {
      if s.holder[l].None? {
        CoveredFrame(s, Next(s, Acquire(l)));
      } else {
        AcquireHeld(s, l);
      }
    }
  }

  lemma AcquireHeld(s: State, l: LockId)
    requires Sync(s) && Covered(s) && Enabled(s, Acquire(l)) && s.current != s.idle && !s.mlfqs && s.holder[l].Some?
    ensures s.holder[l].value in s.threads
    ensures Covered(StartAcquire(s, l)) <==> DonationFits(s, l)
  {
    hide Sync;
    hide Covered;
    hide Donate;
    hide CoveredBut;
    hide Enabled;
    AcquireIs(s, l);
    var c := s.current;
    var h, p := s.holder[l].value, Pri(s.threads, c);
    RegisteredCoveredBut(s, l);
    RegisteredSync(s, l);
    var s1 := Registered(s, l);
    SyncDonors(s1);
    DonateCovers(s1, c, DONATION_DEPTH);
    assert Blocker(s1, c) == Some(h) && Pri(s1.threads, h) == Pri(s.threads, h) && Pri(s1.threads, c) == p;
    ChainRegistered(s, l, h, {h}, DONATION_DEPTH - 1);
    assert {} + {h} == {h};
  }

  lemma SyncDonors(s: State)
    requires Sync(s)
    ensures Donors(s) && HoldersExist(s)
  {
  }

  // ---------------------------------------------------------------- all other steps

  ghost predicate SameDonation(s: State, s': State) {
    && s'.mlfqs == s.mlfqs && s'.threads.Keys == s.threads.Keys
    && forall t | t in s.threads ::
         s'.threads[t].priority == s.threads[t].priority && s'.threads[t].donations == s.threads[t].donations
  }

  lemma CoveredFrame(s: State, s': State)
    requires SameDonation(s, s')
    ensures Covered(s) <==> Covered(s')
  {
    assert forall t :: Pri(s'.threads, t) == Pri(s.threads, t);
  }

  lemma FreeIsNoDonor(s: State, h: Tid)
    requires Donors(s) && s.current in s.threads && s.threads[s.current].pc == Free && h in s.threads
    ensures s.current !in s.threads[h].donations
  {
    assert s.current in s.threads[h].donations ==> WaitsFor(s, s.current, h);
  }

  /** Only the current thread's priority and donors change, it donates to nobody, and its new
      priority covers its new donors. */
  lemma CoveredByCurrent(s: State, s': State)
    requires Covered(s) && Donors(s) && s.current in s.threads && s.threads[s.current].pc == Free
    requires s'.mlfqs == s.mlfqs && s'.threads.Keys == s.threads.Keys
    requires forall t | t in s.threads && t != s.current ::
               s'.threads[t].priority == s.threads[t].priority && s'.threads[t].donations == s.threads[t].donations
    requires forall d | d in s'.threads[s.current].donations ::
               d in s.threads[s.current].donations && Pri(s.threads, d) <= s'.threads[s.current].priority
    ensures Covered(s')
  {
    var c := s.current;
    forall h, d | h in s'.threads && d in s'.threads[h].donations ensures !s.mlfqs ==> Pri(s'.threads, h) >= Pri(s'.threads, d) {
      FreeIsNoDonor(s, h);
      assert d in s.threads[h].donations && d != c;
      assert Pri(s'.threads, d) == Pri(s.threads, d);
    }
  }

  lemma SetPriorityCovers(s: State, p: int)
    requires Inv(s) && Covered(s) && Enabled(s, SetPriority(p))
    ensures Covered(Next(s, SetPriority(p)))
  {
    hide Effective;
    hide Queues;
    EffectiveIsMax(s.threads, p, s.threads[s.current].donations);
    CoveredByCurrent(s, Next(s, SetPriority(p)));
  }

  /** The donors and the priority that a release leaves. */
  lemma Released(s: State, l: LockId)
    requires Donors(s) && Enabled(s, Release(l)) && !s.mlfqs
    ensures var c, th := s.current, Next(s, Release(l)).threads[s.current];
            && (forall d :: d in th.donations <==> d in s.threads[c].donations && s.threads[d].waiting != Some(l))
            && s.threads[c].base <= th.priority
            && (forall d | d in th.donations :: Pri(s.threads, d) <= th.priority)
            && (th.priority == s.threads[c].base || exists d | d in th.donations :: Pri(s.threads, d) == th.priority)
  {
    hide Effective;
    hide DropDonors;
    var c := s.current;
    var ts := SetPc(s.(holder := s.holder[l := None]), c, Giving(l)).threads;
    var ds := DropDonors(ts, s.threads[c].donations, l);
    DropDonorsMembers(ts, s.threads[c].donations, l);
    EffectiveIsMax(ts, s.threads[c].base, ds);
    assert forall d | d in s.threads[c].donations :: WaitsFor(s, d, c);
    assert forall d :: Pri(ts, d) == Pri(s.threads, d);
  }

  lemma ReleaseCovers(s: State, l: LockId)
    requires Inv(s) && Covered(s) && Enabled(s, Release(l))
    ensures Covered(Next(s, Release(l)))
  {
    hide Effective;
    hide DropDonors;
    hide Queues;
    if !s.mlfqs {
      Released(s, l);
      CoveredByCurrent(s, Next(s, Release(l)));
    }
  }

  /** Just after a release a thread's priority is exactly the maximum of its base and its
      remaining donors, and those are the donors for its other locks. */
  lemma ReleaseExact(s: State, l: LockId)
    requires Inv(s) && Enabled(s, Release(l)) && !s.mlfqs
    ensures var c, s' := s.current, Next(s, Release(l));
            && (forall d :: d in s'.threads[c].donations <==>
                  d in s.threads[c].donations && s.threads[d].waiting != Some(l))
            && s'.threads[c].priority >= s.threads[c].base
            && (forall d | d in s'.threads[c].donations :: s'.threads[c].priority >= Pri(s'.threads, d))
            && (s'.threads[c].priority == s.threads[c].base
                || exists d | d in s'.threads[c].donations :: s'.threads[c].priority == Pri(s'.threads, d))
  {
    hide Effective;
    hide DropDonors;
    hide Queues;
    Released(s, l);
    FreeIsNoDonor(s, s.current);
    assert forall d | d != s.current :: Pri(Next(s, Release(l)).threads, d) == Pri(s.threads, d);
  }

  /** Just after thread_set_priority the base is the new one, the donors are as they were, and the
      priority is exactly the maximum of the two. */
  lemma SetPriorityExact(s: State, p: int)
    requires Inv(s) && Enabled(s, SetPriority(p)) && !s.mlfqs
    ensures var c, s' := s.current, Next(s, SetPriority(p));
            && s'.threads[c].base == p && s'.threads[c].donations == s.threads[c].donations
            && s'.threads[c].priority >= p
            && (forall d | d in s'.threads[c].donations :: s'.threads[c].priority >= Pri(s'.threads, d))
            && (s'.threads[c].priority == p
                || exists d | d in s'.threads[c].donations :: s'.threads[c].priority == Pri(s'.threads, d))
  {
    hide Effective;
    hide Queues;
    EffectiveIsMax(s.threads, p, s.threads[s.current].donations);
    FreeIsNoDonor(s, s.current);
    assert forall d | d != s.current :: Pri(Next(s, SetPriority(p)).threads, d) == Pri(s.threads, d);
  }

  lemma CreateCovers(s: State, t: Tid, p: int)
    requires Donors(s) && Covered(s) && Enabled(s, Create(t, p))
    ensures Covered(Next(s, Create(t, p)))
  {
    hide InsertOrdered;
    var s' := Next(s, Create(t, p));
    forall h, d | h in s'.threads && d in s'.threads[h].donations
      ensures !s.mlfqs ==> Pri(s'.threads, h) >= Pri(s'.threads, d)
    {
      assert d in s.threads[h].donations && WaitsFor(s, d, h);
      assert !s.mlfqs ==> Pri(s.threads, h) >= Pri(s.threads, d);
      assert Pri(s'.threads, h) == Pri(s.threads, h) && Pri(s'.threads, d) == Pri(s.threads, d);
    }
  }

  lemma ExitCovers(s: State)
    requires Donors(s) && Covered(s) && Enabled(s, Exit) && Safe(s, Exit)
    ensures Covered(Next(s, Exit))
  {
    var s' := Next(s, Exit);
    forall h, d | h in s'.threads && d in s'.threads[h].donations
      ensures !s.mlfqs ==> Pri(s'.threads, h) >= Pri(s'.threads, d)
    {
      FreeIsNoDonor(s, h);
      assert d in s.threads[h].donations && WaitsFor(s, d, h);
      assert !s.mlfqs ==> Pri(s.threads, h) >= Pri(s.threads, d);
      assert Pri(s'.threads, h) == Pri(s.threads, h) && Pri(s'.threads, d) == Pri(s.threads, d);
    }
  }

  lemma ModeConstant(s: State, a: Action)
    requires Enabled(s, a) && Safe(s, a)
    ensures Next(s, a).mlfqs == s.mlfqs
  {
    hide InsertOrdered;
    hide TimerInterrupt;
    hide Yield;
    hide CanYield;
    hide Block;
    hide CanBlock;
    hide CanDispatch;
    hide Up;
    hide Donate;
    hide Effective;
    hide DropDonors;
  }

  lemma MlfqsCovered(s: State, a: Action)
    requires Enabled(s, a) && Safe(s, a) && s.mlfqs
    ensures Covered(Next(s, a))
  {
    hide Next;
    ModeConstant(s, a);
  }

  lemma SameSyncDonation(s: State, s': State)
    requires SameSync(s, s') && !s.mlfqs
    ensures SameDonation(s, s')
  {
  }

  /** Steps that dispatch, wake or only move the current thread leave donations alone. */
  lemma SwitchDonation(s: State, a: Action)
    requires Enabled(s, a) && Safe(s, a) && !s.mlfqs
    requires a.CreateTest? || a.PreemptTest? || a.YieldCpu? || a.Sleep? || a.IdleBlock?
          || (a.TestDown? && s.semas[s.threads[s.current].pc.sema].value == 0)
    ensures SameDonation(s, Next(s, a))
  {
    hide InsertOrdered;
    var s1 := match a
      case Sleep(w) => StartSleep(s, w)
      case TestDown => StartWait(s, s.threads[s.current].pc.sema)
      case CreateTest => SetPc(s, s.current, Free)
      case PreemptTest => SetPc(s, s.current, Free)
      case _ => s;
    assert SameDonation(s, s1);
    hide Yield;
    hide Block;
    if Next(s, a) != s1 {
      if a.Sleep? || a.TestDown? || a.IdleBlock? {
        BlockSame(s1);
      } else {
        YieldSame(s1);
      }
      SameSyncDonation(s1, Next(s, a));
    }
  }

  lemma UpDonation(s: State, a: Action)
    requires Enabled(s, a) && Safe(s, a) && (a.IntrUp? || a.SemaUp? || a.GiveUp?)
    ensures SameDonation(s, Next(s, a))
  {
    hide Up;
    UpFrame(s, if a.GiveUp? then OfLock(s.threads[s.current].pc.lock) else a.id);
  }

  lemma LocalDonation(s: State, a: Action)
    requires Enabled(s, a) && Safe(s, a)
    requires a.BeginDown? || a.TryDown? || a.ClearWaiting? || a.SetHolder? || a.TryAcquire? || a.IdleStart?
          || (a.TestDown? && s.semas[s.threads[s.current].pc.sema].value != 0)
    ensures SameDonation(s, Next(s, a))
  {
    hide Next;
    hide Safe;
    hide Enabled;
    match a
    case BeginDown(id) => BeginDownIs(s, id);
    case TryDown(id) => TryIs(s, a);
    case TryAcquire(l) => TryIs(s, a);
    case ClearWaiting => TakenIs(s, a);
    case SetHolder => TakenIs(s, a);
    case IdleStart => IdleStartIs(s);
    case TestDown => TestDownIs(s);
  }

  /** Every step but an acquisition keeps priorities above their donors'. */
  lemma OtherStepsCover(s: State, a: Action)
    requires Inv(s) && Covered(s) && Enabled(s, a) && !a.Acquire?
    ensures Safe(s, a) && Covered(Next(s, a))
  {
    hide Queues;
    hide Live;
    hide Sync;
    hide Covered;
    StepKeepsInv(s, a);
    SyncDonors(s);
    if s.mlfqs {
      MlfqsCovered(s, a);
    } else if a.SetPriority? {
      SetPriorityCovers(s, a.priority);
    } else if a.Release? {
      ReleaseCovers(s, a.lock);
    } else if a.Create? {
      CreateCovers(s, a.t, a.priority);
    } else if a.Exit? {
      ExitCovers(s);
    } else {
      StepDonation(s, a);
      CoveredFrame(s, Next(s, a));
    }
  }

  lemma StepDonation(s: State, a: Action)
    requires Inv(s) && Enabled(s, a) && Safe(s, a) && !s.mlfqs
    requires !a.SetPriority? && !a.Release? && !a.Create? && !a.Exit? && !a.Acquire?
    ensures SameDonation(s, Next(s, a))
  {
    hide Queues;
    hide Live;
    hide Sync;
    hide SameDonation;
    if a.Tick? {
      TickSync(s);
      SameSyncDonation(s, Next(s, a));
    } else if a.IntrUp? || a.SemaUp? || a.GiveUp? {
      UpDonation(s, a);
    } else if a.CreateTest? || a.PreemptTest? || a.YieldCpu? || a.Sleep? || a.IdleBlock?
           || (a.TestDown? && s.semas[s.threads[s.current].pc.sema].value == 0) {
      SwitchDonation(s, a);
    } else {
      LocalDonation(s, a);
    }
  }
}
