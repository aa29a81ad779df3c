/** Which threads a donation raises, and where it leaves them in the ready list. */
module SchedulerChains {
  import opened Collections
  import opened Ordering
  import opened Scheduler
  import opened SchedulerQueues
  import opened SchedulerSync
  import opened SchedulerDonation
  import opened SchedulerEffects

  /** Whoever comes `i`-th when waits are followed from `first` along `hs`. */
  function Link(s: State, first: Option<Tid>, hs: seq<Tid>, i: nat): (h: Option<Tid>)
    requires i <= |hs|
  {
    if i == 0 then first else Blocker(s, hs[i - 1])
  }

  /** The threads that a donation of priority `p` raises, judged before it: from `first` on, each
      next one holds the lock the last one waits for; all are below `p`; and it goes on until
      `depth` threads are raised, the waits end, or they lead to a thread that is high enough or
      among those raised. */
  ghost predicate RaisedChain(s: State, first: Option<Tid>, p: int, hs: seq<Tid>, depth: nat) {
    && |hs| <= depth && Distinct(hs)
    && (forall i | 0 <= i < |hs| :: Link(s, first, hs, i) == Some(hs[i]))
    && (forall h | h in hs :: h in s.threads && Pri(s.threads, h) < p)
    && (|hs| == depth ||
        match Link(s, first, hs, |hs|)
        case None => true
        case Some(h) => h !in s.threads || Pri(s.threads, h) >= p || h in hs)
  }

  function Lifted(ts: map<Tid, Thread>, hs: seq<Tid>, p: int): (r: map<Tid, Thread>) {
    map t | t in ts :: if t in hs then ts[t].(priority := p) else ts[t]
  }

  function InList(q: seq<Tid>): (f: Tid -> bool) {
    x => x in q
  }

  function NotInList(q: seq<Tid>): (f: Tid -> bool) {
    x => x !in q
  }

  /** The ready list with those raised to `p` taken out and put, in the order they were raised,
      behind everyone of at least that priority. */
  function Requeued(hi: seq<Tid>, lo: seq<Tid>, hs: seq<Tid>): (q: seq<Tid>) {
    hi + Filter(InList(lo), hs) + Filter(NotInList(hs), lo)
  }

  /** `hi` and `lo` are the parts of the ready list with at least priority `p` and with less. */
  ghost predicate SplitBy(ts: map<Tid, Thread>, q: seq<Tid>, p: int, hi: seq<Tid>, lo: seq<Tid>) {
    && q == hi + lo && Distinct(q)
    && (forall x | x in hi :: Pri(ts, x) >= p) && forall x | x in lo :: Pri(ts, x) < p
  }

  ghost predicate ReadyListed(s: State) {
    forall h | h in s.threads && h != s.idle :: h in s.ready <==> s.threads[h].status == Ready
  }

  // ---------------------------------------------------------------- one raise

  lemma {:induction false} WithoutConcat(a: seq<Tid>, b: seq<Tid>, x: Tid)
    requires x !in a
    ensures Without(a + b, x) == a + Without(b, x)
  {
    if a == [] {
      assert a + b == b;
    } else {
      assert (a + b)[0] == a[0] && (a + b)[1..] == a[1..] + b;
      WithoutConcat(a[1..], b, x);
    }
  }

  /** Priorities are those of `ts`, but for `h`, which has `p`. */
  ghost predicate OneRaised(ts: map<Tid, Thread>, ts': map<Tid, Thread>, h: Tid, p: int) {
    forall x :: Pri(ts', x) == if x == h then p else Pri(ts, x)
  }

  lemma RaisedList(ts: map<Tid, Thread>, ts': map<Tid, Thread>, q: seq<Tid>, p: int, hi: seq<Tid>, lo: seq<Tid>, h: Tid)
    requires SplitBy(ts, q, p, hi, lo) && h in lo && OneRaised(ts, ts', h, p)
    ensures InsertOrdered(Higher(ts'), Without(q, h), h) == hi + [h] + Without(lo, h)
  {
    hide InsertOrdered;
    hide Without;
    hide Distinct;
    var q', r := Without(q, h), hi + [h] + Without(lo, h);
    WithoutConcat(hi, lo, h);
    WithoutMembers(lo, h);
    InsertPlaces(ts', q', h);
    hide Placed;
    assert PlacedAt(ts', q', r, h, |hi|) by {
      assert q' == hi + Without(lo, h);
      assert forall j | 0 <= j < |hi| :: q'[j] in hi;
      assert |hi| < |q'| ==> q'[|hi|] in Without(lo, h);
    }
    assert Placed(ts', q', r, h) by { PlacedHere(ts', q', r, h, |hi|); }
    PlacedOnce(ts', q', r, InsertOrdered(Higher(ts'), q', h), h);
  }

  lemma PlacedHere(ts: map<Tid, Thread>, q: seq<Tid>, r: seq<Tid>, t: Tid, k: nat)
    requires PlacedAt(ts, q, r, t, k)
    ensures Placed(ts, q, r, t)
  {
  }

  lemma SplitMoved(ts: map<Tid, Thread>, ts': map<Tid, Thread>, q: seq<Tid>, p: int, hi: seq<Tid>, lo: seq<Tid>, h: Tid)
    requires SplitBy(ts, q, p, hi, lo) && h in lo && OneRaised(ts, ts', h, p)
    ensures var r := hi + [h] + Without(lo, h);
            SplitBy(ts', r, p, hi + [h], Without(lo, h)) && forall x :: x in r <==> x in q
  {
    hide Without;
    WithoutMembers(lo, h);
    DistinctParts(hi, lo);
    hide Distinct;
    var rest := Without(lo, h);
    assert h !in hi && h !in rest;
    assert Distinct([h]) by { OneDistinct(h); }
    DistinctConcat(hi, [h]);
    forall x | x in hi + [h] ensures x !in rest {
      assert x in hi || x == h;
    }
    DistinctConcat(hi + [h], rest);
  }

  lemma OneDistinct<T>(x: T)
    ensures Distinct([x])
  {
  }

  lemma SplitStays(ts: map<Tid, Thread>, ts': map<Tid, Thread>, q: seq<Tid>, p: int, hi: seq<Tid>, lo: seq<Tid>, h: Tid)
    requires SplitBy(ts, q, p, hi, lo) && h !in q && OneRaised(ts, ts', h, p)
    ensures SplitBy(ts', q, p, hi, lo)
  {
  }

  lemma RaiseIs(s: State, h: Tid, p: int)
    requires h in s.threads
    ensures var r := Raise(s, h, p);
            && r == s.(threads := Lifted(s.threads, [h], p), ready := r.ready) && OneRaised(s.threads, r.threads, h, p)
            && r.threads[h].status == s.threads[h].status
            && (forall t | t in s.threads :: t in r.threads && r.threads[t].status == s.threads[t].status)
            && r.threads.Keys == s.threads.Keys
            && r.ready == if s.threads[h].status == Ready then InsertOrdered(Higher(r.threads), Without(s.ready, h), h) else s.ready
  {
    hide Without;
    hide InsertOrdered;
    assert forall t :: t in [h] <==> t == h;
    assert Raise(s, h, p).threads == Lifted(s.threads, [h], p);
  }

  lemma RaisePlaces(s: State, h: Tid, p: int, hi: seq<Tid>, lo: seq<Tid>)
    requires SplitBy(s.threads, s.ready, p, hi, lo) && ReadyListed(s)
    requires h in s.threads && h != s.idle && Pri(s.threads, h) < p
    ensures var r := Raise(s, h, p);
            && r == s.(threads := Lifted(s.threads, [h], p), ready := r.ready) && ReadyListed(r)
            && if h in lo then r.ready == hi + [h] + Without(lo, h) && SplitBy(r.threads, r.ready, p, hi + [h], Without(lo, h))
               else r.ready == s.ready && SplitBy(r.threads, r.ready, p, hi, lo)
  {
    hide Without;
    hide InsertOrdered;
    hide Distinct;
    var r := Raise(s, h, p);
    RaiseIs(s, h, p);
    assert h !in hi && (h in s.ready <==> h in lo);
    hide Raise;
    hide SplitBy;
    hide Lifted;
    hide OneRaised;
    if h in lo {
      RaisedList(s.threads, r.threads, s.ready, p, hi, lo, h);
      SplitMoved(s.threads, r.threads, s.ready, p, hi, lo, h);
    } else {
      SplitStays(s.threads, r.threads, s.ready, p, hi, lo, h);
    }
  }

  // ---------------------------------------------------------------- the whole donation

  ghost predicate DonatesTo(s: State, t: Tid, depth: nat, hi: seq<Tid>, lo: seq<Tid>, hs: seq<Tid>) {
    var p := Pri(s.threads, t);
    && RaisedChain(s, Blocker(s, t), p, hs, depth)
    && Donate(s, t, depth) == s.(threads := Lifted(s.threads, hs, p), ready := Requeued(hi, lo, hs))
  }

  lemma {:induction false} DonateChain(s: State, t: Tid, depth: nat, hi: seq<Tid>, lo: seq<Tid>) returns (hs: seq<Tid>)
    requires SplitBy(s.threads, s.ready, Pri(s.threads, t), hi, lo) && ReadyListed(s) && HoldersExist(s)
    ensures DonatesTo(s, t, depth, hi, lo, hs)
    decreases depth
  {
    hide SplitBy;
    hide ReadyListed;
    hide HoldersExist;
    hide DonatesTo;
    var next, p := Blocker(s, t), Pri(s.threads, t);
    if depth == 0 || next.None? || Pri(s.threads, next.value) >= p {
      hs := [];
      NobodyRaised(s, t, depth, hi, lo);
    } else {
      var h := next.value;
      BlockerExists(s, t);
      RaisePlaces(s, h, p, hi, lo);
      RaiseFrame(s, h, p);
      var s1 := Raise(s, h, p);
      var hi', lo' := if h in lo then hi + [h] else hi, if h in lo then Without(lo, h) else lo;
      hide Raise;
      hide Without;
      var rest := DonateChain(s1, h, depth - 1, hi', lo');
      hs := [h] + rest;
      OneMoreRaised(s, t, depth, hi, lo, h, s1, rest);
    }
  }

  lemma NobodyRaised(s: State, t: Tid, depth: nat, hi: seq<Tid>, lo: seq<Tid>)
    requires SplitBy(s.threads, s.ready, Pri(s.threads, t), hi, lo)
    requires depth == 0 || Blocker(s, t).None? || Pri(s.threads, Blocker(s, t).value) >= Pri(s.threads, t)
    ensures DonatesTo(s, t, depth, hi, lo, [])
  {
    FilterAll(NotInList([]), lo);
    assert Lifted(s.threads, [], Pri(s.threads, t)) == s.threads;
    assert hi + [] + lo == s.ready;
  }

  lemma OneMoreRaised(s: State, t: Tid, depth: nat, hi: seq<Tid>, lo: seq<Tid>, h: Tid, s1: State, rest: seq<Tid>)
    requires depth > 0 && Blocker(s, t) == Some(h) && h in s.threads && Pri(s.threads, h) < Pri(s.threads, t)
    requires s1 == Raise(s, h, Pri(s.threads, t)) && s1 == s.(threads := Lifted(s.threads, [h], Pri(s.threads, t)), ready := s1.ready)
    requires DonatesTo(s1, h, depth - 1, if h in lo then hi + [h] else hi, if h in lo then Without(lo, h) else lo, rest)
    ensures DonatesTo(s, t, depth, hi, lo, [h] + rest)
  {
    hide Raise;
    hide Without;
    hide Requeued;
    hide Lifted;
    hide RaisedChain;
    var p := Pri(s.threads, t);
    assert Pri(s1.threads, h) == p by { LiftedPri(s.threads, [h], p, h); }
    ChainGrows(s, t, p, depth, h, s1, rest);
    LiftedTwice(s.threads, h, rest, p);
    assert h !in rest by { RestWithout(s1, h, p, rest, depth - 1); }
    RequeuedOneMore(hi, lo, h, rest);
  }

  lemma LiftedPri(ts: map<Tid, Thread>, hs: seq<Tid>, p: int, t: Tid)
    requires t in ts
    ensures t in Lifted(ts, hs, p) && Pri(Lifted(ts, hs, p), t) == if t in hs then p else Pri(ts, t)
  {
  }

  lemma LiftedTwice(ts: map<Tid, Thread>, h: Tid, rest: seq<Tid>, p: int)
    ensures Lifted(Lifted(ts, [h], p), rest, p) == Lifted(ts, [h] + rest, p)
  {
  }

  lemma RestWithout(s1: State, h: Tid, p: int, rest: seq<Tid>, depth: nat)
    requires RaisedChain(s1, Blocker(s1, h), p, rest, depth) && Pri(s1.threads, h) == p
    ensures h !in rest
  {
  }

  lemma ChainGrows(s: State, t: Tid, p: int, depth: nat, h: Tid, s1: State, rest: seq<Tid>)
    requires depth > 0 && Blocker(s, t) == Some(h) && h in s.threads && Pri(s.threads, h) < p
    requires s1 == s.(threads := Lifted(s.threads, [h], p), ready := s1.ready)
    requires RaisedChain(s1, Blocker(s1, h), p, rest, depth - 1)
    ensures RaisedChain(s, Blocker(s, t), p, [h] + rest, depth)
  {
    assert forall x :: Blocker(s1, x) == Blocker(s, x);
    assert forall x :: Pri(s1.threads, x) == if x == h then p else Pri(s.threads, x);
    assert s1.threads.Keys == s.threads.Keys;
    GrownChain(s, Blocker(s, t), p, depth, h, s1, rest);
  }

  lemma GrownChain(s: State, first: Option<Tid>, p: int, depth: nat, h: Tid, s1: State, rest: seq<Tid>)
    requires depth > 0 && first == Some(h) && h in s.threads && Pri(s.threads, h) < p && s1.threads.Keys == s.threads.Keys
    requires forall x :: Blocker(s1, x) == Blocker(s, x)
    requires forall x :: Pri(s1.threads, x) == if x == h then p else Pri(s.threads, x)
    requires RaisedChain(s1, Blocker(s1, h), p, rest, depth - 1)
    ensures RaisedChain(s, first, p, [h] + rest, depth)
  {
    hide Blocker;
    hide Pri;
    hide Link;
    var hs := [h] + rest;
    assert h !in rest;
    OneDistinct(h);
    DistinctConcat([h], rest);
    hide Distinct;
    assert forall x | x in hs :: x == h || x in rest;
    forall i | 0 <= i < |hs| ensures Link(s, first, hs, i) == Some(hs[i]) {
      if i > 0 {
        LinkShift(s, first, h, s1, rest, i - 1);
        assert Link(s1, Blocker(s1, h), rest, i - 1) == Some(rest[i - 1]) && hs[i] == rest[i - 1];
      } else {
        assert Link(s, first, hs, 0) == first by { FirstLink(s, first, hs); }
      }
    }
    LinkShift(s, first, h, s1, rest, |rest|);
  }

  lemma FirstLink(s: State, first: Option<Tid>, hs: seq<Tid>)
    ensures Link(s, first, hs, 0) == first
  {
  }

  lemma LinkShift(s: State, first: Option<Tid>, h: Tid, s1: State, rest: seq<Tid>, i: nat)
    requires i <= |rest| && forall x :: Blocker(s1, x) == Blocker(s, x)
    ensures Link(s, first, [h] + rest, i + 1) == Link(s1, Blocker(s1, h), rest, i)
  {
    hide Blocker;
  }

  lemma RequeuedOneMore(hi: seq<Tid>, lo: seq<Tid>, h: Tid, rest: seq<Tid>)
    requires h !in rest
    ensures Requeued(hi, lo, [h] + rest) ==
              Requeued(if h in lo then hi + [h] else hi, if h in lo then Without(lo, h) else lo, rest)
  {
    hide Filter;
    hide Without;
    var lo' := if h in lo then Without(lo, h) else lo;
    WithoutMembers(lo, h);
    FilterConcat(InList(lo), [h], rest);
    FilterOne(InList(lo), h);
    FilterSame(InList(lo), InList(lo'), rest);
    FilterLess(lo, h, rest);
    var moved := Filter(InList(lo'), rest);
    assert hi + ([h] + moved) == hi + [h] + moved && hi + ([] + moved) == hi + moved;
  }

  /** Taking `h` out first makes no difference. */
  lemma {:induction false} FilterLess(q: seq<Tid>, h: Tid, rest: seq<Tid>)
    ensures Filter(NotInList([h] + rest), q) == Filter(NotInList(rest), Without(q, h))
    ensures h !in q ==> Filter(NotInList([h] + rest), q) == Filter(NotInList(rest), q)
  {
    hide Filter;
    hide Without;
    var f, g := NotInList([h] + rest), NotInList(rest);
    if q == [] {
      NothingLeft(f, g, h);
    } else {
      var w := Without(q[1..], h);
      assert q == [q[0]] + q[1..];
      FilterLess(q[1..], h, rest);
      FilterCons(f, q[0], q[1..]);
      FilterCons(g, q[0], q[1..]);
      FilterCons(g, q[0], w);
      WithoutCons(q[0], q[1..], h);
      assert f(q[0]) <==> q[0] != h && g(q[0]);
      assert [] + w == w && [] + Filter(f, q[1..]) == Filter(f, q[1..]);
    }
  }

  lemma NothingLeft(f: Tid -> bool, g: Tid -> bool, h: Tid)
    ensures Filter(f, []) == [] && Filter(g, []) == [] && Without<Tid>([], h) == []
  {
  }

  // ---------------------------------------------------------------- lock_acquire

  /** lock_acquire up to sema_down. If someone holds the lock, and not under MLFQS, the current
      thread is added to the holder's donors, and the chain of holders from there on is raised to
      its priority; those of them that are ready move, in the order they are raised, behind
      everyone of at least that priority. */
  ghost predicate Acquires(s: State, l: LockId, r: State)
    requires s.current in s.threads && l in s.holder
  {
    var c, th := s.current, s.threads[s.current];
    if s.mlfqs || s.holder[l].None? then r == s.(threads := s.threads[c := th.(pc := Down(OfLock(l), false))])
    else exists hs, hi, lo :: AcquiresAlong(s, l, r, hs, hi, lo)
  }

  ghost predicate AcquiresAlong(s: State, l: LockId, r: State, hs: seq<Tid>, hi: seq<Tid>, lo: seq<Tid>)
    requires s.current in s.threads && l in s.holder && s.holder[l].Some?
  {
    var c, th, h := s.current, s.threads[s.current], s.holder[l].value;
    && h in s.threads && h != c
    && RaisedChain(s, Some(h), th.priority, hs, DONATION_DEPTH) && SplitBy(s.threads, s.ready, th.priority, hi, lo)
    && var ts := s.threads[c := th.(waiting := Some(l), pc := Down(OfLock(l), false))]
                          [h := s.threads[h].(donations := s.threads[h].donations + [c])];
       r == s.(threads := Lifted(ts, hs, th.priority), ready := Requeued(hi, lo, hs))
  }

  lemma AcquireEffect(s: State, l: LockId)
    requires Inv(s) && Enabled(s, Acquire(l)) && Safe(s, Acquire(l))
    ensures Acquires(s, l, Next(s, Acquire(l)))
  {
    hide Next;
    hide Safe;
    hide Enabled;
    hide Donate;
    hide DonatesTo;
    AcquireIs(s, l);
    if !s.mlfqs && s.holder[l].Some? {
      var p := s.threads[s.current].priority;
      var hi, lo := SplitReady(s, p);
      RegisteredSplits(s, l, hi, lo);
      hide Inv;
      var s1 := Registered(s, l);
      var hs := DonateChain(s1, s.current, DONATION_DEPTH, hi, lo);
      AcquiredAlong(s, l, hs, hi, lo);
    }
  }

  lemma SplitReady(s: State, p: int) returns (hi: seq<Tid>, lo: seq<Tid>)
    requires Inv(s)
    ensures SplitBy(s.threads, s.ready, p, hi, lo)
  {
    assert ReadySorted(s) && ReadyExact(s);
    hide Inv;
    var k := 0;
    while k < |s.ready| && Pri(s.threads, s.ready[k]) >= p
      invariant k <= |s.ready| && forall j | 0 <= j < k :: Pri(s.threads, s.ready[j]) >= p
    {
      k := k + 1;
    }
    hi, lo := s.ready[..k], s.ready[k..];
    assert s.ready == hi + lo;
    forall x | x in lo ensures Pri(s.threads, x) < p {
      var j :| k <= j < |s.ready| && s.ready[j] == x;
      assert j > k ==> Pri(s.threads, s.ready[k]) >= Pri(s.threads, s.ready[j]);
    }
  }

  lemma RegisteredSplits(s: State, l: LockId, hi: seq<Tid>, lo: seq<Tid>)
    requires Inv(s) && Works(s) && l in s.holder && s.holder[l].Some? && !s.mlfqs && s.holder[l] != Some(s.current)
    requires SplitBy(s.threads, s.ready, s.threads[s.current].priority, hi, lo)
    ensures s.holder[l].value in s.threads
    ensures var s1 := Registered(s, l);
            && SplitBy(s1.threads, s1.ready, Pri(s1.threads, s.current), hi, lo) && ReadyListed(s1) && HoldersExist(s1)
  {
    assert HoldersExist(s) && ReadyExact(s);
  }

  lemma AcquiredAlong(s: State, l: LockId, hs: seq<Tid>, hi: seq<Tid>, lo: seq<Tid>)
    requires s.current in s.threads && l in s.holder && s.holder[l].Some? && !s.mlfqs
    requires s.holder[l].value in s.threads && s.holder[l] != Some(s.current)
    requires SplitBy(s.threads, s.ready, s.threads[s.current].priority, hi, lo)
    requires DonatesTo(Registered(s, l), s.current, DONATION_DEPTH, hi, lo, hs)
    ensures AcquiresAlong(s, l, StartAcquire(s, l), hs, hi, lo)
  {
    hide Donate;
    hide Lifted;
    hide Requeued;
    hide SplitBy;
    var s1, p, h := Registered(s, l), s.threads[s.current].priority, s.holder[l].value;
    RegisteredIs(s, l);
    hide Registered;
    hide StartAcquire;
    ChainBefore(s, s1, Some(h), p, hs, DONATION_DEPTH);
  }

  lemma RegisteredIs(s: State, l: LockId)
    requires s.current in s.threads && l in s.holder && s.holder[l].Some? && !s.mlfqs
    requires s.holder[l].value in s.threads && s.holder[l] != Some(s.current)
    ensures var c, th, h, s1 := s.current, s.threads[s.current], s.holder[l].value, Registered(s, l);
            var ts := s.threads[c := th.(waiting := Some(l), pc := Down(OfLock(l), false))]
                               [h := s.threads[h].(donations := s.threads[h].donations + [c])];
            && s1 == s.(threads := ts) && s1.threads.Keys == s.threads.Keys && Blocker(s1, c) == Some(h)
            && (forall x :: Pri(s1.threads, x) == Pri(s.threads, x))
            && (forall x | x != c :: Blocker(s1, x) == Blocker(s, x))
            && StartAcquire(s, l) == Donate(s1, c, DONATION_DEPTH)
  {
    hide Donate;
    var c, th, h, s1 := s.current, s.threads[s.current], s.holder[l].value, Registered(s, l);
    assert s1.threads == s.threads[c := th.(waiting := Some(l), pc := Down(OfLock(l), false))]
                                  [h := s.threads[h].(donations := s.threads[h].donations + [c])];
  }

  /** Registering as a waiter changes neither priorities nor anyone else's waits. */
  lemma ChainBefore(s: State, s1: State, first: Option<Tid>, p: int, hs: seq<Tid>, depth: nat)
    requires RaisedChain(s1, first, p, hs, depth) && s1.threads.Keys == s.threads.Keys && Pri(s.threads, s.current) == p
    requires forall x :: Pri(s1.threads, x) == Pri(s.threads, x)
    requires forall x | x != s.current :: Blocker(s1, x) == Blocker(s, x)
    ensures RaisedChain(s, first, p, hs, depth)
  {
    hide Blocker;
    assert s.current !in hs;
    forall i | 0 <= i <= |hs| ensures Link(s, first, hs, i) == Link(s1, first, hs, i) {
      assert i > 0 ==> hs[i - 1] in hs;
    }
  }
}
