/** Which run an allocation gets while other threads free pages, and when it gets none. */
module PallocScan {
  import opened Palloc

  predicate FreeRun(used: seq<bool>, k: nat, count: nat) {
    k + count <= |used| && forall x | k <= x < k + count :: !used[x]
  }

  /** Thread `t` took the lock in state `i` and has been scanning for `count` pages up to state `j`. */
  ghost predicate Scans(ss: seq<Pool>, acts: seq<Action>, i: nat, j: nat, t: Tid, count: nat) {
    && IsRun(ss, acts) && i < j < |ss| && acts[i] == Lock(t) && PhaseOf(ss[i], t) == Waiting(count)
    && forall m | i < m <= j :: PhaseOf(ss[m], t).Scanning?
  }

  /** Nobody marks a page while another thread scans. */
  lemma OnlyClears(s: Pool, a: Action, t: Tid, x: nat)
    requires Inv(s) && Enabled(s, a) && Safe(s, a) && PhaseOf(s, t).Scanning? && x < |s.used|
    ensures |Next(s, a).used| == |s.used| && (Next(s, a).used[x] ==> s.used[x])
    ensures a.t != t ==> PhaseOf(Next(s, a), t) == PhaseOf(s, t)
  {
    assert PhaseOK(s.used, PhaseOf(s, t)) && PhaseOK(s.used, PhaseOf(s, a.t));
  }

  /** What the scan has passed over held a used page when the lock was taken, and nothing has been
      marked since. */
  ghost predicate Passed(s: Pool, r: Pool, t: Tid, count: nat) {
    var p := PhaseOf(r, t);
    && p.Scanning? && p.count == count && |r.used| == |s.used|
    && (forall k: nat | k < p.first :: !FreeRun(s.used, k, count))
    && forall x: nat | x < |s.used| :: r.used[x] ==> s.used[x]
  }

  lemma {:induction false} ScanPasses(ss: seq<Pool>, acts: seq<Action>, i: nat, j: nat, t: Tid, count: nat)
    requires Scans(ss, acts, i, j, t, count)
    ensures Passed(ss[i], ss[j], t, count)
    decreases j
  {
    hide Inv;
    hide Enabled;
    hide Safe;
    hide Next;
    hide Passed;
    RunInvariant(ss, acts, j - 1);
    assert Step(ss[j - 1], acts[j - 1], ss[j - 1 + 1]);
    assert PhaseOf(ss[j], t).Scanning?;
    if j == i + 1 {
      LockStarts(ss[i], t, ss[j]);
    } else {
      ScanPasses(ss, acts, i, j - 1, t, count);
      PassesOn(ss[i], ss[j - 1], acts[j - 1], t, count);
    }
  }

  lemma LockStarts(s: Pool, t: Tid, r: Pool)
    requires Enabled(s, Lock(t)) && Safe(s, Lock(t)) && r == Next(s, Lock(t))
    ensures Passed(s, r, t, PhaseOf(s, t).count)
  {
  }

  lemma PassesOn(s: Pool, r: Pool, a: Action, t: Tid, count: nat)
    requires Inv(r) && Enabled(r, a) && Safe(r, a) && Passed(s, r, t, count) && PhaseOf(Next(r, a), t).Scanning?
    ensures Passed(s, Next(r, a), t, count)
  {
    hide Inv;
    var r', p := Next(r, a), PhaseOf(r, t);
    forall x: nat | x < |r.used| ensures |r'.used| == |r.used| && (r'.used[x] ==> r.used[x]) && (a.t != t ==> PhaseOf(r', t) == p) {
      OnlyClears(r, a, t, x);
    }
    OnlyClearsNone(r, a, t);
    if a.t == t {
      assert a == TestBit(t);
      PassesOne(s, r, t, count);
    }
  }

  lemma OnlyClearsNone(s: Pool, a: Action, t: Tid)
    requires Inv(s) && Enabled(s, a) && Safe(s, a) && PhaseOf(s, t).Scanning?
    ensures |Next(s, a).used| == |s.used| && (a.t != t ==> PhaseOf(Next(s, a), t) == PhaseOf(s, t))
  {
  }

  /** One test: the scan goes on from where it is, or one further because it met a used page. */
  lemma PassesOne(s: Pool, r: Pool, t: Tid, count: nat)
    requires Passed(s, r, t, count) && Enabled(r, TestBit(t)) && Safe(r, TestBit(t))
    ensures var p, q := PhaseOf(r, t), PhaseOf(Next(r, TestBit(t)), t);
            q.Scanning? ==> q.count == count && forall k: nat | k < q.first :: !FreeRun(s.used, k, count)
  {
    var p, q := PhaseOf(r, t), PhaseOf(Next(r, TestBit(t)), t);
    if q.Scanning? && q.first == p.first + 1 {
      assert s.used[p.first + p.done];
      assert !FreeRun(s.used, p.first, count);
    }
  }

  /** An allocation that finds nothing: when it took the lock there was no free run of that length. */
  lemma FailsOnlyWhenFull(ss: seq<Pool>, acts: seq<Action>, i: nat, j: nat, t: Tid, count: nat, k: nat)
    requires Scans(ss, acts, i, j, t, count) && j < |acts| && acts[j] == TestBit(t) && PhaseOf(ss[j + 1], t) == Outside
    ensures !FreeRun(ss[i].used, k, count)
  {
    ScanPasses(ss, acts, i, j, t, count);
    assert Step(ss[j], acts[j], ss[j + 1]);
  }

  /** An allocation that finds a run: it is free now, and no lower one was when it took the lock. */
  lemma FindsLowest(ss: seq<Pool>, acts: seq<Action>, i: nat, j: nat, t: Tid, count: nat, k: nat)
    requires Scans(ss, acts, i, j, t, count) && j < |acts| && acts[j] == TestBit(t) && PhaseOf(ss[j + 1], t).Marking?
    ensures var p := PhaseOf(ss[j + 1], t);
            && p.count == count && p.done == 0 && FreeRun(ss[j + 1].used, p.first, count)
            && (k < p.first ==> !FreeRun(ss[i].used, k, count))
  {
    ScanPasses(ss, acts, i, j, t, count);
    RunInvariant(ss, acts, j + 1);
    assert Step(ss[j], acts[j], ss[j + 1]);
    assert PhaseOK(ss[j + 1].used, PhaseOf(ss[j + 1], t));
  }

  /** A scan ends in one of the two ways: by the number of pages it has yet to test. */
  lemma ScanProgress(s: Pool, t: Tid)
    requires Inv(s) && Enabled(s, TestBit(t)) && Safe(s, TestBit(t))
    ensures var p, q := PhaseOf(s, t), PhaseOf(Next(s, TestBit(t)), t);
            && (q == Outside <==> p.first + p.count > |s.used|)
            && (q.Scanning? ==> q.first > p.first || (q.first == p.first && q.done > p.done))
  {
    assert PhaseOK(s.used, PhaseOf(s, t));
  }
}
