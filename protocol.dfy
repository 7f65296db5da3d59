/**
 * The coordination protocol as a whole: the invariant that ties a worker's
 * status in `vitals` to the pending leases it holds in `dispatcher`, kept by
 * every store operation of the dispatcher and of the workers, and the
 * guarantee that a task once handed to a worker stays its task whatever the
 * dispatcher does meanwhile.
 */
module Protocol {
  import opened Tables
  import opened Seqs
  import opened Liveness
  import opened Dispatcher
  import opened DispatcherLoop
  import opened WorkerIds
  import opened Worker

  // ---------------------------------------------------------------- pending leases per worker

  /** How many pending leases worker `w` holds. */
  function PendingCount(ls: seq<Lease>, w: WorkerId): nat
  {
    if ls == [] then 0
    else PendingCount(ls[..|ls| - 1], w) + (if PendingFor(ls[|ls| - 1], w) then 1 else 0)
  }

  lemma {:induction false} PendingCountAppend(a: seq<Lease>, b: seq<Lease>, w: WorkerId)
    ensures PendingCount(a + b, w) == PendingCount(a, w) + PendingCount(b, w)
    decreases |b|
  {
    if b == [] {
      assert a + b == a;
    } else {
      PendingCountAppend(a, b[..|b| - 1], w);
      assert (a + b)[..|a + b| - 1] == a + b[..|b| - 1];
    }
  }

  /** A worker holds no pending lease exactly when no row is a pending lease of it. */
  lemma {:induction false} PendingCountNone(ls: seq<Lease>, w: WorkerId)
    ensures PendingCount(ls, w) == 0 <==> forall i :: 0 <= i < |ls| ==> !PendingFor(ls[i], w)
    decreases |ls|
  {
    if ls != [] {
      PendingCountNone(ls[..|ls| - 1], w);
    }
  }

  /** Rewriting rows without changing which are pending leases of `w` keeps its count. */
  lemma {:induction false} PendingCountPointwise(a: seq<Lease>, b: seq<Lease>, w: WorkerId)
    requires |a| == |b|
    requires forall i :: 0 <= i < |a| ==> (PendingFor(a[i], w) <==> PendingFor(b[i], w))
    ensures PendingCount(a, w) == PendingCount(b, w)
    decreases |a|
  {
    if a != [] {
      PendingCountPointwise(a[..|a| - 1], b[..|b| - 1], w);
    }
  }

  /** With at most one pending lease, two pending rows of the same worker are the same row. */
  lemma {:induction false} PendingAtMostOne(ls: seq<Lease>, w: WorkerId, i: nat, j: nat)
    requires PendingCount(ls, w) <= 1
    requires i < |ls| && j < |ls| && PendingFor(ls[i], w) && PendingFor(ls[j], w)
    ensures i == j
    decreases |ls|
  {
    var init := ls[..|ls| - 1];
    if i < |ls| - 1 && j < |ls| - 1 {
      PendingAtMostOne(init, w, i, j);
    } else if i < |ls| - 1 || j < |ls| - 1 {
      var k := if i < |ls| - 1 then i else j;
      assert init[k] == ls[k];
      PendingCountNone(init, w);
      assert false;
    }
  }

  // ---------------------------------------------------------------- the invariant

  /** No two rows of `vitals` share a worker id. */
  predicate UniqueIds(vs: seq<Vital>)
  {
    forall i, j :: 0 <= i < j < |vs| ==> vs[i].workerId != vs[j].workerId
  }

  /** Every lease belongs to a registered worker. */
  predicate LeasesKnown(db: DB)
  {
    forall i :: 0 <= i < |db.leases| ==> db.leases[i].workerId in VitalIds(db.vitals)
  }

  /** An idle worker holds no pending lease, a busy one exactly one, an offline one at most one. */
  predicate LoadMatches(s: WorkerStatus, count: nat)
  {
    match s
    case Idle => count == 0
    case Busy => count == 1
    case Offline => count <= 1
  }

  predicate StatusMatchesLoad(db: DB)
  {
    forall i :: 0 <= i < |db.vitals| ==> LoadMatches(db.vitals[i].status, PendingCount(db.leases, db.vitals[i].workerId))
  }

  predicate Consistent(db: DB)
  {
    UniqueIds(db.vitals) && LeasesKnown(db) && StatusMatchesLoad(db)
  }

  /** The store before any process has run. */
  lemma EmptyStoreConsistent(chapters: seq<Chapter>)
    ensures Consistent(DB([], chapters, []))
  {
  }

  /** Keeping only some rows keeps the ids distinct. */
  lemma {:induction false} FilterKeepsUniqueIds(vs: seq<Vital>, keep: Vital -> bool)
    requires UniqueIds(vs)
    ensures UniqueIds(Filter(vs, keep))
    decreases |vs|
  {
    if vs != [] {
      var init, last := vs[..|vs| - 1], vs[|vs| - 1];
      FilterKeepsUniqueIds(init, keep);
      var rest := Filter(init, keep);
      forall k | 0 <= k < |rest|
        ensures rest[k].workerId != last.workerId
      {
        assert rest[k] in rest;
        var p :| 0 <= p < |init| && init[p] == rest[k];
        assert vs[p] == init[p];
      }
    }
  }

  lemma IdleWorkersDistinct(vs: seq<Vital>)
    requires UniqueIds(vs)
    ensures forall i, j :: 0 <= i < j < |IdleWorkers(vs)| ==> IdleWorkers(vs)[i] != IdleWorkers(vs)[j]
  {
    FilterKeepsUniqueIds(vs, IsIdle);
  }

  lemma PendingCountOne(l: Lease, w: WorkerId)
    ensures PendingCount([l], w) == if PendingFor(l, w) then 1 else 0
  {
    SingletonInit(l);
  }

  /** A worker id that occurs once among the first n + 1 is not among the committed ones before it. */
  lemma FirstOccurrence(idle: seq<WorkerId>, failures: set<nat>, n: nat)
    requires n < |idle|
    requires forall i, j :: 0 <= i < j <= n ==> idle[i] != idle[j]
    ensures idle[n] !in Committed(idle, failures, n)
  {
    forall k | 0 <= k < n
      ensures idle[k] != idle[n]
    {
    }
  }

  /** Each committed pairing gives its worker exactly one new pending lease. */
  lemma {:induction false} NewLeasesCount(idle: seq<WorkerId>, pending: seq<ChapterId>, failures: set<nat>, n: nat, w: WorkerId)
    requires n <= |idle| && n <= |pending|
    requires forall i, j :: 0 <= i < j < n ==> idle[i] != idle[j]
    ensures PendingCount(NewLeases(idle, pending, failures, n), w) == if w in Committed(idle, failures, n) then 1 else 0
  {
    if n > 0 {
      var k := n - 1;
      var prev := NewLeases(idle, pending, failures, k);
      var lease := Lease(idle[k], pending[k], LeasePending, Online);
      NewLeasesCount(idle, pending, failures, k, w);
      CommittedStep(idle, failures, k);
      if k in failures {
        AppendEmpty(prev);
      } else {
        PendingCountAppend(prev, [lease], w);
        PendingCountOne(lease, w);
        if idle[k] == w {
          FirstOccurrence(idle, failures, k);
        }
      }
    }
  }

  // ---------------------------------------------------------------- dispatcher steps keep it

  /** Each lease the assignment pass inserts, in its first `n` pairings, belongs to a registered (idle) worker. */
  lemma AssignedLeaseKnown(db: DB, failures: set<nat>, n: nat, l: Lease)
    requires n <= Min(|IdleWorkers(db.vitals)|, |PendingChapters(db.chapters)|)
    requires l in NewLeases(IdleWorkers(db.vitals), PendingChapters(db.chapters), failures, n)
    ensures l.workerId in VitalIds(db.vitals)
  {
    var pending := PendingChapters(db.chapters);
    var idle := IdleWorkers(db.vitals);
    NewLeasesArePositional(idle, pending, failures, n, l);
    var k :| 0 <= k < n && k !in failures && l == Lease(idle[k], pending[k], LeasePending, Online);
    IdleWorkersExact(db.vitals, idle[k]);
    var j :| 0 <= j < |db.vitals| && db.vitals[j].workerId == idle[k] && db.vitals[j].status == Idle;
    assert VitalIds(db.vitals)[j] == idle[k];
  }

  /** After the assignment pass, complete or cut off, each worker's status still matches its pending leases. */
  lemma AssignedLoad(db: DB, failures: set<nat>, raiseAt: Option<nat>, i: nat)
    requires Consistent(db) && i < |db.vitals|
    ensures var after := AssignUntil(db, failures, raiseAt);
            LoadMatches(after.vitals[i].status, PendingCount(after.leases, after.vitals[i].workerId))
  {
    var pending := PendingChapters(db.chapters);
    var idle := IdleWorkers(db.vitals);
    var n := Reached(raiseAt, Min(|idle|, |pending|));
    var busy := Committed(idle, failures, n);
    var after := AssignUntil(db, failures, raiseAt);
    var added := NewLeases(idle, pending, failures, n);
    var w := db.vitals[i].workerId;
    IdleWorkersDistinct(db.vitals);
    PendingCountAppend(db.leases, added, w);
    NewLeasesCount(idle, pending, failures, n, w);
    assert after.vitals[i] == if w in busy then db.vitals[i].(status := Busy) else db.vitals[i];
    if w in busy {
      var k :| 0 <= k < n && k !in failures && idle[k] == w;
      IdleWorkersExact(db.vitals, w);
      var j :| 0 <= j < |db.vitals| && db.vitals[j].workerId == w && db.vitals[j].status == Idle;
      assert j == i;
    }
  }

  /**
   * The assignment pass, complete or cut off by an escaping error, turns
   * exactly the paired idle workers busy, each with its one new lease.
   */
  lemma AssignKeepsConsistent(db: DB, failures: set<nat>, raiseAt: Option<nat>)
    requires Consistent(db)
    ensures Consistent(AssignUntil(db, failures, raiseAt))
  {
    var pending := PendingChapters(db.chapters);
    var idle := IdleWorkers(db.vitals);
    var n := Reached(raiseAt, Min(|idle|, |pending|));
    var after := AssignUntil(db, failures, raiseAt);
    var added := NewLeases(idle, pending, failures, n);
    assert VitalIds(after.vitals) == VitalIds(db.vitals);
    forall i | 0 <= i < |after.leases|
      ensures after.leases[i].workerId in VitalIds(after.vitals)
    {
      if i >= |db.leases| {
        assert after.leases[i] == added[i - |db.leases|];
        AssignedLeaseKnown(db, failures, n, after.leases[i]);
      }
    }
    forall i | 0 <= i < |after.vitals|
      ensures LoadMatches(after.vitals[i].status, PendingCount(after.leases, after.vitals[i].workerId))
    {
      AssignedLoad(db, failures, raiseAt, i);
    }
  }

  /** Marking workers dead, completely or up to an escaping error, only moves them to offline, which admits the lease they hold. */
  lemma MarkDeadKeepsConsistent(db: DB, now: Minute, failures: set<nat>, raiseAt: Option<nat>)
    requires Consistent(db)
    ensures Consistent(MarkDeadUntil(db, now, failures, raiseAt))
  {
    var after := MarkDeadUntil(db, now, failures, raiseAt);
    assert VitalIds(after.vitals) == VitalIds(db.vitals);
    forall i | 0 <= i < |after.vitals|
      ensures LoadMatches(after.vitals[i].status, PendingCount(after.leases, after.vitals[i].workerId))
    {
      PendingCountPointwise(db.leases, after.leases, db.vitals[i].workerId);
    }
  }

  /** Requeueing touches only chapters, which the invariant does not constrain. */
  lemma ReassignKeepsConsistent(db: DB, dead: seq<WorkerId>, lookupFailures: set<nat>, resetFailures: set<nat>, raiseAt: Option<nat>)
    requires Consistent(db)
    ensures Consistent(ReassignUntil(db, dead, lookupFailures, resetFailures, raiseAt))
  {
  }

  /**
   * One iteration of the dispatcher's loop keeps the invariant, whatever
   * fails in it, including an error that escapes a pass half-way.
   */
  lemma LoopStepKeepsConsistent(s: LoopState, now: Minute, f: Faults)
    requires Consistent(s.db)
    ensures Consistent(Step(s, now, f).db)
  {
    var assignRaise := RaiseAt(f.outage, AssignPass);
    AssignKeepsConsistent(s.db, f.assign, assignRaise);
    if assignRaise.None? && s.rep == 3 {
      SweepKeepsConsistent(AssignUntil(s.db, f.assign, assignRaise), now, f);
    }
  }

  /** The sweep, before the loop or in it, keeps the invariant too. */
  lemma SweepKeepsConsistent(db: DB, now: Minute, f: Faults)
    requires Consistent(db)
    ensures Consistent(Sweep(db, now, f).db)
  {
    var vitalsRaise := RaiseAt(f.outage, VitalsPass);
    MarkDeadKeepsConsistent(db, now, f.mark, vitalsRaise);
    ReassignKeepsConsistent(MarkDeadUntil(db, now, f.mark, vitalsRaise), DeadWorkers(db.vitals, now),
                            f.lookup, f.reset, RaiseAt(f.outage, ReassignPass));
  }

  // ---------------------------------------------------------------- worker steps keep it

  /** Registering a nine-digit id keeps the invariant: the id is new and holds no lease. */
  lemma RegisterKeepsConsistent(db: DB, now: Minute)
    requires Consistent(db)
    requires forall x :: x in VitalIds(db.vitals) ==> IsCanonical(x)
    ensures Consistent(RegisterStep(db, now))
  {
    RegisterAddsNewWorker(db, now);
    var after := RegisterStep(db, now);
    var v := after.vitals[|db.vitals|];
    assert after.vitals == db.vitals + [v];
    AppendUnknownWorker(db, v);
  }

  /** Appending an idle worker whose id is unknown keeps the invariant. */
  lemma AppendUnknownWorker(db: DB, v: Vital)
    requires Consistent(db) && v.status == Idle && v.workerId !in VitalIds(db.vitals)
    ensures Consistent(db.(vitals := db.vitals + [v]))
  {
    var n := |db.vitals|;
    var vs := db.vitals + [v];
    forall i | 0 <= i < n
      ensures db.vitals[i].workerId != v.workerId
    {
      assert VitalIds(db.vitals)[i] == db.vitals[i].workerId;
    }
    forall i | 0 <= i < |db.leases|
      ensures db.leases[i].workerId in VitalIds(vs) && db.leases[i].workerId != v.workerId
    {
      var k :| 0 <= k < n && VitalIds(db.vitals)[k] == db.leases[i].workerId;
      assert VitalIds(vs)[k] == db.leases[i].workerId;
    }
    PendingCountNone(db.leases, v.workerId);
  }

  lemma HeartbeatKeepsConsistent(db: DB, id: WorkerId, now: Minute)
    requires Consistent(db)
    ensures Consistent(db.(vitals := SetHeartbeat(db.vitals, id, now)))
  {
    assert VitalIds(SetHeartbeat(db.vitals, id, now)) == VitalIds(db.vitals);
  }

  /** Finishing the only pending lease of `w` leaves it none. */
  lemma FinishClearsWorker(ls: seq<Lease>, w: WorkerId, manga: ChapterId)
    requires PendingCount(ls, w) <= 1 && FirstPending(ls, w) == Some(manga)
    ensures PendingCount(FinishLeases(ls, w, manga), w) == 0
  {
    var p := PendingIndex(ls, w);
    forall i | 0 <= i < |ls| && PendingFor(ls[i], w)
      ensures ls[i].manga == manga
    {
      PendingAtMostOne(ls, w, i, p);
    }
    PendingCountNone(FinishLeases(ls, w, manga), w);
  }

  /** Finishing leases of `w` leaves every other worker's count alone. */
  lemma FinishKeepsOthers(ls: seq<Lease>, w: WorkerId, manga: ChapterId, v: WorkerId)
    requires v != w
    ensures PendingCount(FinishLeases(ls, w, manga), v) == PendingCount(ls, v)
  {
    PendingCountPointwise(ls, FinishLeases(ls, w, manga), v);
  }

  /**
   * Completing the task the worker was handed keeps the invariant: that lease
   * was its only pending one, so once it is done the worker, now idle, holds
   * none.
   */
  lemma CompleteKeepsConsistent(db: DB, manga: ChapterId, text: string, w: WorkerId)
    requires Consistent(db)
    requires FirstPending(db.leases, w) == Some(manga)
    ensures Consistent(Complete(db, manga, text, w))
    ensures PendingCount(Complete(db, manga, text, w).leases, w) == 0
  {
    var after := Complete(db, manga, text, w);
    CompleteKeepsIds(db, manga, text, w);
    var j :| 0 <= j < |db.vitals| && VitalIds(db.vitals)[j] == w;
    assert db.vitals[j].workerId == w;
    FinishClearsWorker(db.leases, w, manga);
    forall i | 0 <= i < |after.vitals|
      ensures LoadMatches(after.vitals[i].status, PendingCount(after.leases, after.vitals[i].workerId))
    {
      if db.vitals[i].workerId != w {
        FinishKeepsOthers(db.leases, w, manga, db.vitals[i].workerId);
      }
    }
  }

  /** A completion changes no worker id and no lease's worker. */
  lemma CompleteKeepsIds(db: DB, manga: ChapterId, text: string, w: WorkerId)
    ensures var after := Complete(db, manga, text, w);
            VitalIds(after.vitals) == VitalIds(db.vitals) &&
            (UniqueIds(db.vitals) ==> UniqueIds(after.vitals)) &&
            (LeasesKnown(db) ==> LeasesKnown(after))
  {
    var after := Complete(db, manga, text, w);
    assert VitalIds(after.vitals) == VitalIds(db.vitals);
  }

  // ---------------------------------------------------------------- a task stays handed out

  lemma {:induction false} FirstPendingAppend(a: seq<Lease>, b: seq<Lease>, w: WorkerId)
    requires FirstPending(a, w).Some?
    ensures FirstPending(a + b, w) == FirstPending(a, w)
    decreases |a|
  {
    if !PendingFor(a[0], w) {
      assert (a + b)[1..] == a[1..] + b;
      FirstPendingAppend(a[1..], b, w);
    }
  }

  lemma {:induction false} FirstPendingPointwise(a: seq<Lease>, b: seq<Lease>, w: WorkerId)
    requires |a| == |b|
    requires forall i :: 0 <= i < |a| ==> (PendingFor(a[i], w) <==> PendingFor(b[i], w)) && a[i].manga == b[i].manga
    ensures FirstPending(a, w) == FirstPending(b, w)
    decreases |a|
  {
    if a != [] && !PendingFor(a[0], w) {
      FirstPendingPointwise(a[1..], b[1..], w);
    }
  }

  /** The assignment pass, complete or cut off, only appends leases, so a worker's first pending lease stays first. */
  lemma AssignKeepsFirstPending(db: DB, failures: set<nat>, raiseAt: Option<nat>, w: WorkerId)
    requires FirstPending(db.leases, w).Some?
    ensures FirstPending(AssignUntil(db, failures, raiseAt).leases, w) == FirstPending(db.leases, w)
  {
    var idle := IdleWorkers(db.vitals);
    var pending := PendingChapters(db.chapters);
    FirstPendingAppend(db.leases, NewLeases(idle, pending, failures, Reached(raiseAt, Min(|idle|, |pending|))), w);
  }

  /** The vitals sweep only changes the snapshot column of leases, which the task query ignores. */
  lemma SweepKeepsFirstPending(db: DB, now: Minute, f: Faults, w: WorkerId)
    ensures FirstPending(Sweep(db, now, f).db.leases, w) == FirstPending(db.leases, w)
  {
    FirstPendingPointwise(db.leases, MarkDeadUntil(db, now, f.mark, RaiseAt(f.outage, VitalsPass)).leases, w);
  }

  /**
   * Whatever an iteration of the dispatcher does, including declaring the
   * worker dead and requeueing its chapter, a worker that was handed a task
   * finds the same task when it next asks.
   */
  lemma TaskSurvivesDispatcher(s: LoopState, now: Minute, f: Faults, w: WorkerId)
    requires FirstPending(s.db.leases, w).Some?
    ensures FirstPending(Step(s, now, f).db.leases, w) == FirstPending(s.db.leases, w)
    ensures CheckTask(Step(s, now, f).db.leases, w) == CheckTask(s.db.leases, w)
  {
    var assignRaise := RaiseAt(f.outage, AssignPass);
    AssignKeepsFirstPending(s.db, f.assign, assignRaise, w);
    if assignRaise.None? && s.rep == 3 {
      SweepKeepsFirstPending(AssignUntil(s.db, f.assign, assignRaise), now, f, w);
    }
  }

  // ---------------------------------------------------------------- what the invariant cannot say

  /**
   * A busy worker that misses its heartbeats is marked offline but keeps its
   * pending lease: an offline worker may hold one pending lease, so a worker
   * is busy only if, not if and only if, it holds exactly one.
   */
  lemma OfflineWorkerKeepsLease()
    ensures var db := DB([Vital("000000000", Busy, 0)], [Chapter("c", ChapterInProgress, None)],
                         [Lease("000000000", "c", LeasePending, Online)]);
            var after := MarkDead(db, 5, {});
            Consistent(db) && Consistent(after) &&
            after.vitals[0].status == Offline && PendingCount(after.leases, "000000000") == 1
  {
    var v := Vital("000000000", Busy, 0);
    var l := Lease("000000000", "c", LeasePending, Online);
    var db := DB([v], [Chapter("c", ChapterInProgress, None)], [l]);
    StalledWorkerIsDead(v);
    CommittedStep(["000000000"], {}, 0);
    var after := MarkDead(db, 5, {});
    assert after.vitals == [v.(status := Offline)];
    assert after.leases == [l.(workerStatus := MarkedOffline)];
    PendingCountOne(l, "000000000");
    PendingCountOne(after.leases[0], "000000000");
    assert VitalIds(db.vitals)[0] == "000000000";
    assert VitalIds(after.vitals)[0] == "000000000";
  }

  /** A busy worker with an online lease on chapter "c" that stopped beating at minute 0, and an idle worker that beat at minute 10. */
  function StalledPair(): DB
  {
    DB([Vital("000000000", Busy, 0), Vital("000000001", Idle, 10)],
       [Chapter("c", ChapterInProgress, None)],
       [Lease("000000000", "c", LeasePending, Online)])
  }

  lemma StalledPairConsistent()
    ensures Consistent(StalledPair())
  {
    var db := StalledPair();
    PendingCountOne(db.leases[0], "000000000");
    PendingCountOne(db.leases[0], "000000001");
    assert VitalIds(db.vitals)[0] == "000000000";
  }

  /** No chapter is pending, so the assignment pass changes nothing. */
  lemma StalledPairNothingToAssign()
    ensures AssignStep(StalledPair(), {}) == StalledPair()
  {
    var db := StalledPair();
    AssignedNone(db, IdleWorkers(db.vitals), PendingChapters(db.chapters), {});
    FilterSingle(db.chapters[0], IsPendingChapter);
    assert PendingChapters(db.chapters) == [];
  }

  /** At minute 10 only the worker that beat at minute 0 is dead. */
  lemma StalledPairDead()
    ensures DeadWorkers(StalledPair().vitals, 10) == ["000000000"]
  {
    var vs := StalledPair().vitals;
    FilterAll(vs, Monitored);
    assert Filter(vs, Monitored) == vs;
    assert !IsAlive(10, vs[0].heartbeat) && IsAlive(10, vs[1].heartbeat);
    assert DeadIndices(vs, 10, 0) == [];
    assert DeadIndices(vs, 10, 1) == [] + [0];
    assert DeadIndices(vs, 10, 2) == [0] + [];
    assert IdsAt(vs, [0]) == [vs[0].workerId];
  }

  /** The sweep whose marking update fails marks nobody but requeues chapter "c". */
  lemma StalledPairSweep()
    ensures Sweep(StalledPair(), 10, Faults(NoOutage, {}, {0}, {}, {})) ==
            SweepResult(StalledPair().(chapters := [Chapter("c", ChapterPending, None)]), ["000000000"], false)
  {
    var db := StalledPair();
    var dead := ["000000000"];
    StalledPairDead();
    MarkedNone(db, dead, {0});
    assert Committed(dead, {0}, 1) == {};
    assert MarkDeadUntil(db, 10, {0}, None) == db;
    assert FirstPending(db.leases, "000000000") == Some("c");
    assert ResetList(db.leases, dead, {}, 1) == [] + ["c"];
    assert Committed(["c"], {}, 1) == {"c"};
  }

  /** The sweep at minute 10 whose marking update fails: nothing is marked, but chapter "c" is requeued. */
  lemma RolledBackSweep()
    ensures Step(LoopState(StalledPair(), 3, []), 10, Faults(NoOutage, {}, {0}, {}, {})) ==
            LoopState(StalledPair().(chapters := [Chapter("c", ChapterPending, None)]), 1, ["000000000"])
  {
    StalledPairNothingToAssign();
    StalledPairSweep();
    FilterSingle("000000000", Unrecorded([]));
    assert NewlyDead(["000000000"], []) == ["000000000"];
  }

  /** The next iteration hands the requeued chapter to the idle worker. */
  lemma SecondLeaseOnRequeued()
    ensures var db1 := StalledPair().(chapters := [Chapter("c", ChapterPending, None)]);
            Step(LoopState(db1, 1, ["000000000"]), 10, Faults(NoOutage, {}, {}, {}, {})).db.leases ==
            [Lease("000000000", "c", LeasePending, Online), Lease("000000001", "c", LeasePending, Online)]
  {
    var db1 := StalledPair().(chapters := [Chapter("c", ChapterPending, None)]);
    FilterSingle(db1.chapters[0], IsPendingChapter);
    assert PendingChapters(db1.chapters) == ["c"];
    assert db1.vitals == [db1.vitals[0]] + [db1.vitals[1]];
    FilterConcat([db1.vitals[0]], [db1.vitals[1]], IsIdle);
    FilterSingle(db1.vitals[0], IsIdle);
    FilterSingle(db1.vitals[1], IsIdle);
    assert IdleWorkers(db1.vitals) == ["000000001"];
    assert NewLeases(["000000001"], ["c"], {}, 1) == [] + [Lease("000000001", "c", LeasePending, Online)];
  }

  /**
   * A chapter can end up with two online pending leases although the
   * invariant holds throughout: the update that marks a dead worker offline
   * is rolled back, so the worker stays busy with its online lease, yet
   * reassignment still requeues its chapter and the next assignment pass
   * leases it to another worker.
   */
  lemma RolledBackMarkDoublesLease()
    ensures var s0 := LoopState(StalledPair(), 3, []);
            var s1 := Step(s0, 10, Faults(NoOutage, {}, {0}, {}, {}));
            var s2 := Step(s1, 10, Faults(NoOutage, {}, {}, {}, {}));
            Consistent(s0.db) && Consistent(s2.db) &&
            s2.db.leases == [Lease("000000000", "c", LeasePending, Online), Lease("000000001", "c", LeasePending, Online)]
  {
    var s0 := LoopState(StalledPair(), 3, []);
    var s1 := LoopState(StalledPair().(chapters := [Chapter("c", ChapterPending, None)]), 1, ["000000000"]);
    StalledPairConsistent();
    RolledBackSweep();
    LoopStepKeepsConsistent(s0, 10, Faults(NoOutage, {}, {0}, {}, {}));
    SecondLeaseOnRequeued();
    LoopStepKeepsConsistent(s1, 10, Faults(NoOutage, {}, {}, {}, {}));
  }

  /** The store between the second and third commits of add_extracted_text: chapter and worker updated, the lease still pending. */
  function CompletedButLeased(db: DB, manga: ChapterId, text: string, w: WorkerId): DB
  {
    DB(SetWorkerStatus(db.vitals, {w}, Idle), StoreText(db.chapters, manga, text), db.leases)
  }

  /** A busy worker on chapter "c" while chapter "d" waits. */
  function BusyWithWaiting(): DB
  {
    DB([Vital("000000000", Busy, 0)],
       [Chapter("c", ChapterInProgress, None), Chapter("d", ChapterPending, None)],
       [Lease("000000000", "c", LeasePending, Online)])
  }

  /**
   * Between the second and third commits of add_extracted_text the worker is
   * idle but still holds its pending lease, so the invariant does not hold,
   * and a dispatcher pass that runs then sees that state: an assignment pass
   * hands the worker a second pending lease, and a sweep that finds it dead
   * sends the chapter just stored as done back to pending.
   */
  lemma CompleteMidwayBreaksInvariant()
    ensures var db := BusyWithWaiting();
            var mid := CompletedButLeased(db, "c", "text", "000000000");
            Consistent(db) && !Consistent(mid) &&
            PendingCount(AssignStep(mid, {}).leases, "000000000") == 2 &&
            ReassignStep(mid, ["000000000"], {}, {}).chapters[0] == Chapter("c", ChapterPending, Some("text"))
  {
    var db := BusyWithWaiting();
    var mid := CompletedButLeased(db, "c", "text", "000000000");
    var l := db.leases[0];
    PendingCountOne(l, "000000000");
    assert VitalIds(db.vitals)[0] == "000000000";
    assert Consistent(db);
    assert mid.vitals[0].status == Idle;
    MidwayPairsAgain();
    assert FirstPending(mid.leases, "000000000") == Some("c");
    assert ResetList(mid.leases, ["000000000"], {}, 1) == [] + ["c"];
    assert Committed(["c"], {}, 1) == {"c"};
  }

  /** The assignment pass over the midway store pairs the still-leased worker with chapter "d". */
  lemma MidwayPairsAgain()
    ensures PendingCount(AssignStep(CompletedButLeased(BusyWithWaiting(), "c", "text", "000000000"), {}).leases, "000000000") == 2
  {
    var mid := CompletedButLeased(BusyWithWaiting(), "c", "text", "000000000");
    var held := Lease("000000000", "c", LeasePending, Online);
    var added := Lease("000000000", "d", LeasePending, Online);
    assert mid.chapters == [mid.chapters[0]] + [mid.chapters[1]];
    FilterConcat([mid.chapters[0]], [mid.chapters[1]], IsPendingChapter);
    FilterSingle(mid.chapters[0], IsPendingChapter);
    FilterSingle(mid.chapters[1], IsPendingChapter);
    assert PendingChapters(mid.chapters) == ["d"];
    FilterSingle(mid.vitals[0], IsIdle);
    assert IdleWorkers(mid.vitals) == ["000000000"];
    assert NewLeases(["000000000"], ["d"], {}, 1) == [] + [added];
    assert AssignStep(mid, {}).leases == [held] + [added];
    PendingCountAppend([held], [added], "000000000");
    PendingCountOne(held, "000000000");
    PendingCountOne(added, "000000000");
  }

  /** A worker whose last heartbeat was at minute 0 is dead at minute 5. */
  lemma StalledWorkerIsDead(v: Vital)
    requires v.status != Offline && v.heartbeat == 0
    ensures DeadWorkers([v], 5) == [v.workerId]
  {
    FilterSingle(v, Monitored);
    assert !IsAlive(5, [v][0].heartbeat);
    assert DeadIndices([v], 5, 0) == [];
    assert DeadIndices([v], 5, 1) == [] + [0];
  }
}
