/**
 * The job side of the protocol: a chapter is worked on by at most one worker
 * at a time. A lease is active while it is pending and its worker is not
 * marked offline; the invariant says no two active leases share a chapter,
 * together with the two facts that keep it closed under the processes'
 * steps: a pending chapter has no active lease, and a worker that is not
 * offline has no pending lease marked offline. It holds from the empty store
 * through every worker step and every dispatcher iteration whose marking
 * updates commit; a rolled-back marking update breaks it.
 */
module Jobs {
  import opened Tables
  import opened Seqs
  import opened Liveness
  import opened Dispatcher
  import opened DispatcherLoop
  import opened WorkerIds
  import opened Worker
  import opened Protocol

  /** A lease someone is expected to be working on. */
  predicate Active(l: Lease)
  {
    l.progress == LeasePending && l.workerStatus == Online
  }

  /** No two rows of `chapter_text` share an id. */
  predicate UniqueChapterIds(cs: seq<Chapter>)
  {
    forall i, j :: 0 <= i < j < |cs| ==> cs[i].id != cs[j].id
  }

  /** No two active leases are on the same chapter. */
  predicate OneActivePerChapter(ls: seq<Lease>)
  {
    forall i, j :: 0 <= i < j < |ls| && Active(ls[i]) && Active(ls[j]) ==> ls[i].manga != ls[j].manga
  }

  /** A chapter waiting to be assigned has no active lease. */
  predicate PendingUnleased(db: DB)
  {
    forall i, j :: 0 <= i < |db.chapters| && 0 <= j < |db.leases| &&
                   db.chapters[i].status == ChapterPending && Active(db.leases[j]) ==>
                   db.leases[j].manga != db.chapters[i].id
  }

  /** A worker that is not offline has its pending leases online. */
  predicate LiveLeasesOnline(db: DB)
  {
    forall i, j :: 0 <= i < |db.vitals| && 0 <= j < |db.leases| &&
                   db.vitals[i].status != Offline && PendingFor(db.leases[j], db.vitals[i].workerId) ==>
                   db.leases[j].workerStatus == Online
  }

  predicate JobsExclusive(db: DB)
  {
    UniqueChapterIds(db.chapters) && OneActivePerChapter(db.leases) && PendingUnleased(db) && LiveLeasesOnline(db)
  }

  /** The store before any process has run, over a chapter table keyed by id. */
  lemma EmptyStoreJobsExclusive(chapters: seq<Chapter>)
    requires UniqueChapterIds(chapters)
    ensures JobsExclusive(DB([], chapters, []))
  {
  }

  // ---------------------------------------------------------------- assignments

  /** Keeping only some rows keeps the chapter ids distinct. */
  lemma {:induction false} FilterKeepsUniqueChapterIds(cs: seq<Chapter>, keep: Chapter -> bool)
    requires UniqueChapterIds(cs)
    ensures UniqueChapterIds(Filter(cs, keep))
    decreases |cs|
  {
    if cs != [] {
      var init, last := cs[..|cs| - 1], cs[|cs| - 1];
      FilterKeepsUniqueChapterIds(init, keep);
      var rest := Filter(init, keep);
      forall k | 0 <= k < |rest|
        ensures rest[k].id != last.id
      {
        assert rest[k] in rest;
        var p :| 0 <= p < |init| && init[p] == rest[k];
        assert cs[p] == init[p];
      }
    }
  }

  lemma PendingChaptersDistinct(cs: seq<Chapter>)
    requires UniqueChapterIds(cs)
    ensures forall a, b :: 0 <= a < b < |PendingChapters(cs)| ==> PendingChapters(cs)[a] != PendingChapters(cs)[b]
  {
    FilterKeepsUniqueChapterIds(cs, IsPendingChapter);
  }

  /** Pairing distinct chapters yields active leases on distinct chapters, each one committed. */
  lemma {:induction false} NewLeasesExclusive(idle: seq<WorkerId>, pending: seq<ChapterId>, failures: set<nat>, n: nat)
    requires n <= |idle| && n <= |pending|
    requires forall a, b :: 0 <= a < b < |pending| ==> pending[a] != pending[b]
    ensures var added := NewLeases(idle, pending, failures, n);
            (forall a :: 0 <= a < |added| ==> Active(added[a]) && added[a].manga in Committed(pending, failures, n)) &&
            OneActivePerChapter(added)
  {
    if n > 0 {
      var k := n - 1;
      NewLeasesExclusive(idle, pending, failures, k);
      CommittedStep(pending, failures, k);
      var prev := NewLeases(idle, pending, failures, k);
      if k in failures {
        assert NewLeases(idle, pending, failures, n) == prev + [];
      } else {
        forall a | 0 <= a < |prev|
          ensures prev[a].manga != pending[k]
        {
          var j :| 0 <= j < k && j !in failures && pending[j] == prev[a].manga;
        }
      }
    }
  }

  /** The leases an assignment pass adds are active, on distinct chapters that were pending. */
  lemma AssignedLeasesFresh(db: DB, failures: set<nat>, raiseAt: Option<nat>)
    requires JobsExclusive(db)
    ensures var pending := PendingChapters(db.chapters);
            var n := Reached(raiseAt, Min(|IdleWorkers(db.vitals)|, |pending|));
            var added := NewLeases(IdleWorkers(db.vitals), pending, failures, n);
            OneActivePerChapter(added) &&
            (forall a :: 0 <= a < |added| ==> Active(added[a]) && added[a].manga in Committed(pending, failures, n)) &&
            (forall a, j :: 0 <= a < |added| && 0 <= j < |db.leases| && Active(db.leases[j]) ==> db.leases[j].manga != added[a].manga)
  {
    var pending := PendingChapters(db.chapters);
    var idle := IdleWorkers(db.vitals);
    var n := Reached(raiseAt, Min(|idle|, |pending|));
    var added := NewLeases(idle, pending, failures, n);
    PendingChaptersDistinct(db.chapters);
    NewLeasesExclusive(idle, pending, failures, n);
    forall a, j | 0 <= a < |added| && 0 <= j < |db.leases| && Active(db.leases[j])
      ensures db.leases[j].manga != added[a].manga
    {
      var k :| 0 <= k < n && k !in failures && pending[k] == added[a].manga;
      assert pending[k] in pending;
      PendingChaptersExact(db.chapters, pending[k]);
      var i :| 0 <= i < |db.chapters| && db.chapters[i].id == pending[k] && db.chapters[i].status == ChapterPending;
    }
  }

  lemma AssignKeepsOneActive(db: DB, failures: set<nat>, raiseAt: Option<nat>)
    requires JobsExclusive(db)
    ensures OneActivePerChapter(AssignUntil(db, failures, raiseAt).leases)
  {
    var n := Reached(raiseAt, Min(|IdleWorkers(db.vitals)|, |PendingChapters(db.chapters)|));
    var added := NewLeases(IdleWorkers(db.vitals), PendingChapters(db.chapters), failures, n);
    var ls := AssignUntil(db, failures, raiseAt).leases;
    var m := |db.leases|;
    AssignedLeasesFresh(db, failures, raiseAt);
    assert ls == db.leases + added;
    forall i, j | 0 <= i < j < |ls| && Active(ls[i]) && Active(ls[j])
      ensures ls[i].manga != ls[j].manga
    {
      if j < m {
        assert ls[i] == db.leases[i] && ls[j] == db.leases[j];
      } else if i < m {
        assert ls[i] == db.leases[i] && ls[j] == added[j - m];
      } else {
        assert ls[i] == added[i - m] && ls[j] == added[j - m];
      }
    }
  }

  lemma AssignKeepsPendingUnleased(db: DB, failures: set<nat>, raiseAt: Option<nat>)
    requires JobsExclusive(db)
    ensures PendingUnleased(AssignUntil(db, failures, raiseAt))
  {
    var pending := PendingChapters(db.chapters);
    var n := Reached(raiseAt, Min(|IdleWorkers(db.vitals)|, |pending|));
    var added := NewLeases(IdleWorkers(db.vitals), pending, failures, n);
    var after := AssignUntil(db, failures, raiseAt);
    var m := |db.leases|;
    AssignedLeasesFresh(db, failures, raiseAt);
    assert after.leases == db.leases + added;
    forall i, j | 0 <= i < |after.chapters| && 0 <= j < |after.leases| &&
                  after.chapters[i].status == ChapterPending && Active(after.leases[j])
      ensures after.leases[j].manga != after.chapters[i].id
    {
      assert db.chapters[i].id !in Committed(pending, failures, n);
      assert after.chapters[i] == db.chapters[i];
      if j < m {
        assert after.leases[j] == db.leases[j];
      } else {
        assert after.leases[j] == added[j - m];
      }
    }
  }

  lemma AssignKeepsLiveLeasesOnline(db: DB, failures: set<nat>, raiseAt: Option<nat>)
    requires UniqueIds(db.vitals) && JobsExclusive(db)
    ensures LiveLeasesOnline(AssignUntil(db, failures, raiseAt))
  {
    var idle := IdleWorkers(db.vitals);
    var n := Reached(raiseAt, Min(|idle|, |PendingChapters(db.chapters)|));
    var added := NewLeases(idle, PendingChapters(db.chapters), failures, n);
    var after := AssignUntil(db, failures, raiseAt);
    var m := |db.leases|;
    AssignedLeasesFresh(db, failures, raiseAt);
    assert after.leases == db.leases + added;
    forall i, j | 0 <= i < |after.vitals| && 0 <= j < |after.leases| &&
                  after.vitals[i].status != Offline && PendingFor(after.leases[j], after.vitals[i].workerId)
      ensures after.leases[j].workerStatus == Online
    {
      if j >= m {
        assert after.leases[j] == added[j - m];
      } else {
        var w := db.vitals[i].workerId;
        assert after.leases[j] == db.leases[j];
        if w in Committed(idle, failures, n) {
          var k :| 0 <= k < n && k !in failures && idle[k] == w;
          assert idle[k] in idle;
          IdleWorkersExact(db.vitals, w);
          var r :| 0 <= r < |db.vitals| && db.vitals[r].workerId == w && db.vitals[r].status == Idle;
          assert r == i;
        }
        assert db.vitals[i].status != Offline;
      }
    }
  }

  /**
   * An assignment pass, complete or cut off, with any failed pairings, keeps
   * every chapter to at most one active lease: it leases only chapters that
   * were pending, each to one worker.
   */
  lemma AssignKeepsJobsExclusive(db: DB, failures: set<nat>, raiseAt: Option<nat>)
    requires UniqueIds(db.vitals) && JobsExclusive(db)
    ensures JobsExclusive(AssignUntil(db, failures, raiseAt))
  {
    AssignKeepsOneActive(db, failures, raiseAt);
    AssignKeepsPendingUnleased(db, failures, raiseAt);
    AssignKeepsLiveLeasesOnline(db, failures, raiseAt);
    assert AssignUntil(db, failures, raiseAt).chapters ==
           SetChapterStatus(db.chapters, Committed(PendingChapters(db.chapters), failures,
                                                    Reached(raiseAt, Min(|IdleWorkers(db.vitals)|, |PendingChapters(db.chapters)|))),
                            ChapterInProgress);
  }

  // ---------------------------------------------------------------- the vitals check and reassignment

  /**
   * Marking dead workers offline, with any rolled-back updates, keeps the
   * invariant: a worker's row and its leases are marked in one commit, and
   * marking only makes leases inactive.
   */
  lemma MarkKeepsJobsExclusive(db: DB, dead: seq<WorkerId>, failures: set<nat>, k: nat)
    requires k <= |dead| && JobsExclusive(db)
    ensures JobsExclusive(MarkedUpTo(db, dead, failures, k))
  {
    var after := MarkedUpTo(db, dead, failures, k);
    var gone := Committed(dead, failures, k);
    forall i, j | 0 <= i < |after.vitals| && 0 <= j < |after.leases| &&
                  after.vitals[i].status != Offline && PendingFor(after.leases[j], after.vitals[i].workerId)
      ensures after.leases[j].workerStatus == Online
    {
      assert db.vitals[i].workerId !in gone;
      assert after.vitals[i] == db.vitals[i] && after.leases[j] == db.leases[j];
    }
  }

  /** None of the chapters `ms` has an active lease in `ls`. */
  predicate NoActiveLeaseOn(ls: seq<Lease>, ms: seq<ChapterId>)
  {
    forall q, j :: 0 <= q < |ms| && 0 <= j < |ls| && Active(ls[j]) ==> ls[j].manga != ms[q]
  }

  /** A reassignment that requeues no chapter with an active lease keeps the invariant. */
  lemma ReassignKeepsJobsExclusive(db: DB, dead: seq<WorkerId>, lookupFailures: set<nat>, resetFailures: set<nat>,
                                   raiseAt: Option<nat>)
    requires JobsExclusive(db)
    requires NoActiveLeaseOn(db.leases, ResetList(db.leases, dead, lookupFailures, |dead|))
    ensures JobsExclusive(ReassignUntil(db, dead, lookupFailures, resetFailures, raiseAt))
  {
    var resets := ResetList(db.leases, dead, lookupFailures, |dead|);
    var r := Reached(raiseAt, |resets|);
    var after := ReassignUntil(db, dead, lookupFailures, resetFailures, raiseAt);
    forall i, j | 0 <= i < |after.chapters| && 0 <= j < |after.leases| &&
                  after.chapters[i].status == ChapterPending && Active(after.leases[j])
      ensures after.leases[j].manga != after.chapters[i].id
    {
      assert after.leases[j] == db.leases[j];
      if db.chapters[i].id in Committed(resets, resetFailures, r) {
        var q :| 0 <= q < r && q !in resetFailures && resets[q] == db.chapters[i].id;
        assert q < |resets| && Active(db.leases[j]);
        assert db.leases[j].manga != resets[q];
      } else {
        assert after.chapters[i] == db.chapters[i];
      }
    }
  }

  /** A dead worker's pending lease was active: the worker was not offline. */
  lemma DeadLeaseWasActive(db: DB, now: Minute, d: WorkerId, p: nat)
    requires LiveLeasesOnline(db)
    requires d in DeadWorkers(db.vitals, now) && p < |db.leases| && PendingFor(db.leases[p], d)
    ensures Active(db.leases[p])
  {
    DeadWorkersExact(db.vitals, now, d);
    var i :| 0 <= i < |db.vitals| && db.vitals[i].workerId == d && db.vitals[i].status != Offline &&
             !IsAlive(now, db.vitals[i].heartbeat);
  }

  /** Marking leaves a lease active only if it was active and its worker was not marked. */
  lemma ActiveAfterMarking(ls: seq<Lease>, gone: set<WorkerId>, j: nat)
    requires j < |ls| && Active(SetSnapshot(ls, gone, MarkedOffline)[j])
    ensures SetSnapshot(ls, gone, MarkedOffline)[j] == ls[j] && ls[j].workerId !in gone
  {
  }

  /**
   * Once every dead worker is marked, no chapter the reassignment collects
   * has an active lease: the collected lease itself is now marked offline,
   * and another active lease on the chapter would have been a second one
   * before the marking.
   */
  lemma CollectedAreInactive(db: DB, now: Minute, lookupFailures: set<nat>)
    requires JobsExclusive(db)
    ensures var dead := DeadWorkers(db.vitals, now);
            var marked := MarkDead(db, now, {});
            NoActiveLeaseOn(marked.leases, ResetList(marked.leases, dead, lookupFailures, |dead|))
  {
    var dead := DeadWorkers(db.vitals, now);
    var gone := Committed(dead, {}, |dead|);
    var ls := SetSnapshot(db.leases, gone, MarkedOffline);
    assert MarkDead(db, now, {}).leases == ls;
    var resets := ResetList(ls, dead, lookupFailures, |dead|);
    forall q, j | 0 <= q < |resets| && 0 <= j < |ls| && Active(ls[j])
      ensures ls[j].manga != resets[q]
    {
      ResetListExact(ls, dead, lookupFailures, |dead|, resets[q]);
      var k :| 0 <= k < |dead| && CollectsAt(ls, dead, lookupFailures, k, resets[q]);
      assert dead[k] in dead && dead[k] in gone;
      CollectedChapterInactive(db, now, dead[k], gone, resets[q], j);
    }
  }

  /** The chapter collected for a marked dead worker has no active lease after the marking. */
  lemma CollectedChapterInactive(db: DB, now: Minute, d: WorkerId, gone: set<WorkerId>, m: ChapterId, j: nat)
    requires JobsExclusive(db)
    requires d in DeadWorkers(db.vitals, now) && d in gone
    requires FirstPending(SetSnapshot(db.leases, gone, MarkedOffline), d) == Some(m)
    requires j < |db.leases| && Active(SetSnapshot(db.leases, gone, MarkedOffline)[j])
    ensures SetSnapshot(db.leases, gone, MarkedOffline)[j].manga != m
  {
    var ls := SetSnapshot(db.leases, gone, MarkedOffline);
    var p := PendingIndex(ls, d);
    ActiveAfterMarking(db.leases, gone, j);
    assert PendingFor(db.leases[p], d) && db.leases[p].manga == m;
    DeadLeaseWasActive(db, now, d, p);
    assert p != j;
    ActiveLeasesApart(db.leases, p, j);
  }

  /** Two different active leases are on different chapters. */
  lemma ActiveLeasesApart(ls: seq<Lease>, a: nat, b: nat)
    requires OneActivePerChapter(ls)
    requires a < |ls| && b < |ls| && a != b && Active(ls[a]) && Active(ls[b])
    ensures ls[a].manga != ls[b].manga
  {
    if b < a {
      assert ls[b].manga != ls[a].manga;
    }
  }

  /** A sweep whose marking updates all commit keeps the invariant, whatever else fails or raises. */
  lemma SweepKeepsJobsExclusive(db: DB, now: Minute, f: Faults)
    requires JobsExclusive(db) && f.mark == {}
    ensures JobsExclusive(Sweep(db, now, f).db)
  {
    var vitalsRaise := RaiseAt(f.outage, VitalsPass);
    var dead := DeadWorkers(db.vitals, now);
    MarkKeepsJobsExclusive(db, dead, {}, Reached(vitalsRaise, |dead|));
    if vitalsRaise.None? && dead != [] {
      CollectedAreInactive(db, now, f.lookup);
      ReassignKeepsJobsExclusive(MarkDead(db, now, {}), dead, f.lookup, f.reset, RaiseAt(f.outage, ReassignPass));
    }
  }

  /**
   * One dispatcher iteration, with any outage and any failed pairing, lookup
   * or reset, keeps every chapter to at most one active lease, as long as
   * the updates that mark dead workers offline commit.
   */
  lemma LoopStepKeepsJobsExclusive(s: LoopState, now: Minute, f: Faults)
    requires Consistent(s.db) && JobsExclusive(s.db) && f.mark == {}
    ensures JobsExclusive(Step(s, now, f).db)
    ensures OneActivePerChapter(Step(s, now, f).db.leases)
  {
    var assignRaise := RaiseAt(f.outage, AssignPass);
    AssignKeepsJobsExclusive(s.db, f.assign, assignRaise);
    if assignRaise.None? && s.rep == 3 {
      SweepKeepsJobsExclusive(AssignUntil(s.db, f.assign, assignRaise), now, f);
    }
  }

  lemma StalledPairJobsExclusive()
    ensures JobsExclusive(StalledPair())
  {
  }

  /**
   * The rolled-back marking of `Protocol.RolledBackMarkDoublesLease` breaks
   * the invariant: it holds before the two iterations, and afterwards
   * chapter "c" has two active leases.
   */
  lemma RolledBackMarkBreaksExclusive()
    ensures var s0 := LoopState(StalledPair(), 3, []);
            var s1 := Step(s0, 10, Faults(NoOutage, {}, {0}, {}, {}));
            var s2 := Step(s1, 10, Faults(NoOutage, {}, {}, {}, {}));
            JobsExclusive(s0.db) && !OneActivePerChapter(s2.db.leases)
  {
    var s0 := LoopState(StalledPair(), 3, []);
    var s1 := Step(s0, 10, Faults(NoOutage, {}, {0}, {}, {}));
    var s2 := Step(s1, 10, Faults(NoOutage, {}, {}, {}, {}));
    StalledPairJobsExclusive();
    RolledBackMarkDoublesLease();
    var ls := s2.db.leases;
    assert Active(ls[0]) && Active(ls[1]) && ls[0].manga == ls[1].manga;
  }

  // ---------------------------------------------------------------- worker steps

  /** Registering a nine-digit id keeps the invariant: the new worker holds no lease. */
  lemma RegisterKeepsJobsExclusive(db: DB, now: Minute)
    requires Consistent(db) && JobsExclusive(db)
    requires forall x :: x in VitalIds(db.vitals) ==> IsCanonical(x)
    ensures JobsExclusive(RegisterStep(db, now))
  {
    RegisterAddsNewWorker(db, now);
    var after := RegisterStep(db, now);
    var n := |db.vitals|;
    var v := after.vitals[n];
    assert after.vitals == db.vitals + [v];
    forall j | 0 <= j < |db.leases|
      ensures db.leases[j].workerId != v.workerId
    {
      assert db.leases[j].workerId in VitalIds(db.vitals);
    }
  }

  lemma HeartbeatKeepsJobsExclusive(db: DB, id: WorkerId, now: Minute)
    requires JobsExclusive(db)
    ensures JobsExclusive(db.(vitals := SetHeartbeat(db.vitals, id, now)))
  {
  }

  /**
   * Completing the task the worker was handed keeps the invariant: the
   * chapter becomes done, the worker idle with no pending lease, and no
   * other lease changes.
   */
  lemma CompleteKeepsJobsExclusive(db: DB, manga: ChapterId, text: string, w: WorkerId)
    requires Consistent(db) && JobsExclusive(db)
    requires FirstPending(db.leases, w) == Some(manga)
    ensures JobsExclusive(Complete(db, manga, text, w))
  {
    var after := Complete(db, manga, text, w);
    CompleteKeepsConsistent(db, manga, text, w);
    PendingCountNone(after.leases, w);
    forall i, j | 0 <= i < |after.vitals| && 0 <= j < |after.leases| &&
                  after.vitals[i].status != Offline && PendingFor(after.leases[j], after.vitals[i].workerId)
      ensures after.leases[j].workerStatus == Online
    {
      assert after.vitals[i].workerId != w;
      assert after.vitals[i] == db.vitals[i] && after.leases[j] == db.leases[j];
    }
  }
}
