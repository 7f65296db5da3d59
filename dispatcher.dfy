/**
 * The dispatcher's three store operations: the vitals check that marks dead
 * workers offline, the positional assignment of pending chapters to idle
 * workers, and the requeueing of chapters left behind by dead workers.
 *
 * Each operation is a method over the shared `Store` proved against a pure
 * step function on the `DB` value. A per-entity database error that the
 * source catches and rolls back is modelled by a set of loop positions whose
 * unit of work fails. An error that escapes the call (the store cannot be
 * reached, or a rollback itself fails) is modelled by `raiseAt == Some(k)`:
 * the units before position `k` have run and stay committed, nothing after
 * them runs, and the call returns no result.
 */
module Dispatcher {
  import opened Tables
  import opened Seqs
  import opened Liveness

  /** What the vitals check returns: the dead workers' ids, or the 'no casualties' sentinel. */
  datatype VitalsReport = Casualties(dead: seq<WorkerId>) | NoCasualties

  // ---------------------------------------------------------------- vitals check

  /** The rows the vitals check examines: those whose status is not '-1'. */
  predicate Monitored(v: Vital)
  {
    v.status != Offline
  }

  /** Positions, among the first `n` examined rows, of the workers outside the liveness window. */
  function DeadIndices(rows: seq<Vital>, now: Minute, n: nat): (r: seq<nat>)
    requires n <= |rows|
    ensures forall k :: 0 <= k < |r| ==> r[k] < n && !IsAlive(now, rows[r[k]].heartbeat)
    ensures forall k, j :: 0 <= k < j < |r| ==> r[k] < r[j]
    ensures forall j :: 0 <= j < n && !IsAlive(now, rows[j].heartbeat) ==> j in r
  {
    if n == 0 then []
    else DeadIndices(rows, now, n - 1) + (if IsAlive(now, rows[n - 1].heartbeat) then [] else [n - 1])
  }

  function IdsAt(rows: seq<Vital>, idx: seq<nat>): seq<WorkerId>
    requires forall k :: 0 <= k < |idx| ==> idx[k] < |rows|
  {
    seq(|idx|, k requires 0 <= k < |idx| => rows[idx[k]].workerId)
  }

  /** The ids the vitals check declares dead at minute `now`, in table order. */
  function DeadWorkers(vs: seq<Vital>, now: Minute): seq<WorkerId>
  {
    var rows := Filter(vs, Monitored);
    IdsAt(rows, DeadIndices(rows, now, |rows|))
  }

  /** The value check_vitals returns for a list of dead ids. */
  function Report(dead: seq<WorkerId>): VitalsReport
  {
    if dead == [] then NoCasualties else Casualties(dead)
  }

  /** The store after a vitals check that an error escapes at position `raiseAt` of the dead list, if any. */
  function MarkDeadUntil(db: DB, now: Minute, failures: set<nat>, raiseAt: Option<nat>): DB
  {
    var dead := DeadWorkers(db.vitals, now);
    MarkedUpTo(db, dead, failures, Reached(raiseAt, |dead|))
  }

  /** The store after the vitals check: every dead worker whose update commits is offline, in vitals and in all its leases. */
  function MarkDead(db: DB, now: Minute, failures: set<nat>): DB
  {
    MarkDeadUntil(db, now, failures, None)
  }

  /** The store once the updates for the first `k` dead workers have been attempted. */
  function MarkedUpTo(db: DB, dead: seq<WorkerId>, failures: set<nat>, k: nat): DB
    requires k <= |dead|
  {
    var gone := Committed(dead, failures, k);
    DB(SetWorkerStatus(db.vitals, gone, Offline), db.chapters, SetSnapshot(db.leases, gone, MarkedOffline))
  }

  lemma MarkedNone(db: DB, dead: seq<WorkerId>, failures: set<nat>)
    ensures MarkedUpTo(db, dead, failures, 0) == db
  {
    assert Committed(dead, failures, 0) == {};
    assert SetWorkerStatus(db.vitals, {}, Offline) == db.vitals;
    assert SetSnapshot(db.leases, {}, MarkedOffline) == db.leases;
  }

  /** One more dead worker: its two updates land unless its position fails. */
  lemma MarkedStep(db: DB, dead: seq<WorkerId>, failures: set<nat>, k: nat)
    requires k < |dead|
    ensures var before := MarkedUpTo(db, dead, failures, k);
            MarkedUpTo(db, dead, failures, k + 1) ==
            if k in failures then before
            else DB(SetWorkerStatus(before.vitals, {dead[k]}, Offline), before.chapters,
                    SetSnapshot(before.leases, {dead[k]}, MarkedOffline))
  {
    var done := Committed(dead, failures, k);
    CommittedStep(dead, failures, k);
    SetWorkerStatusTwice(db.vitals, done, {dead[k]}, Offline);
    SetSnapshotTwice(db.leases, done, {dead[k]}, MarkedOffline);
  }

  /** The first loop of check_vitals: the positions of the examined rows outside the liveness window. */
  method DeadPositions(rows: seq<Vital>, now: Minute) returns (deadIdx: seq<nat>)
    ensures deadIdx == DeadIndices(rows, now, |rows|)
  {
    deadIdx := [];
    for i := 0 to |rows|
      invariant deadIdx == DeadIndices(rows, now, i)
    {
      if !IsAlive(now, rows[i].heartbeat) {
        deadIdx := deadIdx + [i];
      }
    }
  }

  /**
   * The second loop of check_vitals: for each dead position in turn, record
   * the worker's id, then mark it offline in vitals and in its leases unless
   * that position's update fails. An error escaping at position `raiseAt`
   * ends the loop there.
   */
  method MarkPositions(db: Store, rows: seq<Vital>, deadIdx: seq<nat>, failures: set<nat>, raiseAt: Option<nat>)
    returns (deadWorkers: seq<WorkerId>)
    requires forall k :: 0 <= k < |deadIdx| ==> deadIdx[k] < |rows|
    modifies db
    ensures deadWorkers == IdsAt(rows, deadIdx)[..Reached(raiseAt, |deadIdx|)]
    ensures db.State() == MarkedUpTo(old(db.State()), IdsAt(rows, deadIdx), failures, Reached(raiseAt, |deadIdx|))
  {
    ghost var dead := IdsAt(rows, deadIdx);
    ghost var d0 := db.State();
    deadWorkers := [];
    MarkedNone(d0, dead, failures);
    for k := 0 to |deadIdx|
      invariant deadWorkers == dead[..k]
      invariant db.State() == MarkedUpTo(d0, dead, failures, k)
      invariant raiseAt.Some? ==> k <= raiseAt.value
    {
      if raiseAt == Some(k) {
        return;
      }
      var workerId := rows[deadIdx[k]].workerId;
      deadWorkers := deadWorkers + [workerId];
      MarkedStep(d0, dead, failures, k);
      if k !in failures {
        db.vitals := SetWorkerStatus(db.vitals, {workerId}, Offline);
        db.leases := SetSnapshot(db.leases, {workerId}, MarkedOffline);
      }
    }
    assert deadWorkers == dead[..|deadIdx|];
  }

  /**
   * check_vitals: find the examined workers outside the liveness window, then
   * for each of them, in order, record its id and try to mark it offline.
   * The id is recorded before the update, so it is reported even when the
   * update fails; `failures` holds the positions in the dead list whose
   * update fails and is rolled back. When an error escapes at position
   * `raiseAt`, the updates before it stay and nothing is returned.
   */
  method CheckVitals(db: Store, now: Minute, raiseAt: Option<nat>, failures: set<nat>) returns (r: Option<VitalsReport>)
    modifies db
    ensures raiseAt.Some? ==> r == None
    ensures raiseAt.None? ==> r == Some(Report(DeadWorkers(old(db.vitals), now)))
    ensures db.State() == MarkDeadUntil(old(db.State()), now, failures, raiseAt)
  {
    var rows := Filter(db.vitals, Monitored);
    var deadIdx := DeadPositions(rows, now);
    var deadWorkers := MarkPositions(db, rows, deadIdx, failures, raiseAt);
    if raiseAt.Some? {
      return None;
    }
    assert deadWorkers == IdsAt(rows, deadIdx);
    if deadIdx != [] {
      r := Some(Casualties(deadWorkers));
    } else {
      r := Some(NoCasualties);
    }
  }

  /** Among the examined rows, a worker is reported exactly when one of its rows is outside the window. */
  lemma DeadAmongRows(rows: seq<Vital>, now: Minute, w: WorkerId)
    ensures w in IdsAt(rows, DeadIndices(rows, now, |rows|)) <==>
            exists j :: 0 <= j < |rows| && rows[j].workerId == w && !IsAlive(now, rows[j].heartbeat)
  {
    var idx := DeadIndices(rows, now, |rows|);
    var ids := IdsAt(rows, idx);
    if w in ids {
      var k :| 0 <= k < |idx| && ids[k] == w;
      assert rows[idx[k]].workerId == w;
    }
    if exists j :: 0 <= j < |rows| && rows[j].workerId == w && !IsAlive(now, rows[j].heartbeat) {
      var j :| 0 <= j < |rows| && rows[j].workerId == w && !IsAlive(now, rows[j].heartbeat);
      var k :| 0 <= k < |idx| && idx[k] == j;
      assert ids[k] == w;
    }
  }

  /** A worker is declared dead exactly when one of its rows is examined and outside the window. */
  lemma DeadWorkersExact(vs: seq<Vital>, now: Minute, w: WorkerId)
    ensures w in DeadWorkers(vs, now) <==>
            exists i :: 0 <= i < |vs| && vs[i].workerId == w && vs[i].status != Offline && !IsAlive(now, vs[i].heartbeat)
  {
    var rows := Filter(vs, Monitored);
    var flat := (v: Vital) => v.workerId == w && !IsAlive(now, v.heartbeat);
    DeadAmongRows(rows, now, w);
    FilterExists(vs, Monitored, flat);
  }

  /**
   * When every update commits, a second check in the same minute finds no
   * casualties: every worker left examined is inside the window.
   */
  lemma MarkDeadLeavesNoCasualties(db: DB, now: Minute)
    ensures DeadWorkers(MarkDead(db, now, {}).vitals, now) == []
  {
    var after := MarkDead(db, now, {}).vitals;
    forall i | 0 <= i < |after| && db.vitals[i].status != Offline && !IsAlive(now, db.vitals[i].heartbeat)
      ensures after[i].status == Offline
    {
      DeadRowMarked(db, now, i);
    }
    if DeadWorkers(after, now) != [] {
      DeadWorkersExact(after, now, DeadWorkers(after, now)[0]);
      assert false;
    }
  }

  /** With no failing update, an examined row outside the window ends up offline. */
  lemma DeadRowMarked(db: DB, now: Minute, i: nat)
    requires i < |db.vitals| && db.vitals[i].status != Offline && !IsAlive(now, db.vitals[i].heartbeat)
    ensures i < |MarkDead(db, now, {}).vitals| && MarkDead(db, now, {}).vitals[i].status == Offline
  {
    var dead := DeadWorkers(db.vitals, now);
    DeadWorkersExact(db.vitals, now, db.vitals[i].workerId);
    var k :| 0 <= k < |dead| && dead[k] == db.vitals[i].workerId;
    assert db.vitals[i].workerId in Committed(dead, {}, |dead|);
  }

  // ---------------------------------------------------------------- assignments

  predicate IsPendingChapter(c: Chapter)
  {
    c.status == ChapterPending
  }

  predicate IsIdle(v: Vital)
  {
    v.status == Idle
  }

  /** SELECT id FROM chapter_text WHERE status = '0', in table order. */
  function PendingChapters(cs: seq<Chapter>): seq<ChapterId>
  {
    ChapterIds(Filter(cs, IsPendingChapter))
  }

  /** SELECT worker_id FROM vitals WHERE status = '0', in table order. */
  function IdleWorkers(vs: seq<Vital>): seq<WorkerId>
  {
    VitalIds(Filter(vs, IsIdle))
  }

  /** A worker is offered work exactly when one of its rows is idle. */
  lemma IdleWorkersExact(vs: seq<Vital>, w: WorkerId)
    ensures w in IdleWorkers(vs) <==> exists i :: 0 <= i < |vs| && vs[i].workerId == w && vs[i].status == Idle
  {
    var rows := Filter(vs, IsIdle);
    if w in IdleWorkers(vs) {
      var k :| 0 <= k < |rows| && rows[k].workerId == w;
      assert rows[k] in rows;
      FilterMember(vs, IsIdle, rows[k]);
      var i :| 0 <= i < |vs| && vs[i] == rows[k];
    }
    if exists i :: 0 <= i < |vs| && vs[i].workerId == w && vs[i].status == Idle {
      var i :| 0 <= i < |vs| && vs[i].workerId == w && vs[i].status == Idle;
      FilterMember(vs, IsIdle, vs[i]);
      var k :| 0 <= k < |rows| && rows[k] == vs[i];
      assert IdleWorkers(vs)[k] == w;
    }
  }

  /** A chapter is offered for assignment exactly when one of its rows is pending. */
  lemma PendingChaptersExact(cs: seq<Chapter>, m: ChapterId)
    ensures m in PendingChapters(cs) <==> exists i :: 0 <= i < |cs| && cs[i].id == m && cs[i].status == ChapterPending
  {
    var rows := Filter(cs, IsPendingChapter);
    if m in PendingChapters(cs) {
      var k :| 0 <= k < |rows| && rows[k].id == m;
      assert rows[k] in rows;
      FilterMember(cs, IsPendingChapter, rows[k]);
      var i :| 0 <= i < |cs| && cs[i] == rows[k];
    }
    if exists i :: 0 <= i < |cs| && cs[i].id == m && cs[i].status == ChapterPending {
      var i :| 0 <= i < |cs| && cs[i].id == m && cs[i].status == ChapterPending;
      FilterMember(cs, IsPendingChapter, cs[i]);
      var k :| 0 <= k < |rows| && rows[k] == cs[i];
      assert PendingChapters(cs)[k] == m;
    }
  }

  function Min(a: int, b: int): int
  {
    if a <= b then a else b
  }

  /** The leases inserted by the first `n` pairings, the failed ones left out. */
  function NewLeases(idle: seq<WorkerId>, pending: seq<ChapterId>, failures: set<nat>, n: nat): seq<Lease>
    requires n <= |idle| && n <= |pending|
  {
    if n == 0 then []
    else NewLeases(idle, pending, failures, n - 1) +
         (if n - 1 in failures then [] else [Lease(idle[n - 1], pending[n - 1], LeasePending, Online)])
  }

  /** The store after the first `n` pairings of `idle` with `pending` have been attempted. */
  function AssignedUpTo(db: DB, idle: seq<WorkerId>, pending: seq<ChapterId>, failures: set<nat>, n: nat): DB
    requires n <= |idle| && n <= |pending|
  {
    DB(SetWorkerStatus(db.vitals, Committed(idle, failures, n), Busy),
       SetChapterStatus(db.chapters, Committed(pending, failures, n), ChapterInProgress),
       db.leases + NewLeases(idle, pending, failures, n))
  }

  /** The store after an assignment pass that an error escapes at pairing `raiseAt`, if any. */
  function AssignUntil(db: DB, failures: set<nat>, raiseAt: Option<nat>): DB
  {
    var pending := PendingChapters(db.chapters);
    var idle := IdleWorkers(db.vitals);
    AssignedUpTo(db, idle, pending, failures, Reached(raiseAt, Min(|idle|, |pending|)))
  }

  /** The store after the assignment pass. */
  function AssignStep(db: DB, failures: set<nat>): DB
  {
    AssignUntil(db, failures, None)
  }

  lemma AssignedNone(db: DB, idle: seq<WorkerId>, pending: seq<ChapterId>, failures: set<nat>)
    ensures AssignedUpTo(db, idle, pending, failures, 0) == db
  {
    assert Committed(idle, failures, 0) == {} && Committed(pending, failures, 0) == {};
    assert SetWorkerStatus(db.vitals, {}, Busy) == db.vitals;
    assert SetChapterStatus(db.chapters, {}, ChapterInProgress) == db.chapters;
    assert db.leases + [] == db.leases;
  }

  /** One more pairing: its insert and its two updates land unless its position fails. */
  lemma AssignedStep(db: DB, idle: seq<WorkerId>, pending: seq<ChapterId>, failures: set<nat>, n: nat)
    requires n < |idle| && n < |pending|
    ensures var before := AssignedUpTo(db, idle, pending, failures, n);
            AssignedUpTo(db, idle, pending, failures, n + 1) ==
            if n in failures then before
            else DB(SetWorkerStatus(before.vitals, {idle[n]}, Busy),
                    SetChapterStatus(before.chapters, {pending[n]}, ChapterInProgress),
                    before.leases + [Lease(idle[n], pending[n], LeasePending, Online)])
  {
    CommittedStep(idle, failures, n);
    CommittedStep(pending, failures, n);
    SetWorkerStatusTwice(db.vitals, Committed(idle, failures, n), {idle[n]}, Busy);
    SetChapterStatusTwice(db.chapters, Committed(pending, failures, n), {pending[n]}, ChapterInProgress);
    var prev := NewLeases(idle, pending, failures, n);
    if n in failures {
      AppendEmpty(prev);
    } else {
      ConcatAssoc(db.leases, prev, [Lease(idle[n], pending[n], LeasePending, Online)]);
    }
  }

  /**
   * assignments: the k-th idle worker gets the k-th pending chapter until one
   * list runs out. Each pairing inserts a lease and flips the chapter and the
   * worker; `failures` holds the pairings that fail and are rolled back,
   * after which the next pairing still proceeds. An error escaping at
   * pairing `raiseAt` ends the pass there, the earlier pairings kept.
   */
  method Assignments(db: Store, raiseAt: Option<nat>, failures: set<nat>) returns (ok: bool)
    modifies db
    ensures ok == raiseAt.None?
    ensures db.State() == AssignUntil(old(db.State()), failures, raiseAt)
  {
    var incomplete := PendingChapters(db.chapters);
    var available := IdleWorkers(db.vitals);
    ghost var d0 := db.State();
    AssignedNone(d0, available, incomplete, failures);
    var idx := 0;
    while idx < |available|
      invariant idx <= |available| && idx <= |incomplete|
      invariant db.State() == AssignedUpTo(d0, available, incomplete, failures, idx)
      invariant raiseAt.Some? ==> idx <= raiseAt.value
    {
      if raiseAt == Some(idx) {
        return false;
      }
      if idx >= |incomplete| {
        break;
      }
      var workerId, chapterId := available[idx], incomplete[idx];
      AssignedStep(d0, available, incomplete, failures, idx);
      if idx !in failures {
        db.leases := db.leases + [Lease(workerId, chapterId, LeasePending, Online)];
        db.chapters := SetChapterStatus(db.chapters, {chapterId}, ChapterInProgress);
        db.vitals := SetWorkerStatus(db.vitals, {workerId}, Busy);
      }
      idx := idx + 1;
    }
    return raiseAt.None?;
  }

  /** The inserted leases are exactly the committed positional pairs, each pending and online. */
  lemma {:induction false} NewLeasesArePositional(idle: seq<WorkerId>, pending: seq<ChapterId>, failures: set<nat>, n: nat, l: Lease)
    requires n <= |idle| && n <= |pending|
    ensures l in NewLeases(idle, pending, failures, n) <==>
            exists k :: 0 <= k < n && k !in failures && l == Lease(idle[k], pending[k], LeasePending, Online)
  {
    if n > 0 {
      NewLeasesArePositional(idle, pending, failures, n - 1, l);
    }
  }

  /** With no failing pairing, the k-th inserted lease pairs the k-th idle worker with the k-th pending chapter. */
  lemma {:induction false} NewLeasesInOrder(idle: seq<WorkerId>, pending: seq<ChapterId>, n: nat)
    requires n <= |idle| && n <= |pending|
    ensures |NewLeases(idle, pending, {}, n)| == n
    ensures forall k :: 0 <= k < n ==> NewLeases(idle, pending, {}, n)[k] == Lease(idle[k], pending[k], LeasePending, Online)
  {
    if n > 0 {
      NewLeasesInOrder(idle, pending, n - 1);
    }
  }

  /** The leases of the first `k` pairings begin the leases of the first `n`. */
  lemma {:induction false} NewLeasesPrefix(idle: seq<WorkerId>, pending: seq<ChapterId>, failures: set<nat>, k: nat, n: nat)
    requires k <= n <= |idle| && n <= |pending|
    ensures NewLeases(idle, pending, failures, k) <= NewLeases(idle, pending, failures, n)
  {
    if k < n {
      NewLeasesPrefix(idle, pending, failures, k, n - 1);
    }
  }

  /** A pass cut off by an escaping error has inserted a prefix of the leases the complete pass inserts. */
  lemma CutOffAssignIsPrefix(db: DB, failures: set<nat>, raiseAt: Option<nat>)
    ensures AssignUntil(db, failures, raiseAt).leases <= AssignStep(db, failures).leases
  {
    var pending := PendingChapters(db.chapters);
    var idle := IdleWorkers(db.vitals);
    var n := Min(|idle|, |pending|);
    var cut := NewLeases(idle, pending, failures, Reached(raiseAt, n));
    var full := NewLeases(idle, pending, failures, n);
    NewLeasesPrefix(idle, pending, failures, Reached(raiseAt, n), n);
    var rest := full[|cut|..];
    assert full == cut + rest;
    ConcatAssoc(db.leases, cut, rest);
  }

  /** Chapters and workers beyond the paired prefix keep their status. */
  lemma AssignLeavesSurplus(db: DB, failures: set<nat>)
    ensures var pending := PendingChapters(db.chapters);
            var idle := IdleWorkers(db.vitals);
            var n := Min(|idle|, |pending|);
            var after := AssignStep(db, failures);
            (forall i :: 0 <= i < |db.chapters| && db.chapters[i].id !in pending[..n] ==> after.chapters[i] == db.chapters[i]) &&
            (forall i :: 0 <= i < |db.vitals| && db.vitals[i].workerId !in idle[..n] ==> after.vitals[i] == db.vitals[i])
  {
    var pending := PendingChapters(db.chapters);
    var idle := IdleWorkers(db.vitals);
    var n := Min(|idle|, |pending|);
    forall x | x in Committed(pending, failures, n) ensures x in pending[..n] {
      var k :| 0 <= k < n && k !in failures && pending[k] == x;
      assert pending[..n][k] == x;
    }
    forall x | x in Committed(idle, failures, n) ensures x in idle[..n] {
      var k :| 0 <= k < n && k !in failures && idle[k] == x;
      assert idle[..n][k] == x;
    }
  }

  // ---------------------------------------------------------------- reassignment

  /** reset_mangas after the first `n` dead workers: one chapter per worker with a pending lease, unless its lookup failed. */
  function ResetList(ls: seq<Lease>, dead: seq<WorkerId>, lookupFailures: set<nat>, n: nat): seq<ChapterId>
    requires n <= |dead|
  {
    if n == 0 then []
    else ResetList(ls, dead, lookupFailures, n - 1) + Collected(ls, dead, lookupFailures, n - 1)
  }

  /** The store after a reassignment that an error escapes at reset `raiseAt`, if any: the resets before it that commit are pending again. */
  function ReassignUntil(db: DB, dead: seq<WorkerId>, lookupFailures: set<nat>, resetFailures: set<nat>, raiseAt: Option<nat>): DB
  {
    var resets := ResetList(db.leases, dead, lookupFailures, |dead|);
    db.(chapters := SetChapterStatus(db.chapters, Committed(resets, resetFailures, Reached(raiseAt, |resets|)), ChapterPending))
  }

  /** The store after reassignment: the committed resets are pending again; nothing else changes. */
  function ReassignStep(db: DB, dead: seq<WorkerId>, lookupFailures: set<nat>, resetFailures: set<nat>): DB
  {
    ReassignUntil(db, dead, lookupFailures, resetFailures, None)
  }

  /**
   * reassignment: collect the chapter of the first pending lease of each dead
   * worker, then set each collected chapter back to '0'. `lookupFailures`
   * are the dead-list positions whose lookup fails (the worker is skipped);
   * `resetFailures` the positions in the collected list whose update fails
   * and is rolled back. `raiseAt` is the position in the collected list at
   * which an error escapes, if one does (0 when the store cannot be
   * reached): the resets before it stay.
   */
  method Reassignment(db: Store, dead: seq<WorkerId>, raiseAt: Option<nat>, lookupFailures: set<nat>, resetFailures: set<nat>)
    returns (ok: bool)
    modifies db
    ensures ok == raiseAt.None?
    ensures db.State() == ReassignUntil(old(db.State()), dead, lookupFailures, resetFailures, raiseAt)
  {
    var resetMangas: seq<ChapterId> := [];
    for k := 0 to |dead|
      invariant resetMangas == ResetList(db.leases, dead, lookupFailures, k)
    {
      if k !in lookupFailures {
        var task := FirstPending(db.leases, dead[k]);
        if task.Some? {
          resetMangas := resetMangas + [task.value];
        }
      }
    }
    ghost var c0 := db.chapters;
    for j := 0 to |resetMangas|
      invariant db.chapters == SetChapterStatus(c0, Committed(resetMangas, resetFailures, j), ChapterPending)
      invariant db.vitals == old(db.vitals) && db.leases == old(db.leases)
      invariant raiseAt.Some? ==> j <= raiseAt.value
    {
      if raiseAt == Some(j) {
        return false;
      }
      if j !in resetFailures {
        db.chapters := SetChapterStatus(db.chapters, {resetMangas[j]}, ChapterPending);
      }
      CommittedStep(resetMangas, resetFailures, j);
      SetChapterStatusTwice(c0, Committed(resetMangas, resetFailures, j), {resetMangas[j]}, ChapterPending);
    }
    return raiseAt.None?;
  }

  /** The lookup for the k-th dead worker succeeds and finds chapter `m` first. */
  predicate CollectsAt(ls: seq<Lease>, dead: seq<WorkerId>, lookupFailures: set<nat>, k: nat, m: ChapterId)
    requires k < |dead|
  {
    k !in lookupFailures && FirstPending(ls, dead[k]) == Some(m)
  }

  /** The chapter the lookup for the k-th dead worker adds to the list: none or one. */
  function Collected(ls: seq<Lease>, dead: seq<WorkerId>, lookupFailures: set<nat>, k: nat): (r: seq<ChapterId>)
    requires k < |dead|
    ensures |r| <= 1
    ensures forall m :: m in r <==> CollectsAt(ls, dead, lookupFailures, k, m)
  {
    if k in lookupFailures then []
    else match FirstPending(ls, dead[k])
         case Some(m) => [m]
         case None => []
  }

  /** A chapter is collected exactly when it is the first pending lease of a dead worker whose lookup succeeded; at most one per worker. */
  lemma {:induction false} ResetListExact(ls: seq<Lease>, dead: seq<WorkerId>, lookupFailures: set<nat>, n: nat, m: ChapterId)
    requires n <= |dead|
    ensures |ResetList(ls, dead, lookupFailures, n)| <= n
    ensures m in ResetList(ls, dead, lookupFailures, n) <==>
            exists k :: 0 <= k < n && CollectsAt(ls, dead, lookupFailures, k, m)
  {
    if n > 0 {
      var prev := ResetList(ls, dead, lookupFailures, n - 1);
      var add := Collected(ls, dead, lookupFailures, n - 1);
      ResetListExact(ls, dead, lookupFailures, n - 1, m);
      assert ResetList(ls, dead, lookupFailures, n) == prev + add;
      if m in add {
        assert CollectsAt(ls, dead, lookupFailures, n - 1, m);
      }
      if exists k :: 0 <= k < n && CollectsAt(ls, dead, lookupFailures, k, m) {
        var k :| 0 <= k < n && CollectsAt(ls, dead, lookupFailures, k, m);
        if k == n - 1 {
          assert m in add;
        }
      }
    }
  }

  /**
   * Reassignment, complete or cut off by an escaping error, changes a chapter
   * only by setting it to pending, and only a chapter some dead worker holds
   * a pending lease on.
   */
  lemma ReassignOnlyRequeuesOrphans(db: DB, dead: seq<WorkerId>, lookupFailures: set<nat>, resetFailures: set<nat>,
                                    raiseAt: Option<nat>, i: nat)
    requires i < |db.chapters|
    ensures var after := ReassignUntil(db, dead, lookupFailures, resetFailures, raiseAt);
            after.vitals == db.vitals && after.leases == db.leases &&
            |after.chapters| == |db.chapters| &&
            (after.chapters[i] == db.chapters[i] ||
             (after.chapters[i] == db.chapters[i].(status := ChapterPending) &&
              exists w, j :: w in dead && 0 <= j < |db.leases| && PendingFor(db.leases[j], w) && db.leases[j].manga == db.chapters[i].id))
  {
    var resets := ResetList(db.leases, dead, lookupFailures, |dead|);
    var m := db.chapters[i].id;
    if m in Committed(resets, resetFailures, Reached(raiseAt, |resets|)) {
      var q :| 0 <= q < Reached(raiseAt, |resets|) && q !in resetFailures && resets[q] == m;
      ResetListExact(db.leases, dead, lookupFailures, |dead|, m);
      var k :| 0 <= k < |dead| && CollectsAt(db.leases, dead, lookupFailures, k, m);
      var j := PendingIndex(db.leases, dead[k]);
      assert dead[k] in dead && PendingFor(db.leases[j], dead[k]) && db.leases[j].manga == m;
    }
  }

  /**
   * Recovery: a dead worker holding a pending lease on chapter `m` (its
   * first), whose lookup succeeds and none of whose resets of `m` fails,
   * sends `m` back to pending, so the next assignment pass sees it among the
   * pending chapters.
   */
  lemma RecoveryRequeues(db: DB, dead: seq<WorkerId>, lookupFailures: set<nat>, resetFailures: set<nat>, k: nat, m: ChapterId, i: nat)
    requires k < |dead| && k !in lookupFailures && FirstPending(db.leases, dead[k]) == Some(m)
    requires var resets := ResetList(db.leases, dead, lookupFailures, |dead|);
             forall q :: 0 <= q < |resets| && resets[q] == m ==> q !in resetFailures
    requires i < |db.chapters| && db.chapters[i].id == m
    ensures ReassignStep(db, dead, lookupFailures, resetFailures).chapters[i].status == ChapterPending
    ensures m in PendingChapters(ReassignStep(db, dead, lookupFailures, resetFailures).chapters)
  {
    var resets := ResetList(db.leases, dead, lookupFailures, |dead|);
    ResetListExact(db.leases, dead, lookupFailures, |dead|, m);
    assert CollectsAt(db.leases, dead, lookupFailures, k, m);
    var q :| 0 <= q < |resets| && resets[q] == m;
    assert m in Committed(resets, resetFailures, |resets|);
    var after := ReassignStep(db, dead, lookupFailures, resetFailures).chapters;
    PendingChaptersExact(after, m);
  }
}
