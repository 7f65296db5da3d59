/**
 * The worker's store operations: registering under a new id, refreshing its
 * heartbeat, looking up the chapter leased to it, and recording a finished
 * extraction. The current minute is a parameter.
 */
module Worker {
  import opened Tables
  import opened Seqs
  import opened Liveness
  import opened WorkerIds
  import opened Dispatcher

  // ---------------------------------------------------------------- generate_id

  /** The store after generate_id at minute `now`: one new idle row, or unchanged where int() raises. */
  function RegisterStep(db: DB, now: Minute): DB
  {
    match NextId(VitalIds(db.vitals))
    case None => db
    case Some(id) => db.(vitals := db.vitals + [Vital(id, Idle, now)])
  }

  /**
   * generate_id: the greatest id in text order plus one, nine digits wide, or
   * "000000000" for an empty table; the new worker is idle with a heartbeat
   * at the current minute. None where the stored greatest id does not parse.
   */
  method GenerateId(db: Store, now: Minute) returns (r: Option<WorkerId>)
    modifies db
    ensures r == NextId(VitalIds(old(db.vitals)))
    ensures db.State() == RegisterStep(old(db.State()), now)
  {
    var result := db.vitals;
    var formattedId: WorkerId;
    if result != [] {
      var lastId := ParseId(MaxLex(VitalIds(db.vitals)));
      if lastId.None? {
        return None;
      }
      formattedId := Format9(lastId.value + 1);
    } else {
      formattedId := Format9(0);
    }
    db.vitals := db.vitals + [Vital(formattedId, Idle, now)];
    r := Some(formattedId);
  }

  /**
   * While every id is nine digits, registration appends exactly one row, for
   * an id no existing row has, idle and alive at the minute it registered;
   * the rows already there are untouched.
   */
  lemma RegisterAddsNewWorker(db: DB, now: Minute)
    requires forall x :: x in VitalIds(db.vitals) ==> IsCanonical(x)
    ensures var after := RegisterStep(db, now);
            |after.vitals| == |db.vitals| + 1 && after.vitals[..|db.vitals|] == db.vitals &&
            after.chapters == db.chapters && after.leases == db.leases
    ensures var v := RegisterStep(db, now).vitals[|db.vitals|];
            v.workerId !in VitalIds(db.vitals) && v.status == Idle && v.heartbeat == now
    ensures RegisterStep(db, now).vitals[|db.vitals|].workerId !in DeadWorkers(RegisterStep(db, now).vitals, now)
  {
    NextIdFresh(VitalIds(db.vitals));
    var after := RegisterStep(db, now).vitals;
    var id := NextId(VitalIds(db.vitals)).value;
    assert after == db.vitals + [Vital(id, Idle, now)];
    forall i | 0 <= i < |db.vitals|
      ensures after[i].workerId != id
    {
      assert VitalIds(db.vitals)[i] == after[i].workerId;
    }
    FreshHeartbeatIsAlive(now);
    DeadWorkersExact(after, now, id);
  }

  // ---------------------------------------------------------------- heartbeat

  /** heartbeat: the worker's rows record the current minute; nothing else changes. */
  method Heartbeat(db: Store, id: WorkerId, now: Minute)
    modifies db
    ensures db.vitals == SetHeartbeat(old(db.vitals), id, now)
    ensures db.chapters == old(db.chapters) && db.leases == old(db.leases)
  {
    db.vitals := SetHeartbeat(db.vitals, id, now);
  }

  /**
   * A heartbeat at minute `now` keeps the worker off the dead list for the
   * checks at now, now+1 and now+2, and does not change whether any other
   * worker is declared dead.
   */
  lemma HeartbeatKeepsAlive(vs: seq<Vital>, id: WorkerId, now: Minute, m: Minute, w: WorkerId)
    ensures m == now || m == (now + 1) % 60 || m == (now + 2) % 60 ==> id !in DeadWorkers(SetHeartbeat(vs, id, now), m)
    ensures w != id ==> (w in DeadWorkers(SetHeartbeat(vs, id, now), m) <==> w in DeadWorkers(vs, m))
  {
    var after := SetHeartbeat(vs, id, now);
    HeartbeatLastsThreeMinutes(now);
    DeadWorkersExact(after, m, id);
    DeadWorkersExact(after, m, w);
    DeadWorkersExact(vs, m, w);
    if w != id && w in DeadWorkers(vs, m) {
      var i :| 0 <= i < |vs| && vs[i].workerId == w && vs[i].status != Offline && !IsAlive(m, vs[i].heartbeat);
      assert after[i] == vs[i];
    }
  }

  // ---------------------------------------------------------------- check_task

  /** check_task: the chapter of a pending lease held by the worker, or the sentinel 'empty'. */
  function CheckTask(ls: seq<Lease>, id: WorkerId): (r: string)
    ensures (exists i :: 0 <= i < |ls| && PendingFor(ls[i], id)) ==>
              exists i :: 0 <= i < |ls| && PendingFor(ls[i], id) && ls[i].manga == r
    ensures (forall i :: 0 <= i < |ls| ==> !PendingFor(ls[i], id)) ==> r == "empty"
  {
    match FirstPending(ls, id)
    case Some(m) => m
    case None => "empty"
  }

  // ---------------------------------------------------------------- add_extracted_text

  /** The store after add_extracted_text: the chapter is done with its text, the worker idle, its leases on the chapter done. */
  function Complete(db: DB, manga: ChapterId, text: string, w: WorkerId): DB
  {
    DB(SetWorkerStatus(db.vitals, {w}, Idle), StoreText(db.chapters, manga, text), FinishLeases(db.leases, w, manga))
  }

  /** add_extracted_text: three updates, each committed on its own. */
  method AddExtractedText(db: Store, manga: ChapterId, text: string, w: WorkerId)
    modifies db
    ensures db.State() == Complete(old(db.State()), manga, text, w)
  {
    db.chapters := StoreText(db.chapters, manga, text);
    db.vitals := SetWorkerStatus(db.vitals, {w}, Idle);
    db.leases := FinishLeases(db.leases, w, manga);
  }

  /**
   * After a completion the chapter carries the text and is never offered
   * again, the worker holds no pending lease on it and is offered new work
   * (even if the dispatcher had marked it offline), and every row of every
   * other worker, chapter and lease is as it was.
   */
  lemma CompleteEffect(db: DB, manga: ChapterId, text: string, w: WorkerId)
    ensures var after := Complete(db, manga, text, w);
            manga !in PendingChapters(after.chapters) &&
            (manga in ChapterIds(db.chapters) ==> exists i :: 0 <= i < |after.chapters| && after.chapters[i] == Chapter(manga, ChapterDone, Some(text)))
    ensures var after := Complete(db, manga, text, w);
            forall i :: 0 <= i < |after.leases| ==> !(PendingFor(after.leases[i], w) && after.leases[i].manga == manga)
    ensures w in VitalIds(db.vitals) ==> w in IdleWorkers(Complete(db, manga, text, w).vitals)
    ensures var after := Complete(db, manga, text, w);
            |after.vitals| == |db.vitals| && |after.chapters| == |db.chapters| && |after.leases| == |db.leases| &&
            (forall i :: 0 <= i < |db.vitals| && db.vitals[i].workerId != w ==> after.vitals[i] == db.vitals[i]) &&
            (forall i :: 0 <= i < |db.chapters| && db.chapters[i].id != manga ==> after.chapters[i] == db.chapters[i]) &&
            (forall i :: 0 <= i < |db.leases| && (db.leases[i].workerId != w || db.leases[i].manga != manga) ==> after.leases[i] == db.leases[i])
  {
    var after := Complete(db, manga, text, w);
    PendingChaptersExact(after.chapters, manga);
    if manga in ChapterIds(db.chapters) {
      var i :| 0 <= i < |db.chapters| && db.chapters[i].id == manga;
      assert after.chapters[i] == Chapter(manga, ChapterDone, Some(text));
    }
    if w in VitalIds(db.vitals) {
      var i :| 0 <= i < |db.vitals| && db.vitals[i].workerId == w;
      IdleWorkersExact(after.vitals, w);
      assert after.vitals[i].status == Idle;
    }
  }
}
