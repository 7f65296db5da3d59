/**
 * The shared store: the three tables `vitals`, `chapter_text` and `dispatcher`
 * that the dispatcher and the workers coordinate through, each a sequence of
 * rows in table order, and the row-level UPDATE statements both sides issue.
 */
module Tables {

  datatype Option<T> = None | Some(value: T)

  type WorkerId = string
  type ChapterId = string

  /** A minute of the hour: the clock value a heartbeat records. */
  type Minute = m: int | 0 <= m < 60

  /** vitals.status: '0' idle, '1' busy, '-1' offline. */
  datatype WorkerStatus = Idle | Busy | Offline

  /** chapter_text.status: '0' pending, '1' in progress, '2' done. */
  datatype ChapterStatus = ChapterPending | ChapterInProgress | ChapterDone

  /** dispatcher.progress_status: '0' pending, '1' done. */
  datatype Progress = LeasePending | LeaseDone

  /** dispatcher.worker_status: 'online' or 'offline'. */
  datatype Snapshot = Online | MarkedOffline

  /** A row of `vitals`. */
  datatype Vital = Vital(workerId: WorkerId, status: WorkerStatus, heartbeat: int)

  /** A row of `chapter_text`; `text` is NULL until the chapter is done. */
  datatype Chapter = Chapter(id: ChapterId, status: ChapterStatus, text: Option<string>)

  /** A row of `dispatcher`: the lease binding a worker to a chapter (column `manga`). */
  datatype Lease = Lease(workerId: WorkerId, manga: ChapterId, progress: Progress, workerStatus: Snapshot)

  /** The contents of the whole store at one moment. */
  datatype DB = DB(vitals: seq<Vital>, chapters: seq<Chapter>, leases: seq<Lease>)

  /** The store the processes share; its tables are replaced by each committed statement. */
  class Store {
    var vitals: seq<Vital>
    var chapters: seq<Chapter>
    var leases: seq<Lease>

    function State(): DB
      reads this
    {
      DB(vitals, chapters, leases)
    }

    constructor (db: DB)
      ensures State() == db
    {
      vitals, chapters, leases := db.vitals, db.chapters, db.leases;
    }
  }

  function VitalIds(vs: seq<Vital>): seq<WorkerId>
  {
    seq(|vs|, i requires 0 <= i < |vs| => vs[i].workerId)
  }

  function ChapterIds(cs: seq<Chapter>): seq<ChapterId>
  {
    seq(|cs|, i requires 0 <= i < |cs| => cs[i].id)
  }

  /** UPDATE vitals SET status = s WHERE worker_id is one of ids. */
  function SetWorkerStatus(vs: seq<Vital>, ids: set<WorkerId>, s: WorkerStatus): seq<Vital>
  {
    seq(|vs|, i requires 0 <= i < |vs| => if vs[i].workerId in ids then vs[i].(status := s) else vs[i])
  }

  /** UPDATE vitals SET heartbeat = minute WHERE worker_id = id. */
  function SetHeartbeat(vs: seq<Vital>, id: WorkerId, minute: int): seq<Vital>
  {
    seq(|vs|, i requires 0 <= i < |vs| => if vs[i].workerId == id then vs[i].(heartbeat := minute) else vs[i])
  }

  /** UPDATE chapter_text SET status = s WHERE id is one of ids. */
  function SetChapterStatus(cs: seq<Chapter>, ids: set<ChapterId>, s: ChapterStatus): seq<Chapter>
  {
    seq(|cs|, i requires 0 <= i < |cs| => if cs[i].id in ids then cs[i].(status := s) else cs[i])
  }

  /** UPDATE chapter_text SET status = '2', text = text WHERE id = id. */
  function StoreText(cs: seq<Chapter>, id: ChapterId, text: string): seq<Chapter>
  {
    seq(|cs|, i requires 0 <= i < |cs| => if cs[i].id == id then Chapter(id, ChapterDone, Some(text)) else cs[i])
  }

  /** UPDATE dispatcher SET worker_status = snap WHERE worker_id is one of ids. */
  function SetSnapshot(ls: seq<Lease>, ids: set<WorkerId>, snap: Snapshot): seq<Lease>
  {
    seq(|ls|, i requires 0 <= i < |ls| => if ls[i].workerId in ids then ls[i].(workerStatus := snap) else ls[i])
  }

  /** UPDATE dispatcher SET progress_status = '1' WHERE worker_id = w AND manga = m. */
  function FinishLeases(ls: seq<Lease>, w: WorkerId, m: ChapterId): seq<Lease>
  {
    seq(|ls|, i requires 0 <= i < |ls| => if ls[i].workerId == w && ls[i].manga == m then ls[i].(progress := LeaseDone) else ls[i])
  }

  /** Two status updates to the same value compose into one over the union of keys. */
  lemma SetWorkerStatusTwice(vs: seq<Vital>, a: set<WorkerId>, b: set<WorkerId>, s: WorkerStatus)
    ensures SetWorkerStatus(SetWorkerStatus(vs, a, s), b, s) == SetWorkerStatus(vs, a + b, s)
  {
  }

  lemma SetChapterStatusTwice(cs: seq<Chapter>, a: set<ChapterId>, b: set<ChapterId>, s: ChapterStatus)
    ensures SetChapterStatus(SetChapterStatus(cs, a, s), b, s) == SetChapterStatus(cs, a + b, s)
  {
  }

  lemma SetSnapshotTwice(ls: seq<Lease>, a: set<WorkerId>, b: set<WorkerId>, snap: Snapshot)
    ensures SetSnapshot(SetSnapshot(ls, a, snap), b, snap) == SetSnapshot(ls, a + b, snap)
  {
  }

  /** The lease is a pending one of worker `w`. */
  predicate PendingFor(l: Lease, w: WorkerId)
  {
    l.workerId == w && l.progress == LeasePending
  }

  /** Position of the first pending lease of `w` in table order, or |ls| when there is none. */
  function PendingIndex(ls: seq<Lease>, w: WorkerId): (r: nat)
    ensures r <= |ls|
    ensures r < |ls| ==> PendingFor(ls[r], w)
    ensures forall j :: 0 <= j < r ==> !PendingFor(ls[j], w)
  {
    if ls == [] then 0
    else if PendingFor(ls[0], w) then 0
    else 1 + PendingIndex(ls[1..], w)
  }

  /** The chapter of the first pending lease of `w` (row `task[0]` of the query), if any. */
  function FirstPending(ls: seq<Lease>, w: WorkerId): Option<ChapterId>
  {
    var i := PendingIndex(ls, w);
    if i < |ls| then Some(ls[i].manga) else None
  }

  /** The entries of `xs` at the positions below `n` that are not in `failures`. */
  function Committed<T>(xs: seq<T>, failures: set<nat>, n: nat): set<T>
    requires n <= |xs|
  {
    set k | 0 <= k < n && k !in failures :: xs[k]
  }

  lemma CommittedStep<T>(xs: seq<T>, failures: set<nat>, n: nat)
    requires n < |xs|
    ensures Committed(xs, failures, n + 1) ==
            Committed(xs, failures, n) + (if n in failures then {} else {xs[n]})
  {
    var l, r := Committed(xs, failures, n + 1), Committed(xs, failures, n) + (if n in failures then {} else {xs[n]});
    forall x | x in l ensures x in r {
      var k :| 0 <= k < n + 1 && k !in failures && xs[k] == x;
    }
  }

  /**
   * How many of the `n` units of a pass are attempted. `raiseAt == Some(k)`:
   * an error escapes the pass at its unit `k` (at `k == 0` when the store
   * cannot be reached), so only the units before it ran; `None`: the pass
   * runs to its end.
   */
  function Reached(raiseAt: Option<nat>, n: nat): (r: nat)
    ensures r <= n
    ensures raiseAt.None? ==> r == n
  {
    match raiseAt
    case None => n
    case Some(k) => if k < n then k else n
  }
}
