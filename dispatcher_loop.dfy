/**
 * The dispatcher's control loop: an initial vitals sweep, then iterations that
 * run the assignment pass every time and the vitals sweep (check, then
 * reassignment) every third time, counted by `rep`, with `offlineHistory`
 * remembering the workers already reported dead.
 */
module DispatcherLoop {
  import opened Tables
  import opened Seqs
  import opened Dispatcher

  /** The three store calls of an iteration. */
  datatype Pass = AssignPass | VitalsPass | ReassignPass

  /**
   * The store call of an iteration that an error escapes, if any, and the
   * position in that call's loop where it does (0 when the store cannot be
   * reached at all).
   */
  datatype Outage = NoOutage | Outage(pass: Pass, at: nat)

  /** Where an error escapes the given call: nowhere, unless the outage is in that call. */
  function RaiseAt(o: Outage, p: Pass): (r: Option<nat>)
    ensures r.Some? <==> o.Outage? && o.pass == p
    ensures r.Some? ==> r.value == o.at
  {
    if o.Outage? && o.pass == p then Some(o.at) else None
  }

  /** Everything that can go wrong in one iteration: the raising call and the per-entity failures of each pass. */
  datatype Faults = Faults(outage: Outage, assign: set<nat>, mark: set<nat>, lookup: set<nat>, reset: set<nat>)

  /** The loop's variables: the store, the `rep` counter and the offline history. */
  datatype LoopState = LoopState(db: DB, rep: int, history: seq<WorkerId>)

  /** The outcome of a vitals sweep: the store afterwards, the dead ids reported, and whether a call raised. */
  datatype SweepResult = SweepResult(db: DB, dead: seq<WorkerId>, raised: bool)

  /** The comprehension's condition: an id not in the offline history. */
  function Unrecorded(history: seq<WorkerId>): WorkerId -> bool
  {
    w => w !in history
  }

  /** new_dead_workers: the reported ids that are not in the offline history, in report order. */
  function NewlyDead(dead: seq<WorkerId>, history: seq<WorkerId>): seq<WorkerId>
  {
    Filter(dead, Unrecorded(history))
  }

  /** An id is newly dead exactly when it is reported and not in the history; the reported order is kept. */
  lemma NewlyDeadExact(dead: seq<WorkerId>, history: seq<WorkerId>, w: WorkerId)
    ensures w in NewlyDead(dead, history) <==> w in dead && w !in history
    ensures IsSubseq(NewlyDead(dead, history), dead)
  {
    FilterMember(dead, Unrecorded(history), w);
    FilterIsSubseq(dead, Unrecorded(history));
  }

  /** Nobody in the history is reported again: once the newly dead are recorded, the same report has no new ids. */
  lemma {:induction false} NewlyDeadOnce(dead: seq<WorkerId>, history: seq<WorkerId>)
    ensures NewlyDead(dead, history + NewlyDead(dead, history)) == []
  {
    var h := history + NewlyDead(dead, history);
    if NewlyDead(dead, h) != [] {
      var w := NewlyDead(dead, h)[0];
      NewlyDeadExact(dead, h, w);
      NewlyDeadExact(dead, history, w);
      assert false;
    }
  }

  /**
   * The vitals check, then reassignment when there are casualties. A call
   * that raises keeps what it committed before the error; a raising vitals
   * check reports nothing, so no reassignment follows.
   */
  function Sweep(db: DB, now: Minute, f: Faults): SweepResult
  {
    var dead := DeadWorkers(db.vitals, now);
    var marked := MarkDeadUntil(db, now, f.mark, RaiseAt(f.outage, VitalsPass));
    if RaiseAt(f.outage, VitalsPass).Some? then SweepResult(marked, [], true)
    else if dead == [] then SweepResult(marked, [], false)
    else
      var requeued := ReassignUntil(marked, dead, f.lookup, f.reset, RaiseAt(f.outage, ReassignPass));
      SweepResult(requeued, dead, RaiseAt(f.outage, ReassignPass).Some?)
  }

  /**
   * One iteration of the loop. A raising call ends the iteration early: what
   * it committed stays, and the statements after it, including the updates
   * of `rep` and of the history, do not run.
   */
  function Step(s: LoopState, now: Minute, f: Faults): LoopState
  {
    var assignRaise := RaiseAt(f.outage, AssignPass);
    var afterPairing := AssignUntil(s.db, f.assign, assignRaise);
    if assignRaise.Some? then LoopState(afterPairing, s.rep, s.history)
    else if s.rep != 3 then LoopState(afterPairing, s.rep + 1, s.history)
    else
      var sweep := Sweep(afterPairing, now, f);
      if sweep.raised then LoopState(sweep.db, s.rep, s.history)
      else LoopState(sweep.db, 1, s.history + NewlyDead(sweep.dead, s.history))
  }

  /**
   * `rep` stays in 0..3, is in 1..3 after every iteration that does not
   * raise, is left as it was by one that raises, and the sweep runs only
   * when it was 3.
   */
  lemma StepRep(s: LoopState, now: Minute, f: Faults)
    requires 0 <= s.rep <= 3
    ensures 0 <= Step(s, now, f).rep <= 3
    ensures f.outage == NoOutage ==> Step(s, now, f).rep == (if s.rep == 3 then 1 else s.rep + 1)
    ensures f.outage == NoOutage ==> 1 <= Step(s, now, f).rep
    ensures f.outage.Outage? && (f.outage.pass == AssignPass || (s.rep == 3 && f.outage.pass == VitalsPass)) ==>
            Step(s, now, f).rep == s.rep
    ensures s.rep == 3 && f.outage.Outage? && f.outage.pass == ReassignPass &&
            DeadWorkers(AssignStep(s.db, f.assign).vitals, now) != [] ==>
            Step(s, now, f).rep == s.rep && Step(s, now, f).history == s.history
    ensures s.rep != 3 ==> Step(s, now, f).history == s.history &&
                           Step(s, now, f).db == AssignUntil(s.db, f.assign, RaiseAt(f.outage, AssignPass))
  {
  }

  /**
   * The history only grows, and by exactly the reported ids that were not in
   * it yet, so an id already reported is never reported again.
   */
  lemma StepHistory(s: LoopState, now: Minute, f: Faults)
    ensures exists added :: Step(s, now, f).history == s.history + added &&
                            (forall w :: w in added ==> w !in s.history) &&
                            (f.outage == NoOutage && s.rep == 3 ==> added == NewlyDead(DeadWorkers(AssignStep(s.db, f.assign).vitals, now), s.history))
  {
    var t := Step(s, now, f);
    if RaiseAt(f.outage, AssignPass).Some? || s.rep != 3 {
      assert t.history == s.history + [];
    } else {
      var sweep := Sweep(AssignUntil(s.db, f.assign, None), now, f);
      if sweep.raised {
        assert t.history == s.history + [];
      } else {
        var added := NewlyDead(sweep.dead, s.history);
        forall w | w in added ensures w !in s.history {
          NewlyDeadExact(sweep.dead, s.history, w);
        }
        assert t.history == s.history + added;
      }
    }
  }

  /** The dispatcher process: the store it polls and the loop variables of its main routine. */
  class ControlLoop {
    const db: Store
    var rep: int
    var offlineHistory: seq<WorkerId>

    function State(): LoopState
      reads this, db
    {
      LoopState(db.State(), rep, offlineHistory)
    }

    constructor (db: Store)
      ensures this.db == db && rep == 0 && offlineHistory == []
    {
      this.db := db;
      rep := 0;
      offlineHistory := [];
    }

    /** The vitals check, then reassignment when it reports casualties; `raised` when a store call raised. */
    method SweepOnce(now: Minute, f: Faults) returns (raised: bool, dead: seq<WorkerId>)
      modifies db
      ensures SweepResult(db.State(), dead, raised) == Sweep(old(db.State()), now, f)
    {
      var report := CheckVitals(db, now, RaiseAt(f.outage, VitalsPass), f.mark);
      if report.None? {
        return true, [];
      }
      match report.value
      case NoCasualties =>
        return false, [];
      case Casualties(ids) =>
        var ok := Reassignment(db, ids, RaiseAt(f.outage, ReassignPass), f.lookup, f.reset);
        return !ok, ids;
    }

    /**
     * The pass before the loop: a sweep whose newly dead ids are computed for
     * the (disabled) notification but not added to the history. `ok` is false
     * when a store call raised, which ends the dispatcher.
     */
    method Startup(now: Minute, f: Faults) returns (ok: bool)
      modifies db
      ensures ok == !Sweep(old(db.State()), now, f).raised
      ensures db.State() == Sweep(old(db.State()), now, f).db
      ensures rep == old(rep) && offlineHistory == old(offlineHistory)
    {
      var raised, dead := SweepOnce(now, f);
      ok := !raised;
    }

    /** One iteration of the `while True` loop of the dispatcher's main routine. */
    method Iteration(now: Minute, f: Faults)
      modifies this, db
      ensures State() == Step(old(State()), now, f)
    {
      var paired := Assignments(db, RaiseAt(f.outage, AssignPass), f.assign);
      if !paired {
        return;
      }
      if rep == 3 {
        var raised, dead := SweepOnce(now, f);
        if raised {
          return;
        }
        if dead != [] {
          var newDeadWorkers := NewlyDead(dead, offlineHistory);
          offlineHistory := offlineHistory + newDeadWorkers;
        }
        rep := 0;
      }
      rep := rep + 1;
    }
  }
}
