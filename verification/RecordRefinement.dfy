/** The lifecycle model writes records in one step: `ParentWrite` creates the first one if
    there is none, `Publish` replaces it. On disk the parent creates and then fills, the
    daemon writes a temporary file and renames it. Every interleaving of the latter, as the
    race model has it, is a run of the former. */
module RecordRefinement {
  import opened Wrappers
  import opened SessionPhase
  import Race = StateFileRace
  import Life = Lifecycle

  datatype Session = Session(sid: Life.Sid, endpoint: Life.Endpoint, pid: Life.Pid)

  /** The record a reader opening the path now would get. */
  function OnDisk(s: Race.State): Option<Phase> {
    if s.path.Named? && s.path.inode in s.files && s.files[s.path.inode].Whole? then
      Some(s.files[s.path.inode].phase)
    else None
  }

  /** Same record under the session's name, same last publication, same turn of the parent. */
  predicate Refines(s: Race.State, l: Life.State, x: Session) {
    && x.pid in l.procs
    && (var p := l.procs[x.pid];
        && p.alive && p.sid == x.sid && p.endpoint == x.endpoint
        && p.phase == (if s.published > 0 && OnDisk(s).Some? then OnDisk(s).value else Starting))
    && (match OnDisk(s)
        case None => x.sid !in l.records
        case Some(phase) => x.sid in l.records && l.records[x.sid] == Life.Record(x.endpoint, x.pid, phase))
    && l.call == (if s.parent.ParentDone? then Life.NoCall else Life.Forked(x.sid, x.endpoint, x.pid))
  }

  /** The lifecycle step that a step on the files amounts to, if any: the parent's write
      takes effect when it finds the file there, or else with the fill; the daemon's with
      the rename. */
  function Meaning(s: Race.State, step: Race.Step, x: Session): seq<Life.Step> {
    match step
    case ParentCreate(_) => if s.path.Named? then [Life.ParentWrite] else []
    case ParentFill => [Life.ParentWrite]
    case DaemonRename => if s.daemon.Written? then [Life.Publish(x.pid, s.daemon.phase)] else []
    case _ => []
  }

  /** A daemon writes nothing after a terminal record. */
  predicate Final(s: Race.State, step: Race.Step) {
    step.DaemonRename? ==> s.published < Race.Shown(Detached)
  }

  lemma ParentSimulates(s: Race.State, step: Race.Step, l: Life.State, x: Session) returns (next: Life.State)
    requires Race.Inv(s) && Race.Enabled(s, step) && Refines(s, l, x)
    requires step.ParentCreate? || step.ParentFill?
    ensures Life.Follows(l, Meaning(s, step, x), next, false) && Refines(Race.Apply(s, step), next, x)
  {
    if step.ParentCreate? && s.path.Absent? {
      next := l;
    } else {
      next := Life.Apply(l, Life.ParentWrite);
      OneStep(l, Life.ParentWrite);
    }
  }

  lemma DaemonSimulates(s: Race.State, step: Race.Step, l: Life.State, x: Session) returns (next: Life.State)
    requires Race.Inv(s) && Race.Enabled(s, step) && Refines(s, l, x) && Final(s, step)
    requires step.DaemonRename?
    ensures Life.Follows(l, Meaning(s, step, x), next, false) && Refines(Race.Apply(s, step), next, x)
  {
    var publish := Life.Publish(x.pid, s.daemon.phase);
    next := Life.Apply(l, publish);
    OneStep(l, publish);
  }

  lemma OneStep(l: Life.State, step: Life.Step)
    requires Life.Enabled(l, step, false)
    ensures Life.Follows(l, [step], Life.Apply(l, step), false)
  {
    assert [step][1..] == [];
  }

  /** One step on the files is at most one step of the lifecycle. */
  lemma StepSimulates(s: Race.State, step: Race.Step, l: Life.State, x: Session) returns (next: Life.State)
    requires Race.Inv(s) && Race.Enabled(s, step) && Refines(s, l, x) && Final(s, step)
    ensures Life.Follows(l, Meaning(s, step, x), next, false) && Refines(Race.Apply(s, step), next, x)
  {
    if step.ParentCreate? || step.ParentFill? {
      next := ParentSimulates(s, step, l, x);
    } else if step.DaemonRename? {
      next := DaemonSimulates(s, step, l, x);
    } else {
      next := l;
    }
  }

  predicate AllFinal(s: Race.State, steps: seq<Race.Step>, end: Race.State)
    requires Race.Follows(s, steps, end)
    decreases |steps|
  {
    steps == [] || (Final(s, steps[0]) && AllFinal(Race.Apply(s, steps[0]), steps[1..], end))
  }

  function Meanings(s: Race.State, steps: seq<Race.Step>, end: Race.State, x: Session): seq<Life.Step>
    requires Race.Follows(s, steps, end)
    decreases |steps|
  {
    if steps == [] then []
    else Meaning(s, steps[0], x) + Meanings(Race.Apply(s, steps[0]), steps[1..], end, x)
  }

  lemma {:induction false} RunSimulates(
    s: Race.State, steps: seq<Race.Step>, end: Race.State, l: Life.State, x: Session) returns (next: Life.State)
    requires Race.Inv(s) && Race.Follows(s, steps, end) && AllFinal(s, steps, end) && Refines(s, l, x)
    ensures Life.Follows(l, Meanings(s, steps, end, x), next, false) && Refines(end, next, x)
    decreases |steps|
  {
    if steps == [] {
      next := l;
    } else {
      Race.StepKeepsInv(s, steps[0]);
      var mid := StepSimulates(s, steps[0], l, x);
      var after := Race.Apply(s, steps[0]);
      next := RunSimulates(after, steps[1..], end, mid, x);
      Life.FollowsTrans(l, Meaning(s, steps[0], x), mid, Meanings(after, steps[1..], end, x), next, false);
    }
  }

  /** Every interleaving of parent and daemon on the files, from the fork on, is a run of
      the lifecycle's atomic writes by that parent and that daemon, and what a reader of
      the path gets is the record the lifecycle has. */
  lemma FilesRefineRecords(steps: seq<Race.Step>, end: Race.State, l: Life.State, x: Session)
    returns (next: Life.State)
    requires Race.Follows(Race.START, steps, end) && AllFinal(Race.START, steps, end)
    requires l.call == Life.Forked(x.sid, x.endpoint, x.pid) && x.sid !in l.records
    requires x.pid in l.procs && l.procs[x.pid] == Life.Proc(true, x.sid, x.endpoint, Starting, false)
    ensures Life.Follows(l, Meanings(Race.START, steps, end, x), next, false)
    ensures Race.PathRank(end)
            == if x.sid in next.records then Race.Shown(next.records[x.sid].phase) else 0
    ensures end.parent.ParentDone? <==> next.call.NoCall?
  {
    next := RunSimulates(Race.START, steps, end, l, x);
  }
}
