/** Attach, detach and reclaim over state records and daemon processes. Calls are made one
    at a time, but each is a series of steps; daemons move, finish and crash in between. */
module Lifecycle {
  import opened Wrappers
  import opened SessionPhase

  type Sid = nat       // session id, the name of the state file
  type Pid = nat
  type Endpoint = nat  // host and media port

  datatype Record = Record(endpoint: Endpoint, pid: Pid, phase: Phase)

  /** A daemon process; `phase` is what it last published, `stopping` the pending SIGTERM. */
  datatype Proc = Proc(alive: bool, sid: Sid, endpoint: Endpoint, phase: Phase, stopping: bool)

  datatype Target = Target(sid: Sid, pid: Pid)

  /** Where the one call in progress stands. */
  datatype Call =
    | NoCall
    | Scanning(sid: Sid, endpoint: Endpoint)
    | Reclaiming(sid: Sid, endpoint: Endpoint, todo: seq<Target>)
    | ReclaimWaiting(sid: Sid, endpoint: Endpoint, todo: seq<Target>)
    | Forked(sid: Sid, endpoint: Endpoint, pid: Pid)
    | DetachWaiting(sid: Sid, pid: Pid)

  datatype State = State(records: map<Sid, Record>, procs: map<Pid, Proc>, call: Call)

  predicate Alive(s: State, pid: Pid) { pid in s.procs && s.procs[pid].alive }

  /** Alive and not yet at a terminal phase: a daemon that may hold the media slot. */
  predicate Active(s: State, pid: Pid) { Alive(s, pid) && !Terminal(s.procs[pid].phase) }

  datatype Step =
    | BeginAttach(asid: Sid, endpoint: Endpoint)
    | AbortAttach                                  // bad image, or check mode
    | Scan(todo: seq<Target>)
    | ReclaimSignal
    | ReclaimRemove(timedOut: bool)
    | Spawn(pid: Pid)
    | ParentWrite
    | BeginDetach(dsid: Sid)
    | DetachRemove(timedOut: bool)
    | Publish(pid: Pid, phase: Phase)              // a daemon rewrites its record
    | Exit(pid: Pid)                               // it ends, cleanly or by a crash

  /** The other sessions a state file names for this endpoint, live or stale. */
  ghost predicate Conflicts(s: State, endpoint: Endpoint, sid: Sid, todo: seq<Target>) {
    && (forall i, j :: 0 <= i < j < |todo| ==> todo[i].sid != todo[j].sid)
    && (forall i :: 0 <= i < |todo| ==>
          && todo[i].sid in s.records && todo[i].sid != sid
          && s.records[todo[i].sid].endpoint == endpoint && s.records[todo[i].sid].pid == todo[i].pid)
    && (forall k :: k in s.records && k != sid && s.records[k].endpoint == endpoint ==>
          Target(k, s.records[k].pid) in todo)
  }

  /** `timeouts` says whether a wait for a signalled process may give up. */
  ghost predicate Enabled(s: State, step: Step, timeouts: bool) {
    match step
    case BeginAttach(_, _) => s.call.NoCall?
    case AbortAttach => s.call.Scanning?
    case Scan(todo) => s.call.Scanning? && Conflicts(s, s.call.endpoint, s.call.sid, todo)
    case ReclaimSignal => s.call.Reclaiming? && s.call.todo != []
    case ReclaimRemove(timedOut) =>
      s.call.ReclaimWaiting? && s.call.todo != [] && (!Alive(s, s.call.todo[0].pid) || (timedOut && timeouts))
    case Spawn(pid) => s.call.Reclaiming? && s.call.todo == [] && pid !in s.procs
    case ParentWrite => s.call.Forked?
    case BeginDetach(_) => s.call.NoCall?
    case DetachRemove(timedOut) => s.call.DetachWaiting? && (!Alive(s, s.call.pid) || (timedOut && timeouts))
    case Publish(pid, phase) => Active(s, pid) && Rank(s.procs[pid].phase) <= Rank(phase)
    case Exit(pid) => Alive(s, pid)
  }

  /** A removal does not find the process it waited for still active; other steps never do. */
  predicate Patient(s: State, step: Step) {
    match step
    case ReclaimRemove(_) => s.call.ReclaimWaiting? && s.call.todo != [] ==> !Active(s, s.call.todo[0].pid)
    case DetachRemove(_) => s.call.DetachWaiting? ==> !Active(s, s.call.pid)
    case _ => true
  }

  function Signalled(s: State, pid: Pid): map<Pid, Proc> {
    if Alive(s, pid) then s.procs[pid := s.procs[pid].(stopping := true)] else s.procs
  }

  ghost function Apply(s: State, step: Step): State
    requires Enabled(s, step, true)
  {
    match step
    case BeginAttach(sid, endpoint) =>
      if sid in s.records && Alive(s, s.records[sid].pid) && !Terminal(s.records[sid].phase) then s
      else s.(records := s.records - {sid}, call := Scanning(sid, endpoint))
    case AbortAttach => s.(call := NoCall)
    case Scan(todo) => s.(call := Reclaiming(s.call.sid, s.call.endpoint, todo))
    case ReclaimSignal =>
      s.(procs := Signalled(s, s.call.todo[0].pid), call := ReclaimWaiting(s.call.sid, s.call.endpoint, s.call.todo))
    case ReclaimRemove(_) =>
      s.(records := s.records - {s.call.todo[0].sid}, call := Reclaiming(s.call.sid, s.call.endpoint, s.call.todo[1..]))
    case Spawn(pid) =>
      s.(procs := s.procs[pid := Proc(true, s.call.sid, s.call.endpoint, Starting, false)],
         call := Forked(s.call.sid, s.call.endpoint, pid))
    case ParentWrite =>
      if s.call.sid in s.records then s.(call := NoCall)
      else s.(records := s.records[s.call.sid := Record(s.call.endpoint, s.call.pid, Starting)], call := NoCall)
    case BeginDetach(sid) =>
      if sid !in s.records then s
      else if !Alive(s, s.records[sid].pid) then s.(records := s.records - {sid})
      else s.(procs := Signalled(s, s.records[sid].pid), call := DetachWaiting(sid, s.records[sid].pid))
    case DetachRemove(_) => s.(records := s.records - {s.call.sid}, call := NoCall)
    case Publish(pid, phase) =>
      var p := s.procs[pid];
      s.(procs := s.procs[pid := p.(phase := phase)], records := s.records[p.sid := Record(p.endpoint, pid, phase)])
    case Exit(pid) => s.(procs := s.procs[pid := s.procs[pid].(alive := false)])
  }

  const EMPTY := State(map[], map[], NoCall)

  /** `s` is reached by a finite run. */
  ghost predicate Follows(s: State, steps: seq<Step>, end: State, timeouts: bool)
    decreases |steps|
  {
    if steps == [] then s == end
    else Enabled(s, steps[0], timeouts) && Follows(Apply(s, steps[0]), steps[1..], end, timeouts)
  }

  // ----- the invariant -----

  /** The daemon whose parent has not yet had its turn to write the first record. */
  predicate JustForked(s: State, pid: Pid) { s.call.Forked? && s.call.pid == pid }

  /** `pid`'s own record is in place. */
  predicate Recorded(s: State, pid: Pid)
    requires pid in s.procs
  {
    var p := s.procs[pid];
    p.sid in s.records && s.records[p.sid] == Record(p.endpoint, pid, p.phase)
  }

  /** Every active daemon has its own record, the just-forked one at the latest when its
      parent's create-only write is done. */
  ghost predicate AllRecorded(s: State) {
    forall pid :: Active(s, pid) ==>
      Recorded(s, pid) || (JustForked(s, pid) && s.procs[pid].sid !in s.records && s.procs[pid].phase == Starting)
  }

  /** At most one active daemon per endpoint. */
  ghost predicate OnePerEndpoint(s: State) {
    forall p, q :: Active(s, p) && Active(s, q) && s.procs[p].endpoint == s.procs[q].endpoint ==> p == q
  }

  /** At most one record per endpoint, live or stale. */
  ghost predicate SoleRecord(s: State) {
    forall j, k :: j in s.records && k in s.records && s.records[j].endpoint == s.records[k].endpoint ==> j == k
  }

  /** Every record for the endpoint is still on the reclaim list. */
  ghost predicate RecordsListed(s: State, endpoint: Endpoint, todo: seq<Target>) {
    forall k :: k in s.records && s.records[k].endpoint == endpoint ==> Target(k, s.records[k].pid) in todo
  }

  /** During an attach nothing active runs under its session id. */
  ghost predicate SidFree(s: State, sid: Sid) {
    sid !in s.records && forall pid :: Active(s, pid) ==> s.procs[pid].sid != sid
  }

  /** Every active daemon on the endpoint is still on the reclaim list. */
  ghost predicate Listed(s: State, endpoint: Endpoint, todo: seq<Target>) {
    forall pid :: Active(s, pid) && s.procs[pid].endpoint == endpoint ==> Target(s.procs[pid].sid, pid) in todo
  }

  /** At most one session is left to reclaim, as records are unique per endpoint. */
  ghost predicate ReclaimOk(s: State, sid: Sid, endpoint: Endpoint, todo: seq<Target>) {
    && |todo| <= 1
    && SidFree(s, sid) && Listed(s, endpoint, todo) && RecordsListed(s, endpoint, todo) && SidsOf(s, endpoint, todo)
  }

  ghost predicate CallOk(s: State) {
    match s.call
    case NoCall => true
    case Scanning(sid, _) => SidFree(s, sid)
    case Reclaiming(sid, endpoint, todo) => ReclaimOk(s, sid, endpoint, todo)
    case ReclaimWaiting(sid, endpoint, todo) => ReclaimOk(s, sid, endpoint, todo)
    case Forked(sid, endpoint, pid) =>
      && pid in s.procs && s.procs[pid].sid == sid && s.procs[pid].endpoint == endpoint
      && OnlyUnder(s, sid, pid)
      && (if sid in s.records then s.records[sid].pid == pid else s.procs[pid].phase == Starting)
      && (forall k :: k in s.records && s.records[k].endpoint == endpoint ==> k == sid)
    case DetachWaiting(sid, pid) => OnlyUnder(s, sid, pid)
  }

  /** No other active daemon runs under this session id. */
  ghost predicate OnlyUnder(s: State, sid: Sid, pid: Pid) {
    pid in s.procs && s.procs[pid].sid == sid && forall q :: Active(s, q) && s.procs[q].sid == sid ==> q == pid
  }

  ghost predicate SidsOf(s: State, endpoint: Endpoint, todo: seq<Target>) {
    forall i :: 0 <= i < |todo| ==>
      OnlyUnder(s, todo[i].sid, todo[i].pid) && s.procs[todo[i].pid].endpoint == endpoint
  }

  /** A record names a known process, with that process' own session, endpoint and phase. */
  ghost predicate RecordsOk(s: State) {
    forall k :: k in s.records ==>
      && s.records[k].pid in s.procs
      && s.procs[s.records[k].pid].sid == k && s.procs[s.records[k].pid].endpoint == s.records[k].endpoint
      && s.procs[s.records[k].pid].phase == s.records[k].phase
  }

  ghost predicate RecordsKept(s: State) {
    AllRecorded(s) && OnePerEndpoint(s) && SoleRecord(s) && RecordsOk(s)
  }

  ghost predicate Inv(s: State) { RecordsKept(s) && CallOk(s) }

  lemma BeginAttachKeeps(s: State, step: Step)
    requires Inv(s) && step.BeginAttach? && Enabled(s, step, true)
    ensures Inv(Apply(s, step))
  {
  }

  /** Records being unique per endpoint, a scan finds at most one other session. */
  lemma SameConflict(s: State, endpoint: Endpoint, sid: Sid, todo: seq<Target>, i: nat, j: nat)
    requires SoleRecord(s) && Conflicts(s, endpoint, sid, todo) && i < |todo| && j < |todo|
    ensures i == j
  {
    assert todo[i].sid == todo[j].sid;
  }

  lemma ScanKeeps(s: State, step: Step)
    requires Inv(s) && (step.Scan? || step.AbortAttach?) && Enabled(s, step, true)
    ensures Inv(Apply(s, step))
  {
    if step.Scan? && |step.todo| > 1 {
      SameConflict(s, s.call.endpoint, s.call.sid, step.todo, 0, 1);
    }
  }

  lemma ReclaimSignalKeepsRecords(s: State, step: Step)
    requires Inv(s) && step.ReclaimSignal? && Enabled(s, step, true)
    ensures RecordsKept(Apply(s, step))
  {
  }

  lemma ReclaimSignalKeepsCall(s: State, step: Step)
    requires Inv(s) && step.ReclaimSignal? && Enabled(s, step, true)
    ensures CallOk(Apply(s, step))
  {
  }

  lemma ReclaimSignalKeeps(s: State, step: Step)
    requires Inv(s) && step.ReclaimSignal? && Enabled(s, step, true)
    ensures Inv(Apply(s, step))
  {
    ReclaimSignalKeepsRecords(s, step);
    ReclaimSignalKeepsCall(s, step);
  }

  lemma ReclaimRemoveKeeps(s: State, step: Step)
    requires Inv(s) && step.ReclaimRemove? && Enabled(s, step, true) && Patient(s, step)
    ensures Inv(Apply(s, step))
  {
    var gone := s.call.todo[0];
    assert OnlyUnder(s, gone.sid, gone.pid);
    assert s.call.todo == [gone] + s.call.todo[1..];
  }

  lemma SpawnKeepsRecords(s: State, step: Step)
    requires Inv(s) && step.Spawn? && Enabled(s, step, true)
    ensures RecordsKept(Apply(s, step))
  {
  }

  lemma SpawnKeepsCall(s: State, step: Step)
    requires Inv(s) && step.Spawn? && Enabled(s, step, true)
    ensures CallOk(Apply(s, step))
  {
  }

  lemma SpawnKeeps(s: State, step: Step)
    requires Inv(s) && step.Spawn? && Enabled(s, step, true)
    ensures Inv(Apply(s, step))
  {
    SpawnKeepsRecords(s, step);
    SpawnKeepsCall(s, step);
  }

  lemma ParentWriteKeeps(s: State, step: Step)
    requires Inv(s) && step.ParentWrite? && Enabled(s, step, true)
    ensures Inv(Apply(s, step))
  {
  }

  lemma BeginDetachKeeps(s: State, step: Step)
    requires Inv(s) && step.BeginDetach? && Enabled(s, step, true)
    ensures Inv(Apply(s, step))
  {
  }

  lemma DetachRemoveKeeps(s: State, step: Step)
    requires Inv(s) && step.DetachRemove? && Enabled(s, step, true) && Patient(s, step)
    ensures Inv(Apply(s, step))
  {
  }

  lemma PublishKeepsRecords(s: State, step: Step)
    requires Inv(s) && step.Publish? && Enabled(s, step, true)
    ensures RecordsKept(Apply(s, step))
  {
  }

  lemma PublishKeepsCall(s: State, step: Step)
    requires Inv(s) && step.Publish? && Enabled(s, step, true)
    ensures CallOk(Apply(s, step))
  {
  }

  lemma PublishKeeps(s: State, step: Step)
    requires Inv(s) && step.Publish? && Enabled(s, step, true)
    ensures Inv(Apply(s, step))
  {
    PublishKeepsRecords(s, step);
    PublishKeepsCall(s, step);
  }

  lemma ExitKeepsRecords(s: State, step: Step)
    requires Inv(s) && step.Exit? && Enabled(s, step, true)
    ensures RecordsKept(Apply(s, step))
  {
  }

  lemma ExitKeepsCall(s: State, step: Step)
    requires Inv(s) && step.Exit? && Enabled(s, step, true)
    ensures CallOk(Apply(s, step))
  {
  }

  lemma ExitKeeps(s: State, step: Step)
    requires Inv(s) && step.Exit? && Enabled(s, step, true)
    ensures Inv(Apply(s, step))
  {
    ExitKeepsRecords(s, step);
    ExitKeepsCall(s, step);
  }

  /** In particular every step that no timeout cut short. */
  lemma StepKeepsInv(s: State, step: Step)
    requires Inv(s) && Enabled(s, step, true) && Patient(s, step)
    ensures Inv(Apply(s, step))
  {
    match step
    case BeginAttach(_, _) => BeginAttachKeeps(s, step);
    case AbortAttach => ScanKeeps(s, step);
    case Scan(_) => ScanKeeps(s, step);
    case ReclaimSignal => ReclaimSignalKeeps(s, step);
    case ReclaimRemove(_) => ReclaimRemoveKeeps(s, step);
    case Spawn(_) => SpawnKeeps(s, step);
    case ParentWrite => ParentWriteKeeps(s, step);
    case BeginDetach(_) => BeginDetachKeeps(s, step);
    case DetachRemove(_) => DetachRemoveKeeps(s, step);
    case Publish(_, _) => PublishKeeps(s, step);
    case Exit(_) => ExitKeeps(s, step);
  }

  lemma {:induction false} RunKeepsInv(s: State, steps: seq<Step>, end: State)
    requires Inv(s) && Follows(s, steps, end, false)
    ensures Inv(end)
    decreases |steps|
  {
    if steps != [] {
      StepKeepsInv(s, steps[0]);
      RunKeepsInv(Apply(s, steps[0]), steps[1..], end);
    }
  }

  /** Whatever calls are made, however daemons move, finish or crash in between, and at
      every step inside a call: as long as signalled daemons exit within their timeout, no
      endpoint ever has two active daemons or two records, and every active daemon has its
      own up-to-date record, except one just forked whose parent has yet to write it. */
  lemma OneDaemonPerEndpoint(steps: seq<Step>, end: State)
    requires Follows(EMPTY, steps, end, false)
    ensures OnePerEndpoint(end) && SoleRecord(end) && AllRecorded(end)
    ensures end.call.NoCall? ==> forall pid :: Active(end, pid) ==> Recorded(end, pid)
  {
    RunKeepsInv(EMPTY, steps, end);
  }

  // ----- what the calls achieve -----

  /** Told to stop, or gone already. */
  predicate Stopped(s: State, pid: Pid) { pid in s.procs && (s.procs[pid].alive ==> s.procs[pid].stopping) }

  /** A stop signal is never taken back and a dead process stays dead, over every run. */
  lemma {:induction false} StopIsFinal(s: State, steps: seq<Step>, end: State, pid: Pid, timeouts: bool)
    requires Follows(s, steps, end, timeouts) && pid in s.procs
    ensures Stopped(s, pid) ==> Stopped(end, pid)
    ensures !Alive(s, pid) ==> pid in end.procs && !Alive(end, pid)
    decreases |steps|
  {
    if steps != [] {
      StepKeepsStopped(s, steps[0], pid);
      StopIsFinal(Apply(s, steps[0]), steps[1..], end, pid, timeouts);
    }
  }

  lemma StepKeepsStopped(s: State, step: Step, pid: Pid)
    requires Enabled(s, step, true) && pid in s.procs
    ensures var t := Apply(s, step);
            && pid in t.procs
            && (Stopped(s, pid) ==> Stopped(t, pid))
            && (!Alive(s, pid) ==> !Alive(t, pid))
  {
  }

  /** A process that ends is gone for good. */
  lemma ExitIsFinal(s: State, pid: Pid, steps: seq<Step>, end: State, timeouts: bool)
    requires Alive(s, pid) && Follows(Apply(s, Exit(pid)), steps, end, timeouts)
    ensures !Alive(end, pid)
  {
    StopIsFinal(Apply(s, Exit(pid)), steps, end, pid, timeouts);
  }

  /** The rest of a call, daemons moving in between, up to the first state without one. */
  ghost predicate Finishes(s: State, steps: seq<Step>, end: State, timeouts: bool)
    decreases |steps|
  {
    if s.call.NoCall? then steps == [] && s == end
    else steps != [] && Enabled(s, steps[0], timeouts) && Finishes(Apply(s, steps[0]), steps[1..], end, timeouts)
  }

  /** No process but `but` is told to stop, and none is forked. */
  ghost predicate OthersLeftAlone(s: State, t: State, but: Option<Pid>) {
    && t.procs.Keys == s.procs.Keys
    && forall q :: q in s.procs && but != Some(q) ==> t.procs[q].stopping == s.procs[q].stopping
  }

  lemma {:induction false} WaitRemoves(s: State, steps: seq<Step>, end: State, timeouts: bool)
    requires Inv(s) && s.call.DetachWaiting? && Finishes(s, steps, end, timeouts)
    ensures end.records.Keys == s.records.Keys - {s.call.sid}
    ensures Stopped(s, s.call.pid) ==> Stopped(end, s.call.pid)
    ensures OthersLeftAlone(s, end, None)
    decreases |steps|
  {
    var next := Apply(s, steps[0]);
    StepKeepsStopped(s, steps[0], s.call.pid);
    if !steps[0].DetachRemove? {
      StepKeepsInv(s, steps[0]);
      KeysStay(s, steps[0]);
      WaitRemoves(next, steps[1..], end, timeouts);
    }
  }

  lemma KeysStay(s: State, step: Step)
    requires Inv(s) && s.call.DetachWaiting? && Enabled(s, step, true) && !step.DetachRemove?
    ensures var t := Apply(s, step);
            t.call == s.call && t.records.Keys == s.records.Keys && OthersLeftAlone(s, t, None)
  {
    if step.Publish? {
      assert Recorded(s, step.pid);
    }
  }

  /** A detach, from its first step to its last, however daemons move in between and whether
      its wait gives up or not: the session's record is gone and no other is, the process it
      named has been told to stop or is dead, and no other process is touched. */
  lemma DetachAchieves(s: State, sid: Sid, steps: seq<Step>, end: State, timeouts: bool)
    requires Inv(s) && s.call.NoCall? && Finishes(Apply(s, BeginDetach(sid)), steps, end, timeouts)
    ensures end.records.Keys == s.records.Keys - {sid}
    ensures sid in s.records ==> Stopped(Apply(s, BeginDetach(sid)), s.records[sid].pid)
    ensures sid in s.records ==> Stopped(end, s.records[sid].pid)
    ensures OthersLeftAlone(s, end, if sid in s.records then Some(s.records[sid].pid) else None)
  {
    DetachBegins(s, sid);
    StepKeepsInv(s, BeginDetach(sid));
    if !Apply(s, BeginDetach(sid)).call.NoCall? {
      WaitRemoves(Apply(s, BeginDetach(sid)), steps, end, timeouts);
    }
  }

  lemma DetachBegins(s: State, sid: Sid)
    requires Inv(s) && s.call.NoCall?
    ensures var t := Apply(s, BeginDetach(sid));
            && OthersLeftAlone(s, t, if sid in s.records then Some(s.records[sid].pid) else None)
            && (sid in s.records ==> Stopped(t, s.records[sid].pid))
            && (if t.call.NoCall? then t.records.Keys == s.records.Keys - {sid}
                else t.call == DetachWaiting(sid, s.records[sid].pid) && t.records == s.records)
  {
  }

  /** Part of a call: no state before the last is without one. */
  ghost predicate DuringCall(s: State, steps: seq<Step>, end: State, timeouts: bool)
    decreases |steps|
  {
    if steps == [] then s == end
    else
      && !s.call.NoCall? && Enabled(s, steps[0], timeouts)
      && DuringCall(Apply(s, steps[0]), steps[1..], end, timeouts)
  }

  /** Where the record `k` of another session, naming `pid`, stands in an attach: still
      listed, or its process has been dealt with. */
  ghost predicate DealtWith(s: State, k: Sid, pid: Pid) {
    match s.call
    case Scanning(sid, endpoint) =>
      && Inv(s) && k != sid && k in s.records
      && s.records[k].endpoint == endpoint && s.records[k].pid == pid
    case Reclaiming(_, _, todo) => pid in s.procs && (Stopped(s, pid) || Target(k, pid) in todo)
    case ReclaimWaiting(_, _, todo) =>
      pid in s.procs && todo != [] && (Stopped(s, pid) || Target(k, pid) in todo[1..])
    case Forked(_, _, _) => Stopped(s, pid)
    case _ => true
  }

  lemma DealtWithStep(s: State, step: Step, k: Sid, pid: Pid)
    requires DealtWith(s, k, pid) && !s.call.NoCall? && Enabled(s, step, true)
    ensures DealtWith(Apply(s, step), k, pid)
  {
    match s.call
    case Scanning(_, _) =>
      StepKeepsInv(s, step);
      if step.Publish? {
        assert Recorded(s, step.pid);
      }
    case Reclaiming(_, _, todo) =>
      StepKeepsStopped(s, step, pid);
      if step.ReclaimSignal? {
        assert todo == [todo[0]] + todo[1..];
      }
    case ReclaimWaiting(_, _, _) => StepKeepsStopped(s, step, pid);
    case Forked(_, _, _) => StepKeepsStopped(s, step, pid);
    case _ =>
  }

  lemma {:induction false} DealtWithRun(s: State, steps: seq<Step>, end: State, k: Sid, pid: Pid, timeouts: bool)
    requires DealtWith(s, k, pid) && DuringCall(s, steps, end, timeouts)
    ensures DealtWith(end, k, pid)
    decreases |steps|
  {
    if steps != [] {
      DealtWithStep(s, steps[0], k, pid);
      DealtWithRun(Apply(s, steps[0]), steps[1..], end, k, pid, timeouts);
    }
  }

  /** When an attach has forked, every process another session's record named for the
      endpoint has been told to stop or is dead, whether the waits gave up or not. */
  lemma ReclaimSignals(s: State, sid: Sid, endpoint: Endpoint, steps: seq<Step>, end: State, k: Sid, timeouts: bool)
    requires Inv(s) && s.call.NoCall? && DuringCall(Apply(s, BeginAttach(sid, endpoint)), steps, end, timeouts)
    requires k in s.records && k != sid && s.records[k].endpoint == endpoint && end.call.Forked?
    ensures Stopped(end, s.records[k].pid)
  {
    var begun := Apply(s, BeginAttach(sid, endpoint));
    StepKeepsInv(s, BeginAttach(sid, endpoint));
    if begun.call.Scanning? {
      DealtWithRun(begun, steps, end, k, s.records[k].pid, timeouts);
    }
  }

  /** Where an attach stands: for this session and endpoint, at most one process forked. */
  ghost predicate Attaching(s: State, sid: Sid, endpoint: Endpoint, pids: set<Pid>) {
    match s.call
    case Scanning(a, e) => a == sid && e == endpoint && s.procs.Keys == pids
    case Reclaiming(a, e, _) => a == sid && e == endpoint && s.procs.Keys == pids
    case ReclaimWaiting(a, e, _) => a == sid && e == endpoint && s.procs.Keys == pids
    case Forked(a, e, p) => a == sid && e == endpoint && p !in pids && s.procs.Keys == pids + {p}
    case _ => false
  }

  /** The session runs as the one new process, and only its record names the endpoint. */
  ghost predicate Started(s: State, sid: Sid, endpoint: Endpoint, pids: set<Pid>, pid: Pid) {
    && pid !in pids && s.procs.Keys == pids + {pid}
    && s.procs[pid].sid == sid && s.procs[pid].endpoint == endpoint
    && sid in s.records && s.records[sid].pid == pid && s.records[sid].endpoint == endpoint
    && forall k :: k in s.records && s.records[k].endpoint == endpoint ==> k == sid
  }

  lemma AttachingStep(s: State, step: Step, sid: Sid, endpoint: Endpoint, pids: set<Pid>)
    requires Inv(s) && Attaching(s, sid, endpoint, pids) && Enabled(s, step, false)
    ensures var t := Apply(s, step);
            || Attaching(t, sid, endpoint, pids)
            || (t.call.NoCall? && step.AbortAttach? && t.procs.Keys == pids && sid !in t.records)
            || (t.call.NoCall? && step.ParentWrite? && Started(t, sid, endpoint, pids, s.call.pid))
    ensures Apply(s, step).call.NoCall? <==> step.AbortAttach? || step.ParentWrite?
    ensures step.AbortAttach? ==> Apply(s, step).records == s.records && Apply(s, step).procs == s.procs
  {
  }

  lemma {:induction false} AttachFinishes(
    s: State, steps: seq<Step>, end: State, sid: Sid, endpoint: Endpoint, pids: set<Pid>)
    returns (pid: Option<Pid>)
    requires Inv(s) && Attaching(s, sid, endpoint, pids) && Finishes(s, steps, end, false)
    ensures match pid
            case None => end.procs.Keys == pids && sid !in end.records
            case Some(p) => Started(end, sid, endpoint, pids, p)
    decreases |steps|
  {
    var next := Apply(s, steps[0]);
    AttachingStep(s, steps[0], sid, endpoint, pids);
    StepKeepsInv(s, steps[0]);
    if !next.call.NoCall? {
      pid := AttachFinishes(next, steps[1..], end, sid, endpoint, pids);
    } else if steps[0].AbortAttach? {
      pid := None;
    } else {
      pid := Some(s.call.pid);
    }
  }

  /** An attach, from its first step to its last: nothing changes if the session already
      runs; otherwise it was abandoned with no process forked and no record left for the
      session, or exactly one process was forked, recorded under the session, and no other
      record names the endpoint. */
  lemma AttachAchieves(s: State, sid: Sid, endpoint: Endpoint, steps: seq<Step>, end: State)
    returns (pid: Option<Pid>)
    requires Inv(s) && s.call.NoCall? && Finishes(Apply(s, BeginAttach(sid, endpoint)), steps, end, false)
    ensures var running := sid in s.records && Active(s, s.records[sid].pid);
            if running then end == s && steps == []
            else match pid
                 case None => end.procs.Keys == s.procs.Keys && sid !in end.records
                 case Some(p) => Started(end, sid, endpoint, s.procs.Keys, p)
  {
    var begun := Apply(s, BeginAttach(sid, endpoint));
    pid := None;
    RunningIff(s, sid, endpoint);
    StepKeepsInv(s, BeginAttach(sid, endpoint));
    if !begun.call.NoCall? {
      pid := AttachFinishes(begun, steps, end, sid, endpoint, s.procs.Keys);
    }
  }

  /** The record of a live process that says it has not ended is a live session's. */
  lemma RunningIff(s: State, sid: Sid, endpoint: Endpoint)
    requires Inv(s) && s.call.NoCall?
    ensures var begun := Apply(s, BeginAttach(sid, endpoint));
            if sid in s.records && Active(s, s.records[sid].pid) then begun == s
            else begun.call == Scanning(sid, endpoint) && begun.procs == s.procs
  {
  }

  // ----- waits that give up -----

  /** Nothing that can still happen, short of another wait giving up, breaks exclusion. */
  ghost predicate ExclusiveFrom(s: State) {
    forall steps, end :: Follows(s, steps, end, false) ==> OnePerEndpoint(end)
  }

  ghost predicate AlwaysExclusive(s: State, steps: seq<Step>, end: State)
    requires Follows(s, steps, end, true)
    decreases |steps|
  {
    ExclusiveFrom(s) && (steps == [] || AlwaysExclusive(Apply(s, steps[0]), steps[1..], end))
  }

  ghost predicate AlwaysRecorded(s: State, steps: seq<Step>, end: State)
    requires Follows(s, steps, end, true)
    decreases |steps|
  {
    AllRecorded(s) && (steps == [] || AlwaysRecorded(Apply(s, steps[0]), steps[1..], end))
  }

  /** No removal of the run finds the process it waited for still active. */
  ghost predicate AllPatient(s: State, steps: seq<Step>, end: State)
    requires Follows(s, steps, end, true)
    decreases |steps|
  {
    steps == [] || (Patient(s, steps[0]) && AllPatient(Apply(s, steps[0]), steps[1..], end))
  }

  lemma InvIsExclusive(s: State)
    requires Inv(s)
    ensures ExclusiveFrom(s)
  {
    forall steps, end | Follows(s, steps, end, false)
      ensures OnePerEndpoint(end)
    {
      RunKeepsInv(s, steps, end);
    }
  }

  lemma SharedIsNotExclusive(s: State, steps: seq<Step>, end: State, p: Pid, q: Pid)
    requires Follows(s, steps, end, false) && p != q && Active(end, p) && Active(end, q)
    requires end.procs[p].endpoint == end.procs[q].endpoint
    ensures !ExclusiveFrom(s)
  {
    assert !OnePerEndpoint(end);
  }

  lemma Fresh(used: set<nat>) returns (n: nat)
    ensures forall k :: k in used ==> k < n
  {
    n := 0;
    if used != {} {
      var k :| k in used;
      var m := Fresh(used - {k});
      n := if k < m then m else k + 1;
      assert forall x :: x in used ==> x == k || x in used - {k};
    }
  }

  /** A detach that gives up is safe exactly when the process is not active any more. */
  lemma DetachGivesUpIff(s: State)
    requires Inv(s) && s.call.DetachWaiting?
    ensures Enabled(s, DetachRemove(true), true)
    ensures AllRecorded(Apply(s, DetachRemove(true))) <==> !Active(s, s.call.pid)
    ensures ExclusiveFrom(Apply(s, DetachRemove(true))) <==> !Active(s, s.call.pid)
  {
    var after := Apply(s, DetachRemove(true));
    var pid := s.call.pid;
    if Active(s, pid) {
      assert Active(after, pid) && !Recorded(after, pid);
      var newSid := Fresh(after.records.Keys);
      var newPid := Fresh(after.procs.Keys);
      var steps, end := PlainAttach(after, newSid, s.procs[pid].endpoint, newPid);
      SharedIsNotExclusive(after, steps, end, pid, newPid);
    } else {
      StepKeepsInv(s, DetachRemove(true));
      InvIsExclusive(after);
    }
  }

  /** So is a reclaim that gives up: its own attach goes on to spawn. */
  lemma ReclaimGivesUpIff(s: State)
    requires Inv(s) && s.call.ReclaimWaiting? && s.call.todo != []
    ensures Enabled(s, ReclaimRemove(true), true)
    ensures AllRecorded(Apply(s, ReclaimRemove(true))) <==> !Active(s, s.call.todo[0].pid)
    ensures ExclusiveFrom(Apply(s, ReclaimRemove(true))) <==> !Active(s, s.call.todo[0].pid)
  {
    var after := Apply(s, ReclaimRemove(true));
    var pid := s.call.todo[0].pid;
    assert OnlyUnder(s, s.call.todo[0].sid, pid);
    if Active(s, pid) {
      assert Active(after, pid) && !Recorded(after, pid);
      var newPid := Fresh(after.procs.Keys);
      var end := Apply(after, Spawn(newPid));
      FollowsCons(after, Spawn(newPid), [], end, false);
      SharedIsNotExclusive(after, [Spawn(newPid)] + [], end, pid, newPid);
    } else {
      StepKeepsInv(s, ReclaimRemove(true));
      InvIsExclusive(after);
    }
  }

  /** One step of a run in which waits may give up. */
  lemma StepIsSafeIff(s: State, step: Step)
    requires Inv(s) && Enabled(s, step, true)
    ensures Patient(s, step) ==> Inv(Apply(s, step))
    ensures !Patient(s, step) ==> !AllRecorded(Apply(s, step)) && !ExclusiveFrom(Apply(s, step))
  {
    if Patient(s, step) {
      StepKeepsInv(s, step);
    } else if step.DetachRemove? {
      DetachGivesUpIff(s);
    } else {
      ReclaimGivesUpIff(s);
    }
  }

  /** Over every run in which waits may give up: exclusion is and stays guaranteed at every
      state, and every active daemon stays on record, exactly when no removal, by a detach
      or by a reclaim, finds the process it waited for still active. */
  lemma {:induction false} GivingUpIsSafeIff(s: State, steps: seq<Step>, end: State)
    requires Inv(s) && Follows(s, steps, end, true)
    ensures AlwaysExclusive(s, steps, end) <==> AllPatient(s, steps, end)
    ensures AlwaysRecorded(s, steps, end) <==> AllPatient(s, steps, end)
    ensures AllPatient(s, steps, end) ==> Inv(end)
    decreases |steps|
  {
    InvIsExclusive(s);
    if steps != [] {
      var next := Apply(s, steps[0]);
      StepIsSafeIff(s, steps[0]);
      if Patient(s, steps[0]) {
        GivingUpIsSafeIff(next, steps[1..], end);
      }
    }
  }

  /** A whole attach that meets no record for its session or endpoint. */
  lemma PlainAttach(s: State, sid: Sid, endpoint: Endpoint, pid: Pid) returns (steps: seq<Step>, end: State)
    requires s.call.NoCall? && sid !in s.records && pid !in s.procs
    requires forall k :: k in s.records ==> s.records[k].endpoint != endpoint
    ensures Follows(s, steps, end, false)
    ensures forall i :: 0 <= i < |steps| ==> !steps[i].BeginDetach? && !steps[i].DetachRemove?
    ensures end.call.NoCall? && end.procs == s.procs[pid := Proc(true, sid, endpoint, Starting, false)]
    ensures end.records == s.records[sid := Record(endpoint, pid, Starting)]
  {
    var s1 := Apply(s, BeginAttach(sid, endpoint));
    assert s1.records == s.records;
    var s2 := Apply(s1, Scan([]));
    steps, end := EndAttach(s2, pid);
    FollowsCons(s1, Scan([]), steps, end, false);
    steps := [Scan([])] + steps;
    FollowsCons(s, BeginAttach(sid, endpoint), steps, end, false);
    steps := [BeginAttach(sid, endpoint)] + steps;
  }

  /** The end of an attach with nothing left to reclaim. */
  lemma EndAttach(s: State, pid: Pid) returns (steps: seq<Step>, end: State)
    requires s.call.Reclaiming? && s.call.todo == [] && s.call.sid !in s.records && pid !in s.procs
    ensures Follows(s, steps, end, false)
    ensures forall i :: 0 <= i < |steps| ==> !steps[i].BeginDetach? && !steps[i].DetachRemove?
    ensures end.call.NoCall? && end.procs == s.procs[pid := Proc(true, s.call.sid, s.call.endpoint, Starting, false)]
    ensures end.records == s.records[s.call.sid := Record(s.call.endpoint, pid, Starting)]
  {
    var forked := Apply(s, Spawn(pid));
    end := Apply(forked, ParentWrite);
    FollowsCons(forked, ParentWrite, [], end, false);
    steps := [ParentWrite] + [];
    FollowsCons(s, Spawn(pid), steps, end, false);
    steps := [Spawn(pid)] + steps;
  }

  /** Why the assumption is needed: let one detach give up, attach again, and two active
      daemons share an endpoint. */
  lemma DetachBreaksExclusion() returns (steps: seq<Step>, end: State)
    ensures Follows(EMPTY, steps, end, true) && !OnePerEndpoint(end) && end.call.NoCall?
  {
    var first, s1 := PlainAttach(EMPTY, 1, 7, 100);
    var s2 := Apply(s1, BeginDetach(1));
    var s3 := Apply(s2, DetachRemove(true));
    var second;
    second, end := PlainAttach(s3, 2, 7, 101);
    FollowsMayGiveUp(s3, second, end);
    FollowsCons(s2, DetachRemove(true), second, end, true);
    FollowsCons(s1, BeginDetach(1), [DetachRemove(true)] + second, end, true);
    FollowsMayGiveUp(EMPTY, first, s1);
    steps := first + ([BeginDetach(1)] + ([DetachRemove(true)] + second));
    FollowsTrans(EMPTY, first, s1, [BeginDetach(1)] + ([DetachRemove(true)] + second), end, true);
    assert Active(end, 100) && Active(end, 101);
  }

  /** The first half of an attach that meets one active daemon and gives up on it. */
  lemma ImpatientReclaim(s: State, sid: Sid, k: Sid) returns (steps: seq<Step>, end: State)
    requires s.call.NoCall? && s.records.Keys == {k} && k != sid && Active(s, s.records[k].pid)
    ensures Follows(s, steps, end, true)
    ensures forall i :: 0 <= i < |steps| ==> !steps[i].BeginDetach? && !steps[i].DetachRemove?
    ensures end.call == Reclaiming(sid, s.records[k].endpoint, []) && end.records == map[]
    ensures end.procs == Signalled(s, s.records[k].pid)
  {
    var endpoint := s.records[k].endpoint;
    var todo := [Target(k, s.records[k].pid)];
    var s1 := Apply(s, BeginAttach(sid, endpoint));
    assert s1.records == s.records;
    var s2 := Apply(s1, Scan(todo));
    var s3 := Apply(s2, ReclaimSignal);
    end := Apply(s3, ReclaimRemove(true));
    FollowsCons(s3, ReclaimRemove(true), [], end, true);
    steps := [ReclaimRemove(true)] + [];
    FollowsCons(s2, ReclaimSignal, steps, end, true);
    steps := [ReclaimSignal] + steps;
    FollowsCons(s1, Scan(todo), steps, end, true);
    steps := [Scan(todo)] + steps;
    FollowsCons(s, BeginAttach(sid, endpoint), steps, end, true);
    steps := [BeginAttach(sid, endpoint)] + steps;
  }

  /** No detach is needed for it: two attaches do, when the second gives up reclaiming. */
  lemma ReclaimBreaksExclusion() returns (steps: seq<Step>, end: State)
    ensures Follows(EMPTY, steps, end, true) && !OnePerEndpoint(end) && end.call.NoCall?
    ensures forall i :: 0 <= i < |steps| ==> !steps[i].BeginDetach? && !steps[i].DetachRemove?
  {
    var first, s1 := PlainAttach(EMPTY, 1, 7, 100);
    var second, s2 := ImpatientReclaim(s1, 2, 1);
    var third;
    third, end := EndAttach(s2, 101);
    FollowsMayGiveUp(EMPTY, first, s1);
    FollowsMayGiveUp(s2, third, end);
    FollowsTrans(s1, second, s2, third, end, true);
    FollowsTrans(EMPTY, first, s1, second + third, end, true);
    steps := first + (second + third);
    assert Active(end, 100) && Active(end, 101);
  }

  lemma FollowsCons(s: State, step: Step, rest: seq<Step>, end: State, timeouts: bool)
    requires Enabled(s, step, timeouts) && Follows(Apply(s, step), rest, end, timeouts)
    ensures Follows(s, [step] + rest, end, timeouts)
  {
    assert ([step] + rest)[1..] == rest;
  }

  lemma {:induction false} FollowsMayGiveUp(s: State, steps: seq<Step>, end: State)
    requires Follows(s, steps, end, false)
    ensures Follows(s, steps, end, true)
    decreases |steps|
  {
    if steps != [] {
      FollowsMayGiveUp(Apply(s, steps[0]), steps[1..], end);
    }
  }

  lemma {:induction false} FollowsTrans(
    s: State, a: seq<Step>, mid: State, b: seq<Step>, end: State, timeouts: bool)
    requires Follows(s, a, mid, timeouts) && Follows(mid, b, end, timeouts)
    ensures Follows(s, a + b, end, timeouts)
    decreases |a|
  {
    if a == [] {
      assert a + b == b;
    } else {
      assert (a + b)[1..] == a[1..] + b;
      FollowsTrans(Apply(s, a[0]), a[1..], mid, b, end, timeouts);
    }
  }
}
