/** The race for a session's first state record: the forking parent creates the file only
    if it is absent and then fills it, while the daemon writes temporary files and renames
    them over the path. Inodes are explicit, so a fill may land after its file was replaced. */
module StateFileRace {
  import opened SessionPhase

  type Inode = nat

  /** What a record says to its readers; 0 stands for no readable record. */
  function Shown(p: Phase): nat { 1 + Rank(p) }

  /** A file is partial until its last byte is written; a partial record does not parse. */
  datatype Content = Partial | Whole(phase: Phase, byDaemon: bool)

  datatype ParentPc = ParentIdle | Created(ino: Inode) | ParentDone(wrote: bool)
  datatype DaemonPc = DaemonIdle | Writing(ino: Inode, phase: Phase) | Written(ino: Inode, phase: Phase)
  datatype ReaderPc = ReaderIdle | Opened(inode: Inode)
  datatype Path = Absent | Named(inode: Inode)

  /** `published` is the rank shown by the daemon's last renamed record, `seen` every rank the
      reader has read, in order. */
  datatype State = State(path: Path, files: map<Inode, Content>, parent: ParentPc, daemon: DaemonPc,
                         reader: ReaderPc, published: nat, seen: seq<nat>)

  datatype Step =
    | ParentCreate(free: Inode)          // O_CREAT | O_EXCL
    | ParentFill
    | DaemonOpen(free: Inode, phase: Phase)
    | DaemonFill
    | DaemonRename
    | ReaderOpen                          // absent path: reads as no record at once
    | ReaderRead

  predicate Enabled(s: State, step: Step) {
    match step
    case ParentCreate(free) => s.parent.ParentIdle? && free !in s.files
    case ParentFill => s.parent.Created? && s.parent.ino in s.files
    case DaemonOpen(free, phase) => s.daemon.DaemonIdle? && free !in s.files && s.published <= Shown(phase)
    case DaemonFill => s.daemon.Writing?
    case DaemonRename => s.daemon.Written?
    case ReaderOpen => s.reader.ReaderIdle?
    case ReaderRead => s.reader.Opened? && s.reader.inode in s.files
  }

  function Apply(s: State, step: Step): State
    requires Enabled(s, step)
  {
    match step
    case ParentCreate(free) =>
      if s.path.Named? then s.(parent := ParentDone(false))
      else s.(path := Named(free), files := s.files[free := Partial], parent := Created(free))
    case ParentFill => s.(files := s.files[s.parent.ino := Whole(Starting, false)], parent := ParentDone(true))
    case DaemonOpen(free, phase) => s.(files := s.files[free := Partial], daemon := Writing(free, phase))
    case DaemonFill =>
      s.(files := s.files[s.daemon.ino := Whole(s.daemon.phase, true)], daemon := Written(s.daemon.ino, s.daemon.phase))
    case DaemonRename =>
      s.(path := Named(s.daemon.ino), daemon := DaemonIdle, published := Shown(s.daemon.phase))
    case ReaderOpen =>
      if s.path.Absent? then s.(seen := s.seen + [0]) else s.(reader := Opened(s.path.inode))
    case ReaderRead => s.(seen := s.seen + [ContentRank(s.files[s.reader.inode])], reader := ReaderIdle)
  }

  function ContentRank(c: Content): nat { if c.Partial? then 0 else Shown(c.phase) }

  const START := State(Absent, map[], ParentIdle, DaemonIdle, ReaderIdle, 0, [])

  predicate Follows(s: State, steps: seq<Step>, end: State)
    decreases |steps|
  {
    if steps == [] then s == end
    else Enabled(s, steps[0]) && Follows(Apply(s, steps[0]), steps[1..], end)
  }

  /** What a reader arriving now would get. */
  function PathRank(s: State): nat {
    if s.path.Named? && s.path.inode in s.files then ContentRank(s.files[s.path.inode]) else 0
  }

  predicate Monotone(seen: seq<nat>) {
    forall i, j :: 0 <= i < j < |seen| ==> seen[i] <= seen[j]
  }

  predicate Below(seen: seq<nat>, bound: nat) { forall i :: 0 <= i < |seen| ==> seen[i] <= bound }

  /** The inode the daemon is preparing is private: not named, not open, not the parent's. */
  predicate Private(s: State, ino: Inode) {
    && ino in s.files
    && s.path != Named(ino) && s.reader != Opened(ino)
    && !(s.parent.Created? && s.parent.ino == ino)
  }

  /** Before any rename the path is absent or the parent's file; afterwards it holds the
      daemon's last published record. */
  predicate PathOk(s: State) {
    if s.published == 0 then
      && (s.parent.ParentIdle? ==> s.path.Absent?)
      && (s.parent.Created? ==> s.path == Named(s.parent.ino))
      && (s.path.Named? ==> s.path.inode in s.files && !s.parent.ParentIdle?
                            && s.files[s.path.inode] == if s.parent.Created? then Partial else Whole(Starting, false))
    else
      && s.path.Named? && s.path.inode in s.files
      && s.files[s.path.inode].Whole? && s.files[s.path.inode].byDaemon
      && Shown(s.files[s.path.inode].phase) == s.published
      && !(s.parent.Created? && s.parent.ino == s.path.inode)
  }

  /** The parent's file never rises above `starting`, wherever it now lives. */
  predicate ParentOk(s: State) {
    s.parent.Created? ==> s.parent.ino in s.files && s.files[s.parent.ino] == Partial
  }

  predicate DaemonOk(s: State) {
    match s.daemon
    case DaemonIdle => true
    case Writing(ino, phase) => Private(s, ino) && s.published <= Shown(phase)
    case Written(ino, phase) => Private(s, ino) && s.published <= Shown(phase) && s.files[ino] == Whole(phase, true)
  }

  /** What an open file can still show lies between what was seen and the current path. */
  predicate ReaderOk(s: State) {
    && Monotone(s.seen) && Below(s.seen, PathRank(s))
    && (s.reader.Opened? ==>
          && s.reader.inode in s.files
          && Below(s.seen, ContentRank(s.files[s.reader.inode]))
          && ContentRank(s.files[s.reader.inode]) <= PathRank(s))
  }

  predicate Inv(s: State) { PathOk(s) && ParentOk(s) && DaemonOk(s) && ReaderOk(s) }

  lemma MonotoneSnoc(seen: seq<nat>, x: nat)
    requires Monotone(seen) && Below(seen, x)
    ensures Monotone(seen + [x]) && Below(seen + [x], x)
  {
  }

  lemma ParentKeeps(s: State, step: Step)
    requires Inv(s) && Enabled(s, step) && (step.ParentCreate? || step.ParentFill?)
    ensures Inv(Apply(s, step)) && PathRank(s) <= PathRank(Apply(s, step))
  {
  }

  lemma DaemonKeeps(s: State, step: Step)
    requires Inv(s) && Enabled(s, step) && (step.DaemonOpen? || step.DaemonFill? || step.DaemonRename?)
    ensures Inv(Apply(s, step)) && PathRank(s) <= PathRank(Apply(s, step))
  {
  }

  lemma ReaderKeeps(s: State, step: Step)
    requires Inv(s) && Enabled(s, step) && (step.ReaderOpen? || step.ReaderRead?)
    ensures Inv(Apply(s, step)) && PathRank(s) <= PathRank(Apply(s, step))
  {
    if step.ReaderRead? {
      MonotoneSnoc(s.seen, ContentRank(s.files[s.reader.inode]));
    } else if s.path.Absent? {
      MonotoneSnoc(s.seen, 0);
    }
  }

  lemma StepKeepsInv(s: State, step: Step)
    requires Inv(s) && Enabled(s, step)
    ensures Inv(Apply(s, step)) && PathRank(s) <= PathRank(Apply(s, step))
  {
    if step.ParentCreate? || step.ParentFill? {
      ParentKeeps(s, step);
    } else if step.ReaderOpen? || step.ReaderRead? {
      ReaderKeeps(s, step);
    } else {
      DaemonKeeps(s, step);
    }
  }

  /** In every interleaving, with the parent's fill landing before or after its file has
      been replaced: the ranks a reader sees never go down. */
  lemma {:induction false} ReadersNeverGoBack(s: State, steps: seq<Step>, end: State)
    requires Inv(s) && Follows(s, steps, end)
    ensures Inv(end) && Monotone(end.seen) && PathRank(s) <= PathRank(end)
    decreases |steps|
  {
    if steps != [] {
      StepKeepsInv(s, steps[0]);
      ReadersNeverGoBack(Apply(s, steps[0]), steps[1..], end);
    }
  }

  /** Once the daemon has published, the record under the path is the daemon's own latest
      one, whatever the parent still does. */
  lemma DaemonRecordNeverClobbered(steps: seq<Step>, end: State)
    requires Follows(START, steps, end) && end.published > 0
    ensures end.path.Named? && end.path.inode in end.files
    ensures end.files[end.path.inode].Whole? && end.files[end.path.inode].byDaemon
    ensures Shown(end.files[end.path.inode].phase) == end.published
    ensures Monotone(end.seen)
  {
    ReadersNeverGoBack(START, steps, end);
  }
}
