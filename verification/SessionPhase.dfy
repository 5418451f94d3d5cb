/** How far a media session has come, as its state record says. */
module SessionPhase {

  datatype Phase = Starting | Connecting | Attached | Detached | Failed

  predicate Terminal(p: Phase) { p.Detached? || p.Failed? }

  function Rank(p: Phase): nat {
    match p
    case Starting => 0
    case Connecting => 1
    case Attached => 2
    case Detached => 3
    case Failed => 3
  }
}
