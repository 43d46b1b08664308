/**
 * The request handlers of a replica (professor, student and admin services)
 * as functions on the replica's whole state: its roster, its write log, its
 * clock and its gossip flag. Each handler checks in a fixed order, maps the
 * roster's errors to response codes, and logs a write only when it succeeds.
 */
module HandlerSpec {
  import opened Wrappers
  import opened JavaStrings
  import opened Validate
  import opened Protocol
  import opened DomainSpec
  import opened Merge
  import opened Domain
  import opened Gossip

  /** Everything a replica's handlers read or change. */
  datatype Replica = Replica(roster: Roster, log: map<int, string>, clock: int, activeGossip: bool)

  /** The state held by a roster object and a gossip frontend. */
  function ReplicaOf(domain: ClassDomain, frontend: ReplicaFrontend): Replica
    reads domain, frontend
  {
    Replica(domain.Snapshot(), frontend.writes, frontend.clock, frontend.activeGossip)
  }

  /** What a handler leaves behind: the new state and the answer. */
  datatype Handled = Handled(replica: Replica, reply: Reply<()>)

  /** `addWrite(getClock(), write)` followed by `setClock(getClock() + 1)`. */
  function LogWrite(rep: Replica, write: string): (next: Replica)
    ensures next.roster == rep.roster && next.activeGossip == rep.activeGossip
    ensures next.clock == rep.clock + 1 && next.log.Keys == rep.log.Keys + {rep.clock}
    ensures next.log[rep.clock] == write
    ensures forall t :: t in rep.log && t != rep.clock ==> next.log[t] == rep.log[t]
  {
    rep.(log := rep.log[rep.clock := write], clock := rep.clock + 1)
  }

  /** The response code each caught roster exception is answered with. */
  function CodeOf(e: DomainError): ResponseCode
  {
    match e
    case ClosedForEnrollments => ENROLLMENTS_ALREADY_CLOSED
    case DuplicateEnrollment => STUDENT_ALREADY_ENROLLED
    case ClassFull => FULL_CLASS
    case UnknownEnrollment => NON_EXISTING_STUDENT
    case EnrollmentsAlreadyOpened => ENROLLMENTS_ALREADY_OPENED
    case FullClass => FULL_CLASS
    case EnrollmentsAlreadyClosed => ENROLLMENTS_ALREADY_CLOSED
    case InactiveServer => INACTIVE_SERVER
    // never raised on the paths that reach a handler's catch clauses
    case DuplicateCancellation => OK
    case UnknownCancellation => OK
  }

  /** The write `openEnrollments` logs. */
  function OpenWrite(capacity: nat): string
  {
    "open:" + DecimalString(capacity)
  }

  /** The write `closeEnrollments` logs. */
  const CloseWrite: string := "close:0"

  /** The write `enroll` logs. */
  function EnrollWrite(id: string, name: string): string
  {
    id + ":" + name
  }

  /* ---------- professor service ---------- */

  /** `openEnrollments`: inactive, then secondary, then a negative capacity, then the roster's own checks. */
  function OpenEnrollmentsHandler(rep: Replica, primary: bool, capacity: int): (h: Handled)
    ensures !rep.roster.active ==> h == Handled(rep, Respond(INACTIVE_SERVER, ()))
    ensures rep.roster.active && !primary ==> h == Handled(rep, Respond(WRITING_NOT_SUPPORTED, ()))
    ensures rep.roster.active && primary && capacity < 0 ==> h == Handled(rep, Fail(INVALID_ARGUMENT))
    ensures h.reply == Respond(OK, ()) <==>
              rep.roster.active && primary && capacity >= 0 && !rep.roster.open && capacity > |rep.roster.studentsEnrolled|
    ensures h.reply != Respond(OK, ()) ==> h.replica == rep
    ensures h.reply == Respond(OK, ()) ==>
              h.replica == LogWrite(rep.(roster := rep.roster.(capacity := capacity, open := true)), OpenWrite(capacity))
  {
    if !rep.roster.active then Handled(rep, Respond(INACTIVE_SERVER, ()))
    else if !primary then Handled(rep, Respond(WRITING_NOT_SUPPORTED, ()))
    else if !ValidCapacity(capacity) then Handled(rep, Fail(INVALID_ARGUMENT))
    else
      var s := DomainSpec.OpenEnrollments(rep.roster, capacity);
      if s.outcome.Failed? then Handled(rep, Respond(CodeOf(s.outcome.error), ()))
      else Handled(LogWrite(rep.(roster := s.roster), OpenWrite(capacity)), Respond(OK, ()))
  }

  /** `closeEnrollments`: inactive, then secondary, then already closed. */
  function CloseEnrollmentsHandler(rep: Replica, primary: bool): (h: Handled)
    ensures !rep.roster.active ==> h == Handled(rep, Respond(INACTIVE_SERVER, ()))
    ensures rep.roster.active && !primary ==> h == Handled(rep, Respond(WRITING_NOT_SUPPORTED, ()))
    ensures rep.roster.active && primary && !rep.roster.open ==> h == Handled(rep, Respond(ENROLLMENTS_ALREADY_CLOSED, ()))
    ensures h.reply == Respond(OK, ()) <==> rep.roster.active && primary && rep.roster.open
    ensures h.reply == Respond(OK, ()) ==> h.replica == LogWrite(rep.(roster := rep.roster.(open := false)), CloseWrite)
  {
    if !rep.roster.active then Handled(rep, Respond(INACTIVE_SERVER, ()))
    else if !primary then Handled(rep, Respond(WRITING_NOT_SUPPORTED, ()))
    else
      var s := DomainSpec.CloseEnrollments(rep.roster);
      if s.outcome.Failed? then Handled(rep, Respond(CodeOf(s.outcome.error), ()))
      else Handled(LogWrite(rep.(roster := s.roster), CloseWrite), Respond(OK, ()))
  }

  /**
   * `cancelEnrollment`: deadline, inactive, secondary, the id's shape (an id
   * under five characters throws out of the handler), then not enrolled. A
   * cancellation is never logged.
   */
  function CancelEnrollmentHandler(rep: Replica, primary: bool, deadlinePassed: bool, id: string): (h: Handled)
    ensures deadlinePassed ==> h == Handled(rep, Fail(DEADLINE_EXCEEDED))
    ensures !deadlinePassed && !rep.roster.active ==> h == Handled(rep, Respond(INACTIVE_SERVER, ()))
    ensures !deadlinePassed && rep.roster.active && !primary ==> h == Handled(rep, Respond(WRITING_NOT_SUPPORTED, ()))
    ensures !deadlinePassed && rep.roster.active && primary && ValidateId(id) == Rejected ==> h == Handled(rep, Fail(INVALID_ARGUMENT))
    ensures h.reply == Respond(OK, ()) <==>
              !deadlinePassed && rep.roster.active && primary && ValidateId(id) == Accepted && id in rep.roster.studentsEnrolled
    ensures h.replica.log == rep.log && h.replica.clock == rep.clock && h.replica.activeGossip == rep.activeGossip
    ensures h.reply != Respond(OK, ()) ==> h.replica == rep
  {
    if deadlinePassed then Handled(rep, Fail(DEADLINE_EXCEEDED))
    else if !rep.roster.active then Handled(rep, Respond(INACTIVE_SERVER, ()))
    else if !primary then Handled(rep, Respond(WRITING_NOT_SUPPORTED, ()))
    else
      match ValidateId(id)
      case Rejected => Handled(rep, Fail(INVALID_ARGUMENT))
      case IndexOutOfBounds => Handled(rep, Fail(UNKNOWN))
      case Accepted =>
        var s := DomainSpec.CancelEnrollment(rep.roster, id);
        if s.outcome.Failed? then Handled(rep, Respond(CodeOf(s.outcome.error), ()))
        else Handled(rep.(roster := s.roster), Respond(OK, ()))
  }

  /* ---------- student service ---------- */

  /**
   * `enroll`: deadline, then the student's shape (before activity, so an
   * inactive replica still answers INVALID_ARGUMENT), then inactive, then the
   * roster's checks. The replica type is never consulted.
   */
  function EnrollHandler(rep: Replica, deadlinePassed: bool, id: string, name: string): (h: Handled)
    ensures deadlinePassed ==> h == Handled(rep, Fail(DEADLINE_EXCEEDED))
    ensures !deadlinePassed && ValidateEnrollment(id, name) == Rejected ==> h == Handled(rep, Fail(INVALID_ARGUMENT))
    ensures !deadlinePassed && ValidateEnrollment(id, name) == Accepted && !rep.roster.active ==>
              h == Handled(rep, Respond(INACTIVE_SERVER, ()))
    ensures h.reply == Respond(OK, ()) <==>
              && !deadlinePassed && ValidateEnrollment(id, name) == Accepted && rep.roster.active
              && rep.roster.open && id !in rep.roster.studentsEnrolled && rep.roster.capacity != rep.roster.enrolled
    ensures h.reply != Respond(OK, ()) ==> h.replica == rep
    ensures h.reply == Respond(OK, ()) ==>
              h.replica == LogWrite(rep.(roster := DomainSpec.AddStudentEnrolled(rep.roster, id, name).roster), EnrollWrite(id, name))
  {
    if deadlinePassed then Handled(rep, Fail(DEADLINE_EXCEEDED))
    else
      match ValidateEnrollment(id, name)
      case Rejected => Handled(rep, Fail(INVALID_ARGUMENT))
      case IndexOutOfBounds => Handled(rep, Fail(UNKNOWN))
      case Accepted =>
        if !rep.roster.active then Handled(rep, Respond(INACTIVE_SERVER, ()))
        else
          var s := DomainSpec.AddStudentEnrolled(rep.roster, id, name);
          if s.outcome.Failed? then Handled(rep, Respond(CodeOf(s.outcome.error), ()))
          else Handled(LogWrite(rep.(roster := s.roster), EnrollWrite(id, name)), Respond(OK, ()))
  }

  /* ---------- admin service ---------- */

  /** `activate`: the roster and gossip both switched on; always OK. */
  function ActivateHandler(rep: Replica): (h: Handled)
    ensures h.reply == Respond(OK, ())
    ensures h.replica.roster == rep.roster.(active := true) && h.replica.activeGossip
    ensures h.replica.log == rep.log && h.replica.clock == rep.clock
  {
    Handled(rep.(roster := rep.roster.(active := true), activeGossip := true), Respond(OK, ()))
  }

  /** `deactivate`: the roster and gossip both switched off; always OK. */
  function DeactivateHandler(rep: Replica): (h: Handled)
    ensures h.reply == Respond(OK, ())
    ensures h.replica.roster == rep.roster.(active := false) && !h.replica.activeGossip
    ensures h.replica.log == rep.log && h.replica.clock == rep.clock
  {
    Handled(rep.(roster := rep.roster.(active := false), activeGossip := false), Respond(OK, ()))
  }

  /** `activateGossip` / `deactivateGossip`: deadline, then inactive; otherwise only the gossip flag changes. */
  function SetGossipHandler(rep: Replica, deadlinePassed: bool, on: bool): (h: Handled)
    ensures deadlinePassed ==> h == Handled(rep, Fail(DEADLINE_EXCEEDED))
    ensures !deadlinePassed && !rep.roster.active ==> h == Handled(rep, Respond(INACTIVE_SERVER, ()))
    ensures !deadlinePassed && rep.roster.active ==> h == Handled(rep.(activeGossip := on), Respond(OK, ()))
  {
    if deadlinePassed then Handled(rep, Fail(DEADLINE_EXCEEDED))
    else if !rep.roster.active then Handled(rep, Respond(INACTIVE_SERVER, ()))
    else Handled(rep.(activeGossip := on), Respond(OK, ()))
  }

  /**
   * `gossip`: deadline, then inactive, then a round run on command. The
   * round's exceptions (no answer, an invalid state) leave the handler and
   * close the call with UNKNOWN.
   */
  function GossipHandler(rep: Replica, deadlinePassed: bool, calls: seq<CallResult>): (h: Handled)
    requires |calls| >= 3
    ensures deadlinePassed ==> h == Handled(rep, Fail(DEADLINE_EXCEEDED))
    ensures !deadlinePassed && !rep.roster.active ==> h == Handled(rep, Respond(INACTIVE_SERVER, ()))
    ensures h.reply != Respond(WRITING_NOT_SUPPORTED, ())
    ensures h.replica.clock == rep.clock && h.replica.activeGossip == rep.activeGossip
    ensures !deadlinePassed && rep.roster.active ==>
              var g := GossipRound(rep.roster, rep.log, rep.activeGossip, false, calls);
              && (h.reply == Respond(OK, ()) <==> g.result == Completed)
              && h.replica == rep.(roster := g.roster, log := g.log)
  {
    if deadlinePassed then Handled(rep, Fail(DEADLINE_EXCEEDED))
    else if !rep.roster.active then Handled(rep, Respond(INACTIVE_SERVER, ()))
    else
      var g := GossipRound(rep.roster, rep.log, rep.activeGossip, false, calls);
      var next := rep.(roster := g.roster, log := g.log);
      match g.result
      case Completed => Handled(next, Respond(OK, ()))
      case Skipped => Handled(next, Respond(WRITING_NOT_SUPPORTED, ()))
      case Aborted => Handled(next, Fail(UNKNOWN))
  }

  /* ---------- properties across handlers ---------- */

  /**
   * Opening enrollments keeps the log contiguous below the clock, the shape
   * the join of `unifyState` counts on: a write is only ever logged at the
   * clock, which is bumped at once.
   */
  lemma OpenKeepsLogContiguous(rep: Replica, primary: bool, capacity: int)
    requires Contiguous(rep.log, rep.clock)
    ensures var h := OpenEnrollmentsHandler(rep, primary, capacity); Contiguous(h.replica.log, h.replica.clock)
  {
    if capacity >= 0 {
      LogAtClockKeepsContiguous(rep.log, rep.clock, OpenWrite(capacity));
    }
  }

  /** Closing enrollments keeps the log contiguous below the clock. */
  lemma CloseKeepsLogContiguous(rep: Replica, primary: bool)
    requires Contiguous(rep.log, rep.clock)
    ensures var h := CloseEnrollmentsHandler(rep, primary); Contiguous(h.replica.log, h.replica.clock)
  {
    LogAtClockKeepsContiguous(rep.log, rep.clock, CloseWrite);
  }

  /** A cancellation logs nothing and leaves the clock alone. */
  lemma CancelKeepsLog(rep: Replica, primary: bool, deadlinePassed: bool, id: string)
    ensures var h := CancelEnrollmentHandler(rep, primary, deadlinePassed, id); h.replica.log == rep.log && h.replica.clock == rep.clock
  {
  }

  /** An enrollment keeps the log contiguous below the clock. */
  lemma EnrollKeepsLogContiguous(rep: Replica, deadlinePassed: bool, id: string, name: string)
    requires Contiguous(rep.log, rep.clock)
    ensures var h := EnrollHandler(rep, deadlinePassed, id, name); Contiguous(h.replica.log, h.replica.clock)
  {
    LogAtClockKeepsContiguous(rep.log, rep.clock, EnrollWrite(id, name));
  }

  /** The admin's handlers keep the log contiguous below the clock: a round only ever clears the log. */
  lemma AdminHandlersKeepLogContiguous(rep: Replica, deadlinePassed: bool, on: bool, calls: seq<CallResult>)
    requires |calls| >= 3
    requires Contiguous(rep.log, rep.clock)
    ensures var h := ActivateHandler(rep); Contiguous(h.replica.log, h.replica.clock)
    ensures var h := DeactivateHandler(rep); Contiguous(h.replica.log, h.replica.clock)
    ensures var h := SetGossipHandler(rep, deadlinePassed, on); Contiguous(h.replica.log, h.replica.clock)
    ensures var h := GossipHandler(rep, deadlinePassed, calls); Contiguous(h.replica.log, h.replica.clock)
  {
    assert Contiguous(map[], rep.clock);
  }

  /** Enrollments and cancellations keep the counter equal to the enrolled map's size, and the two maps apart. */
  lemma EnrollAndCancelKeepConsistent(rep: Replica, primary: bool, deadlinePassed: bool, id: string, name: string)
    requires Consistent(rep.roster)
    ensures Consistent(EnrollHandler(rep, deadlinePassed, id, name).replica.roster)
    ensures Consistent(CancelEnrollmentHandler(rep, primary, deadlinePassed, id).replica.roster)
  {
    AddStudentEnrolledKeepsConsistent(rep.roster, id, name);
    CancelEnrollmentKeepsConsistent(rep.roster, id);
  }

  /** A secondary refuses every professor write and changes nothing, yet accepts enrollments like a primary. */
  lemma SecondaryRefusesProfessorWrites(rep: Replica, deadlinePassed: bool, capacity: int, id: string, name: string)
    requires rep.roster.active && !deadlinePassed
    ensures OpenEnrollmentsHandler(rep, false, capacity) == Handled(rep, Respond(WRITING_NOT_SUPPORTED, ()))
    ensures CloseEnrollmentsHandler(rep, false) == Handled(rep, Respond(WRITING_NOT_SUPPORTED, ()))
    ensures CancelEnrollmentHandler(rep, false, deadlinePassed, id) == Handled(rep, Respond(WRITING_NOT_SUPPORTED, ()))
    ensures EnrollHandler(rep, deadlinePassed, id, name).reply == Respond(OK, ()) <==>
              && ValidateEnrollment(id, name) == Accepted
              && rep.roster.open && id !in rep.roster.studentsEnrolled && rep.roster.capacity != rep.roster.enrolled
  {
  }

  /* ---------- the logged writes, read back by a peer ---------- */

  /** A logged enrollment whose name has no colon is read back by the peer as the same id and name. */
  lemma EnrollWriteRoundTrip(id: string, name: string)
    requires ValidateEnrollment(id, name) == Accepted
    requires ':' !in name
    ensures Field(EnrollWrite(id, name), 0) == Some(id) && Field(EnrollWrite(id, name), 1) == Some(name)
  {
    AcceptedIdHasNoColon(id);
    SplitPair(id, name);
  }

  /**
   * Names are only checked for length, so a name may hold a colon; the peer
   * then reads only the part before it as the student's name.
   */
  lemma ColonInNameIsTruncated(id: string, first: string, rest: string)
    requires ValidateEnrollment(id, first + ":" + rest) == Accepted
    requires ':' !in first && ':' !in rest && first != "" && rest != ""
    ensures Field(EnrollWrite(id, first + ":" + rest), 1) == Some(first)
  {
    AcceptedIdHasNoColon(id);
    assert EnrollWrite(id, first + ":" + rest) == (id + ":" + first) + ":" + rest;
    SplitTriple(id, first, rest);
  }

  /** The logged open carries the tag "open" and the capacity's decimal digits. */
  lemma OpenWriteFields(capacity: nat)
    ensures Tag(OpenWrite(capacity)) == Some("open") && Field(OpenWrite(capacity), 1) == Some(DecimalString(capacity))
  {
    DecimalStringHasNoColon(capacity);
    SplitPair("open", DecimalString(capacity));
    assert OpenWrite(capacity) == "open" + ":" + DecimalString(capacity);
  }
}
