/**
 * The professor's requests on a replica. Each write handler changes the
 * shared roster and the gossip frontend's log exactly as the matching
 * handler function of HandlerSpec says.
 */
module ProfessorService {
  import opened Validate
  import opened Protocol
  import opened DomainSpec
  import opened Domain
  import opened Gossip
  import opened HandlerSpec

  class ProfessorServiceImpl {
    const domain: ClassDomain
    const frontend: ReplicaFrontend
    /** The replica's type: "P" for a primary, "S" for a secondary. */
    const primary: bool

    constructor (domain: ClassDomain, frontend: ReplicaFrontend, primary: bool)
      ensures this.domain == domain && this.frontend == frontend && this.primary == primary
    {
      this.domain := domain;
      this.frontend := frontend;
      this.primary := primary;
    }

    /** Logs a write at the clock and moves the clock on. */
    method Log(write: string)
      modifies frontend
      ensures ReplicaOf(domain, frontend) == LogWrite(old(ReplicaOf(domain, frontend)), write)
    {
      frontend.AddWrite(frontend.clock, write);
      frontend.SetClock(frontend.clock + 1);
    }

    /** `openEnrollments`. */
    method OpenEnrollments(capacity: int) returns (reply: Reply<()>)
      modifies domain, frontend
      ensures var h := OpenEnrollmentsHandler(old(ReplicaOf(domain, frontend)), primary, capacity);
        ReplicaOf(domain, frontend) == h.replica && reply == h.reply
    {
      if !domain.active {
        return Respond(INACTIVE_SERVER, ());
      }
      if !primary {
        return Respond(WRITING_NOT_SUPPORTED, ());
      }
      if !ValidCapacity(capacity) {
        return Fail(INVALID_ARGUMENT);
      }
      var outcome := domain.OpenEnrollments(capacity);
      if outcome.Failed? {
        return Respond(CodeOf(outcome.error), ());
      }
      Log(OpenWrite(capacity));
      reply := Respond(OK, ());
    }

    /** `closeEnrollments`. */
    method CloseEnrollments() returns (reply: Reply<()>)
      modifies domain, frontend
      ensures var h := CloseEnrollmentsHandler(old(ReplicaOf(domain, frontend)), primary);
        ReplicaOf(domain, frontend) == h.replica && reply == h.reply
    {
      if !domain.active {
        return Respond(INACTIVE_SERVER, ());
      }
      if !primary {
        return Respond(WRITING_NOT_SUPPORTED, ());
      }
      var outcome := domain.CloseEnrollments();
      if outcome.Failed? {
        return Respond(CodeOf(outcome.error), ());
      }
      Log(CloseWrite);
      reply := Respond(OK, ());
    }

    /** `listClass`: no deadline check; an inactive replica answers with the empty class state. */
    method ListClass() returns (reply: Reply<ClassState>)
      ensures !domain.active ==> reply == Respond(INACTIVE_SERVER, EmptyClassState)
      ensures domain.active ==> reply.Respond? && reply.code == OK && Describes(reply.body, domain.Snapshot())
    {
      if !domain.active {
        return Respond(INACTIVE_SERVER, EmptyClassState);
      }
      var cs := BuildClassState(domain);
      reply := Respond(OK, cs);
    }

    /** `cancelEnrollment`. */
    method CancelEnrollment(deadlinePassed: bool, id: string) returns (reply: Reply<()>)
      modifies domain, frontend
      ensures var h := CancelEnrollmentHandler(old(ReplicaOf(domain, frontend)), primary, deadlinePassed, id);
        ReplicaOf(domain, frontend) == h.replica && reply == h.reply
    {
      if deadlinePassed {
        return Fail(DEADLINE_EXCEEDED);
      }
      if !domain.active {
        return Respond(INACTIVE_SERVER, ());
      }
      if !primary {
        return Respond(WRITING_NOT_SUPPORTED, ());
      }
      var verdict := ValidateId(id);
      if verdict == Rejected {
        return Fail(INVALID_ARGUMENT);
      } else if verdict == IndexOutOfBounds {
        // `substring` throws out of the handler
        return Fail(UNKNOWN);
      }
      var outcome := domain.CancelEnrollment(id);
      if outcome.Failed? {
        return Respond(CodeOf(outcome.error), ());
      }
      reply := Respond(OK, ());
    }
  }
}
