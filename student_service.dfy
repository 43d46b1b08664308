/** The student's requests on a replica. */
module StudentService {
  import opened Validate
  import opened Protocol
  import opened DomainSpec
  import opened Domain
  import opened Gossip
  import opened HandlerSpec

  class StudentServiceImpl {
    const domain: ClassDomain
    const frontend: ReplicaFrontend

    constructor (domain: ClassDomain, frontend: ReplicaFrontend)
      ensures this.domain == domain && this.frontend == frontend
    {
      this.domain := domain;
      this.frontend := frontend;
    }

    /** `listClass`: the deadline first; an inactive replica answers with the empty class state. */
    method ListClass(deadlinePassed: bool) returns (reply: Reply<ClassState>)
      ensures deadlinePassed ==> reply == Fail(DEADLINE_EXCEEDED)
      ensures !deadlinePassed && !domain.active ==> reply == Respond(INACTIVE_SERVER, EmptyClassState)
      ensures !deadlinePassed && domain.active ==> reply.Respond? && reply.code == OK && Describes(reply.body, domain.Snapshot())
    {
      if deadlinePassed {
        return Fail(DEADLINE_EXCEEDED);
      }
      if !domain.active {
        return Respond(INACTIVE_SERVER, EmptyClassState);
      }
      var cs := BuildClassState(domain);
      reply := Respond(OK, cs);
    }

    /** `enroll`: on any replica, primary or secondary. */
    method Enroll(deadlinePassed: bool, id: string, name: string) returns (reply: Reply<()>)
      modifies domain, frontend
      ensures var h := EnrollHandler(old(ReplicaOf(domain, frontend)), deadlinePassed, id, name);
        ReplicaOf(domain, frontend) == h.replica && reply == h.reply
    {
      if deadlinePassed {
        return Fail(DEADLINE_EXCEEDED);
      }
      var verdict := ValidateEnrollment(id, name);
      if verdict == Rejected {
        return Fail(INVALID_ARGUMENT);
      } else if verdict == IndexOutOfBounds {
        // `substring` throws out of the handler
        return Fail(UNKNOWN);
      }
      if !domain.active {
        return Respond(INACTIVE_SERVER, ());
      }
      var outcome := domain.AddStudentEnrolled(id, name);
      if outcome.Failed? {
        return Respond(CodeOf(outcome.error), ());
      }
      frontend.AddWrite(frontend.clock, EnrollWrite(id, name));
      frontend.SetClock(frontend.clock + 1);
      reply := Respond(OK, ());
    }
  }
}
