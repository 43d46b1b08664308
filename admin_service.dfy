/** The admin's requests on a replica: switching it and its gossip on and off, dumping it, forcing a round. */
module AdminService {
  import opened Protocol
  import opened DomainSpec
  import opened Domain
  import opened Gossip
  import opened HandlerSpec

  class AdminServiceImpl {
    const domain: ClassDomain
    const frontend: ReplicaFrontend

    /** The frontend gossips the same roster the admin switches on and off. */
    ghost predicate Wired()
    {
      frontend.domain == domain
    }

    constructor (domain: ClassDomain, frontend: ReplicaFrontend)
      requires frontend.domain == domain
      ensures this.domain == domain && this.frontend == frontend && Wired()
    {
      this.domain := domain;
      this.frontend := frontend;
    }

    /** `activate`: no deadline check. */
    method Activate() returns (reply: Reply<()>)
      modifies domain, frontend
      ensures var h := ActivateHandler(old(ReplicaOf(domain, frontend)));
        ReplicaOf(domain, frontend) == h.replica && reply == h.reply
    {
      domain.Activate();
      frontend.SetActiveGossip(true);
      reply := Respond(OK, ());
    }

    /** `deactivate`: no deadline check. */
    method Deactivate() returns (reply: Reply<()>)
      modifies domain, frontend
      ensures var h := DeactivateHandler(old(ReplicaOf(domain, frontend)));
        ReplicaOf(domain, frontend) == h.replica && reply == h.reply
    {
      domain.Deactivate();
      frontend.SetActiveGossip(false);
      reply := Respond(OK, ());
    }

    /** `dump`: the deadline first; an inactive replica answers with the empty class state. */
    method Dump(deadlinePassed: bool) returns (reply: Reply<ClassState>)
      ensures deadlinePassed ==> reply == Fail(DEADLINE_EXCEEDED)
      ensures !deadlinePassed && !domain.active ==> reply == Respond(INACTIVE_SERVER, EmptyClassState)
      ensures !deadlinePassed && domain.active ==> reply.Respond? && reply.code == OK && Describes(reply.body, domain.Snapshot())
    {
      if deadlinePassed {
        return Fail(DEADLINE_EXCEEDED);
      }
      if !domain.active {
        return Respond(INACTIVE_SERVER, EmptyClassState);
      }
      var cs := BuildClassState(domain);
      reply := Respond(OK, cs);
    }

    /** `activateGossip` (`on`) and `deactivateGossip` (`!on`). */
    method SetGossip(deadlinePassed: bool, on: bool) returns (reply: Reply<()>)
      modifies frontend
      ensures var h := SetGossipHandler(old(ReplicaOf(domain, frontend)), deadlinePassed, on);
        ReplicaOf(domain, frontend) == h.replica && reply == h.reply
    {
      if deadlinePassed {
        return Fail(DEADLINE_EXCEEDED);
      }
      if !domain.active {
        return Respond(INACTIVE_SERVER, ());
      }
      frontend.SetActiveGossip(on);
      reply := Respond(OK, ());
    }

    /** `gossip`: a round on command; its exceptions close the call with UNKNOWN. */
    method Gossip(deadlinePassed: bool, calls: seq<CallResult>) returns (reply: Reply<()>)
      requires Wired() && |calls| >= 3
      modifies domain, frontend
      ensures var h := GossipHandler(old(ReplicaOf(domain, frontend)), deadlinePassed, calls);
        ReplicaOf(domain, frontend) == h.replica && reply == h.reply
    {
      if deadlinePassed {
        return Fail(DEADLINE_EXCEEDED);
      }
      if !domain.active {
        return Respond(INACTIVE_SERVER, ());
      }
      var result := frontend.PropagateState(false, calls);
      match result
      case Completed => reply := Respond(OK, ());
      case Skipped => reply := Respond(WRITING_NOT_SUPPORTED, ());
      case Aborted => reply := Fail(UNKNOWN);
    }
  }
}
