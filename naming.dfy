/**
 * The naming server's registry: services by name, each with the servers
 * (address and qualifiers) registered for it. A server's qualifiers say
 * whether it is a primary ("P") or a secondary ("S"); a lookup returns the
 * servers that hold every qualifier asked for.
 */
module Naming {
  import opened Protocol

  /** A registered server: its "host:port" address and its qualifiers, in the order given. */
  datatype Server = Server(hostPort: string, qualifiers: seq<string>)

  /** The registry's exceptions; `NoSuchService` stands for the null dereference of an unknown service name. */
  datatype NamingError = DuplicateService | UnknownQualifier | DuplicateServer | UnknownServer | NoSuchService

  datatype Result = Success | Failure(error: NamingError)

  /* ---------- the entries of one service, as values ---------- */

  /** No two servers share an address. */
  ghost predicate UniqueHostPorts(servers: seq<Server>)
  {
    forall i, j :: 0 <= i < j < |servers| ==> servers[i].hostPort != servers[j].hostPort
  }

  predicate HasHostPort(servers: seq<Server>, hostPort: string)
  {
    exists k :: 0 <= k < |servers| && servers[k].hostPort == hostPort
  }

  /** `removeIf(hostPort matches)`: the servers at other addresses, in their order. */
  function Without(servers: seq<Server>, hostPort: string): (r: seq<Server>)
    ensures |r| <= |servers|
    ensures forall k :: 0 <= k < |r| ==> r[k].hostPort != hostPort && r[k] in servers
    ensures forall k :: 0 <= k < |servers| && servers[k].hostPort != hostPort ==> servers[k] in r
  {
    if |servers| == 0 then []
    else
      var rest := Without(servers[1..], hostPort);
      if servers[0].hostPort == hostPort then rest else [servers[0]] + rest
  }

  /** Removal takes something away exactly when some server has the address. */
  lemma {:induction false} WithoutShrinksIffPresent(servers: seq<Server>, hostPort: string)
    ensures |Without(servers, hostPort)| < |servers| <==> HasHostPort(servers, hostPort)
    ensures !HasHostPort(servers, hostPort) ==> Without(servers, hostPort) == servers
  {
    if |servers| > 0 {
      WithoutShrinksIffPresent(servers[1..], hostPort);
      HasHostPortFirstOrRest(servers, hostPort);
      assert [servers[0]] + servers[1..] == servers;
    }
  }

  /** An address is present when the first server has it or one of the rest does. */
  lemma HasHostPortFirstOrRest(servers: seq<Server>, hostPort: string)
    requires |servers| > 0
    ensures HasHostPort(servers, hostPort) <==> servers[0].hostPort == hostPort || HasHostPort(servers[1..], hostPort)
  {
    if HasHostPort(servers[1..], hostPort) {
      var k :| 0 <= k < |servers[1..]| && servers[1..][k].hostPort == hostPort;
      assert servers[k + 1].hostPort == hostPort;
    }
    if servers[0].hostPort != hostPort && HasHostPort(servers, hostPort) {
      var k :| 0 <= k < |servers| && servers[k].hostPort == hostPort;
      assert servers[1..][k - 1].hostPort == hostPort;
    }
  }

  /** Removal keeps the order of what stays: it works piece by piece. */
  lemma {:induction false} WithoutKeepsOrder(front: seq<Server>, back: seq<Server>, hostPort: string)
    ensures Without(front + back, hostPort) == Without(front, hostPort) + Without(back, hostPort)
    decreases |front|
  {
    if |front| > 0 {
      assert (front + back)[1..] == front[1..] + back;
      WithoutKeepsOrder(front[1..], back, hostPort);
    } else {
      assert front + back == back;
    }
  }

  /** Appending a server at a new address keeps addresses unique. */
  lemma AppendIsUnique(servers: seq<Server>, server: Server)
    requires UniqueHostPorts(servers)
    ensures !HasHostPort(servers, server.hostPort) ==> UniqueHostPorts(servers + [server])
  {
    if !HasHostPort(servers, server.hostPort) {
      var s := servers + [server];
      forall i, j | 0 <= i < j < |s| ensures s[i].hostPort != s[j].hostPort {
        if j == |servers| {
          assert s[i] == servers[i];
        }
      }
    }
  }

  /** Removing an address keeps addresses unique. */
  lemma {:induction false} WithoutIsUnique(servers: seq<Server>, hostPort: string)
    requires UniqueHostPorts(servers)
    ensures UniqueHostPorts(Without(servers, hostPort))
  {
    if |servers| > 0 {
      assert UniqueHostPorts(servers[1..]) by {
        forall i, j | 0 <= i < j < |servers[1..]| ensures servers[1..][i].hostPort != servers[1..][j].hostPort {
          assert servers[1..][i] == servers[i + 1] && servers[1..][j] == servers[j + 1];
        }
      }
      WithoutIsUnique(servers[1..], hostPort);
      var rest := Without(servers[1..], hostPort);
      if servers[0].hostPort != hostPort {
        var r := [servers[0]] + rest;
        forall i, j | 0 <= i < j < |r| ensures r[i].hostPort != r[j].hostPort {
          if i == 0 {
            assert r[j] == rest[j - 1] && rest[j - 1] in servers[1..];
            var k :| 0 <= k < |servers[1..]| && servers[1..][k] == rest[j - 1];
            assert servers[k + 1] == rest[j - 1];
          }
        }
      }
    }
  }

  /** `qualifiers.containsAll(wanted)`. */
  predicate ContainsAll(qualifiers: seq<string>, wanted: seq<string>)
  {
    forall q :: q in wanted ==> q in qualifiers
  }

  /** `lookup`'s filter: the addresses of the servers holding every wanted qualifier, collected into a set. */
  function Matching(servers: seq<Server>, wanted: seq<string>): set<string>
  {
    if |servers| == 0 then {}
    else
      var rest := Matching(servers[1..], wanted);
      if ContainsAll(servers[0].qualifiers, wanted) then {servers[0].hostPort} + rest else rest
  }

  /** The lookup is sound and complete: an address is returned exactly when some server there holds every wanted qualifier. */
  lemma {:induction false} MatchingSoundAndComplete(servers: seq<Server>, wanted: seq<string>, hostPort: string)
    ensures hostPort in Matching(servers, wanted) <==>
              exists k :: 0 <= k < |servers| && servers[k].hostPort == hostPort && ContainsAll(servers[k].qualifiers, wanted)
  {
    if |servers| > 0 {
      MatchingSoundAndComplete(servers[1..], wanted, hostPort);
      if exists k :: 0 <= k < |servers| && servers[k].hostPort == hostPort && ContainsAll(servers[k].qualifiers, wanted) {
        var k :| 0 <= k < |servers| && servers[k].hostPort == hostPort && ContainsAll(servers[k].qualifiers, wanted);
        if k > 0 {
          assert servers[1..][k - 1] == servers[k];
        }
      }
      if exists k :: 0 <= k < |servers[1..]| && servers[1..][k].hostPort == hostPort && ContainsAll(servers[1..][k].qualifiers, wanted) {
        var k :| 0 <= k < |servers[1..]| && servers[1..][k].hostPort == hostPort && ContainsAll(servers[1..][k].qualifiers, wanted);
        assert servers[k + 1] == servers[1..][k];
      }
    }
  }

  /** Asking for no qualifier returns every registered address. */
  lemma {:induction false} MatchingNothingIsAll(servers: seq<Server>)
    ensures Matching(servers, []) == set k | 0 <= k < |servers| :: servers[k].hostPort
  {
    if |servers| > 0 {
      MatchingNothingIsAll(servers[1..]);
      var all := set k | 0 <= k < |servers| :: servers[k].hostPort;
      var tail := set k | 0 <= k < |servers[1..]| :: servers[1..][k].hostPort;
      assert all == {servers[0].hostPort} + tail by {
        forall h | h in all ensures h in {servers[0].hostPort} + tail {
          var k :| 0 <= k < |servers| && servers[k].hostPort == h;
          if k > 0 {
            assert servers[1..][k - 1].hostPort == h;
          }
        }
        forall h | h in tail ensures h in all {
          var k :| 0 <= k < |servers[1..]| && servers[1..][k].hostPort == h;
          assert servers[k + 1].hostPort == h;
        }
      }
    }
  }

  /** `register` accepts only the qualifiers "P" and "S" (and no qualifier at all). */
  predicate KnownQualifiers(qualifiers: seq<string>)
  {
    forall q :: q in qualifiers ==> q == "P" || q == "S"
  }

  /* ---------- the objects ---------- */

  /** `ServerEntry`: an address and a queue of qualifiers. */
  class ServerEntry {
    var hostPort: string
    var qualifiers: seq<string>

    /** The value this entry holds. */
    function Snapshot(): Server
      reads this
    {
      Server(hostPort, qualifiers)
    }

    constructor (hostPort: string, qualifiers: seq<string>)
      ensures Snapshot() == Server(hostPort, qualifiers)
    {
      this.hostPort := hostPort;
      this.qualifiers := qualifiers;
    }

    method SetHostPort(hostPort: string)
      modifies this
      ensures Snapshot() == old(Snapshot()).(hostPort := hostPort)
    {
      this.hostPort := hostPort;
    }

    method SetQualifiers(qualifiers: seq<string>)
      modifies this
      ensures Snapshot() == old(Snapshot()).(qualifiers := qualifiers)
    {
      this.qualifiers := qualifiers;
    }

    /** `addQualifiers`: appends, duplicates allowed. */
    method AddQualifiers(qualifier: string)
      modifies this
      ensures Snapshot() == old(Snapshot()).(qualifiers := old(qualifiers) + [qualifier])
    {
      qualifiers := qualifiers + [qualifier];
    }
  }

  /** `ServiceEntry`: a service name and its servers, in registration order. */
  class ServiceEntry {
    var serviceName: string
    var serverEntries: seq<Server>

    constructor (serviceName: string)
      ensures this.serviceName == serviceName && serverEntries == []
    {
      this.serviceName := serviceName;
      serverEntries := [];
    }

    /** `addServerEntry`: refuses an address already registered; otherwise appends. */
    method AddServerEntry(entry: Server) returns (result: Result)
      modifies this
      ensures serviceName == old(serviceName)
      ensures HasHostPort(old(serverEntries), entry.hostPort) ==>
                result == Failure(DuplicateServer) && serverEntries == old(serverEntries)
      ensures !HasHostPort(old(serverEntries), entry.hostPort) ==>
                result == Success && serverEntries == old(serverEntries) + [entry]
      ensures old(UniqueHostPorts(serverEntries)) ==> UniqueHostPorts(serverEntries)
    {
      if UniqueHostPorts(serverEntries) {
        AppendIsUnique(serverEntries, entry);
      }
      var i := 0;
      while i < |serverEntries|
        invariant 0 <= i <= |serverEntries|
        invariant forall k :: 0 <= k < i ==> serverEntries[k].hostPort != entry.hostPort
      {
        if serverEntries[i].hostPort == entry.hostPort {
          return Failure(DuplicateServer);
        }
        i := i + 1;
      }
      serverEntries := serverEntries + [entry];
      result := Success;
    }

    /** `removeServerEntry`: drops every server at the address; true iff one was there. */
    method RemoveServerEntry(hostPort: string) returns (removed: bool)
      modifies this
      ensures serviceName == old(serviceName)
      ensures serverEntries == Without(old(serverEntries), hostPort)
      ensures removed <==> HasHostPort(old(serverEntries), hostPort)
      ensures old(UniqueHostPorts(serverEntries)) ==> UniqueHostPorts(serverEntries)
    {
      WithoutShrinksIffPresent(serverEntries, hostPort);
      if UniqueHostPorts(serverEntries) {
        WithoutIsUnique(serverEntries, hostPort);
      }
      var kept := Without(serverEntries, hostPort);
      removed := |kept| != |serverEntries|;
      serverEntries := kept;
    }
  }

  /** `NamingServices`: the services by name. */
  class NamingServices {
    var services: map<string, ServiceEntry>

    constructor ()
      ensures services == map[]
    {
      services := map[];
    }

    /** `addService`: refuses a name already taken. */
    method AddService(entry: ServiceEntry) returns (result: Result)
      modifies this
      ensures entry.serviceName in old(services) ==> result == Failure(DuplicateService) && services == old(services)
      ensures entry.serviceName !in old(services) ==> result == Success && services == old(services)[entry.serviceName := entry]
    {
      if entry.serviceName in services {
        return Failure(DuplicateService);
      }
      services := services[entry.serviceName := entry];
      result := Success;
    }

    /**
     * `removeService`: the map is keyed by name but is handed the entry
     * object, which is never a key, so nothing is removed.
     */
    method RemoveService(entry: ServiceEntry)
      ensures services == old(services)
    {
    }

    /**
     * `register`: the qualifiers are checked first; an unknown service name
     * is dereferenced as null; then the service refuses a taken address.
     */
    method Register(serviceName: string, hostPort: string, qualifiers: seq<string>) returns (result: Result)
      modifies if serviceName in services then {services[serviceName]} else {}
      ensures services == old(services)
      ensures !KnownQualifiers(qualifiers) ==> result == Failure(UnknownQualifier)
      ensures !KnownQualifiers(qualifiers) && serviceName in services ==>
                services[serviceName].serverEntries == old(services[serviceName].serverEntries)
      ensures KnownQualifiers(qualifiers) && serviceName !in services ==> result == Failure(NoSuchService)
      ensures KnownQualifiers(qualifiers) && serviceName in services ==>
                var before := old(services[serviceName].serverEntries);
                && services[serviceName].serviceName == old(services[serviceName].serviceName)
                && (HasHostPort(before, hostPort) ==> result == Failure(DuplicateServer) && services[serviceName].serverEntries == before)
                && (!HasHostPort(before, hostPort) ==>
                      result == Success && services[serviceName].serverEntries == before + [Server(hostPort, qualifiers)])
    {
      if exists q :: q in qualifiers && q != "P" && q != "S" {
        return Failure(UnknownQualifier);
      }
      if serviceName !in services {
        return Failure(NoSuchService);
      }
      var entry := new ServerEntry(hostPort, qualifiers);
      result := services[serviceName].AddServerEntry(entry.Snapshot());
    }

    /** `delete`: fails when no server of the service had the address. */
    method Delete(serviceName: string, hostPort: string) returns (result: Result)
      modifies if serviceName in services then {services[serviceName]} else {}
      ensures services == old(services)
      ensures serviceName !in services ==> result == Failure(NoSuchService)
      ensures serviceName in services ==>
                var before := old(services[serviceName].serverEntries);
                && services[serviceName].serviceName == old(services[serviceName].serviceName)
                && services[serviceName].serverEntries == Without(before, hostPort)
                && (result == Success <==> HasHostPort(before, hostPort))
                && (result.Failure? ==> result.error == UnknownServer)
    {
      if serviceName !in services {
        return Failure(NoSuchService);
      }
      var removed := services[serviceName].RemoveServerEntry(hostPort);
      result := if removed then Success else Failure(UnknownServer);
    }
  }

  /** What a lookup answers: the matching addresses, or a failed call. */
  datatype LookupReply = Servers(hostPorts: set<string>) | LookupFailed(status: RpcStatus)

  /** The naming server's service: its registry and the `lookup` request. */
  class NamingServerServiceImpl {
    const namingServices: NamingServices

    /** The registry starts with the one service "Turmas", with no server. */
    constructor ()
      ensures fresh(namingServices) && namingServices.services.Keys == {"Turmas"}
      ensures fresh(namingServices.services["Turmas"])
      ensures namingServices.services["Turmas"].serviceName == "Turmas" && namingServices.services["Turmas"].serverEntries == []
    {
      var registry := new NamingServices();
      var turmas := new ServiceEntry("Turmas");
      var _ := registry.AddService(turmas);
      namingServices := registry;
    }

    /**
     * `register`: the deadline first; an unknown qualifier, a taken address
     * (and a taken service name) fail with INVALID_ARGUMENT; the null
     * dereference of an unknown service escapes the handler as UNKNOWN.
     */
    method Register(deadlinePassed: bool, serviceName: string, hostPort: string, qualifiers: seq<string>) returns (reply: Reply<()>)
      modifies if serviceName in namingServices.services then {namingServices.services[serviceName]} else {}
      ensures namingServices.services == old(namingServices.services)
      ensures deadlinePassed ==> reply == Fail(DEADLINE_EXCEEDED)
      ensures !deadlinePassed && !KnownQualifiers(qualifiers) ==> reply == Fail(INVALID_ARGUMENT)
      ensures !deadlinePassed && KnownQualifiers(qualifiers) && serviceName !in namingServices.services ==> reply == Fail(UNKNOWN)
      ensures !deadlinePassed && KnownQualifiers(qualifiers) && serviceName in namingServices.services ==>
                var before := old(namingServices.services[serviceName].serverEntries);
                && (HasHostPort(before, hostPort) ==>
                      reply == Fail(INVALID_ARGUMENT) && namingServices.services[serviceName].serverEntries == before)
                && (!HasHostPort(before, hostPort) ==>
                      reply == Respond(OK, ()) && namingServices.services[serviceName].serverEntries == before + [Server(hostPort, qualifiers)])
      ensures (deadlinePassed || !KnownQualifiers(qualifiers)) && serviceName in namingServices.services ==>
                namingServices.services[serviceName].serverEntries == old(namingServices.services[serviceName].serverEntries)
    {
      if deadlinePassed {
        return Fail(DEADLINE_EXCEEDED);
      }
      var result := namingServices.Register(serviceName, hostPort, qualifiers);
      match result
      case Success => reply := Respond(OK, ());
      case Failure(NoSuchService) => reply := Fail(UNKNOWN);
      case Failure(_) => reply := Fail(INVALID_ARGUMENT);
    }

    /**
     * `delete`: no deadline check; an address the service does not hold fails
     * with INVALID_ARGUMENT, and an unknown service escapes as UNKNOWN.
     */
    method Delete(serviceName: string, hostPort: string) returns (reply: Reply<()>)
      modifies if serviceName in namingServices.services then {namingServices.services[serviceName]} else {}
      ensures namingServices.services == old(namingServices.services)
      ensures serviceName !in namingServices.services ==> reply == Fail(UNKNOWN)
      ensures serviceName in namingServices.services ==>
                var before := old(namingServices.services[serviceName].serverEntries);
                && namingServices.services[serviceName].serverEntries == Without(before, hostPort)
                && (HasHostPort(before, hostPort) ==> reply == Respond(OK, ()))
                && (!HasHostPort(before, hostPort) ==> reply == Fail(INVALID_ARGUMENT))
    {
      var result := namingServices.Delete(serviceName, hostPort);
      match result
      case Success => reply := Respond(OK, ());
      case Failure(NoSuchService) => reply := Fail(UNKNOWN);
      case Failure(_) => reply := Fail(INVALID_ARGUMENT);
    }

    /**
     * `lookup`: the deadline first; an unknown service is dereferenced as
     * null, so the call fails with UNKNOWN rather than INVALID_ARGUMENT.
     */
    method Lookup(deadlinePassed: bool, serviceName: string, wanted: seq<string>) returns (reply: LookupReply)
      ensures deadlinePassed ==> reply == LookupFailed(DEADLINE_EXCEEDED)
      ensures !deadlinePassed && serviceName !in namingServices.services ==> reply == LookupFailed(UNKNOWN)
      ensures !deadlinePassed && serviceName in namingServices.services ==>
                reply.Servers? &&
                forall h :: h in reply.hostPorts <==>
                  exists k :: 0 <= k < |namingServices.services[serviceName].serverEntries| &&
                    namingServices.services[serviceName].serverEntries[k].hostPort == h &&
                    ContainsAll(namingServices.services[serviceName].serverEntries[k].qualifiers, wanted)
    {
      if deadlinePassed {
        return LookupFailed(DEADLINE_EXCEEDED);
      }
      if serviceName !in namingServices.services {
        return LookupFailed(UNKNOWN);
      }
      var servers := namingServices.services[serviceName].serverEntries;
      reply := Servers(Matching(servers, wanted));
      forall h ensures h in reply.hostPorts <==>
          exists k :: 0 <= k < |servers| && servers[k].hostPort == h && ContainsAll(servers[k].qualifiers, wanted)
      {
        MatchingSoundAndComplete(servers, wanted, h);
      }
    }
  }
}
