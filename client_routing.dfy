/**
 * How the professor and student clients pick a replica. The client keeps a
 * list of the servers it has sent requests to (`accesses`, one entry per
 * attempt, so its length is the client's clock) and the kind of its latest
 * operation. A read goes to a never-contacted primary, else a never-contacted
 * secondary, else the least-used server; a read right after a write goes back
 * to the server that took the write. Each request makes up to three attempts
 * per known server, switching server after every third attempt.
 */
module ClientRouting {
  import opened Wrappers
  import opened Protocol

  datatype Operation = Read | Write

  /* ---------- the choice of a server, as functions ---------- */

  /** A server never sent a request and not yet tried for the current one. */
  predicate Fresh(server: string, accesses: seq<string>, used: seq<string>)
  {
    server !in accesses && server !in used
  }

  /** The first fresh server of `servers` at or after position `from`. */
  function FirstFreshFrom(servers: seq<string>, accesses: seq<string>, used: seq<string>, from: nat): (r: Option<nat>)
    requires from <= |servers|
    ensures r.Some? ==> from <= r.value < |servers| && Fresh(servers[r.value], accesses, used)
    ensures r.Some? ==> forall j :: from <= j < r.value ==> !Fresh(servers[j], accesses, used)
    ensures r.None? ==> forall j :: from <= j < |servers| ==> !Fresh(servers[j], accesses, used)
    decreases |servers| - from
  {
    if from == |servers| then None
    else if Fresh(servers[from], accesses, used) then Some(from)
    else FirstFreshFrom(servers, accesses, used, from + 1)
  }

  /** How many times `server` occurs in `s`. */
  function Occurrences(s: seq<string>, server: string): (n: nat)
    ensures n <= |s|
    ensures n > 0 <==> server in s
  {
    if |s| == 0 then 0
    else Occurrences(s[..|s| - 1], server) + (if s[|s| - 1] == server then 1 else 0)
  }

  /** The state of the least-used scan: the least count so far and the index it was found at (-1 for none). */
  datatype Pick = Pick(min: int, index: int)

  /**
   * The scan over `accesses[..n]`: every entry not in `used` whose count is at
   * most the least so far replaces it, so a tie goes to the later entry. The
   * scan starts from the clock, which no count exceeds.
   */
  function LeastUsedScan(accesses: seq<string>, used: seq<string>, n: nat): Pick
    requires n <= |accesses|
  {
    if n == 0 then Pick(|accesses|, -1)
    else
      var p := LeastUsedScan(accesses, used, n - 1);
      if accesses[n - 1] in used then p
      else
        var count := Occurrences(accesses, accesses[n - 1]);
        if count <= p.min then Pick(count, n - 1) else p
  }

  function PickedServer(accesses: seq<string>, p: Pick): string
  {
    if 0 <= p.index < |accesses| then accesses[p.index] else ""
  }

  /** `chooseAnotherServer(used)`: a fresh primary, else a fresh secondary, else the least-used server not in `used`, else "". */
  function ChooseServer(primaries: seq<string>, secondaries: seq<string>, accesses: seq<string>, used: seq<string>): string
  {
    match FirstFreshFrom(primaries, accesses, used, 0)
    case Some(i) => primaries[i]
    case None =>
      match FirstFreshFrom(secondaries, accesses, used, 0)
      case Some(i) => secondaries[i]
      case None => PickedServer(accesses, LeastUsedScan(accesses, used, |accesses|))
  }

  /** `nextAccess`: after a write the server of the latest attempt; otherwise the choice with nothing excluded. */
  function NextServer(primaries: seq<string>, secondaries: seq<string>, accesses: seq<string>, latest: Operation): string
    requires latest == Write ==> |accesses| > 0
  {
    if latest == Write then accesses[|accesses| - 1] else ChooseServer(primaries, secondaries, accesses, [])
  }

  /** A server the client may switch to: a known server never contacted, or one contacted before, and not yet tried. */
  predicate Candidate(server: string, primaries: seq<string>, secondaries: seq<string>, accesses: seq<string>, used: seq<string>)
  {
    server !in used && (server in accesses || server in primaries || server in secondaries)
  }

  /**
   * The least-used scan over `accesses[..n]` finds nothing exactly when every
   * entry there is in `used`; otherwise what it finds is an entry not in
   * `used`, with its count.
   */
  lemma {:induction false} LeastUsedScanFinds(accesses: seq<string>, used: seq<string>, n: nat)
    requires n <= |accesses|
    ensures var p := LeastUsedScan(accesses, used, n);
      && (p.index == -1 <==> forall j :: 0 <= j < n ==> accesses[j] in used)
      && (p.index == -1 ==> p.min == |accesses|)
      && (p.index != -1 ==> 0 <= p.index < n && accesses[p.index] !in used && p.min == Occurrences(accesses, accesses[p.index]))
  {
    if n > 0 {
      LeastUsedScanFinds(accesses, used, n - 1);
    }
  }

  /**
   * What the scan finds has the least count of the entries not in `used`, and
   * every later such entry has a strictly higher count: a tie goes to the
   * latest entry.
   */
  lemma {:induction false} LeastUsedScanIsLeast(accesses: seq<string>, used: seq<string>, n: nat)
    requires n <= |accesses|
    ensures var p := LeastUsedScan(accesses, used, n);
      && (forall j :: 0 <= j < n && accesses[j] !in used ==> p.min <= Occurrences(accesses, accesses[j]))
      && (forall j :: 0 <= j < n && p.index < j && accesses[j] !in used ==> p.min < Occurrences(accesses, accesses[j]))
  {
    if n > 0 {
      LeastUsedScanIsLeast(accesses, used, n - 1);
      var before := LeastUsedScan(accesses, used, n - 1);
      var p := LeastUsedScan(accesses, used, n);
      if accesses[n - 1] in used {
        assert p == before;
      } else {
        var count := Occurrences(accesses, accesses[n - 1]);
        if count <= before.min {
          assert p == Pick(count, n - 1);
          forall j | 0 <= j < n && accesses[j] !in used ensures count <= Occurrences(accesses, accesses[j]) {
            if j < n - 1 {
              assert before.min <= Occurrences(accesses, accesses[j]);
            }
          }
        } else {
          assert p == before;
        }
      }
    }
  }

  /**
   * The server chosen is a candidate whenever any server is one, and ""
   * otherwise: it is never a server already tried for this request, unless
   * nothing is left. A fresh primary is preferred to any secondary.
   */
  lemma ChooseServerAvoidsUsed(primaries: seq<string>, secondaries: seq<string>, accesses: seq<string>, used: seq<string>)
    ensures var r := ChooseServer(primaries, secondaries, accesses, used);
      && (Candidate(r, primaries, secondaries, accesses, used) || r == "")
      && (forall x :: Candidate(x, primaries, secondaries, accesses, used) ==> Candidate(r, primaries, secondaries, accesses, used))
      && (forall i :: 0 <= i < |primaries| && Fresh(primaries[i], accesses, used) ==> r in primaries && Fresh(r, accesses, used))
      && (forall i :: 0 <= i < |secondaries| && Fresh(secondaries[i], accesses, used) ==>
            (r in primaries || r in secondaries) && Fresh(r, accesses, used))
  {
    LeastUsedScanFinds(accesses, used, |accesses|);
    var r := ChooseServer(primaries, secondaries, accesses, used);
    forall x | Candidate(x, primaries, secondaries, accesses, used)
      ensures Candidate(r, primaries, secondaries, accesses, used)
    {
      if x in accesses {
        var j :| 0 <= j < |accesses| && accesses[j] == x;
        assert accesses[j] !in used;
      } else if x in primaries {
        var j :| 0 <= j < |primaries| && primaries[j] == x;
        assert Fresh(primaries[j], accesses, used);
      } else {
        var j :| 0 <= j < |secondaries| && secondaries[j] == x;
        assert Fresh(secondaries[j], accesses, used);
      }
    }
  }

  lemma ChooseServerIsUntried(primaries: seq<string>, secondaries: seq<string>, accesses: seq<string>, used: seq<string>)
    ensures var r := ChooseServer(primaries, secondaries, accesses, used); r == "" || r !in used
  {
    ChooseServerAvoidsUsed(primaries, secondaries, accesses, used);
  }

  /** A read picks a server the client knows of whenever it knows of any, and "" only when it knows of none. */
  lemma ReadRouteFindsAServer(primaries: seq<string>, secondaries: seq<string>, accesses: seq<string>)
    requires primaries != [] || accesses != []
    ensures NextServer(primaries, secondaries, accesses, Read) in primaries + secondaries + accesses
  {
    var r := ChooseServer(primaries, secondaries, accesses, []);
    ChooseServerAvoidsUsed(primaries, secondaries, accesses, []);
    if primaries != [] {
      assert Candidate(primaries[0], primaries, secondaries, accesses, []);
    } else {
      assert Candidate(accesses[0], primaries, secondaries, accesses, []);
    }
  }

  /* ---------- the retry loop, as a function of the attempts' outcomes ---------- */

  /** What one attempt met: a reply with a code, or a failed call with its status. */
  datatype Attempt = Replied(code: ResponseCode) | Raised(status: RpcStatus)

  /** `dealWithException`: only a deadline or an unreachable server is worth another attempt. */
  predicate Retryable(status: RpcStatus)
  {
    status == DEADLINE_EXCEEDED || status == UNAVAILABLE
  }

  /** Attempt number `t` (from 1) of `budget` ends the loop. */
  predicate Ends(a: Attempt, t: nat, budget: nat)
  {
    if a.Replied? then a.code != INACTIVE_SERVER || t == budget else !Retryable(a.status)
  }

  /** How many attempts are made when `done` were made without ending the loop. */
  function AttemptsFrom(outcomes: seq<Attempt>, budget: nat, done: nat): (made: nat)
    requires done <= budget <= |outcomes|
    ensures done <= made <= budget
    ensures forall k :: done <= k < made - 1 ==> !Ends(outcomes[k], k + 1, budget)
    ensures made < budget ==> made > done && Ends(outcomes[made - 1], made, budget)
    decreases budget - done
  {
    if done == budget then budget
    else if Ends(outcomes[done], done + 1, budget) then done + 1
    else AttemptsFrom(outcomes, budget, done + 1)
  }

  /** The reply the loop hands back: the last attempt's, when it was a reply; null (None) otherwise. */
  function LoopReply(outcomes: seq<Attempt>, made: nat): Option<ResponseCode>
    requires made <= |outcomes|
  {
    if made > 0 && outcomes[made - 1].Replied? then Some(outcomes[made - 1].code) else None
  }

  /**
   * The loop stops at the first reply that is not INACTIVE_SERVER or the first
   * call that fails for good; the reply handed back is never INACTIVE_SERVER
   * unless every attempt in the budget was made.
   */
  lemma LoopStopsAtFirstAnswer(outcomes: seq<Attempt>, budget: nat)
    requires budget <= |outcomes|
    ensures var made := AttemptsFrom(outcomes, budget, 0);
      && (forall k :: 0 <= k < made - 1 ==>
            (outcomes[k].Replied? && outcomes[k].code == INACTIVE_SERVER) || (outcomes[k].Raised? && Retryable(outcomes[k].status)))
      && (LoopReply(outcomes, made) == Some(INACTIVE_SERVER) ==> made == budget)
      && (forall k :: 0 <= k < budget && outcomes[k] == Raised(UNKNOWN) ==> made <= k + 1)
  {
  }

  /**
   * May `server` follow the servers `sent` of a request's earlier attempts?
   * Within a block of three attempts the server stays; a new block starts
   * with a server not tried before in this request, or "".
   */
  predicate MayFollow(sent: seq<string>, server: string)
  {
    |sent| == 0 || if |sent| % 3 != 0 then server == sent[|sent| - 1] else server == "" || server !in sent
  }

  /** The servers of one request's attempts, in order, each one allowed after those before it. */
  ghost predicate SwitchesEveryThird(sent: seq<string>)
    decreases |sent|
  {
    |sent| == 0 || (SwitchesEveryThird(sent[..|sent| - 1]) && MayFollow(sent[..|sent| - 1], sent[|sent| - 1]))
  }

  /** The servers of a request's attempts change only at attempts 3, 6, 9, ... (from 0), and never back to one tried before. */
  lemma {:induction false} SwitchesEveryThirdMeans(sent: seq<string>)
    requires SwitchesEveryThird(sent)
    ensures forall k :: 0 < k < |sent| && k % 3 != 0 ==> sent[k] == sent[k - 1]
    ensures forall k :: 0 < k < |sent| && k % 3 == 0 ==> sent[k] == "" || sent[k] !in sent[..k]
    decreases |sent|
  {
    if |sent| > 0 {
      var front := sent[..|sent| - 1];
      SwitchesEveryThirdMeans(front);
      forall k | 0 < k < |sent| && k % 3 == 0 ensures sent[k] == "" || sent[k] !in sent[..k] {
        if k < |front| {
          assert sent[..k] == front[..k];
        } else {
          assert sent[..k] == front;
        }
      }
    }
  }

  /** Where the retry loop ends: every access recorded, the reply handed back, and the number of attempts. */
  datatype Retried = Retried(accesses: seq<string>, reply: Option<ResponseCode>, made: nat)

  /**
   * The retry loop from the state after `tries` attempts: `accesses` so far,
   * the server of the next attempt and the servers already used for this
   * request. Each attempt records its server; after every third one that did
   * not end the loop the client moves to another server.
   */
  function RetryLoop(primaries: seq<string>, secondaries: seq<string>, outcomes: seq<Attempt>, budget: nat,
                     accesses: seq<string>, tries: nat, server: string, used: seq<string>): Retried
    requires tries <= budget <= |outcomes|
    decreases budget - tries
  {
    if tries == budget then Retried(accesses, None, tries)
    else
      var recorded := accesses + [server];
      var outcome := outcomes[tries];
      if Ends(outcome, tries + 1, budget) then
        Retried(recorded, if outcome.Replied? then Some(outcome.code) else None, tries + 1)
      else if (tries + 1) % 3 == 0 then
        var next := ChooseServer(primaries, secondaries, recorded, used);
        RetryLoop(primaries, secondaries, outcomes, budget, recorded, tries + 1, next, used + [next])
      else
        RetryLoop(primaries, secondaries, outcomes, budget, recorded, tries + 1, server, used)
  }

  /**
   * The loop makes the attempts `AttemptsFrom` counts and hands back the
   * reply `LoopReply` picks, whatever servers it goes to.
   */
  lemma {:induction false} RetryLoopStops(primaries: seq<string>, secondaries: seq<string>, outcomes: seq<Attempt>, budget: nat,
                                          accesses: seq<string>, tries: nat, server: string, used: seq<string>)
    requires tries <= budget <= |outcomes|
    requires tries > 0 ==> !Ends(outcomes[tries - 1], tries, budget)
    ensures var r := RetryLoop(primaries, secondaries, outcomes, budget, accesses, tries, server, used);
      r.made == AttemptsFrom(outcomes, budget, tries) && r.reply == LoopReply(outcomes, r.made)
    decreases budget - tries
  {
    if tries < budget && !Ends(outcomes[tries], tries + 1, budget) {
      var recorded := accesses + [server];
      if (tries + 1) % 3 == 0 {
        var next := ChooseServer(primaries, secondaries, recorded, used);
        RetryLoopStops(primaries, secondaries, outcomes, budget, recorded, tries + 1, next, used + [next]);
      } else {
        RetryLoopStops(primaries, secondaries, outcomes, budget, recorded, tries + 1, server, used);
      }
    }
  }

  /**
   * The loop appends one access per attempt to what was there, and the
   * servers it appends switch only every third attempt, each time to one not
   * used before in this request (or "").
   */
  lemma {:induction false} RetryLoopSwitches(primaries: seq<string>, secondaries: seq<string>, outcomes: seq<Attempt>, budget: nat,
                                             before: seq<string>, sent: seq<string>, server: string, used: seq<string>)
    requires |sent| <= budget <= |outcomes|
    requires SwitchesEveryThird(sent) && MayFollow(sent, server)
    requires server in used && forall x :: x in sent ==> x in used
    ensures var r := RetryLoop(primaries, secondaries, outcomes, budget, before + sent, |sent|, server, used);
      && |r.accesses| == |before| + r.made && r.accesses[..|before|] == before
      && SwitchesEveryThird(r.accesses[|before|..])
      && (r.made > 0 ==> r.accesses[|before|] == if |sent| > 0 then sent[0] else server)
    decreases budget - |sent|
  {
    var tries := |sent|;
    var recorded := before + sent + [server];
    var more := sent + [server];
    assert recorded == before + more;
    assert more[..|more| - 1] == sent;
    assert recorded[|before|..] == more;
    if tries == budget {
      assert (before + sent)[|before|..] == sent;
    } else if !Ends(outcomes[tries], tries + 1, budget) {
      if (tries + 1) % 3 == 0 {
        var next := ChooseServer(primaries, secondaries, recorded, used);
        ChooseServerIsUntried(primaries, secondaries, recorded, used);
        RetryLoopSwitches(primaries, secondaries, outcomes, budget, before, more, next, used + [next]);
      } else {
        RetryLoopSwitches(primaries, secondaries, outcomes, budget, before, more, server, used);
      }
    }
  }

  /* ---------- the client frontend object ---------- */

  class ClassServerFrontend {
    const primaryServers: seq<string>
    const secondaryServers: seq<string>
    /** The server of every attempt so far, the `k`-th at index `k`. */
    var accesses: seq<string>
    var latestOperation: Operation
    /** Lamport-style clock: the number of attempts so far. */
    var clock: int

    /** The clock counts the accesses, and a write has always been recorded when it is the latest operation. */
    ghost predicate Valid()
      reads this
    {
      clock == |accesses| && (latestOperation == Write ==> clock > 0)
    }

    constructor (primaryServers: seq<string>, secondaryServers: seq<string>)
      ensures this.primaryServers == primaryServers && this.secondaryServers == secondaryServers
      ensures accesses == [] && latestOperation == Read && clock == 0 && Valid()
    {
      this.primaryServers := primaryServers;
      this.secondaryServers := secondaryServers;
      accesses := [];
      latestOperation := Read;
      clock := 0;
    }

    /** `nServers`: the budget of every request is three attempts per server. */
    function ServerCount(): nat
    {
      |primaryServers| + |secondaryServers|
    }

    /** `addOperation`: inserts the server at index `clock` (the end, in a valid state) and counts the attempt. */
    method AddOperation(server: string, op: Operation)
      requires 0 <= clock <= |accesses|
      modifies this
      ensures accesses == old(accesses[..clock]) + [server] + old(accesses[clock..])
      ensures latestOperation == op && clock == old(clock) + 1
      ensures old(Valid()) ==> Valid() && accesses == old(accesses) + [server]
    {
      accesses := accesses[..clock] + [server] + accesses[clock..];
      latestOperation := op;
      clock := clock + 1;
    }

    /** The first fresh server of `servers`, by a scan in list order. */
    static method FirstFresh(servers: seq<string>, accesses: seq<string>, used: seq<string>) returns (r: Option<nat>)
      ensures r == FirstFreshFrom(servers, accesses, used, 0)
    {
      var i := 0;
      while i < |servers|
        invariant 0 <= i <= |servers|
        invariant FirstFreshFrom(servers, accesses, used, 0) == FirstFreshFrom(servers, accesses, used, i)
      {
        if servers[i] !in accesses && servers[i] !in used {
          return Some(i);
        }
        i := i + 1;
      }
      r := None;
    }

    /** The inner counting loop. */
    static method Count(accesses: seq<string>, server: string) returns (count: nat)
      ensures count == Occurrences(accesses, server)
    {
      count := 0;
      var j := 0;
      while j < |accesses|
        invariant 0 <= j <= |accesses|
        invariant count == Occurrences(accesses[..j], server)
      {
        assert accesses[..j + 1][..j] == accesses[..j];
        if server == accesses[j] {
          count := count + 1;
        }
        j := j + 1;
      }
      assert accesses[..j] == accesses;
    }

    /** The least-used scan: counts each access not in `used` and keeps the latest least one. */
    static method LeastUsed(accesses: seq<string>, used: seq<string>) returns (server: string)
      ensures server == PickedServer(accesses, LeastUsedScan(accesses, used, |accesses|))
    {
      var min := |accesses|;
      server := "";
      ghost var index := -1;
      var i := 0;
      while i < |accesses|
        invariant 0 <= i <= |accesses|
        invariant LeastUsedScan(accesses, used, i) == Pick(min, index)
        invariant -1 <= index < i && server == PickedServer(accesses, Pick(min, index))
      {
        var candidate := accesses[i];
        if candidate !in used {
          var count := Count(accesses, candidate);
          if count <= min {
            min := count;
            server := candidate;
            index := i;
          }
        }
        i := i + 1;
      }
    }

    /** `chooseAnotherServer`. */
    method ChooseAnotherServer(used: seq<string>) returns (server: string)
      ensures server == ChooseServer(primaryServers, secondaryServers, accesses, used)
    {
      var p := FirstFresh(primaryServers, accesses, used);
      if p.Some? {
        return primaryServers[p.value];
      }
      var s := FirstFresh(secondaryServers, accesses, used);
      if s.Some? {
        return secondaryServers[s.value];
      }
      server := LeastUsed(accesses, used);
    }

    /** `nextAccess`. */
    method NextAccess() returns (server: string)
      requires Valid()
      ensures server == NextServer(primaryServers, secondaryServers, accesses, latestOperation)
    {
      if latestOperation == Write {
        return accesses[clock - 1];
      }
      server := ChooseAnotherServer([]);
    }

    /**
     * An `attempt...` loop of either client, for an operation of kind `op`,
     * `outcomes[k]` being what attempt `k + 1` met. The first server is the
     * one `nextAccess` picks; every attempt is recorded as an access, and the
     * server changes only after every third attempt, then to one not yet
     * tried for this request (or "" when none is left).
     */
    method AttemptRequest(op: Operation, outcomes: seq<Attempt>) returns (reply: Option<ResponseCode>, made: nat)
      requires Valid() && |outcomes| >= 3 * ServerCount()
      modifies this
      ensures Valid()
      ensures made == AttemptsFrom(outcomes, 3 * ServerCount(), 0)
      ensures reply == LoopReply(outcomes, made)
      ensures |accesses| == old(|accesses|) + made && accesses[..old(|accesses|)] == old(accesses)
      ensures made > 0 ==> latestOperation == op && accesses[old(|accesses|)] == old(NextServer(primaryServers, secondaryServers, accesses, latestOperation))
      ensures made == 0 ==> latestOperation == old(latestOperation)
      ensures SwitchesEveryThird(accesses[old(|accesses|)..])
    {
      var server := NextAccess();
      ghost var before := accesses;
      reply, made := RetryFrom(server, op, outcomes);
      RetryLoopStops(primaryServers, secondaryServers, outcomes, 3 * ServerCount(), before, 0, server, [server]);
      assert before + [] == before;
      RetryLoopSwitches(primaryServers, secondaryServers, outcomes, 3 * ServerCount(), before, [], server, [server]);
    }

    /** The loop itself, from `first`. */
    method RetryFrom(first: string, op: Operation, outcomes: seq<Attempt>) returns (reply: Option<ResponseCode>, made: nat)
      requires Valid() && |outcomes| >= 3 * ServerCount()
      modifies this
      ensures var r := RetryLoop(primaryServers, secondaryServers, outcomes, 3 * ServerCount(), old(accesses), 0, first, [first]);
        accesses == r.accesses && reply == r.reply && made == r.made
      ensures Valid()
      ensures made > 0 ==> latestOperation == op
      ensures made == 0 ==> latestOperation == old(latestOperation)
    {
      var budget := 3 * ServerCount();
      ghost var whole := RetryLoop(primaryServers, secondaryServers, outcomes, budget, accesses, 0, first, [first]);
      var tries := 0;
      var server := first;
      var used := [server];
      while tries < budget
        invariant 0 <= tries <= budget && Valid()
        invariant RetryLoop(primaryServers, secondaryServers, outcomes, budget, accesses, tries, server, used) == whole
        invariant tries > 0 ==> latestOperation == op
        invariant tries == 0 ==> latestOperation == old(latestOperation)
        decreases budget - tries
      {
        tries := tries + 1;
        AddOperation(server, op);
        var outcome := outcomes[tries - 1];
        if outcome.Replied? {
          if outcome.code != INACTIVE_SERVER {
            return Some(outcome.code), tries;
          } else if tries == budget {
            return Some(outcome.code), tries;
          }
        } else if !Retryable(outcome.status) {
          return None, tries;
        }
        if tries % 3 == 0 {
          server := ChooseAnotherServer(used);
          used := used + [server];
        }
      }
      reply, made := None, tries;
    }
  }
}
