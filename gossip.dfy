/**
 * The replica's side of gossip (its `ClassServerFrontend`): the log of writes
 * not yet propagated, keyed by a Lamport clock, the clock itself, the gossip
 * flag, and one propagateState round towards the peer replica. The peer's
 * answers to the round's calls are parameters.
 */
module Gossip {
  import opened Wrappers
  import opened Protocol
  import opened DomainSpec
  import opened Merge
  import opened Domain

  /* ---------- the write log ---------- */

  /** The log holds exactly the clocks `[clock - |log|, clock)`: each write was logged at the clock, which was then bumped. */
  ghost predicate Contiguous(log: map<int, string>, clock: int)
  {
    forall t :: t in log <==> clock - |log| <= t < clock
  }

  /** Logging a write at the current clock and bumping the clock keeps the log contiguous. */
  lemma LogAtClockKeepsContiguous(log: map<int, string>, clock: int, write: string)
    requires Contiguous(log, clock)
    ensures Contiguous(log[clock := write], clock + 1)
  {
    assert clock !in log;
    assert log[clock := write].Keys == log.Keys + {clock};
    assert |log[clock := write].Keys| == |log.Keys| + 1;
  }

  /** A contiguous log has an entry at every position the join of `unifyState` looks up. */
  lemma ContiguousLogHasEveryPosition(log: map<int, string>, clock: int, i: int)
    requires Contiguous(log, clock)
    requires 0 <= i < |log|
    ensures MineAt(log, clock - |log|, i) == Some(log[clock - |log| + i])
  {
  }

  /** The writes of a request carry strictly increasing clocks. */
  ghost predicate Ascending(ws: seq<WriteRequest>)
  {
    forall i, j :: 0 <= i < j < |ws| ==> ws[i].clock < ws[j].clock
  }

  /** The clocks a request carries. */
  function Clocks(ws: seq<WriteRequest>): set<int>
  {
    if ws == [] then {} else Clocks(ws[..|ws| - 1]) + {ws[|ws| - 1].clock}
  }

  /** The writes of a request are exactly the entries of a log. */
  ghost predicate ListsLog(ws: seq<WriteRequest>, log: map<int, string>)
  {
    && (forall k :: 0 <= k < |ws| ==> ws[k].clock in log && ws[k].write == log[ws[k].clock])
    && Clocks(ws) == log.Keys
  }

  /** A clock is carried by a request exactly when some entry has it. */
  lemma {:induction false} ClocksAreCarried(ws: seq<WriteRequest>, t: int)
    ensures t in Clocks(ws) <==> exists k :: 0 <= k < |ws| && ws[k].clock == t
  {
    if ws != [] {
      var front := ws[..|ws| - 1];
      ClocksAreCarried(front, t);
      if t in Clocks(front) {
        var k :| 0 <= k < |front| && front[k].clock == t;
        assert ws[k] == front[k];
      } else if exists k :: 0 <= k < |ws| && ws[k].clock == t {
        var k :| 0 <= k < |ws| && ws[k].clock == t;
        if k < |front| {
          assert front[k] == ws[k];
        }
      }
    }
  }

  /** A set of clocks has a least element. */
  lemma {:induction false} LeastClockExists(s: set<int>)
    requires s != {}
    ensures exists t :: t in s && forall u :: u in s ==> t <= u
  {
    assert exists x :: x in s by {
      if forall x :: x !in s {
        assert false;
      }
    }
    var x :| x in s;
    if s != {x} {
      var rest := s - {x};
      LeastClockExists(rest);
      var t :| t in rest && forall u :: u in rest ==> t <= u;
      var m := if x < t then x else t;
      forall u | u in s ensures m <= u {
        if u != x {
          assert u in rest;
        }
      }
      assert m in s;
    } else {
      assert forall u :: u in s ==> x <= u;
    }
  }

  /** Ascending clocks drawn from `[lo, ...)` have the `k`-th one at least `lo + k`. */
  lemma {:induction false} AscendingFromBelow(ws: seq<WriteRequest>, lo: int, k: nat)
    requires Ascending(ws) && k < |ws|
    requires forall j :: 0 <= j < |ws| ==> lo <= ws[j].clock
    ensures lo + k <= ws[k].clock
  {
    if k > 0 {
      AscendingFromBelow(ws, lo, k - 1);
    }
  }

  /** Ascending clocks drawn from `[..., hi)` have the `k`-th one below `hi - (|ws| - 1 - k)`. */
  lemma {:induction false} AscendingFromAbove(ws: seq<WriteRequest>, hi: int, k: nat)
    requires Ascending(ws) && k < |ws|
    requires forall j :: 0 <= j < |ws| ==> ws[j].clock < hi
    ensures ws[k].clock < hi - (|ws| - 1 - k)
    decreases |ws| - k
  {
    if k < |ws| - 1 {
      AscendingFromAbove(ws, hi, k + 1);
    }
  }

  /**
   * The request built from a contiguous log sends its `i`-th write at clock
   * `clock - |log| + i`, so the peer finds, at every position of its join,
   * exactly the write this replica holds there, and the least clock it
   * computes is the start of this replica's log.
   */
  lemma SentWritesMatchLog(ws: seq<WriteRequest>, log: map<int, string>, clock: int, lo: int)
    requires Contiguous(log, clock) && lo == clock - |log|
    requires Ascending(ws) && ListsLog(ws, log) && |ws| == |log|
    ensures forall i :: 0 <= i < |ws| ==> ws[i].clock == lo + i
    ensures forall i :: 0 <= i < |ws| ==> TheirsAt(ws, lo, i) == log[lo + i]
    ensures forall i :: 0 <= i < |ws| ==> MineAt(log, lo, i) == Some(TheirsAt(ws, lo, i))
  {
    forall i | 0 <= i < |ws| ensures ws[i].clock == lo + i {
      AscendingFromBelow(ws, lo, i);
      AscendingFromAbove(ws, clock, i);
    }
    forall i | 0 <= i < |ws| ensures TheirsAt(ws, lo, i) == log[lo + i] {
      AscendingWriteAt(ws, i);
    }
  }

  /** In a request with ascending clocks, looking up an entry's clock finds that entry. */
  lemma {:induction false} AscendingWriteAt(ws: seq<WriteRequest>, i: nat)
    requires Ascending(ws) && i < |ws|
    ensures WriteAt(ws, ws[i].clock) == ws[i].write
  {
    if i > 0 {
      assert ws[0].clock < ws[i].clock;
      assert ws[1..][i - 1] == ws[i];
      AscendingWriteAt(ws[1..], i - 1);
    }
  }

  /* ---------- attemptPropagateState ---------- */

  /** The answer a propagateState call yields: a response, or an RPC exception. */
  datatype CallResult = Answered(code: ResponseCode, classState: ClassState) | CallFailed(status: RpcStatus)

  /** A call is tried again when the peer answered INACTIVE_SERVER or the call failed. */
  predicate Retried(c: CallResult)
  {
    c.CallFailed? || c.code == INACTIVE_SERVER
  }

  /** The last answered call among `calls`, None when none was answered: the `response` variable the loop keeps. */
  function LastAnswer(calls: seq<CallResult>): (a: Option<CallResult>)
    ensures a.None? <==> forall k :: 0 <= k < |calls| ==> calls[k].CallFailed?
    ensures a.Some? ==> a.value.Answered? && exists k :: 0 <= k < |calls| && calls[k] == a.value
  {
    if calls == [] then None
    else if calls[|calls| - 1].Answered? then Some(calls[|calls| - 1])
    else
      var a := LastAnswer(calls[..|calls| - 1]);
      assert forall k :: 0 <= k < |calls| - 1 ==> calls[..|calls| - 1][k] == calls[k];
      a
  }

  /** How many of the three calls are made: up to and including the first one not retried. */
  function CallsMade(calls: seq<CallResult>): (n: nat)
    requires |calls| >= 3
    ensures 1 <= n <= 3
    ensures forall k :: 0 <= k < n - 1 ==> Retried(calls[k])
    ensures n < 3 ==> !Retried(calls[n - 1])
  {
    if !Retried(calls[0]) then 1 else if !Retried(calls[1]) then 2 else 3
  }

  /** What a round, as a whole, ends with. */
  datatype RoundResult =
    | Skipped    // `propagateState` returned false
    | Completed  // it returned true
    | Aborted    // an exception left it: a null response or an invalid state

  /**
   * `propagateState(flag)` on values: the roster and the log after the round,
   * given the peer's answers to the calls the round may make.
   */
  datatype Round = Round(roster: Roster, log: map<int, string>, result: RoundResult)

  function GossipRound(r: Roster, log: map<int, string>, activeGossip: bool, timer: bool,
                       calls: seq<CallResult>): (g: Round)
    requires |calls| >= 3
    ensures g.result == Skipped <==> timer && !activeGossip
    ensures g.result != Completed ==> g.roster == r && g.log == log
    ensures g.result == Completed ==> g.log == map[] && g.roster.enrolled == r.enrolled && g.roster.active == r.active
    ensures var last := LastAnswer(calls[..CallsMade(calls)]);
      g.result == Completed <==>
        (!timer || activeGossip) && last.Some? && ValidateClassState(last.value.classState) == StateAccepted
    ensures var last := LastAnswer(calls[..CallsMade(calls)]);
      g.result == Completed ==> last.Some? && g.roster == AdoptState(r, last.value.classState)
  {
    if timer && !activeGossip then Round(r, log, Skipped)
    else
      match LastAnswer(calls[..CallsMade(calls)])
      case None => Round(r, log, Aborted)
      case Some(a) =>
        if ValidateClassState(a.classState) != StateAccepted then Round(r, log, Aborted)
        else Round(AdoptState(r, a.classState), map[], Completed)
  }

  /**
   * An inactive peer answers INACTIVE_SERVER with an empty class state. Three
   * such answers are still a response: the round adopts the empty state, so
   * the replica ends closed, with capacity 0 and no students in either map,
   * while its counter keeps its old value, and its log is lost.
   */
  lemma InactivePeerWipesState(r: Roster, log: map<int, string>, activeGossip: bool, timer: bool)
    requires !timer || activeGossip
    ensures var inactive := Answered(INACTIVE_SERVER, EmptyClassState);
            var g := GossipRound(r, log, activeGossip, timer, [inactive, inactive, inactive]);
      && g.result == Completed
      && g.roster == r.(capacity := 0, open := false, studentsEnrolled := map[], studentsDiscarded := map[])
      && g.log == map[]
  {
    var inactive := Answered(INACTIVE_SERVER, EmptyClassState);
    var calls := [inactive, inactive, inactive];
    assert CallsMade(calls) == 3;
    assert LastAnswer(calls[..3]) == Some(inactive);
    assert ValidateClassState(EmptyClassState) == StateAccepted;
  }

  /** With gossip switched off, a timer round does nothing, whatever the peer would answer. */
  lemma TimerRoundRespectsGossipFlag(r: Roster, log: map<int, string>, calls: seq<CallResult>)
    requires |calls| >= 3
    ensures GossipRound(r, log, false, true, calls) == Round(r, log, Skipped)
  {
  }

  /** A round in which every call fails leaves roster and log as they were. */
  lemma UnansweredRoundKeepsLog(r: Roster, log: map<int, string>, activeGossip: bool, timer: bool, calls: seq<CallResult>)
    requires |calls| >= 3
    requires forall k :: 0 <= k < 3 ==> calls[k].CallFailed?
    ensures GossipRound(r, log, activeGossip, timer, calls).roster == r
    ensures GossipRound(r, log, activeGossip, timer, calls).log == log
    ensures GossipRound(r, log, activeGossip, timer, calls).result != Completed
  {
    var n := CallsMade(calls);
    assert forall k :: 0 <= k < n ==> calls[..n][k] == calls[k];
  }

  /* ---------- the frontend object ---------- */

  class ReplicaFrontend {
    const domain: ClassDomain
    var writes: map<int, string>
    var clock: int
    var activeGossip: bool

    constructor (domain: ClassDomain)
      ensures this.domain == domain
      ensures writes == map[] && clock == 0 && activeGossip
    {
      this.domain := domain;
      writes := map[];
      clock := 0;
      activeGossip := true;
    }

    method SetClock(c: int)
      modifies this
      ensures clock == c && writes == old(writes) && activeGossip == old(activeGossip)
    {
      clock := c;
    }

    /** `addWrite`: stores the write under the clock, replacing what was there. */
    method AddWrite(time: int, write: string)
      modifies this
      ensures writes == old(writes)[time := write]
      ensures clock == old(clock) && activeGossip == old(activeGossip)
    {
      writes := writes[time := write];
    }

    /** `clearWrites`: empties the log; the clock keeps running. */
    method ClearWrites()
      modifies this
      ensures writes == map[] && clock == old(clock) && activeGossip == old(activeGossip)
    {
      writes := map[];
    }

    method SetActiveGossip(b: bool)
      modifies this
      ensures activeGossip == b && writes == old(writes) && clock == old(clock)
    {
      activeGossip := b;
    }

    /**
     * `buildPropagateStateRequest`: the class state and every logged write
     * with its clock, in ascending clock order as the log's tree map iterates.
     */
    method BuildPropagateStateRequest() returns (req: PropagateStateRequest)
      ensures Describes(req.classState, domain.Snapshot())
      ensures Ascending(req.writes) && ListsLog(req.writes, writes) && |req.writes| == |writes|
    {
      var cs := BuildClassState(domain);
      var ws := ListWrites(writes);
      req := PropagateStateRequest(cs, ws);
    }

    /**
     * `attemptPropagateState`: up to three calls, trying again only after an
     * INACTIVE_SERVER answer or a failed call; the result is the last answer
     * received, None when every call made failed.
     */
    method AttemptPropagateState(calls: seq<CallResult>) returns (response: Option<CallResult>, made: nat)
      requires |calls| >= 3
      ensures made == CallsMade(calls)
      ensures response == LastAnswer(calls[..made])
    {
      response := None;
      made := 0;
      var tries := 1;
      while tries <= 3
        invariant 1 <= tries <= 4 && made == tries - 1
        invariant forall k :: 0 <= k < made ==> Retried(calls[k])
        invariant response == LastAnswer(calls[..made])
      {
        made := tries;
        assert calls[..made][..made - 1] == calls[..made - 1];
        var c := calls[tries - 1];
        if c.Answered? {
          response := Some(c);
          if c.code != INACTIVE_SERVER {
            break;
          }
        }
        tries := tries + 1;
      }
    }

    /**
     * `propagateState(flag)`: a timer round with gossip switched off returns
     * false at once. Otherwise the request is built and sent; a round with no
     * answer dereferences null and one whose state fails validation throws,
     * both before anything changes; else the state is adopted, the log
     * cleared and true returned.
     */
    method PropagateState(timer: bool, calls: seq<CallResult>) returns (result: RoundResult)
      requires |calls| >= 3
      modifies this, domain
      ensures var g := GossipRound(old(domain.Snapshot()), old(writes), old(activeGossip), timer, calls);
        && result == g.result && domain.Snapshot() == g.roster && writes == g.log
      ensures clock == old(clock) && activeGossip == old(activeGossip)
    {
      if !activeGossip && timer {
        return Skipped;
      }
      var req := BuildPropagateStateRequest();
      var response, made := AttemptPropagateState(calls);
      if response.None? {
        return Aborted;
      }
      var cs := response.value.classState;
      if ValidateClassState(cs) != StateAccepted {
        return Aborted;
      }
      UpdateState(domain, cs);
      ClearWrites();
      result := Completed;
    }
  }

  /** The log's entries as write requests, in ascending clock order, as a tree map iterates them. */
  method ListWrites(log: map<int, string>) returns (ws: seq<WriteRequest>)
    ensures Ascending(ws) && ListsLog(ws, log) && |ws| == |log|
  {
    ws := [];
    var pending := log.Keys;
    while pending != {}
      invariant pending <= log.Keys
      invariant Ascending(ws)
      invariant forall k :: 0 <= k < |ws| ==> ws[k].clock in log && ws[k].write == log[ws[k].clock]
      invariant forall k, t :: 0 <= k < |ws| && t in pending ==> ws[k].clock < t
      invariant Clocks(ws) == log.Keys - pending
      invariant |ws| + |pending| == |log|
      decreases |pending|
    {
      LeastClockExists(pending);
      var t :| t in pending && forall u :: u in pending ==> t <= u;
      TakeLeast(ws, log, pending, t);
      ws := ws + [WriteRequest(log[t], t)];
      pending := pending - {t};
    }
    assert |log.Keys| == |log|;
  }

  /** One iteration of the listing loop: the least pending clock goes last and keeps the list ascending. */
  lemma TakeLeast(ws: seq<WriteRequest>, log: map<int, string>, pending: set<int>, t: int)
    requires pending <= log.Keys && t in pending && forall u :: u in pending ==> t <= u
    requires forall k :: 0 <= k < |ws| ==> ws[k].clock in log && ws[k].write == log[ws[k].clock]
    requires forall k, u :: 0 <= k < |ws| && u in pending ==> ws[k].clock < u
    requires Ascending(ws) && Clocks(ws) == log.Keys - pending
    ensures var next := ws + [WriteRequest(log[t], t)];
      && Ascending(next)
      && (forall k :: 0 <= k < |next| ==> next[k].clock in log && next[k].write == log[next[k].clock])
      && (forall k, u :: 0 <= k < |next| && u in pending - {t} ==> next[k].clock < u)
      && Clocks(next) == log.Keys - (pending - {t})
  {
    var next := ws + [WriteRequest(log[t], t)];
    AppendClock(ws, WriteRequest(log[t], t));
    MoveToDone(Clocks(ws), log.Keys, pending, t);
    AppendAscending(ws, WriteRequest(log[t], t));
    forall k | 0 <= k < |next| ensures next[k].clock in log && next[k].write == log[next[k].clock] {
      if k < |ws| {
        assert next[k] == ws[k];
      }
    }
    forall k, u | 0 <= k < |next| && u in pending - {t} ensures next[k].clock < u {
      if k < |ws| {
        assert next[k] == ws[k];
      }
    }
  }

  lemma MoveToDone(done: set<int>, keys: set<int>, pending: set<int>, t: int)
    requires done == keys - pending && t in pending && pending <= keys
    ensures done + {t} == keys - (pending - {t})
  {
  }

  lemma AppendClock(ws: seq<WriteRequest>, w: WriteRequest)
    ensures Clocks(ws + [w]) == Clocks(ws) + {w.clock}
  {
    assert (ws + [w])[..|ws|] == ws;
  }

  lemma AppendAscending(ws: seq<WriteRequest>, w: WriteRequest)
    requires Ascending(ws) && forall k :: 0 <= k < |ws| ==> ws[k].clock < w.clock
    ensures Ascending(ws + [w])
  {
    var next := ws + [w];
    forall i, j | 0 <= i < j < |next| ensures next[i].clock < next[j].clock {
      assert next[i] == ws[i];
      if j < |ws| {
        assert next[j] == ws[j];
      }
    }
  }

  /** `updateState`: open flag, capacity and both maps from the state, each map filled by `put` in list order. */
  method UpdateState(domain: ClassDomain, cs: ClassState)
    modifies domain
    ensures domain.Snapshot() == AdoptState(old(domain.Snapshot()), cs)
  {
    domain.SetOpen(cs.open);
    domain.SetCapacity(cs.capacity);
    var enrolled := FillMap(cs.enrolled);
    domain.SetStudentsEnrolled(enrolled);
    var discarded := FillMap(cs.discarded);
    domain.SetStudentsDiscarded(discarded);
  }

  /** A fresh map filled with `put(id, name)` for each student in order. */
  method FillMap(students: seq<Student>) returns (m: map<string, string>)
    ensures m == ToMap(students)
  {
    m := map[];
    var i := 0;
    while i < |students|
      invariant 0 <= i <= |students|
      invariant m == ToMap(students[..i])
    {
      assert students[..i + 1][..i] == students[..i];
      m := m[students[i].id := students[i].name];
      i := i + 1;
    }
    assert students[..|students|] == students;
  }
}
