/**
 * The replica-to-replica service (`ClassServerServiceImpl`): the
 * propagateState handler and the merge it runs, as methods on the shared
 * roster object and the replica's write log, each proved to do what the
 * matching function of module Merge describes.
 */
module ReplicaService {
  import opened Wrappers
  import opened JavaStrings
  import opened Protocol
  import opened DomainSpec
  import opened Domain
  import opened Merge
  import opened Gossip

  /** What the merge hands back: the refused writes, or None when an exception cut it short. */
  predicate Reports(cancelled: Option<seq<string>>, m: MergeResult)
  {
    (cancelled.Some? <==> m.Merged?) && (m.Merged? ==> cancelled.value == m.cancelled)
  }

  class ClassServerService {
    const domain: ClassDomain
    const frontend: ReplicaFrontend
    /** The replica's type: "P" for a primary, "S" for a secondary. */
    const primary: bool

    constructor (domain: ClassDomain, frontend: ReplicaFrontend, primary: bool)
      ensures this.domain == domain && this.frontend == frontend && this.primary == primary
    {
      this.domain := domain;
      this.frontend := frontend;
      this.primary := primary;
    }

    /** `getMinClock`. */
    static method GetMinClock(ws: seq<WriteRequest>) returns (m: int)
      ensures m == MinClock(ws)
    {
      m := -1;
      var i := 0;
      while i < |ws|
        invariant 0 <= i <= |ws|
        invariant m == MinClock(ws[..i])
      {
        assert ws[..i + 1][..i] == ws[..i];
        var clock := ws[i].clock;
        if clock < m || m < 0 {
          m := clock;
        }
        i := i + 1;
      }
      assert ws[..|ws|] == ws;
    }

    /** `getWriteGivenTime`. */
    static method GetWriteGivenTime(ws: seq<WriteRequest>, time: int) returns (w: string)
      ensures w == WriteAt(ws, time)
    {
      w := "";
      var i := 0;
      while i < |ws|
        invariant 0 <= i <= |ws|
        invariant WriteAt(ws, time) == WriteAt(ws[i..], time)
      {
        if ws[i].clock == time {
          w := ws[i].write;
          return;
        }
        assert ws[i..][1..] == ws[i + 1..];
        i := i + 1;
      }
    }

    /** `isMyWrite`: a scan over the values of the replica's log. */
    method IsMyWrite(enrollment: string) returns (mine: bool)
      ensures mine == Merge.IsMyWrite(frontend.writes, enrollment)
    {
      var pending := frontend.writes.Values;
      while pending != {}
        invariant pending <= frontend.writes.Values
        invariant enrollment in frontend.writes.Values <==> enrollment in pending
        decreases |pending|
      {
        var w :| w in pending;
        if w == enrollment {
          return true;
        }
        pending := pending - {w};
      }
      mine := false;
    }

    /** The first loop of `unifyState`: look for a peer write tagged "open". */
    static method ScanForOpen(ws: seq<WriteRequest>) returns (s: OpenScan)
      ensures s == ScanOpen(ws)
    {
      var i := 0;
      while i < |ws|
        invariant 0 <= i <= |ws|
        invariant ScanOpen(ws) == ScanOpen(ws[i..])
      {
        assert ws[i..][0] == ws[i] && ws[i..][1..] == ws[i + 1..];
        var tag := Field(ws[i].write, 0);
        if tag.None? {
          return ScanCrashed;
        }
        if tag.value == "open" {
          return OpenFound;
        }
        i := i + 1;
      }
      s := NoOpen;
    }

    /** The second loop of `unifyState`: join own and peer writes position by position over the first `nMin` positions. */
    method JoinWrites(ws: seq<WriteRequest>, nMin: nat, myClockMin: int, recClockMin: int) returns (js: JoinState)
      ensures js == Join(frontend.writes, myClockMin, ws, recClockMin, primary, nMin)
    {
      var log := frontend.writes;
      js := Joining([], false, false);
      var i := 0;
      while i < nMin
        invariant 0 <= i <= nMin
        invariant js.Joining? && Join(log, myClockMin, ws, recClockMin, primary, i) == js
      {
        var myWrite := Lookup(log, i + myClockMin);
        var otWrite := GetWriteGivenTime(ws, i + recClockMin);
        var next := JoinOne(js, myWrite, otWrite, primary);
        if next.JoinCrashed? {
          JoinCrashIsFinal(log, myClockMin, ws, recClockMin, primary, i + 1, nMin);
          return next;
        }
        js := next;
        i := i + 1;
      }
    }

    /**
     * The body of the join loop: `myWrite.split` throws on a missing own
     * write, and `split(":")[0]` on a write made only of colons.
     */
    static method JoinOne(js: JoinState, myWrite: Option<string>, otWrite: string, primary: bool) returns (next: JoinState)
      requires js.Joining?
      ensures next == JoinStep(js, myWrite, otWrite, primary)
    {
      if myWrite.None? {
        return JoinCrashed;
      }
      var myTag := Field(myWrite.value, 0);
      var otTag := Field(otWrite, 0);
      if myTag.None? || otTag.None? {
        return JoinCrashed;
      }
      var toAdd, toClose, iClosed := js.toAdd, js.toClose, js.iClosed;
      if myTag.value == "close" {
        toClose := true;
        iClosed := true;
      }
      if otTag.value == "close" {
        toClose := true;
      }
      if !toClose {
        if primary {
          toAdd := toAdd + [myWrite.value];
          toAdd := toAdd + [otWrite];
        } else {
          toAdd := toAdd + [otWrite];
          toAdd := toAdd + [myWrite.value];
        }
      } else if iClosed {
        toAdd := toAdd + [otWrite];
      } else {
        toAdd := toAdd + [myWrite.value];
      }
      next := Joining(toAdd, toClose, iClosed);
    }

    /** Step 4 of `unifyState`: every peer write, in request order, offered to `addStudentEnrolled`. */
    method EnrollPeerWrites(ws: seq<WriteRequest>) returns (cancelled: Option<seq<string>>)
      modifies domain
      ensures var m := ApplyPeerWrites(old(domain.Snapshot()), ws, |ws|);
        domain.Snapshot() == m.roster && Reports(cancelled, m)
    {
      ghost var r := domain.Snapshot();
      var refused: seq<string> := [];
      var i := 0;
      while i < |ws|
        invariant 0 <= i <= |ws|
        invariant ApplyPeerWrites(r, ws, i) == Merged(domain.Snapshot(), refused)
      {
        var write := ws[i].write;
        var id := Field(write, 0);
        var name := Field(write, 1);
        PeerWriteStep(r, ws, i, domain.Snapshot(), refused);
        if id.None? || name.None? {
          ApplyCrashIsFinal(r, ws, i + 1, |ws|);
          return None;
        }
        var outcome := domain.AddStudentEnrolled(id.value, name.value);
        if outcome == Failed(DuplicateEnrollment) {
          refused := refused + [write];
        }
        i := i + 1;
      }
      cancelled := Some(refused);
    }

    /** `addNEnrollments(toAdd, n)`: enroll until full, refusing on a full class and on a duplicate that is not this replica's own write. */
    method AddNEnrollments(toAdd: seq<string>, n: nat) returns (cancelled: Option<seq<string>>)
      requires n <= |toAdd|
      modifies domain
      ensures var m := Merge.AddNEnrollments(old(domain.Snapshot()), toAdd, frontend.writes, n);
        domain.Snapshot() == m.roster && Reports(cancelled, m)
    {
      ghost var r := domain.Snapshot();
      ghost var log := frontend.writes;
      var refused: seq<string> := [];
      var i := 0;
      while i < n
        invariant 0 <= i <= n
        invariant Merge.AddNEnrollments(r, toAdd, log, i) == Merged(domain.Snapshot(), refused)
      {
        var enrollment := toAdd[i];
        var id := Field(enrollment, 0);
        var name := Field(enrollment, 1);
        JoinedWriteStep(r, toAdd, log, i, domain.Snapshot(), refused);
        if id.None? || name.None? {
          AddNCrashIsFinal(r, toAdd, log, i + 1, n);
          return None;
        }
        var outcome := domain.AddStudentEnrolled(id.value, name.value);
        if outcome == Failed(DuplicateEnrollment) {
          var mine := IsMyWrite(enrollment);
          if !mine {
            refused := refused + [enrollment];
          }
        } else if outcome == Failed(ClassFull) {
          refused := refused + [enrollment];
        }
        i := i + 1;
      }
      cancelled := Some(refused);
    }

    /** `unifyState`: merge the peer's writes into the roster and report the refused ones. */
    method UnifyState(req: PropagateStateRequest) returns (cancelled: Option<seq<string>>)
      modifies domain
      ensures var u := Merge.UnifyState(old(domain.Snapshot()), frontend.writes, frontend.clock, primary, req);
        domain.Snapshot() == u.roster && Reports(cancelled, u)
    {
      var ws := req.writes;
      var nRecWrites := |ws|;
      var nMyWrites := |frontend.writes|;
      var nMin := Min(nRecWrites, nMyWrites);
      var myClockMin := frontend.clock - nMyWrites;
      var recClockMin := GetMinClock(ws);

      var scan := ScanForOpen(ws);
      if scan == ScanCrashed {
        return None;
      } else if scan == OpenFound {
        UpdateState(domain, req.classState);
        return Some([]);
      }

      var js := JoinWrites(ws, nMin, myClockMin, recClockMin);
      if js.JoinCrashed? {
        return None;
      }

      var toEnroll := domain.capacity - domain.enrolled - nRecWrites;
      if toEnroll >= 0 {
        cancelled := EnrollPeerWrites(ws);
        if cancelled.Some? && js.toClose && !js.iClosed {
          domain.SetOpen(false);
        }
        return;
      }
      cancelled := AddNEnrollments(js.toAdd, |js.toAdd|);
    }

    /**
     * The handler's loop over the refused writes: `addNewDiscarded` on each
     * write's fields, a duplicate cancellation ignored.
     */
    method DiscardRefused(cancelled: seq<string>) returns (ok: bool)
      modifies domain
      ensures var d := DiscardAll(old(domain.Snapshot()), cancelled, |cancelled|);
        domain.Snapshot() == d.roster && (ok <==> d.Merged?)
    {
      ghost var r := domain.Snapshot();
      var i := 0;
      while i < |cancelled|
        invariant 0 <= i <= |cancelled|
        invariant DiscardAll(r, cancelled, i) == Merged(domain.Snapshot(), cancelled)
      {
        var id := Field(cancelled[i], 0);
        var name := Field(cancelled[i], 1);
        assert DiscardAll(r, cancelled, i + 1) == DiscardOne(Merged(domain.Snapshot(), cancelled), cancelled[i]);
        if id.None? || name.None? {
          DiscardCrashIsFinal(r, cancelled, i + 1, |cancelled|);
          return false;
        }
        var outcome := domain.AddNewDiscarded(id.value, name.value);
        i := i + 1;
      }
      ok := true;
    }

    /**
     * The propagateState handler. An answer OK carries the class state
     * reached; INACTIVE_SERVER carries the empty one; the other outcomes close
     * the call with a status.
     */
    method PropagateState(deadlinePassed: bool, req: PropagateStateRequest) returns (reply: Reply<ClassState>)
      modifies domain, frontend
      ensures var e := PropagateStateOutcome(old(domain.Snapshot()), old(frontend.writes), old(frontend.clock),
                                             primary, deadlinePassed, req);
        && domain.Snapshot() == e.roster
        && frontend.writes == (if e.clearsLog then map[] else old(frontend.writes))
        && (reply.Fail? <==> e.reply.Fail?)
        && (reply.Fail? ==> reply.status == e.reply.status)
        && (reply.Respond? ==> reply.code == e.reply.code)
      ensures frontend.clock == old(frontend.clock) && frontend.activeGossip == old(frontend.activeGossip)
      ensures reply.Respond? && reply.code == INACTIVE_SERVER ==> reply.body == EmptyClassState
      ensures reply.Respond? && reply.code == OK ==> Describes(reply.body, domain.Snapshot())
    {
      if deadlinePassed {
        return Fail(DEADLINE_EXCEEDED);
      }
      if !domain.active {
        return Respond(INACTIVE_SERVER, EmptyClassState);
      }
      var verdict := ValidateClassState(req.classState);
      if verdict == InvalidCapacity || verdict == InvalidStudent {
        return Fail(INVALID_ARGUMENT);
      } else if verdict == StudentIndexOutOfBounds {
        return Fail(UNKNOWN);
      }
      var cancelled := UnifyState(req);
      if cancelled.None? {
        return Fail(UNKNOWN);
      }
      var ok := DiscardRefused(cancelled.value);
      if !ok {
        return Fail(UNKNOWN);
      }
      var classState := BuildClassState(domain);
      frontend.ClearWrites();
      reply := Respond(OK, classState);
    }
  }
}
