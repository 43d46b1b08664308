/**
 * What a replica does with a peer's propagateState request, as functions of
 * the roster, the replica's own write log and the request. The log maps a
 * Lamport clock value to a write string: "open:<capacity>", "close:0" or
 * "<id>:<name>". Writes are taken apart with Java's `split(":")`, so a write
 * with too few fields makes the merge stop with an index exception; such a
 * stop is `MergeCrashed`, carrying the roster as it was at that moment.
 */
module Merge {
  import opened Wrappers
  import opened JavaStrings
  import opened Protocol
  import opened DomainSpec

  datatype WriteRequest = WriteRequest(write: string, clock: int)

  datatype PropagateStateRequest = PropagateStateRequest(classState: ClassState, writes: seq<WriteRequest>)

  /** The result of merging: the roster reached and the writes refused, or a stop by exception. */
  datatype MergeResult = Merged(roster: Roster, cancelled: seq<string>) | MergeCrashed(roster: Roster)

  /** `split(":")[0]` of a write, None where Java would throw. */
  function Tag(write: string): Option<string>
  {
    Field(write, 0)
  }

  /** A write whose `split(":")[0]` and `split(":")[1]` both exist. */
  predicate HasTwoFields(write: string)
  {
    Field(write, 0).Some? && Field(write, 1).Some?
  }

  /** `map.get(key)`, None standing for null. */
  function Lookup(log: map<int, string>, key: int): (r: Option<string>)
    ensures r.Some? <==> key in log
    ensures r.Some? ==> r.value == log[key]
  {
    if key in log then Some(log[key]) else None
  }

  /* ---------- getMinClock, getWriteGivenTime, isMyWrite ---------- */

  /** One iteration of `getMinClock`: a clock replaces the running value when smaller, or when that is still negative. */
  function KeepMin(acc: int, clock: int): int
  {
    if clock < acc || acc < 0 then clock else acc
  }

  /** `getMinClock`, folded over the writes in request order, starting from -1. */
  function MinClock(ws: seq<WriteRequest>): (m: int)
    ensures ws == [] ==> m == -1
  {
    if ws == [] then -1 else KeepMin(MinClock(ws[..|ws| - 1]), ws[|ws| - 1].clock)
  }

  /** With non-negative clocks, `getMinClock` is -1 exactly for no writes and otherwise the least clock present. */
  lemma {:induction false} MinClockIsLeast(ws: seq<WriteRequest>)
    requires forall k :: 0 <= k < |ws| ==> ws[k].clock >= 0
    ensures MinClock(ws) == -1 <==> ws == []
    ensures ws != [] ==> exists k :: 0 <= k < |ws| && ws[k].clock == MinClock(ws)
    ensures forall k :: 0 <= k < |ws| ==> MinClock(ws) <= ws[k].clock
  {
    if ws != [] {
      var front := ws[..|ws| - 1];
      MinClockIsLeast(front);
      if front == [] {
        assert MinClock(ws) == ws[0].clock;
      } else {
        var m := MinClock(front);
        var j :| 0 <= j < |front| && front[j].clock == m;
        assert ws[j] == front[j];
        forall k | 0 <= k < |ws| ensures MinClock(ws) <= ws[k].clock {
          if k < |front| {
            assert ws[k] == front[k];
          }
        }
        if MinClock(ws) == m {
          assert ws[j].clock == MinClock(ws);
        } else {
          assert ws[|ws| - 1].clock == MinClock(ws);
        }
      }
    }
  }

  /** `getWriteGivenTime`: the write of the first request entry carrying `time`, or "" when none does. */
  function WriteAt(ws: seq<WriteRequest>, time: int): string
  {
    if ws == [] then ""
    else if ws[0].clock == time then ws[0].write
    else WriteAt(ws[1..], time)
  }

  /** `getWriteGivenTime` finds the first entry with the clock asked for, and "" only when there is none or it holds "". */
  lemma {:induction false} WriteAtIsFirstMatch(ws: seq<WriteRequest>, time: int)
    ensures (forall k :: 0 <= k < |ws| ==> ws[k].clock != time) ==> WriteAt(ws, time) == ""
    ensures forall k :: 0 <= k < |ws| && ws[k].clock == time && (forall j :: 0 <= j < k ==> ws[j].clock != time) ==>
              WriteAt(ws, time) == ws[k].write
  {
    if ws != [] && ws[0].clock != time {
      WriteAtIsFirstMatch(ws[1..], time);
      assert forall k :: 1 <= k < |ws| ==> ws[1..][k - 1] == ws[k];
    }
  }

  /** `isMyWrite`: the enrollment string is one of the values of the replica's own log. */
  predicate IsMyWrite(log: map<int, string>, enrollment: string)
  {
    enrollment in log.Values
  }

  /* ---------- unifyState, step 1: look for an "open" ---------- */

  datatype OpenScan = OpenFound | NoOpen | ScanCrashed

  /** The first loop of `unifyState`: the first peer write tagged "open" (or without a tag, which throws) decides. */
  function ScanOpen(ws: seq<WriteRequest>): (s: OpenScan)
    ensures s == NoOpen <==> forall k :: 0 <= k < |ws| ==> Tag(ws[k].write).Some? && Tag(ws[k].write).value != "open"
    ensures s == OpenFound ==> exists k :: 0 <= k < |ws| && Tag(ws[k].write) == Some("open")
  {
    if ws == [] then NoOpen
    else
      assert forall k :: 1 <= k < |ws| ==> ws[1..][k - 1] == ws[k];
      match Tag(ws[0].write)
      case None => ScanCrashed
      case Some(tag) => if tag == "open" then OpenFound else ScanOpen(ws[1..])
  }

  /* ---------- unifyState, step 2: join the two logs ---------- */

  /** Whether a write is a close. */
  predicate IsClose(write: string)
  {
    Tag(write) == Some("close")
  }

  datatype JoinState = Joining(toAdd: seq<string>, toClose: bool, iClosed: bool) | JoinCrashed

  /**
   * One iteration of the join loop. `myWrite` is None when the replica's log
   * has no entry at the clock looked up, which makes `myWrite.split` throw.
   * The close flags are sticky: from the step where a close appears on, one
   * write is taken per step, the peer's when this replica closed, its own otherwise.
   */
  function JoinStep(js: JoinState, myWrite: Option<string>, otWrite: string, primary: bool): (next: JoinState)
    requires js.Joining?
    ensures next.Joining? ==> js.toAdd <= next.toAdd
    ensures next.Joining? && js.toClose ==> next.toClose && |next.toAdd| == |js.toAdd| + 1
    ensures next.Joining? <==> myWrite.Some? && Tag(myWrite.value).Some? && Tag(otWrite).Some?
    ensures next.Joining? ==> (next.iClosed <==> js.iClosed || IsClose(myWrite.value))
    ensures next.Joining? ==> (next.toClose <==> js.toClose || IsClose(myWrite.value) || IsClose(otWrite))
  {
    if myWrite.None? || Tag(myWrite.value).None? || Tag(otWrite).None? then JoinCrashed
    else
      var myTag := Tag(myWrite.value).value;
      var otTag := Tag(otWrite).value;
      var toClose := js.toClose || myTag == "close" || otTag == "close";
      var iClosed := js.iClosed || myTag == "close";
      var added :=
        if !toClose then (if primary then [myWrite.value, otWrite] else [otWrite, myWrite.value])
        else if iClosed then [otWrite]
        else [myWrite.value];
      Joining(js.toAdd + added, toClose, iClosed)
  }

  /** The own write the join looks up at iteration `i`: `get_writes().get(i + myClockMin)`. */
  function MineAt(log: map<int, string>, myClockMin: int, i: int): Option<string>
  {
    Lookup(log, i + myClockMin)
  }

  /** The peer write the join pairs with it: `getWriteGivenTime(request, i + recClockMin)`. */
  function TheirsAt(ws: seq<WriteRequest>, recClockMin: int, i: int): string
  {
    WriteAt(ws, i + recClockMin)
  }

  /** The join loop run for its first `n` iterations. */
  function Join(log: map<int, string>, myClockMin: int, ws: seq<WriteRequest>, recClockMin: int, primary: bool, n: nat): (js: JoinState)
    ensures js.Joining? ==> n <= |js.toAdd| <= 2 * n
  {
    if n == 0 then Joining([], false, false)
    else
      var prev := Join(log, myClockMin, ws, recClockMin, primary, n - 1);
      if prev.JoinCrashed? then prev
      else JoinStep(prev, MineAt(log, myClockMin, n - 1), TheirsAt(ws, recClockMin, n - 1), primary)
  }

  /** Once the join has thrown, later iterations never run: the result stays the crash. */
  lemma {:induction false} JoinCrashIsFinal(log: map<int, string>, myClockMin: int, ws: seq<WriteRequest>,
                                            recClockMin: int, primary: bool, m: nat, n: nat)
    requires m <= n && Join(log, myClockMin, ws, recClockMin, primary, m).JoinCrashed?
    ensures Join(log, myClockMin, ws, recClockMin, primary, n).JoinCrashed?
  {
    if m < n {
      JoinCrashIsFinal(log, myClockMin, ws, recClockMin, primary, m, n - 1);
    }
  }

  /**
   * Until a close is seen the join interleaves pairwise: a primary puts its
   * own write first, a secondary the peer's.
   */
  lemma JoinInterleavesBeforeClose(log: map<int, string>, myClockMin: int, ws: seq<WriteRequest>,
                                   recClockMin: int, primary: bool, n: nat)
    requires Join(log, myClockMin, ws, recClockMin, primary, n).Joining?
    requires !Join(log, myClockMin, ws, recClockMin, primary, n).toClose
    ensures var js := Join(log, myClockMin, ws, recClockMin, primary, n);
      && |js.toAdd| == 2 * n
      && forall i :: 0 <= i < n ==>
           && MineAt(log, myClockMin, i).Some?
           && js.toAdd[2 * i] == (if primary then MineAt(log, myClockMin, i).value else TheirsAt(ws, recClockMin, i))
           && js.toAdd[2 * i + 1] == (if primary then TheirsAt(ws, recClockMin, i) else MineAt(log, myClockMin, i).value)
  {
    OpenJoinLength(log, myClockMin, ws, recClockMin, primary, n);
    forall i | 0 <= i < n
      ensures var js := Join(log, myClockMin, ws, recClockMin, primary, n);
        && MineAt(log, myClockMin, i).Some?
        && js.toAdd[2 * i] == (if primary then MineAt(log, myClockMin, i).value else TheirsAt(ws, recClockMin, i))
        && js.toAdd[2 * i + 1] == (if primary then TheirsAt(ws, recClockMin, i) else MineAt(log, myClockMin, i).value)
    {
      OpenJoinPairAt(log, myClockMin, ws, recClockMin, primary, n, i);
    }
  }

  /** Before a close, every iteration has added two writes. */
  lemma {:induction false} OpenJoinLength(log: map<int, string>, myClockMin: int, ws: seq<WriteRequest>,
                                          recClockMin: int, primary: bool, n: nat)
    requires Join(log, myClockMin, ws, recClockMin, primary, n).Joining?
    requires !Join(log, myClockMin, ws, recClockMin, primary, n).toClose
    ensures |Join(log, myClockMin, ws, recClockMin, primary, n).toAdd| == 2 * n
  {
    if n > 0 {
      var prev := Join(log, myClockMin, ws, recClockMin, primary, n - 1);
      assert prev.Joining?;
      OpenStepAddsPair(prev, MineAt(log, myClockMin, n - 1), TheirsAt(ws, recClockMin, n - 1), primary);
      OpenJoinLength(log, myClockMin, ws, recClockMin, primary, n - 1);
    }
  }

  /** Before a close, iteration `i` has put its pair at positions `2 * i` and `2 * i + 1`. */
  lemma {:induction false} OpenJoinPairAt(log: map<int, string>, myClockMin: int, ws: seq<WriteRequest>,
                                          recClockMin: int, primary: bool, n: nat, i: nat)
    requires i < n
    requires Join(log, myClockMin, ws, recClockMin, primary, n).Joining?
    requires !Join(log, myClockMin, ws, recClockMin, primary, n).toClose
    ensures var js := Join(log, myClockMin, ws, recClockMin, primary, n);
      && MineAt(log, myClockMin, i).Some?
      && 2 * i + 1 < |js.toAdd|
      && js.toAdd[2 * i] == (if primary then MineAt(log, myClockMin, i).value else TheirsAt(ws, recClockMin, i))
      && js.toAdd[2 * i + 1] == (if primary then TheirsAt(ws, recClockMin, i) else MineAt(log, myClockMin, i).value)
  {
    var prev := Join(log, myClockMin, ws, recClockMin, primary, n - 1);
    assert prev.Joining?;
    OpenStepAddsPair(prev, MineAt(log, myClockMin, n - 1), TheirsAt(ws, recClockMin, n - 1), primary);
    OpenJoinLength(log, myClockMin, ws, recClockMin, primary, n - 1);
    if i < n - 1 {
      OpenJoinPairAt(log, myClockMin, ws, recClockMin, primary, n - 1, i);
    }
  }

  /** A step that sees no close appends the pair, in the order the role dictates. */
  lemma OpenStepAddsPair(js: JoinState, myWrite: Option<string>, otWrite: string, primary: bool)
    requires js.Joining?
    requires JoinStep(js, myWrite, otWrite, primary).Joining?
    requires !JoinStep(js, myWrite, otWrite, primary).toClose
    ensures !js.toClose && myWrite.Some?
    ensures JoinStep(js, myWrite, otWrite, primary).toAdd ==
              js.toAdd + (if primary then [myWrite.value, otWrite] else [otWrite, myWrite.value])
  {
  }

  /** Once either side has closed, the flag stays raised for every later iteration. */
  lemma {:induction false} CloseIsSticky(log: map<int, string>, myClockMin: int, ws: seq<WriteRequest>,
                                         recClockMin: int, primary: bool, m: nat, n: nat)
    requires m <= n
    requires Join(log, myClockMin, ws, recClockMin, primary, n).Joining?
    ensures Join(log, myClockMin, ws, recClockMin, primary, m).Joining?
    ensures var early := Join(log, myClockMin, ws, recClockMin, primary, m);
            var late := Join(log, myClockMin, ws, recClockMin, primary, n);
      && early.toAdd <= late.toAdd
      && (early.toClose ==> late.toClose && |late.toAdd| == |early.toAdd| + (n - m))
      && (early.iClosed ==> late.iClosed)
    decreases n - m
  {
    if m < n {
      var prev := Join(log, myClockMin, ws, recClockMin, primary, n - 1);
      assert prev.Joining?;
      CloseIsSticky(log, myClockMin, ws, recClockMin, primary, m, n - 1);
    }
  }

  /** A close step, and every step after one, contributes exactly the peer's write if this replica closed and its own otherwise. */
  lemma OneWritePerClosingStep(js: JoinState, myWrite: Option<string>, otWrite: string, primary: bool)
    requires js.Joining?
    requires JoinStep(js, myWrite, otWrite, primary).Joining?
    requires JoinStep(js, myWrite, otWrite, primary).toClose
    ensures var next := JoinStep(js, myWrite, otWrite, primary);
      next.toAdd == js.toAdd + [if next.iClosed then otWrite else myWrite.value]
  {
  }

  /**
   * How the joins of a primary and of a secondary relate step by step: same
   * list, same close flag, and once closed exactly one of them is the closer.
   */
  predicate Mirrored(p: JoinState, s: JoinState)
  {
    && (p.Joining? <==> s.Joining?)
    && (p.Joining? ==>
          && p.toAdd == s.toAdd && p.toClose == s.toClose
          && (p.iClosed ==> p.toClose) && (s.iClosed ==> s.toClose)
          && (p.toClose ==> p.iClosed != s.iClosed))
  }

  /** One join step on each side keeps the two mirrored, provided the side that closed does not see the other close too. */
  lemma JoinStepMirrored(p: JoinState, s: JoinState, a: string, b: string)
    requires p.Joining? && Mirrored(p, s)
    requires !(IsClose(a) && IsClose(b))
    requires p.iClosed ==> !IsClose(b)
    requires s.iClosed ==> !IsClose(a)
    ensures Mirrored(JoinStep(p, Some(a), b, true), JoinStep(s, Some(b), a, false))
  {
  }

  /**
   * The replica's own comment claims both replicas order the writes the same
   * way. For the join this holds when at most one of the two replicas has a
   * close among the positions joined: the primary merging the secondary's
   * writes builds the same list, and raises the close flag at the same
   * steps, as the secondary merging the primary's writes. Each replica is
   * taken to send exactly the writes of its own log, position by position.
   */
  lemma {:induction false} JoinRoleSymmetric(
    logP: map<int, string>, minP: int, wsP: seq<WriteRequest>, recP: int,
    logS: map<int, string>, minS: int, wsS: seq<WriteRequest>, recS: int, n: nat)
    requires forall i :: 0 <= i < n ==> MineAt(logP, minP, i) == Some(TheirsAt(wsP, recP, i))
    requires forall i :: 0 <= i < n ==> MineAt(logS, minS, i) == Some(TheirsAt(wsS, recS, i))
    requires (forall i :: 0 <= i < n ==> !IsClose(TheirsAt(wsP, recP, i))) ||
             (forall i :: 0 <= i < n ==> !IsClose(TheirsAt(wsS, recS, i)))
    ensures Mirrored(Join(logP, minP, wsS, recS, true, n), Join(logS, minS, wsP, recP, false, n))
    ensures (forall i :: 0 <= i < n ==> !IsClose(TheirsAt(wsP, recP, i))) ==>
              Join(logP, minP, wsS, recS, true, n).Joining? ==> !Join(logP, minP, wsS, recS, true, n).iClosed
    ensures (forall i :: 0 <= i < n ==> !IsClose(TheirsAt(wsS, recS, i))) ==>
              Join(logS, minS, wsP, recP, false, n).Joining? ==> !Join(logS, minS, wsP, recP, false, n).iClosed
  {
    if n > 0 {
      JoinRoleSymmetric(logP, minP, wsP, recP, logS, minS, wsS, recS, n - 1);
      var p := Join(logP, minP, wsS, recS, true, n - 1);
      var s := Join(logS, minS, wsP, recP, false, n - 1);
      if p.Joining? {
        var a := TheirsAt(wsP, recP, n - 1);
        var b := TheirsAt(wsS, recS, n - 1);
        JoinStepMirrored(p, s, a, b);
      }
    }
  }

  /**
   * When both replicas have closed at the first position and then differ,
   * the claim fails: from then on each keeps only the other's write.
   */
  lemma JoinNotSymmetricAfterDoubleClose(c: string, x: string, y: string)
    requires IsClose(c) && Tag(x).Some? && Tag(y).Some? && x != y
    ensures var logP := map[0 := c, 1 := x];
            var logS := map[0 := c, 1 := y];
            var wsP := [WriteRequest(c, 0), WriteRequest(x, 1)];
            var wsS := [WriteRequest(c, 0), WriteRequest(y, 1)];
            Join(logP, 0, wsS, 0, true, 2) != Join(logS, 0, wsP, 0, false, 2)
  {
    var logP := map[0 := c, 1 := x];
    var logS := map[0 := c, 1 := y];
    var wsP := [WriteRequest(c, 0), WriteRequest(x, 1)];
    var wsS := [WriteRequest(c, 0), WriteRequest(y, 1)];
    assert WriteAt(wsS, 0) == c && WriteAt(wsP, 0) == c;
    assert TheirsAt(wsS, 0, 0) == c && TheirsAt(wsP, 0, 0) == c;
    assert wsS[1..] == [WriteRequest(y, 1)] && WriteAt(wsS[1..], 1) == y;
    assert wsP[1..] == [WriteRequest(x, 1)] && WriteAt(wsP[1..], 1) == x;
    assert TheirsAt(wsS, 0, 1) == y && TheirsAt(wsP, 0, 1) == x;
    assert MineAt(logP, 0, 0) == Some(c) && MineAt(logS, 0, 0) == Some(c);
    assert MineAt(logP, 0, 1) == Some(x) && MineAt(logS, 0, 1) == Some(y);
    assert Join(logP, 0, wsS, 0, true, 0) == Joining([], false, false);
    assert Join(logS, 0, wsP, 0, false, 0) == Joining([], false, false);
    var p1 := Join(logP, 0, wsS, 0, true, 1);
    var s1 := Join(logS, 0, wsP, 0, false, 1);
    assert p1 == JoinStep(Joining([], false, false), Some(c), c, true);
    assert p1 == Joining([c], true, true);
    assert s1 == JoinStep(Joining([], false, false), Some(c), c, false);
    assert s1 == Joining([c], true, true);
    assert Join(logP, 0, wsS, 0, true, 2) == JoinStep(p1, Some(x), y, true);
    assert Join(logP, 0, wsS, 0, true, 2).toAdd == [c, y];
    assert Join(logS, 0, wsP, 0, false, 2) == JoinStep(s1, Some(y), x, false);
    assert Join(logS, 0, wsP, 0, false, 2).toAdd == [c, x];
  }

  /* ---------- unifyState, step 4 and addNEnrollments ---------- */

  /**
   * How an enrollment attempt may change a roster: the counter rises by at
   * most one, and the enrolled map changes only together with the counter;
   * capacity and activity stay.
   */
  predicate Grows(before: Roster, after: Roster)
  {
    && before.enrolled <= after.enrolled <= before.enrolled + 1
    && after.capacity == before.capacity && after.active == before.active && after.open == before.open
    && (after.studentsEnrolled != before.studentsEnrolled ==> after.enrolled == before.enrolled + 1)
  }

  /** One iteration of step 4: enroll a peer write by its fields; only a duplicate is refused, other failures are ignored. */
  function EnrollPeerWrite(m: MergeResult, write: string): (next: MergeResult)
    requires m.Merged?
    ensures next.Merged? ==> m.cancelled <= next.cancelled && |next.cancelled| <= |m.cancelled| + 1
    ensures next.Merged? && |next.cancelled| > |m.cancelled| ==> next.cancelled[|m.cancelled|] == write
    ensures Grows(m.roster, next.roster)
    ensures !m.roster.open ==> next.roster == m.roster && (next.Merged? ==> next.cancelled == m.cancelled)
  {
    var id := Field(write, 0);
    var name := Field(write, 1);
    if id.None? || name.None? then MergeCrashed(m.roster)
    else
      var s := AddStudentEnrolled(m.roster, id.value, name.value);
      Merged(s.roster, if s.outcome == Failed(DuplicateEnrollment) then m.cancelled + [write] else m.cancelled)
  }

  /** The first `n` iterations of step 4, on the peer's writes in request order. */
  function ApplyPeerWrites(r: Roster, ws: seq<WriteRequest>, n: nat): (m: MergeResult)
    requires n <= |ws|
    ensures m.Merged? ==> |m.cancelled| <= n
    ensures m.roster.open == r.open
  {
    if n == 0 then Merged(r, [])
    else
      var prev := ApplyPeerWrites(r, ws, n - 1);
      if prev.MergeCrashed? then prev else EnrollPeerWrite(prev, ws[n - 1].write)
  }

  /** One iteration of `addNEnrollments`: a full class refuses, a duplicate refuses unless the write is the replica's own. */
  function EnrollJoinedWrite(m: MergeResult, write: string, log: map<int, string>): (next: MergeResult)
    requires m.Merged?
    ensures next.Merged? ==> m.cancelled <= next.cancelled && |next.cancelled| <= |m.cancelled| + 1
    ensures next.Merged? && |next.cancelled| > |m.cancelled| ==> next.cancelled[|m.cancelled|] == write
    ensures Grows(m.roster, next.roster)
  {
    var id := Field(write, 0);
    var name := Field(write, 1);
    if id.None? || name.None? then MergeCrashed(m.roster)
    else
      var s := AddStudentEnrolled(m.roster, id.value, name.value);
      var refused := s.outcome == Failed(ClassFull) || (s.outcome == Failed(DuplicateEnrollment) && !IsMyWrite(log, write));
      Merged(s.roster, if refused then m.cancelled + [write] else m.cancelled)
  }

  /** `addNEnrollments(toAdd, n)`. */
  function AddNEnrollments(r: Roster, toAdd: seq<string>, log: map<int, string>, n: nat): (m: MergeResult)
    requires n <= |toAdd|
    ensures m.Merged? ==> |m.cancelled| <= n
    ensures m.roster.open == r.open
  {
    if n == 0 then Merged(r, [])
    else
      var prev := AddNEnrollments(r, toAdd, log, n - 1);
      if prev.MergeCrashed? then prev else EnrollJoinedWrite(prev, toAdd[n - 1], log)
  }

  /**
   * What one iteration of step 4 does: it throws exactly when the write
   * lacks a second field; a well-formed write is refused exactly when the
   * class is open and its student already enrolled, enrolls its student
   * when the class is open, the student new and the class not full, and
   * otherwise leaves the roster alone.
   */
  lemma EnrollPeerWriteEffect(m: MergeResult, write: string)
    requires m.Merged?
    ensures var next := EnrollPeerWrite(m, write);
      && (next.MergeCrashed? <==> !HasTwoFields(write))
      && (HasTwoFields(write) ==>
            var id := Tag(write).value;
            && (next.cancelled == m.cancelled + [write] <==> m.roster.open && id in m.roster.studentsEnrolled)
            && (m.roster.open && id !in m.roster.studentsEnrolled && m.roster.capacity != m.roster.enrolled ==>
                  && next.roster.studentsEnrolled == m.roster.studentsEnrolled[id := Field(write, 1).value]
                  && next.roster.enrolled == m.roster.enrolled + 1)
            && (!(m.roster.open && id !in m.roster.studentsEnrolled && m.roster.capacity != m.roster.enrolled) ==>
                  next.roster == m.roster))
  {
  }

  /**
   * What one iteration of `addNEnrollments` does: it throws exactly when the
   * write lacks a second field; a well-formed write on an open roster is
   * refused exactly when the class is full and the student new, or the
   * student is already enrolled and the write is not one the replica logged
   * itself; the roster changes only by enrolling a new student into a class
   * that is not full.
   */
  lemma EnrollJoinedWriteEffect(m: MergeResult, write: string, log: map<int, string>)
    requires m.Merged?
    ensures var next := EnrollJoinedWrite(m, write, log);
      && (next.MergeCrashed? <==> !HasTwoFields(write))
      && (HasTwoFields(write) ==>
            var id := Tag(write).value;
            && (next.cancelled == m.cancelled + [write] <==>
                  && m.roster.open
                  && ((id !in m.roster.studentsEnrolled && m.roster.capacity == m.roster.enrolled) ||
                      (id in m.roster.studentsEnrolled && !IsMyWrite(log, write))))
            && (m.roster.open && id !in m.roster.studentsEnrolled && m.roster.capacity != m.roster.enrolled ==>
                  && next.roster.studentsEnrolled == m.roster.studentsEnrolled[id := Field(write, 1).value]
                  && next.roster.enrolled == m.roster.enrolled + 1)
            && (!(m.roster.open && id !in m.roster.studentsEnrolled && m.roster.capacity != m.roster.enrolled) ==>
                  next.roster == m.roster))
  {
  }

  /** Step 4 one write further, from the roster and refusals reached so far. */
  lemma PeerWriteStep(r: Roster, ws: seq<WriteRequest>, i: nat, before: Roster, refused: seq<string>)
    requires i < |ws| && ApplyPeerWrites(r, ws, i) == Merged(before, refused)
    ensures var write := ws[i].write;
      && (Field(write, 0).None? || Field(write, 1).None? ==> ApplyPeerWrites(r, ws, i + 1) == MergeCrashed(before))
      && (Field(write, 0).Some? && Field(write, 1).Some? ==>
            var s := AddStudentEnrolled(before, Field(write, 0).value, Field(write, 1).value);
            ApplyPeerWrites(r, ws, i + 1) ==
              Merged(s.roster, if s.outcome == Failed(DuplicateEnrollment) then refused + [write] else refused))
  {
  }

  /** `addNEnrollments` one write further, from the roster and refusals reached so far. */
  lemma JoinedWriteStep(r: Roster, toAdd: seq<string>, log: map<int, string>, i: nat, before: Roster, refused: seq<string>)
    requires i < |toAdd| && AddNEnrollments(r, toAdd, log, i) == Merged(before, refused)
    ensures var write := toAdd[i];
      && (Field(write, 0).None? || Field(write, 1).None? ==> AddNEnrollments(r, toAdd, log, i + 1) == MergeCrashed(before))
      && (Field(write, 0).Some? && Field(write, 1).Some? ==>
            var s := AddStudentEnrolled(before, Field(write, 0).value, Field(write, 1).value);
            var refuse := s.outcome == Failed(ClassFull) || (s.outcome == Failed(DuplicateEnrollment) && !IsMyWrite(log, write));
            AddNEnrollments(r, toAdd, log, i + 1) == Merged(s.roster, if refuse then refused + [write] else refused))
  {
  }

  /** Once step 4 has thrown, the roster it reached is the final one. */
  lemma {:induction false} ApplyCrashIsFinal(r: Roster, ws: seq<WriteRequest>, m: nat, n: nat)
    requires m <= n <= |ws| && ApplyPeerWrites(r, ws, m).MergeCrashed?
    ensures ApplyPeerWrites(r, ws, n) == ApplyPeerWrites(r, ws, m)
  {
    if m < n {
      ApplyCrashIsFinal(r, ws, m, n - 1);
      var prev := ApplyPeerWrites(r, ws, n - 1);
      assert prev.MergeCrashed?;
      assert ApplyPeerWrites(r, ws, n) == prev;
    }
  }

  /** Once `addNEnrollments` has thrown, the roster it reached is the final one. */
  lemma {:induction false} AddNCrashIsFinal(r: Roster, toAdd: seq<string>, log: map<int, string>, m: nat, n: nat)
    requires m <= n <= |toAdd| && AddNEnrollments(r, toAdd, log, m).MergeCrashed?
    ensures AddNEnrollments(r, toAdd, log, n) == AddNEnrollments(r, toAdd, log, m)
  {
    if m < n {
      AddNCrashIsFinal(r, toAdd, log, m, n - 1);
      var prev := AddNEnrollments(r, toAdd, log, n - 1);
      assert prev.MergeCrashed?;
      assert AddNEnrollments(r, toAdd, log, n) == prev;
    }
  }

  /** Every write step 4 refuses is one of the peer's writes, kept in request order. */
  lemma {:induction false} PeerRefusalsArePeerWrites(r: Roster, ws: seq<WriteRequest>, n: nat)
    requires n <= |ws|
    ensures var m := ApplyPeerWrites(r, ws, n);
      m.Merged? ==> forall c :: 0 <= c < |m.cancelled| ==> exists k :: 0 <= k < n && m.cancelled[c] == ws[k].write
  {
    if n > 0 {
      PeerRefusalsArePeerWrites(r, ws, n - 1);
      var prev := ApplyPeerWrites(r, ws, n - 1);
      var m := ApplyPeerWrites(r, ws, n);
      if m.Merged? {
        forall c | 0 <= c < |m.cancelled| ensures exists k :: 0 <= k < n && m.cancelled[c] == ws[k].write {
          if c < |prev.cancelled| {
            var k :| 0 <= k < n - 1 && prev.cancelled[c] == ws[k].write;
          } else {
            assert m.cancelled[c] == ws[n - 1].write;
          }
        }
      }
    }
  }

  /**
   * Step 4 only runs when capacity - counter covers every peer write. The
   * counter then grows by at most one per write processed and stays below
   * the capacity by at least the writes still to come, so the capacity
   * test never refuses a peer write; which writes are refused is stated by
   * HeadroomRefusesExactlyDuplicates.
   */
  lemma {:induction false} HeadroomNeverFills(r: Roster, ws: seq<WriteRequest>, n: nat)
    requires n <= |ws|
    requires r.capacity - r.enrolled - |ws| >= 0
    ensures var m := ApplyPeerWrites(r, ws, n);
      && r.enrolled <= m.roster.enrolled <= r.enrolled + n
      && m.roster.capacity == r.capacity
      && m.roster.enrolled + (|ws| - n) <= m.roster.capacity
  {
    if n > 0 {
      HeadroomNeverFills(r, ws, n - 1);
    }
  }

  /** On a closed roster step 4 enrolls nobody and refuses nothing. */
  lemma {:induction false} ClosedRosterIgnoresPeerWrites(r: Roster, ws: seq<WriteRequest>, n: nat)
    requires n <= |ws|
    requires !r.open
    ensures var m := ApplyPeerWrites(r, ws, n);
      m.roster == r && (m.Merged? ==> m.cancelled == [])
  {
    if n > 0 {
      ClosedRosterIgnoresPeerWrites(r, ws, n - 1);
    }
  }

  /** Every write `addNEnrollments` refuses comes from the joined list. */
  lemma {:induction false} JoinedRefusalsAreJoinedWrites(r: Roster, toAdd: seq<string>, log: map<int, string>, n: nat)
    requires n <= |toAdd|
    ensures var m := AddNEnrollments(r, toAdd, log, n);
      m.Merged? ==> forall c :: 0 <= c < |m.cancelled| ==> exists k :: 0 <= k < n && m.cancelled[c] == toAdd[k]
  {
    if n > 0 {
      JoinedRefusalsAreJoinedWrites(r, toAdd, log, n - 1);
      var prev := AddNEnrollments(r, toAdd, log, n - 1);
      var m := AddNEnrollments(r, toAdd, log, n);
      if m.Merged? {
        forall c | 0 <= c < |m.cancelled| ensures exists k :: 0 <= k < n && m.cancelled[c] == toAdd[k] {
          if c < |prev.cancelled| {
            var k :| 0 <= k < n - 1 && prev.cancelled[c] == toAdd[k];
          } else {
            assert m.cancelled[c] == toAdd[n - 1];
          }
        }
      }
    }
  }

  /** A duplicate that is the replica's own outstanding write is dropped silently, not refused. */
  lemma OwnDuplicateIsNotRefused(m: MergeResult, write: string, log: map<int, string>)
    requires m.Merged?
    requires Field(write, 1).Some?
    requires m.roster.open && Field(write, 0).value in m.roster.studentsEnrolled
    requires IsMyWrite(log, write)
    ensures EnrollJoinedWrite(m, write, log) == m
  {
  }

  /** Step 4 throws exactly when one of the writes it reached lacks a second field. */
  lemma ApplyCrashesIffMalformed(r: Roster, ws: seq<WriteRequest>, n: nat)
    requires n <= |ws|
    ensures ApplyPeerWrites(r, ws, n).MergeCrashed? <==> !PeerWritesWellFormed(ws, n)
    ensures ApplyPeerWrites(r, ws, n).MergeCrashed? <==> exists k :: 0 <= k < n && !HasTwoFields(ws[k].write)
  {
    ApplyCrashesIffNotWellFormed(r, ws, n);
    PeerWritesWellFormedAll(ws, n);
  }

  lemma {:induction false} ApplyCrashesIffNotWellFormed(r: Roster, ws: seq<WriteRequest>, n: nat)
    requires n <= |ws|
    ensures ApplyPeerWrites(r, ws, n).MergeCrashed? <==> !PeerWritesWellFormed(ws, n)
  {
    if n > 0 {
      ApplyCrashesIffNotWellFormed(r, ws, n - 1);
      var prev := ApplyPeerWrites(r, ws, n - 1);
      if prev.Merged? {
        assert ApplyPeerWrites(r, ws, n) == EnrollPeerWrite(prev, ws[n - 1].write);
      }
    }
  }

  /** `addNEnrollments` throws exactly when one of the writes it reached lacks a second field. */
  lemma AddNCrashesIffMalformed(r: Roster, toAdd: seq<string>, log: map<int, string>, n: nat)
    requires n <= |toAdd|
    ensures AddNEnrollments(r, toAdd, log, n).MergeCrashed? <==> !JoinedWritesWellFormed(toAdd, n)
    ensures AddNEnrollments(r, toAdd, log, n).MergeCrashed? <==> exists k :: 0 <= k < n && !HasTwoFields(toAdd[k])
  {
    AddNCrashesIffNotWellFormed(r, toAdd, log, n);
    JoinedWritesWellFormedAll(toAdd, n);
  }

  lemma {:induction false} AddNCrashesIffNotWellFormed(r: Roster, toAdd: seq<string>, log: map<int, string>, n: nat)
    requires n <= |toAdd|
    ensures AddNEnrollments(r, toAdd, log, n).MergeCrashed? <==> !JoinedWritesWellFormed(toAdd, n)
  {
    if n > 0 {
      AddNCrashesIffNotWellFormed(r, toAdd, log, n - 1);
      var prev := AddNEnrollments(r, toAdd, log, n - 1);
      if prev.Merged? {
        JoinedWriteCrashes(prev, toAdd[n - 1], log);
        assert AddNEnrollments(r, toAdd, log, n) == EnrollJoinedWrite(prev, toAdd[n - 1], log);
      }
    }
  }

  lemma JoinedWriteCrashes(m: MergeResult, write: string, log: map<int, string>)
    requires m.Merged?
    ensures EnrollJoinedWrite(m, write, log).MergeCrashed? <==> !HasTwoFields(write)
  {
  }

  /** Each of the first `n` peer writes has a second field. */
  predicate PeerWritesWellFormed(ws: seq<WriteRequest>, n: nat)
    requires n <= |ws|
  {
    n == 0 || (PeerWritesWellFormed(ws, n - 1) && HasTwoFields(ws[n - 1].write))
  }

  lemma {:induction false} PeerWritesWellFormedAll(ws: seq<WriteRequest>, n: nat)
    requires n <= |ws|
    ensures PeerWritesWellFormed(ws, n) <==> forall k :: 0 <= k < n ==> HasTwoFields(ws[k].write)
  {
    if n > 0 {
      PeerWritesWellFormedAll(ws, n - 1);
    }
  }

  /** Each of the first `n` joined writes has a second field. */
  predicate JoinedWritesWellFormed(toAdd: seq<string>, n: nat)
    requires n <= |toAdd|
  {
    n == 0 || (JoinedWritesWellFormed(toAdd, n - 1) && HasTwoFields(toAdd[n - 1]))
  }

  lemma {:induction false} JoinedWritesWellFormedAll(toAdd: seq<string>, n: nat)
    requires n <= |toAdd|
    ensures JoinedWritesWellFormed(toAdd, n) <==> forall k :: 0 <= k < n ==> HasTwoFields(toAdd[k])
  {
    if n > 0 {
      JoinedWritesWellFormedAll(toAdd, n - 1);
    }
  }

  /** The ids enrolled before the merge, with those the first `n` peer writes name. */
  function SeenIds(r: Roster, ws: seq<WriteRequest>, n: nat): set<string>
    requires n <= |ws|
  {
    if n == 0 then r.studentsEnrolled.Keys
    else SeenIds(r, ws, n - 1) + (match Tag(ws[n - 1].write) case Some(id) => {id} case None => {})
  }

  /** Peer write `k` names a student enrolled before the merge, or one an earlier peer write named. */
  predicate SeenBefore(r: Roster, ws: seq<WriteRequest>, k: nat)
    requires k < |ws|
  {
    Tag(ws[k].write).Some? && Tag(ws[k].write).value in SeenIds(r, ws, k)
  }

  /** The peer writes among the first `n` that name a student already seen, in request order. */
  function PeerDuplicates(r: Roster, ws: seq<WriteRequest>, n: nat): seq<string>
    requires n <= |ws|
  {
    if n == 0 then []
    else PeerDuplicates(r, ws, n - 1) + (if SeenBefore(r, ws, n - 1) then [ws[n - 1].write] else [])
  }

  /**
   * Step 4 runs only when capacity - counter covers every peer write, and
   * then, on an open roster, the class never reports itself full: the writes
   * refused are exactly the peer writes naming a student already seen, every
   * student seen ends enrolled, and the counter rises by one per write not
   * refused.
   */
  lemma {:induction false} HeadroomRefusesExactlyDuplicates(r: Roster, ws: seq<WriteRequest>, n: nat)
    requires n <= |ws|
    requires r.open && Headroom(r, ws) >= 0
    requires PeerWritesWellFormed(ws, n)
    ensures var m := ApplyPeerWrites(r, ws, n);
      && m.Merged?
      && m.cancelled == PeerDuplicates(r, ws, n)
      && m.roster.enrolled == r.enrolled + n - |m.cancelled|
      && m.roster.open && m.roster.capacity == r.capacity
      && m.roster.studentsEnrolled.Keys == SeenIds(r, ws, n)
  {
    if n > 0 {
      HeadroomRefusesExactlyDuplicates(r, ws, n - 1);
      var prev := ApplyPeerWrites(r, ws, n - 1);
      var w := ws[n - 1].write;
      assert HasTwoFields(w);
      assert ApplyPeerWrites(r, ws, n) == EnrollPeerWrite(prev, w);
      assert prev.roster.capacity != prev.roster.enrolled;
      EnrollPeerWriteEffect(prev, w);
      assert SeenIds(r, ws, n) == SeenIds(r, ws, n - 1) + {Tag(w).value};
      assert SeenBefore(r, ws, n - 1) <==> Tag(w).value in prev.roster.studentsEnrolled;
    }
  }

  /** An earlier peer write's id stays seen. */
  lemma {:induction false} SeenIdsGrow(r: Roster, ws: seq<WriteRequest>, j: nat, k: nat)
    requires j < k <= |ws| && Tag(ws[j].write).Some?
    ensures Tag(ws[j].write).value in SeenIds(r, ws, k)
  {
    if j < k - 1 {
      SeenIdsGrow(r, ws, j, k - 1);
    }
  }

  /** One step-4 iteration on an open roster with room, with a well-formed write: the enrolled map it leaves. */
  lemma PeerWriteOutcome(prev: MergeResult, w: string)
    requires prev.Merged? && prev.roster.open && prev.roster.capacity != prev.roster.enrolled && HasTwoFields(w)
    ensures var m := EnrollPeerWrite(prev, w);
      && m.Merged?
      && (Tag(w).value in prev.roster.studentsEnrolled ==> m.roster.studentsEnrolled == prev.roster.studentsEnrolled)
      && (Tag(w).value !in prev.roster.studentsEnrolled ==>
            m.roster.studentsEnrolled == prev.roster.studentsEnrolled[Tag(w).value := Field(w, 1).value])
  {
  }

  /** Under the same conditions, step 4 keeps every student enrolled before it, under the same name. */
  lemma {:induction false} HeadroomKeepsEnrolledNames(r: Roster, ws: seq<WriteRequest>, n: nat)
    requires n <= |ws|
    requires r.open && Headroom(r, ws) >= 0
    requires PeerWritesWellFormed(ws, n)
    ensures var m := ApplyPeerWrites(r, ws, n);
      forall id :: id in r.studentsEnrolled ==>
        id in m.roster.studentsEnrolled && m.roster.studentsEnrolled[id] == r.studentsEnrolled[id]
  {
    if n > 0 {
      HeadroomKeepsEnrolledNames(r, ws, n - 1);
      HeadroomRefusesExactlyDuplicates(r, ws, n - 1);
      SeenIdsContainInitial(r, ws, n - 1);
      var prev := ApplyPeerWrites(r, ws, n - 1);
      var w := ws[n - 1].write;
      assert HasTwoFields(w);
      assert ApplyPeerWrites(r, ws, n) == EnrollPeerWrite(prev, w);
      assert prev.roster.capacity != prev.roster.enrolled;
    }
  }

  /** Under the same conditions, peer write `j`, naming a student not seen before it, leaves that student enrolled under its name. */
  lemma {:induction false} HeadroomEnrollsWrite(r: Roster, ws: seq<WriteRequest>, j: nat, n: nat)
    requires j < n <= |ws|
    requires r.open && Headroom(r, ws) >= 0
    requires PeerWritesWellFormed(ws, n)
    requires HasTwoFields(ws[j].write) && !SeenBefore(r, ws, j)
    ensures var m := ApplyPeerWrites(r, ws, n);
      && m.Merged?
      && Tag(ws[j].write).value in m.roster.studentsEnrolled
      && m.roster.studentsEnrolled[Tag(ws[j].write).value] == Field(ws[j].write, 1).value
  {
    HeadroomRefusesExactlyDuplicates(r, ws, n - 1);
    var prev := ApplyPeerWrites(r, ws, n - 1);
    var w := ws[n - 1].write;
    assert HasTwoFields(w);
    assert prev.roster.capacity != prev.roster.enrolled;
    PeerWriteOutcome(prev, w);
    assert ApplyPeerWrites(r, ws, n) == EnrollPeerWrite(prev, w);
    if j < n - 1 {
      HeadroomEnrollsWrite(r, ws, j, n - 1);
      SeenIdsGrow(r, ws, j, n - 1);
    }
  }

  /**
   * Under the same conditions, each peer write naming a student not seen
   * before it ends with that student enrolled under the write's name.
   */
  lemma HeadroomEnrollsUnderGivenNames(r: Roster, ws: seq<WriteRequest>, n: nat)
    requires n <= |ws|
    requires r.open && Headroom(r, ws) >= 0
    requires PeerWritesWellFormed(ws, n)
    ensures var m := ApplyPeerWrites(r, ws, n);
      forall j :: 0 <= j < n && HasTwoFields(ws[j].write) && !SeenBefore(r, ws, j) ==>
        && Tag(ws[j].write).value in m.roster.studentsEnrolled
        && m.roster.studentsEnrolled[Tag(ws[j].write).value] == Field(ws[j].write, 1).value
  {
    forall j | 0 <= j < n && HasTwoFields(ws[j].write) && !SeenBefore(r, ws, j)
      ensures var m := ApplyPeerWrites(r, ws, n);
        && Tag(ws[j].write).value in m.roster.studentsEnrolled
        && m.roster.studentsEnrolled[Tag(ws[j].write).value] == Field(ws[j].write, 1).value
    {
      HeadroomEnrollsWrite(r, ws, j, n);
    }
  }

  /** The ids enrolled before the merge are always seen. */
  lemma {:induction false} SeenIdsContainInitial(r: Roster, ws: seq<WriteRequest>, n: nat)
    requires n <= |ws|
    ensures r.studentsEnrolled.Keys <= SeenIds(r, ws, n)
  {
    if n > 0 {
      SeenIdsContainInitial(r, ws, n - 1);
    }
  }

  /**
   * `addNEnrollments` on an open roster with well-formed writes completes,
   * keeps the roster open, loses no enrolled student, and keeps a counter
   * within the capacity there.
   */
  lemma {:induction false} JoinedWritesKeepCapacity(r: Roster, toAdd: seq<string>, log: map<int, string>, n: nat)
    requires n <= |toAdd|
    requires r.open
    requires JoinedWritesWellFormed(toAdd, n)
    ensures var m := AddNEnrollments(r, toAdd, log, n);
      && m.Merged?
      && m.roster.open && m.roster.capacity == r.capacity
      && (r.enrolled <= r.capacity ==> m.roster.enrolled <= r.capacity)
      && r.studentsEnrolled.Keys <= m.roster.studentsEnrolled.Keys
  {
    if n > 0 {
      JoinedWritesKeepCapacity(r, toAdd, log, n - 1);
      var prev := AddNEnrollments(r, toAdd, log, n - 1);
      assert HasTwoFields(toAdd[n - 1]);
      assert AddNEnrollments(r, toAdd, log, n) == EnrollJoinedWrite(prev, toAdd[n - 1], log);
    }
  }

  /** One `addNEnrollments` iteration on an open roster, with a well-formed write: what the two loop lemmas below carry forward. */
  lemma JoinedWriteOutcome(prev: MergeResult, w: string, log: map<int, string>)
    requires prev.Merged? && prev.roster.open && HasTwoFields(w)
    ensures var m := EnrollJoinedWrite(prev, w, log);
      && m.Merged?
      && m.roster.open && m.roster.capacity == prev.roster.capacity
      && prev.roster.studentsEnrolled.Keys <= m.roster.studentsEnrolled.Keys
      && (prev.roster.enrolled == prev.roster.capacity ==> m.roster == prev.roster)
      && (m.cancelled == prev.cancelled || m.cancelled == prev.cancelled + [w])
      && (Tag(w).value in m.roster.studentsEnrolled || m.roster.enrolled == m.roster.capacity)
      && (m.cancelled == prev.cancelled + [w] ==>
            || m.roster.enrolled == m.roster.capacity
            || (Tag(w).value in m.roster.studentsEnrolled && !IsMyWrite(log, w)))
  {
  }

  /** Joined write `j`, once processed, stays enrolled or leaves the class full from then on. */
  lemma {:induction false} JoinedWriteEnrolledUnlessFull(r: Roster, toAdd: seq<string>, log: map<int, string>, j: nat, n: nat)
    requires j < n <= |toAdd|
    requires r.open
    requires JoinedWritesWellFormed(toAdd, n) && HasTwoFields(toAdd[j])
    ensures var m := AddNEnrollments(r, toAdd, log, n);
      && m.Merged?
      && (Tag(toAdd[j]).value in m.roster.studentsEnrolled || m.roster.enrolled == m.roster.capacity)
  {
    JoinedWritesKeepCapacity(r, toAdd, log, n - 1);
    var prev := AddNEnrollments(r, toAdd, log, n - 1);
    var w := toAdd[n - 1];
    assert HasTwoFields(w);
    JoinedWriteOutcome(prev, w, log);
    var m := EnrollJoinedWrite(prev, w, log);
    assert AddNEnrollments(r, toAdd, log, n) == m;
    if j < n - 1 {
      JoinedWriteEnrolledUnlessFull(r, toAdd, log, j, n - 1);
      var id := Tag(toAdd[j]).value;
      if id in prev.roster.studentsEnrolled {
        assert id in m.roster.studentsEnrolled;
      } else {
        assert prev.roster.enrolled == prev.roster.capacity;
        assert m.roster == prev.roster;
      }
    }
  }

  /**
   * `addNEnrollments` on an open roster loses no student unless the class
   * fills up: each joined write ends with its student enrolled, or the
   * counter ends at the capacity.
   */
  lemma JoinedWritesEnrolledUnlessFull(r: Roster, toAdd: seq<string>, log: map<int, string>, n: nat)
    requires n <= |toAdd|
    requires r.open
    requires JoinedWritesWellFormed(toAdd, n)
    ensures var m := AddNEnrollments(r, toAdd, log, n);
      && m.Merged?
      && (forall k :: 0 <= k < n && HasTwoFields(toAdd[k]) ==>
            Tag(toAdd[k]).value in m.roster.studentsEnrolled || m.roster.enrolled == m.roster.capacity)
  {
    JoinedWritesKeepCapacity(r, toAdd, log, n);
    forall k | 0 <= k < n && HasTwoFields(toAdd[k])
      ensures var m := AddNEnrollments(r, toAdd, log, n);
        Tag(toAdd[k]).value in m.roster.studentsEnrolled || m.roster.enrolled == m.roster.capacity
    {
      JoinedWriteEnrolledUnlessFull(r, toAdd, log, k, n);
    }
  }

  /**
   * A write `addNEnrollments` refuses was refused for a reason that still
   * holds at the end: the class is full, or the student is enrolled and the
   * write is not one of this replica's own.
   */
  lemma {:induction false} JoinedRefusalsHaveCause(r: Roster, toAdd: seq<string>, log: map<int, string>, n: nat)
    requires n <= |toAdd|
    requires r.open
    requires JoinedWritesWellFormed(toAdd, n)
    ensures var m := AddNEnrollments(r, toAdd, log, n);
      && m.Merged?
      && (forall c :: 0 <= c < |m.cancelled| ==> HasTwoFields(m.cancelled[c]))
      && (forall c :: 0 <= c < |m.cancelled| ==>
            || m.roster.enrolled == m.roster.capacity
            || (Tag(m.cancelled[c]).value in m.roster.studentsEnrolled && !IsMyWrite(log, m.cancelled[c])))
  {
    JoinedWritesKeepCapacity(r, toAdd, log, n);
    if n > 0 {
      JoinedRefusalsHaveCause(r, toAdd, log, n - 1);
      JoinedWritesKeepCapacity(r, toAdd, log, n - 1);
      var prev := AddNEnrollments(r, toAdd, log, n - 1);
      var w := toAdd[n - 1];
      assert HasTwoFields(w);
      JoinedWriteOutcome(prev, w, log);
      var m := EnrollJoinedWrite(prev, w, log);
      assert AddNEnrollments(r, toAdd, log, n) == m;
      forall c | 0 <= c < |m.cancelled|
        ensures HasTwoFields(m.cancelled[c])
        ensures || m.roster.enrolled == m.roster.capacity
                || (Tag(m.cancelled[c]).value in m.roster.studentsEnrolled && !IsMyWrite(log, m.cancelled[c]))
      {
        if c < |prev.cancelled| {
          assert m.cancelled[c] == prev.cancelled[c];
        }
      }
    }
  }

  /* ---------- unifyState and updateState ---------- */

  /**
   * `updateState`: open flag, capacity and both maps are replaced by the
   * received state; the counter and the active flag are not touched.
   */
  function AdoptState(r: Roster, cs: ClassState): (a: Roster)
    ensures a.enrolled == r.enrolled && a.active == r.active
    ensures a.open == cs.open && a.capacity == cs.capacity
    ensures a.studentsEnrolled.Keys == set k | 0 <= k < |cs.enrolled| :: cs.enrolled[k].id
    ensures a.studentsDiscarded.Keys == set k | 0 <= k < |cs.discarded| :: cs.discarded[k].id
  {
    r.(open := cs.open, capacity := cs.capacity,
       studentsEnrolled := ToMap(cs.enrolled), studentsDiscarded := ToMap(cs.discarded))
  }

  /** A state listed without repeated ids is adopted entry for entry. */
  lemma AdoptDistinctState(r: Roster, cs: ClassState)
    requires DistinctIds(cs.enrolled) && DistinctIds(cs.discarded)
    ensures |AdoptState(r, cs).studentsEnrolled| == |cs.enrolled|
    ensures forall k :: 0 <= k < |cs.enrolled| ==> AdoptState(r, cs).studentsEnrolled[cs.enrolled[k].id] == cs.enrolled[k].name
    ensures forall k :: 0 <= k < |cs.discarded| ==> AdoptState(r, cs).studentsDiscarded[cs.discarded[k].id] == cs.discarded[k].name
  {
    ToMapOfDistinct(cs.enrolled);
    ToMapOfDistinct(cs.discarded);
  }

  /** The quantities `unifyState` computes before its loops. */
  function Headroom(r: Roster, ws: seq<WriteRequest>): int
  {
    r.capacity - r.enrolled - |ws|
  }

  function Min(a: int, b: int): int
  {
    if a < b then a else b
  }

  /** The join `unifyState` runs over the first min(|peer writes|, |own log|) positions of both sequences. */
  function JoinOf(log: map<int, string>, clock: int, primary: bool, ws: seq<WriteRequest>): JoinState
  {
    Join(log, clock - |log|, ws, MinClock(ws), primary, Min(|ws|, |log|))
  }

  /** The join met the peer's close and no close of the replica's own before it. */
  predicate PeerClosedFirst(js: JoinState)
  {
    js.Joining? && js.toClose && !js.iClosed
  }

  /** `unifyState` on the roster `r`, with the replica's log `log` and clock `clock`. */
  function UnifyState(r: Roster, log: map<int, string>, clock: int, primary: bool, req: PropagateStateRequest): (u: MergeResult)
    ensures u.roster.active == r.active
    ensures u.roster.enrolled >= r.enrolled
    ensures u.Merged? && u.roster.studentsEnrolled != r.studentsEnrolled && ScanOpen(req.writes) != OpenFound ==>
              u.roster.enrolled > r.enrolled
    ensures ScanOpen(req.writes) == OpenFound ==> u == Merged(AdoptState(r, req.classState), [])
    ensures ScanOpen(req.writes) == NoOpen ==>
              (u.roster.open <==>
                 r.open && !(u.Merged? && Headroom(r, req.writes) >= 0 && PeerClosedFirst(JoinOf(log, clock, primary, req.writes))))
  {
    var ws := req.writes;
    match ScanOpen(ws)
    case ScanCrashed => MergeCrashed(r)
    case OpenFound => Merged(AdoptState(r, req.classState), [])
    case NoOpen =>
      var js := JoinOf(log, clock, primary, ws);
      if js.JoinCrashed? then MergeCrashed(r)
      else if Headroom(r, ws) >= 0 then
        var m := ApplyPeerWrites(r, ws, |ws|);
        EnrollmentsGrow(r, ws, |ws|);
        if m.Merged? && js.toClose && !js.iClosed then Merged(m.roster.(open := false), m.cancelled) else m
      else
        AddNGrow(r, js.toAdd, log, |js.toAdd|);
        AddNEnrollments(r, js.toAdd, log, |js.toAdd|)
  }

  /**
   * With headroom for every peer write, all of them well formed and the
   * class open, `unifyState` refuses exactly the peer writes whose student
   * was already enrolled or named by an earlier peer write, enrolls the
   * others, and raises the counter by the number enrolled.
   */
  lemma UnifyStateRefusesPeerDuplicates(r: Roster, log: map<int, string>, clock: int, primary: bool, req: PropagateStateRequest)
    requires ScanOpen(req.writes) == NoOpen && JoinOf(log, clock, primary, req.writes).Joining?
    requires r.open && Headroom(r, req.writes) >= 0
    requires forall k :: 0 <= k < |req.writes| ==> HasTwoFields(req.writes[k].write)
    ensures var u := UnifyState(r, log, clock, primary, req);
      && u.Merged?
      && u.cancelled == PeerDuplicates(r, req.writes, |req.writes|)
      && u.roster.enrolled == r.enrolled + |req.writes| - |u.cancelled|
      && u.roster.studentsEnrolled.Keys == SeenIds(r, req.writes, |req.writes|)
      && u.roster.capacity == r.capacity
  {
    PeerWritesWellFormedAll(req.writes, |req.writes|);
    HeadroomRefusesExactlyDuplicates(r, req.writes, |req.writes|);
  }

  /**
   * Without that headroom, every well-formed write the join hands over ends
   * enrolled unless the class fills up, and every refusal is explained by a
   * full class or by a student already enrolled through a write the
   * replica did not log itself.
   */
  lemma UnifyStateRefusesJoinedWrites(r: Roster, log: map<int, string>, clock: int, primary: bool, req: PropagateStateRequest)
    requires ScanOpen(req.writes) == NoOpen && JoinOf(log, clock, primary, req.writes).Joining?
    requires r.open && Headroom(r, req.writes) < 0
    requires var toAdd := JoinOf(log, clock, primary, req.writes).toAdd;
      forall k :: 0 <= k < |toAdd| ==> HasTwoFields(toAdd[k])
    ensures var toAdd := JoinOf(log, clock, primary, req.writes).toAdd;
      var u := UnifyState(r, log, clock, primary, req);
      && u.Merged?
      && u.roster.open && u.roster.capacity == r.capacity
      && (r.enrolled <= r.capacity ==> u.roster.enrolled <= r.capacity)
      && (forall k :: 0 <= k < |toAdd| && HasTwoFields(toAdd[k]) ==>
            Tag(toAdd[k]).value in u.roster.studentsEnrolled || u.roster.enrolled == u.roster.capacity)
      && (forall c :: 0 <= c < |u.cancelled| ==>
            && HasTwoFields(u.cancelled[c])
            && (|| u.roster.enrolled == u.roster.capacity
                || (Tag(u.cancelled[c]).value in u.roster.studentsEnrolled && !IsMyWrite(log, u.cancelled[c]))))
  {
    var toAdd := JoinOf(log, clock, primary, req.writes).toAdd;
    JoinedWritesWellFormedAll(toAdd, |toAdd|);
    JoinedWritesKeepCapacity(r, toAdd, log, |toAdd|);
    JoinedWritesEnrolledUnlessFull(r, toAdd, log, |toAdd|);
    JoinedRefusalsHaveCause(r, toAdd, log, |toAdd|);
  }

  /** Step 4 only adds: the counter never falls, and a changed enrolled map means a raised counter. */
  lemma {:induction false} EnrollmentsGrow(r: Roster, ws: seq<WriteRequest>, n: nat)
    requires n <= |ws|
    ensures var m := ApplyPeerWrites(r, ws, n);
      && m.roster.enrolled >= r.enrolled && m.roster.active == r.active
      && (m.roster.studentsEnrolled != r.studentsEnrolled ==> m.roster.enrolled > r.enrolled)
  {
    if n > 0 {
      EnrollmentsGrow(r, ws, n - 1);
      var prev := ApplyPeerWrites(r, ws, n - 1);
      if prev.Merged? {
        var m := EnrollPeerWrite(prev, ws[n - 1].write);
        assert Grows(prev.roster, m.roster);
        if prev.roster.studentsEnrolled == r.studentsEnrolled {
          assert m.roster.studentsEnrolled != r.studentsEnrolled ==> m.roster.enrolled == prev.roster.enrolled + 1;
        }
      }
    }
  }

  /** The same for `addNEnrollments`. */
  lemma {:induction false} AddNGrow(r: Roster, toAdd: seq<string>, log: map<int, string>, n: nat)
    requires n <= |toAdd|
    ensures var m := AddNEnrollments(r, toAdd, log, n);
      && m.roster.enrolled >= r.enrolled && m.roster.active == r.active
      && (m.roster.studentsEnrolled != r.studentsEnrolled ==> m.roster.enrolled > r.enrolled)
  {
    if n > 0 {
      AddNGrow(r, toAdd, log, n - 1);
      var prev := AddNEnrollments(r, toAdd, log, n - 1);
      if prev.Merged? {
        var m := EnrollJoinedWrite(prev, toAdd[n - 1], log);
        assert Grows(prev.roster, m.roster);
        if prev.roster.studentsEnrolled == r.studentsEnrolled {
          assert m.roster.studentsEnrolled != r.studentsEnrolled ==> m.roster.enrolled == prev.roster.enrolled + 1;
        }
      }
    }
  }

  /**
   * A peer write tagged "open" (every earlier one well formed) makes the
   * replica adopt the peer's state wholesale, keep its own counter, and refuse nothing.
   */
  lemma PeerOpenAdoptsPeerState(r: Roster, log: map<int, string>, clock: int, primary: bool,
                                req: PropagateStateRequest, k: nat)
    requires k < |req.writes| && Tag(req.writes[k].write) == Some("open")
    requires forall j :: 0 <= j < k ==> Tag(req.writes[j].write).Some?
    ensures UnifyState(r, log, clock, primary, req) == Merged(AdoptState(r, req.classState), [])
    ensures UnifyState(r, log, clock, primary, req).roster.enrolled == r.enrolled
  {
    assert ScanOpen(req.writes) != NoOpen;
    OpenScanIsNotCrash(req.writes, k);
  }

  lemma {:induction false} OpenScanIsNotCrash(ws: seq<WriteRequest>, k: nat)
    requires k < |ws| && Tag(ws[k].write) == Some("open")
    requires forall j :: 0 <= j < k ==> Tag(ws[j].write).Some?
    ensures ScanOpen(ws) == OpenFound
  {
    if Tag(ws[0].write) != Some("open") {
      assert k > 0;
      assert forall j :: 1 <= j < |ws| ==> ws[1..][j - 1] == ws[j];
      OpenScanIsNotCrash(ws[1..], k - 1);
    }
  }

  /**
   * A replica with no outstanding writes of its own and no headroom applies
   * none of the peer's writes: the join covers min(|peer|, 0) = 0 positions.
   */
  lemma EmptyOwnLogAppliesNothing(r: Roster, clock: int, primary: bool, req: PropagateStateRequest)
    requires ScanOpen(req.writes) == NoOpen
    requires Headroom(r, req.writes) < 0
    ensures UnifyState(r, map[], clock, primary, req) == Merged(r, [])
  {
  }

  /**
   * A peer's close write reaching a replica with no writes of its own is read
   * as an enrollment: a student with id "close" is enrolled under the
   * write's second field, and the class stays open, since the close flags
   * are only ever raised inside the join.
   */
  lemma PeerCloseEnrollsPhantomStudent(r: Roster, clock: int, primary: bool, cs: ClassState, close: string)
    requires IsClose(close) && Field(close, 1).Some?
    requires r.open && "close" !in r.studentsEnrolled && r.capacity - r.enrolled >= 1
    ensures var u := UnifyState(r, map[], clock, primary, PropagateStateRequest(cs, [WriteRequest(close, 0)]));
      && u.Merged?
      && u.roster.open
      && u.roster.studentsEnrolled == r.studentsEnrolled["close" := Field(close, 1).value]
      && u.cancelled == []
  {
    var ws := [WriteRequest(close, 0)];
    assert ws[1..] == [];
    assert ScanOpen(ws) == NoOpen;
    assert JoinOf(map[], clock, primary, ws) == Joining([], false, false);
    assert HasTwoFields(close) && Tag(close).value == "close";
    EnrollPeerWriteEffect(Merged(r, []), close);
    assert ApplyPeerWrites(r, ws, 1) == EnrollPeerWrite(Merged(r, []), close);
  }

  /** "close:0", the write a successful closeEnrollments logs, is such a write: it enrolls "close" with name "0". */
  lemma CloseWriteFields()
    ensures IsClose("close:0") && Field("close:0", 1) == Some("0")
  {
    SplitPair("close", "0");
    assert "close" + ":" + "0" == "close:0";
  }

  /* ---------- the propagateState handler ---------- */

  /** One iteration of the handler's loop over refused writes: `addNewDiscarded` on the write's fields, a duplicate ignored. */
  function DiscardOne(m: MergeResult, write: string): (next: MergeResult)
    requires m.Merged?
    ensures next.roster.(studentsDiscarded := m.roster.studentsDiscarded) == m.roster
    ensures m.roster.studentsDiscarded.Keys <= next.roster.studentsDiscarded.Keys
    ensures next.Merged? <==> Field(write, 1).Some?
    ensures next.Merged? ==> Tag(write).Some? && Tag(write).value in next.roster.studentsDiscarded && next.cancelled == m.cancelled
  {
    var id := Field(write, 0);
    var name := Field(write, 1);
    if id.None? || name.None? then MergeCrashed(m.roster)
    else Merged(AddNewDiscarded(m.roster, id.value, name.value).roster, m.cancelled)
  }

  /** The handler's loop over the first `n` refused writes. */
  function DiscardAll(r: Roster, cancelled: seq<string>, n: nat): (m: MergeResult)
    requires n <= |cancelled|
    ensures m.Merged? <==> forall c :: 0 <= c < n ==> Field(cancelled[c], 1).Some?
    ensures m.roster.(studentsDiscarded := r.studentsDiscarded) == r
  {
    if n == 0 then Merged(r, cancelled)
    else
      var prev := DiscardAll(r, cancelled, n - 1);
      if prev.MergeCrashed? then prev else DiscardOne(prev, cancelled[n - 1])
  }

  /** Once the loop over refusals has thrown, the roster it reached is the final one. */
  lemma {:induction false} DiscardCrashIsFinal(r: Roster, cancelled: seq<string>, m: nat, n: nat)
    requires m <= n <= |cancelled| && DiscardAll(r, cancelled, m).MergeCrashed?
    ensures DiscardAll(r, cancelled, n) == DiscardAll(r, cancelled, m)
  {
    if m < n {
      DiscardCrashIsFinal(r, cancelled, m, n - 1);
    }
  }

  /** After the loop every refused write's id is in the discarded map, and nothing but that map has changed. */
  lemma {:induction false} DiscardAllRecordsEveryRefusal(r: Roster, cancelled: seq<string>, n: nat)
    requires n <= |cancelled|
    ensures var m := DiscardAll(r, cancelled, n);
      && m.roster.(studentsDiscarded := r.studentsDiscarded) == r
      && r.studentsDiscarded.Keys <= m.roster.studentsDiscarded.Keys
      && (m.Merged? ==> forall c :: 0 <= c < n ==> Tag(cancelled[c]).Some? && Tag(cancelled[c]).value in m.roster.studentsDiscarded)
  {
    if n > 0 {
      DiscardAllRecordsEveryRefusal(r, cancelled, n - 1);
      var prev := DiscardAll(r, cancelled, n - 1);
      var m := DiscardAll(r, cancelled, n);
      if m.Merged? {
        assert prev.Merged? && m == DiscardOne(prev, cancelled[n - 1]);
        var before := prev.roster.studentsDiscarded.Keys;
        assert before <= m.roster.studentsDiscarded.Keys;
        forall c | 0 <= c < n ensures Tag(cancelled[c]).Some? && Tag(cancelled[c]).value in m.roster.studentsDiscarded {
          if c < n - 1 {
            assert Tag(cancelled[c]).value in before;
          }
        }
      }
    }
  }

  /** What the handler does to the replica: the roster reached, whether the log is cleared, and the answer. */
  datatype HandlerEffect = HandlerEffect(roster: Roster, clearsLog: bool, reply: Reply<()>)

  /**
   * The propagateState handler: deadline, then activity, then validation of
   * the received state, then the merge and the recording of refusals. A
   * runtime exception escaping the handler closes the call with UNKNOWN and
   * leaves the roster as far as it got.
   */
  function PropagateStateOutcome(r: Roster, log: map<int, string>, clock: int, primary: bool,
                                 deadlinePassed: bool, req: PropagateStateRequest): (e: HandlerEffect)
    ensures e.clearsLog <==> e.reply == Respond(OK, ())
    ensures deadlinePassed ==> e == HandlerEffect(r, false, Fail(DEADLINE_EXCEEDED))
    ensures !deadlinePassed && !r.active ==> e == HandlerEffect(r, false, Respond(INACTIVE_SERVER, ()))
    ensures !deadlinePassed && r.active && ValidateClassState(req.classState) in {InvalidCapacity, InvalidStudent} ==>
              e == HandlerEffect(r, false, Fail(INVALID_ARGUMENT))
    ensures e.reply.Respond? ==> e.reply.code in {OK, INACTIVE_SERVER}
    ensures e.reply == Respond(OK, ()) ==>
              var u := UnifyState(r, log, clock, primary, req);
              && u.Merged?
              && e.roster.(studentsDiscarded := u.roster.studentsDiscarded) == u.roster
              && forall c :: 0 <= c < |u.cancelled| ==> Tag(u.cancelled[c]).Some? && Tag(u.cancelled[c]).value in e.roster.studentsDiscarded
    ensures var u := UnifyState(r, log, clock, primary, req);
              e.reply == Respond(OK, ()) <==>
                && !deadlinePassed && r.active && ValidateClassState(req.classState) == StateAccepted
                && u.Merged? && forall c :: 0 <= c < |u.cancelled| ==> Field(u.cancelled[c], 1).Some?
  {
    if deadlinePassed then HandlerEffect(r, false, Fail(DEADLINE_EXCEEDED))
    else if !r.active then HandlerEffect(r, false, Respond(INACTIVE_SERVER, ()))
    else
      match ValidateClassState(req.classState)
      case InvalidCapacity => HandlerEffect(r, false, Fail(INVALID_ARGUMENT))
      case InvalidStudent => HandlerEffect(r, false, Fail(INVALID_ARGUMENT))
      case StudentIndexOutOfBounds => HandlerEffect(r, false, Fail(UNKNOWN))
      case StateAccepted =>
        var u := UnifyState(r, log, clock, primary, req);
        if u.MergeCrashed? then HandlerEffect(u.roster, false, Fail(UNKNOWN))
        else
          var d := DiscardAll(u.roster, u.cancelled, |u.cancelled|);
          DiscardAllRecordsEveryRefusal(u.roster, u.cancelled, |u.cancelled|);
          if d.MergeCrashed? then HandlerEffect(d.roster, false, Fail(UNKNOWN))
          else HandlerEffect(d.roster, true, Respond(OK, ()))
  }
}
