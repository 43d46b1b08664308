/**
 * The class roster of one replica as a value, and every ClassDomain mutator
 * as a transition on it. Each transition checks its guards in the order the
 * replica does and, on the first guard that fails, reports that error and
 * leaves the roster exactly as it was.
 */
module DomainSpec {

  /** The exceptions the roster operations throw, one constructor each. */
  datatype DomainError =
    | ClosedForEnrollments
    | DuplicateEnrollment
    | ClassFull
    | UnknownEnrollment
    | DuplicateCancellation
    | UnknownCancellation
    | EnrollmentsAlreadyOpened
    | FullClass
    | EnrollmentsAlreadyClosed
    | InactiveServer

  datatype Outcome = Done | Failed(error: DomainError)

  /**
   * The six fields of a ClassDomain. `enrolled` is a counter of its own: it
   * is kept beside `studentsEnrolled`, never recomputed from it.
   */
  datatype Roster = Roster(
    capacity: int,
    enrolled: int,
    open: bool,
    active: bool,
    studentsEnrolled: map<string, string>,
    studentsDiscarded: map<string, string>)

  datatype Step = Step(roster: Roster, outcome: Outcome)

  /** A freshly created domain: closed, active, no capacity, nobody listed. */
  const Initial := Roster(0, 0, false, true, map[], map[])

  /** The two facts the roster operations are meant to keep. */
  predicate Consistent(r: Roster)
  {
    && r.enrolled == |r.studentsEnrolled|
    && r.studentsEnrolled.Keys !! r.studentsDiscarded.Keys
  }

  /** `addStudentEnrolled`: closed, then already enrolled, then full (by equality). */
  function AddStudentEnrolled(r: Roster, id: string, name: string): (s: Step)
    ensures s.outcome == Failed(ClosedForEnrollments) <==> !r.open
    ensures s.outcome == Failed(DuplicateEnrollment) <==> r.open && id in r.studentsEnrolled
    ensures s.outcome == Failed(ClassFull) <==> r.open && id !in r.studentsEnrolled && r.capacity == r.enrolled
    ensures s.outcome.Failed? ==> s.roster == r
    ensures s.outcome == Done ==>
              && s.roster.studentsEnrolled == r.studentsEnrolled[id := name]
              && s.roster.studentsDiscarded == r.studentsDiscarded - {id}
              && s.roster.enrolled == r.enrolled + 1
              && s.roster.(enrolled := r.enrolled, studentsEnrolled := r.studentsEnrolled,
                           studentsDiscarded := r.studentsDiscarded) == r
  {
    if !r.open then Step(r, Failed(ClosedForEnrollments))
    else if id in r.studentsEnrolled then Step(r, Failed(DuplicateEnrollment))
    else if r.capacity == r.enrolled then Step(r, Failed(ClassFull))
    else
      Step(r.(enrolled := r.enrolled + 1,
              studentsEnrolled := r.studentsEnrolled[id := name],
              studentsDiscarded := r.studentsDiscarded - {id}), Done)
  }

  /**
   * `removeStudentEnrolled`: the counter drops as soon as the id is enrolled,
   * but the two-argument `remove(id, name)` deletes the entry only when the
   * stored name equals `name`.
   */
  function RemoveStudentEnrolled(r: Roster, id: string, name: string): (s: Step)
    ensures s.outcome == Failed(UnknownEnrollment) <==> id !in r.studentsEnrolled
    ensures s.outcome.Failed? ==> s.roster == r
    ensures s.outcome == Done ==>
              && s.roster.enrolled == r.enrolled - 1
              && (r.studentsEnrolled[id] == name ==> s.roster.studentsEnrolled == r.studentsEnrolled - {id})
              && (r.studentsEnrolled[id] != name ==> s.roster.studentsEnrolled == r.studentsEnrolled)
              && s.roster.(enrolled := r.enrolled, studentsEnrolled := r.studentsEnrolled) == r
  {
    if id !in r.studentsEnrolled then Step(r, Failed(UnknownEnrollment))
    else
      var remaining := if r.studentsEnrolled[id] == name then r.studentsEnrolled - {id} else r.studentsEnrolled;
      Step(r.(enrolled := r.enrolled - 1, studentsEnrolled := remaining), Done)
  }

  /** `addStudentDiscarded`: remove from the enrolled side, then record the cancellation. */
  function AddStudentDiscarded(r: Roster, id: string, name: string): (s: Step)
    ensures s.outcome == Failed(UnknownEnrollment) <==> id !in r.studentsEnrolled
    ensures s.outcome.Failed? ==> s.roster == r
    ensures s.outcome == Done ==> s.roster.studentsDiscarded == r.studentsDiscarded[id := name]
    ensures s.outcome == Done ==>
              && id in r.studentsEnrolled
              && s.roster.enrolled == r.enrolled - 1
              && (r.studentsEnrolled[id] == name ==> s.roster.studentsEnrolled == r.studentsEnrolled - {id})
              && (r.studentsEnrolled[id] != name ==> s.roster.studentsEnrolled == r.studentsEnrolled)
              && s.roster.(enrolled := r.enrolled, studentsEnrolled := r.studentsEnrolled,
                           studentsDiscarded := r.studentsDiscarded) == r
  {
    var removed := RemoveStudentEnrolled(r, id, name);
    if removed.outcome.Failed? then removed
    else
      Step(removed.roster.(studentsDiscarded := removed.roster.studentsDiscarded[id := name]), Done)
  }

  /** `addNewDiscarded`: records a cancellation learnt from a peer, without looking at the enrolled side. */
  function AddNewDiscarded(r: Roster, id: string, name: string): (s: Step)
    ensures s.outcome == Failed(DuplicateCancellation) <==> id in r.studentsDiscarded
    ensures s.outcome.Failed? ==> s.roster == r
    ensures s.outcome == Done ==>
              && s.roster.studentsDiscarded == r.studentsDiscarded[id := name]
              && s.roster.(studentsDiscarded := r.studentsDiscarded) == r
  {
    if id in r.studentsDiscarded then Step(r, Failed(DuplicateCancellation))
    else Step(r.(studentsDiscarded := r.studentsDiscarded[id := name]), Done)
  }

  /** `removeStudentDiscarded`: removes by key whatever name is passed. */
  function RemoveStudentDiscarded(r: Roster, id: string): (s: Step)
    ensures s.outcome == Failed(UnknownCancellation) <==> id !in r.studentsDiscarded
    ensures s.outcome.Failed? ==> s.roster == r
    ensures s.outcome == Done ==>
              && s.roster.studentsDiscarded == r.studentsDiscarded - {id}
              && s.roster.(studentsDiscarded := r.studentsDiscarded) == r
  {
    if id !in r.studentsDiscarded then Step(r, Failed(UnknownCancellation))
    else Step(r.(studentsDiscarded := r.studentsDiscarded - {id}), Done)
  }

  /**
   * `openEnrollments`: inactive, then already open, then a capacity not above
   * the number of entries in the enrolled map (the map, not the counter).
   */
  function OpenEnrollments(r: Roster, capacity: int): (s: Step)
    ensures s.outcome == Failed(InactiveServer) <==> !r.active
    ensures s.outcome == Failed(EnrollmentsAlreadyOpened) <==> r.active && r.open
    ensures s.outcome == Failed(FullClass) <==> r.active && !r.open && capacity <= |r.studentsEnrolled|
    ensures s.outcome.Failed? ==> s.roster == r
    ensures s.outcome == Done ==> s.roster == r.(capacity := capacity, open := true)
  {
    if !r.active then Step(r, Failed(InactiveServer))
    else if r.open then Step(r, Failed(EnrollmentsAlreadyOpened))
    else if capacity <= |r.studentsEnrolled| then Step(r, Failed(FullClass))
    else Step(r.(capacity := capacity, open := true), Done)
  }

  /** `closeEnrollments`: inactive, then already closed; otherwise only the flag changes. */
  function CloseEnrollments(r: Roster): (s: Step)
    ensures s.outcome == Failed(InactiveServer) <==> !r.active
    ensures s.outcome == Failed(EnrollmentsAlreadyClosed) <==> r.active && !r.open
    ensures s.outcome.Failed? ==> s.roster == r
    ensures s.outcome == Done ==> s.roster == r.(open := false)
  {
    if !r.active then Step(r, Failed(InactiveServer))
    else if !r.open then Step(r, Failed(EnrollmentsAlreadyClosed))
    else Step(r.(open := false), Done)
  }

  /**
   * `cancelEnrollment`: on an active replica, `addStudentDiscarded(id,
   * studentsEnrolled.get(id))`. For an unknown id `get` yields null, but the
   * removal fails before that null is stored anywhere.
   */
  function CancelEnrollment(r: Roster, id: string): (s: Step)
    ensures s.outcome == Failed(InactiveServer) <==> !r.active
    ensures s.outcome == Failed(UnknownEnrollment) <==> r.active && id !in r.studentsEnrolled
    ensures s.outcome.Failed? ==> s.roster == r
  {
    if !r.active then Step(r, Failed(InactiveServer))
    else if id !in r.studentsEnrolled then Step(r, Failed(UnknownEnrollment))
    else AddStudentDiscarded(r, id, r.studentsEnrolled[id])
  }

  /** A successful cancellation moves the very same entry from the enrolled map to the discarded map. */
  lemma CancelMovesEntry(r: Roster, id: string)
    requires r.active && id in r.studentsEnrolled
    ensures var s := CancelEnrollment(r, id);
      && s.outcome == Done
      && s.roster.studentsEnrolled == r.studentsEnrolled - {id}
      && s.roster.studentsDiscarded == r.studentsDiscarded[id := r.studentsEnrolled[id]]
      && s.roster.enrolled == r.enrolled - 1
      && s.roster.(enrolled := r.enrolled, studentsEnrolled := r.studentsEnrolled,
                   studentsDiscarded := r.studentsDiscarded) == r
  {
  }

  lemma MapInsertSize(m: map<string, string>, k: string, v: string)
    requires k !in m
    ensures |m[k := v]| == |m| + 1
  {
    assert m[k := v].Keys == m.Keys + {k};
  }

  lemma MapRemoveSize(m: map<string, string>, k: string)
    requires k in m
    ensures |m - {k}| == |m| - 1
  {
    assert (m - {k}).Keys == m.Keys - {k};
  }

  /** A successful or failed enrollment keeps the counter equal to the map size and the maps disjoint. */
  lemma AddStudentEnrolledKeepsConsistent(r: Roster, id: string, name: string)
    requires Consistent(r)
    ensures Consistent(AddStudentEnrolled(r, id, name).roster)
  {
    if AddStudentEnrolled(r, id, name).outcome == Done {
      MapInsertSize(r.studentsEnrolled, id, name);
    }
  }

  /**
   * Moving a student to the discarded side under the name it was enrolled
   * with keeps the counter equal to the map size and the maps disjoint.
   */
  lemma AddStudentDiscardedKeepsConsistent(r: Roster, id: string, name: string)
    requires Consistent(r)
    requires id in r.studentsEnrolled ==> r.studentsEnrolled[id] == name
    ensures Consistent(AddStudentDiscarded(r, id, name).roster)
  {
    if id in r.studentsEnrolled {
      MapRemoveSize(r.studentsEnrolled, id);
    }
  }

  /** So does a cancellation. */
  lemma CancelEnrollmentKeepsConsistent(r: Roster, id: string)
    requires Consistent(r)
    ensures Consistent(CancelEnrollment(r, id).roster)
  {
    if r.active && id in r.studentsEnrolled {
      MapRemoveSize(r.studentsEnrolled, id);
    }
  }

  /** With a consistent roster and a counter within capacity, enrolling never overfills the class. */
  lemma AddStudentEnrolledRespectsCapacity(r: Roster, id: string, name: string)
    requires r.enrolled <= r.capacity
    ensures AddStudentEnrolled(r, id, name).roster.enrolled <= r.capacity
  {
  }

  /**
   * The fullness test is an equality: once the counter is above the capacity
   * (a peer's state can lower the capacity without touching the counter), new
   * students are admitted again.
   */
  lemma OverfullClassStillAdmits(r: Roster, id: string, name: string)
    requires r.open && id !in r.studentsEnrolled && r.enrolled > r.capacity
    ensures AddStudentEnrolled(r, id, name).outcome == Done
    ensures AddStudentEnrolled(r, id, name).roster.enrolled > r.capacity + 1
  {
  }

  /** `addNewDiscarded` does not keep the maps disjoint: a still enrolled id can be marked discarded too. */
  lemma AddNewDiscardedCanOverlap()
    ensures var r := Initial.(enrolled := 1, studentsEnrolled := map["aluno0001" := "Ana"]);
      && Consistent(r)
      && !Consistent(AddNewDiscarded(r, "aluno0001", "Ana").roster)
  {
    var r := Initial.(enrolled := 1, studentsEnrolled := map["aluno0001" := "Ana"]);
    assert "aluno0001" in AddNewDiscarded(r, "aluno0001", "Ana").roster.studentsDiscarded;
  }

  /** `removeStudentEnrolled` with a mismatching name lowers the counter but keeps the entry. */
  lemma RemoveWithOtherNameBreaksCounter()
    ensures var r := Initial.(enrolled := 1, studentsEnrolled := map["aluno0001" := "Ana"]);
      && Consistent(r)
      && RemoveStudentEnrolled(r, "aluno0001", "Rui").outcome == Done
      && !Consistent(RemoveStudentEnrolled(r, "aluno0001", "Rui").roster)
  {
  }
}
