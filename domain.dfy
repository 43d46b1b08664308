/**
 * `ClassDomain`, the roster object every handler of a replica shares. Each
 * method changes the fields in place exactly as the matching transition of
 * DomainSpec changes the roster value.
 */
module Domain {
  import opened DomainSpec
  import opened Protocol

  class ClassDomain {
    var capacity: int
    var enrolled: int
    var open: bool
    var active: bool
    var studentsEnrolled: map<string, string>
    var studentsDiscarded: map<string, string>

    /** The roster these fields currently hold. */
    function Snapshot(): Roster
      reads this
    {
      Roster(capacity, enrolled, open, active, studentsEnrolled, studentsDiscarded)
    }

    constructor ()
      ensures Snapshot() == Initial
    {
      capacity := 0;
      enrolled := 0;
      open := false;
      active := true;
      studentsEnrolled := map[];
      studentsDiscarded := map[];
    }

    method SetEnrolled(n: int)
      modifies this
      ensures Snapshot() == old(Snapshot()).(enrolled := n)
    {
      enrolled := n;
    }

    method SetCapacity(c: int)
      modifies this
      ensures Snapshot() == old(Snapshot()).(capacity := c)
    {
      capacity := c;
    }

    method SetOpen(b: bool)
      modifies this
      ensures Snapshot() == old(Snapshot()).(open := b)
    {
      open := b;
    }

    method SetActive(b: bool)
      modifies this
      ensures Snapshot() == old(Snapshot()).(active := b)
    {
      active := b;
    }

    method SetStudentsEnrolled(m: map<string, string>)
      modifies this
      ensures Snapshot() == old(Snapshot()).(studentsEnrolled := m)
    {
      studentsEnrolled := m;
    }

    method SetStudentsDiscarded(m: map<string, string>)
      modifies this
      ensures Snapshot() == old(Snapshot()).(studentsDiscarded := m)
    {
      studentsDiscarded := m;
    }

    method Activate()
      modifies this
      ensures Snapshot() == old(Snapshot()).(active := true)
    {
      active := true;
    }

    method Deactivate()
      modifies this
      ensures Snapshot() == old(Snapshot()).(active := false)
    {
      active := false;
    }

    method AddStudentEnrolled(id: string, name: string) returns (outcome: Outcome)
      modifies this
      ensures Step(Snapshot(), outcome) == DomainSpec.AddStudentEnrolled(old(Snapshot()), id, name)
    {
      if !open {
        return Failed(ClosedForEnrollments);
      }
      if id in studentsEnrolled {
        return Failed(DuplicateEnrollment);
      }
      if capacity == enrolled {
        return Failed(ClassFull);
      }
      if id in studentsDiscarded {
        studentsDiscarded := studentsDiscarded - {id};
      }
      enrolled := enrolled + 1;
      studentsEnrolled := studentsEnrolled[id := name];
      outcome := Done;
    }

    method RemoveStudentEnrolled(id: string, name: string) returns (outcome: Outcome)
      modifies this
      ensures Step(Snapshot(), outcome) == DomainSpec.RemoveStudentEnrolled(old(Snapshot()), id, name)
    {
      if id !in studentsEnrolled {
        return Failed(UnknownEnrollment);
      }
      enrolled := enrolled - 1;
      if studentsEnrolled[id] == name {
        studentsEnrolled := studentsEnrolled - {id};
      }
      outcome := Done;
    }

    method AddStudentDiscarded(id: string, name: string) returns (outcome: Outcome)
      modifies this
      ensures Step(Snapshot(), outcome) == DomainSpec.AddStudentDiscarded(old(Snapshot()), id, name)
    {
      outcome := RemoveStudentEnrolled(id, name);
      if outcome.Failed? {
        return;
      }
      studentsDiscarded := studentsDiscarded[id := name];
    }

    method AddNewDiscarded(id: string, name: string) returns (outcome: Outcome)
      modifies this
      ensures Step(Snapshot(), outcome) == DomainSpec.AddNewDiscarded(old(Snapshot()), id, name)
    {
      if id in studentsDiscarded {
        return Failed(DuplicateCancellation);
      }
      studentsDiscarded := studentsDiscarded[id := name];
      outcome := Done;
    }

    method RemoveStudentDiscarded(id: string, name: string) returns (outcome: Outcome)
      modifies this
      ensures Step(Snapshot(), outcome) == DomainSpec.RemoveStudentDiscarded(old(Snapshot()), id)
    {
      if id !in studentsDiscarded {
        return Failed(UnknownCancellation);
      }
      studentsDiscarded := studentsDiscarded - {id};
      outcome := Done;
    }

    method OpenEnrollments(c: int) returns (outcome: Outcome)
      modifies this
      ensures Step(Snapshot(), outcome) == DomainSpec.OpenEnrollments(old(Snapshot()), c)
    {
      if !active {
        return Failed(InactiveServer);
      } else if open {
        return Failed(EnrollmentsAlreadyOpened);
      } else if c <= |studentsEnrolled| {
        return Failed(FullClass);
      }
      capacity := c;
      open := true;
      outcome := Done;
    }

    method CloseEnrollments() returns (outcome: Outcome)
      modifies this
      ensures Step(Snapshot(), outcome) == DomainSpec.CloseEnrollments(old(Snapshot()))
    {
      if !active {
        return Failed(InactiveServer);
      } else if !open {
        return Failed(EnrollmentsAlreadyClosed);
      }
      open := false;
      outcome := Done;
    }

    method CancelEnrollment(id: string) returns (outcome: Outcome)
      modifies this
      ensures Step(Snapshot(), outcome) == DomainSpec.CancelEnrollment(old(Snapshot()), id)
    {
      if !active {
        return Failed(InactiveServer);
      }
      if id !in studentsEnrolled {
        // `get` would hand back null here; the removal below refuses the id first.
        return Failed(UnknownEnrollment);
      }
      outcome := AddStudentDiscarded(id, studentsEnrolled[id]);
    }
  }

  /** Lists the entries of a map as students, in an order the map chooses. */
  method ListStudents(m: map<string, string>) returns (students: seq<Student>)
    ensures ToMap(students) == m
    ensures DistinctIds(students)
    ensures |students| == |m|
  {
    students := [];
    var pending := m.Keys;
    while pending != {}
      invariant pending <= m.Keys
      invariant forall k :: 0 <= k < |students| ==> students[k].id in m && students[k].id !in pending
      invariant DistinctIds(students)
      invariant ToMap(students) == map k | k in m.Keys - pending :: m[k]
      invariant |students| + |pending| == |m|
      decreases |pending|
    {
      var id :| id in pending;
      students := students + [Student(id, m[id])];
      pending := pending - {id};
    }
    assert m.Keys - pending == m.Keys;
  }

  /** A class state message lists a roster: its capacity, open flag, and each map entry once. */
  ghost predicate Describes(cs: ClassState, r: Roster)
  {
    && cs.capacity == r.capacity && cs.open == r.open
    && ToMap(cs.enrolled) == r.studentsEnrolled && DistinctIds(cs.enrolled)
    && ToMap(cs.discarded) == r.studentsDiscarded && DistinctIds(cs.discarded)
  }

  /**
   * `buildClassState`: the capacity, the open flag and both maps as student
   * lists. The replica service and its gossip frontend each have a copy.
   */
  method BuildClassState(domain: ClassDomain) returns (cs: ClassState)
    ensures Describes(cs, domain.Snapshot())
  {
    var discarded := ListStudents(domain.studentsDiscarded);
    var enrolled := ListStudents(domain.studentsEnrolled);
    cs := ClassState(domain.capacity, domain.open, enrolled, discarded);
  }
}
