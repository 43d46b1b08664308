/**
 * The message vocabulary shared by the replicas and their clients: the class
 * state carried by listClass, dump and propagateState, the response codes,
 * and the gRPC statuses a handler can fail with instead of answering.
 */
module Protocol {
  import opened Validate
  import DomainSpec

  datatype Student = Student(id: string, name: string)

  /** A ClassState message: its student lists come in the sender's map order. */
  datatype ClassState = ClassState(capacity: int, open: bool, enrolled: seq<Student>, discarded: seq<Student>)

  /** `ClassState.getDefaultInstance()`: what an answer without a class state carries. */
  const EmptyClassState := ClassState(0, false, [], [])

  datatype ResponseCode =
    | OK
    | NON_EXISTING_STUDENT
    | FULL_CLASS
    | STUDENT_ALREADY_ENROLLED
    | ENROLLMENTS_ALREADY_OPENED
    | ENROLLMENTS_ALREADY_CLOSED
    | INACTIVE_SERVER
    | WRITING_NOT_SUPPORTED

  /**
   * gRPC statuses: a handler that calls `onError` or lets a runtime exception
   * escape closes the call with one of these instead of a response.
   */
  datatype RpcStatus = DEADLINE_EXCEEDED | INVALID_ARGUMENT | UNAVAILABLE | UNKNOWN

  /** What a unary call delivers: a response with a code and a body, or an error status. */
  datatype Reply<T> = Respond(code: ResponseCode, body: T) | Fail(status: RpcStatus)

  /** Building a map from a student list with `put`, so a later entry for an id wins. */
  function ToMap(students: seq<Student>): (m: map<string, string>)
    ensures m.Keys == set k | 0 <= k < |students| :: students[k].id
  {
    if students == [] then map[]
    else
      var last := students[|students| - 1];
      var front := students[..|students| - 1];
      assert forall k :: 0 <= k < |front| ==> front[k] == students[k];
      ToMap(front)[last.id := last.name]
  }

  /** No id occurs twice in the list. */
  ghost predicate DistinctIds(students: seq<Student>)
  {
    forall i, j :: 0 <= i < j < |students| ==> students[i].id != students[j].id
  }

  /** Dropping the last student keeps the ids distinct, and the last id occurs nowhere before it. */
  lemma DistinctIdsOfFront(students: seq<Student>)
    requires DistinctIds(students) && students != []
    ensures DistinctIds(students[..|students| - 1])
    ensures forall k :: 0 <= k < |students| - 1 ==> students[k].id != students[|students| - 1].id
  {
    var front := students[..|students| - 1];
    forall i, j | 0 <= i < j < |front| ensures front[i].id != front[j].id {
      assert front[i] == students[i] && front[j] == students[j];
    }
  }

  /** Without repeated ids, each student's entry survives the later `put`s. */
  lemma {:induction false} ToMapKeepsEntry(students: seq<Student>, k: int)
    requires DistinctIds(students) && 0 <= k < |students|
    ensures students[k].id in ToMap(students) && ToMap(students)[students[k].id] == students[k].name
  {
    var front := students[..|students| - 1];
    if k < |front| {
      DistinctIdsOfFront(students);
      ToMapKeepsEntry(front, k);
      assert front[k] == students[k];
    }
  }

  /** Without repeated ids, the map has one entry per student. */
  lemma {:induction false} ToMapSizeOfDistinct(students: seq<Student>)
    requires DistinctIds(students)
    ensures |ToMap(students)| == |students|
  {
    if students != [] {
      var front := students[..|students| - 1];
      var last := students[|students| - 1];
      DistinctIdsOfFront(students);
      ToMapSizeOfDistinct(front);
      var m := ToMap(front);
      assert last.id !in m by {
        forall k | 0 <= k < |front| ensures front[k].id != last.id {
          assert front[k] == students[k];
        }
      }
      DomainSpec.MapInsertSize(m, last.id, last.name);
    }
  }

  /** Without repeated ids, `ToMap` keeps every entry of the list exactly. */
  lemma ToMapOfDistinct(students: seq<Student>)
    requires DistinctIds(students)
    ensures |ToMap(students)| == |students|
    ensures forall k :: 0 <= k < |students| ==> ToMap(students)[students[k].id] == students[k].name
  {
    ToMapSizeOfDistinct(students);
    forall k | 0 <= k < |students| ensures ToMap(students)[students[k].id] == students[k].name {
      ToMapKeepsEntry(students, k);
    }
  }

  /** How validating a received class state ends. */
  datatype StateVerdict = StateAccepted | InvalidCapacity | InvalidStudent | StudentIndexOutOfBounds

  /** `validate_enrollment` over a list, stopping at the first student that fails. */
  function ValidateStudents(students: seq<Student>): (v: StateVerdict)
    ensures v != InvalidCapacity
    ensures v == StateAccepted <==>
              forall k :: 0 <= k < |students| ==> ValidateEnrollment(students[k].id, students[k].name) == Accepted
  {
    if students == [] then StateAccepted
    else
      match ValidateEnrollment(students[0].id, students[0].name)
      case Accepted => ValidateStudents(students[1..])
      case Rejected => InvalidStudent
      case IndexOutOfBounds => StudentIndexOutOfBounds
  }

  /**
   * `validateClassState`, identical in the replica service and in its gossip
   * frontend: the capacity first, then every discarded student, then every
   * enrolled one.
   */
  function ValidateClassState(cs: ClassState): (v: StateVerdict)
    ensures v == StateAccepted <==>
              && ValidCapacity(cs.capacity)
              && (forall k :: 0 <= k < |cs.discarded| ==> ValidateEnrollment(cs.discarded[k].id, cs.discarded[k].name) == Accepted)
              && (forall k :: 0 <= k < |cs.enrolled| ==> ValidateEnrollment(cs.enrolled[k].id, cs.enrolled[k].name) == Accepted)
    ensures v == InvalidCapacity <==> !ValidCapacity(cs.capacity)
  {
    if !ValidCapacity(cs.capacity) then InvalidCapacity
    else
      var d := ValidateStudents(cs.discarded);
      if d != StateAccepted then d else ValidateStudents(cs.enrolled)
  }
}
